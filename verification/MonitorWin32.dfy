/**
 The two lists behind the hand-off in src/monitor_win32.c, as linked rings.  The list operations
 of src/list.h do exactly what the locked steps of module Notifications say, so a refresh with the
 background thread at work between its steps is one of the runs that module reasons about.
 */
module MonitorWin32 {
  import opened Wrappers
  import opened LinkedList
  import opened Lists
  import opened Notifications

  type NNode = Node<Notification>

  class HsMonitor {
    const shared: NNode    // the head in the structure
    const local: NNode     // the head on the stack of hs_monitor_refresh
    var ret: int
    var event: bool
    ghost var queue: seq<NNode>
    ghost var batch: seq<NNode>
    ghost var theirs: set<NNode>
    ghost var mine: set<NNode>
    ghost var stage: Stage
    ghost var posted: seq<Notification>
    ghost var handled: seq<Notification>

    ghost predicate Valid()
      reads this, theirs, mine
    {
      Listed(shared, queue, theirs) && Listed(local, batch, mine) && mine !! theirs
    }

    ghost function View(): State
      reads this, theirs, mine
      requires Valid()
    {
      State(Entries(queue), ret, event, Entries(batch), stage, posted, handled)
    }

    constructor ()
      ensures Valid() && fresh(theirs) && fresh(mine) && View() == START
    {
      ret, event := 0, false;
      stage, posted, handled := Outside, [], [];
      var s := NewList();
      var l := NewList();
      shared, local := s, l;
      queue, batch, theirs, mine := [s], [l], {s}, {l};
    }

    method Enqueue(node: NNode)
      requires Valid() && node !in theirs && node !in mine && node.entry.Some?
      modifies `queue, `theirs, theirs, node
      ensures Valid() && theirs == old(theirs) + {node}
      ensures Entries(queue) == old(Entries(queue)) + [node.entry.value]
    {
      label L:
      Append(shared, node, queue, theirs);
      assert Listed(local, batch, mine) == old@L(Listed(local, batch, mine));
      queue := queue + [node];
      theirs := theirs + {node};
    }

    /** The end of post_device_event, under the lock. */
    method PostEvent(n: Notification)
      requires Valid()
      modifies `queue, `theirs, theirs, `posted, `event
      ensures Valid() && fresh(theirs - old(theirs))
      ensures View() == Step(old(View()), Post(n))
    {
      var node := new Node(Some(n));
      Enqueue(node);
      posted := posted + [n];
      event := true;
    }

    /** The error path of window_proc. */
    method Fail(error: int)
      requires Valid()
      modifies `ret, `event
      ensures Valid()
      ensures View() == Step(old(View()), PostFailure(error))
    {
      if error < 0 {
        ret := error;
        event := true;
      }
    }

    method TakeAll()
      requires Valid()
      modifies `queue, `batch, `theirs, `mine, theirs, mine
      ensures Valid() && theirs + mine <= old(theirs + mine)
      ensures Entries(queue) == [] && Entries(batch) == old(Entries(queue) + Entries(batch))
    {
      MoveAll(local, shared, batch, queue, mine, theirs);
      batch := [local] + queue[1..] + batch[1..];
      mine := mine + (theirs - {shared});
      queue, theirs := [shared], {shared};
    }

    method PutBack()
      requires Valid()
      modifies `queue, `batch, `theirs, `mine, theirs, mine
      ensures Valid() && theirs + mine <= old(theirs + mine)
      ensures Entries(batch) == [] && Entries(queue) == old(Entries(batch) + Entries(queue))
    {
      MoveAll(shared, local, queue, batch, theirs, mine);
      queue := [shared] + batch[1..] + queue[1..];
      theirs := theirs + (mine - {local});
      batch, mine := [local], {local};
    }

    /** The first locked section of hs_monitor_refresh. */
    method BeginRefresh() returns (r: int)
      requires Valid() && stage.Outside?
      modifies `queue, `batch, `theirs, `mine, `ret, `stage, theirs, mine
      ensures Valid() && theirs + mine <= old(theirs + mine)
      ensures View() == Step(old(View()), Begin)
      ensures r == old(ret)
    {
      TakeAll();
      r := ret;
      ret := 0;
      stage := if r < 0 then Leaving(r) else Working;
    }

    method TakeFirst() returns (n: Notification)
      requires Valid() && 1 < |batch|
      modifies `batch, `mine, mine
      ensures Valid() && mine <= old(mine)
      ensures old(Entries(batch)) == [n] + Entries(batch)
    {
      label L:
      var first := RemoveFirst(local, batch, mine);
      assert Listed(shared, queue, theirs) == old@L(Listed(shared, queue, theirs));
      n := first.entry.value;
      batch, mine := batch[..1] + batch[2..], mine - {first};
    }

    /** One turn of the loop; result is what process_arrival_notification returns if it is called. */
    method TakeTurn(result: int) returns (more: bool, r: int)
      requires Valid() && stage.Working?
      modifies `batch, `mine, `stage, `handled, mine
      ensures Valid() && mine <= old(mine)
      ensures View() == Step(old(View()), Handle(result))
      ensures stage == if more then Working else Leaving(r)
    {
      Neighbours(batch, 0);
      if local.next == local {
        stage := Leaving(0);
        return false, 0;
      }
      var n := TakeFirst();
      r := match n case Added(_) => result case Removed(_) => 0;
      handled := handled + [n];
      more := r >= 0;
      if !more {
        stage := Leaving(r);
      }
    }

    /** The second locked section. */
    method EndRefresh()
      requires Valid() && stage.Leaving?
      modifies `queue, `batch, `theirs, `mine, `event, `stage, theirs, mine
      ensures Valid() && theirs + mine <= old(theirs + mine)
      ensures View() == Step(old(View()), End)
    {
      PutBack();
      Neighbours(queue, 0);
      var empty := IsEmpty(shared, queue);
      if empty {
        event := false;
      }
      stage := Outside;
    }

    /** What the background thread does while the lock is free. */
    method Interlude(actions: seq<Action>)
      requires Valid() && Background(actions)
      modifies `queue, `theirs, `posted, `event, `ret, theirs
      ensures Valid() && fresh(theirs - old(theirs))
      ensures View() == Run(old(View()), actions)
      decreases |actions|
    {
      if actions == [] {
        return;
      }
      match actions[0] {
        case Post(n) => PostEvent(n);
        case PostFailure(error) => Fail(error);
      }
      Interlude(actions[1..]);
    }

    /** One turn, with what the background thread does before it; s1 is the state behind the first locked section. */
    method Round(results: seq<int>, background: seq<seq<Action>>, k: nat, ghost s1: State) returns (more: bool, r: int)
      requires Valid() && stage.Working? && View() == Run(s1, Turns(results, background, k))
      requires AllBackground(background)
      modifies this, theirs, mine
      ensures Valid() && fresh(theirs + mine - old(theirs + mine))
      ensures View() == Run(s1, Turns(results, background, k + 1))
      ensures stage == if more then Working else Leaving(r)
    {
      NextTurn(s1, results, background, k);
      Interlude(if k < |background| then background[k] else []);
      more, r := TakeTurn(if k < |results| then results[k] else 0);
    }

    /** The loop of hs_monitor_refresh, up to its end or the first failed arrival, the n-th notification. */
    method Rounds(results: seq<int>, background: seq<seq<Action>>, ghost n: nat) returns (r: int)
      requires Valid() && stage.Working? && AllBackground(background) && FailsFirst(Entries(batch), results, n)
      modifies this, theirs, mine
      ensures Valid() && fresh(theirs + mine - old(theirs + mine))
      ensures View() == Run(old(View()), Turns(results, background, n + 1))
      ensures stage == Leaving(r)
    {
      ghost var s1 := View();
      r := 0;
      var more := true;
      var k := 0;
      while more
        invariant Valid() && fresh(theirs + mine - old(theirs + mine))
        invariant k <= n + 1 && View() == Run(s1, Turns(results, background, k))
        invariant stage == if more then Working else Leaving(r)
        invariant more <==> k <= n
        decreases n + 1 - k
      {
        TurnsDo(s1, results, background, n, k + 1);
        more, r := Round(results, background, k, s1);
        k := k + 1;
      }
    }

    /** The end of a refresh: what the background thread still does, and the second locked section. */
    method Finish(late: seq<Action>)
      requires Valid() && stage.Leaving? && Background(late)
      modifies this, theirs, mine
      ensures Valid() && fresh(theirs + mine - old(theirs + mine))
      ensures View() == Run(old(View()), late + [End])
    {
      RunSnoc(View(), late, End);
      BackgroundDoes(View(), late);
      Interlude(late);
      EndRefresh();
    }

    /** Everything before the second locked section. */
    method Work(results: seq<int>, background: seq<seq<Action>>, ghost n: nat) returns (r: int)
      requires Valid() && stage.Outside? && Entries(batch) == [] && AllBackground(background)
      requires n == FirstFailure(Entries(queue), results, 0)
      modifies this, theirs, mine
      ensures Valid() && fresh(theirs + mine - old(theirs + mine))
      ensures View() == Run(Step(old(View()), Begin), if old(ret) < 0 then [] else Turns(results, background, n + 1))
      ensures stage == Leaving(r)
    {
      WorkEnds(View(), results, background, n);
      r := BeginRefresh();
      if r >= 0 {
        r := Rounds(results, background, n);
      }
    }

    /**
     hs_monitor_refresh, with the background thread at work between its steps: background[k] comes
     before its k-th turn, results[k] is what that turn leads to if it meets an arrival, late comes
     before its second locked section.  The trace is the run this was.
     */
    method Refresh(results: seq<int>, background: seq<seq<Action>>, late: seq<Action>)
      returns (r: int, ghost trace: seq<Action>)
      requires Valid() && stage.Outside? && Entries(batch) == []
      requires Background(late) && AllBackground(background)
      modifies this, theirs, mine
      ensures Valid() && fresh(theirs + mine - old(theirs + mine))
      ensures trace == RefreshTrace(old(View()), results, background, late) && View() == Run(old(View()), trace)
      ensures r == Returned(old(View()), results)
      ensures Refreshed(old(View()), results, Interludes(old(View()), results, background, late), View())
    {
      ghost var s0 := View();
      ghost var n := FirstFailure(s0.shared, results, 0);
      trace := RefreshTrace(s0, results, background, late);
      RefreshDoes(s0, results, background, late);
      TraceIsRun(s0, if s0.ret < 0 then [] else Turns(results, background, n + 1), late);
      WorkEnds(s0, results, background, n);
      r := Work(results, background, n);
      Finish(late);
    }
  }
}
