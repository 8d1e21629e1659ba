/**
 The hand-off of device notifications in src/monitor_win32.c as a protocol.  A background thread
 posts under a lock; one refresher takes the whole queue under the lock, works through it without
 the lock, and puts back what is left in front.  An action is one step of one of the two.  Module
 MonitorWin32 proves that the lists do what the locked steps say.
 */
module Notifications {
  import opened Wrappers

  datatype Notification = Added(key: string) | Removed(key: string)

  /** Where hs_monitor_refresh is: outside, in its loop, or on its way out with a result. */
  datatype Stage = Outside | Working | Leaving(result: int)

  datatype State = State(
    shared: seq<Notification>,   // monitor->notifications
    ret: int,                    // monitor->ret
    event: bool,                 // the waitable event
    local: seq<Notification>,    // the refresher's own list
    stage: Stage,
    posted: seq<Notification>,   // everything posted since start-up
    handled: seq<Notification>   // everything the refresher consumed
  )

  const START := State([], 0, false, [], Outside, [], [])

  datatype Action =
    | Post(n: Notification)      // post_device_event
    | PostFailure(error: int)    // the error path of window_proc
    | Begin                      // hs_monitor_refresh, first locked section
    | Handle(result: int)        // one turn of its loop; result is what an arrival leads to
    | End                        // second locked section

  /** Steps of the background thread. */
  predicate Background(actions: seq<Action>)
  {
    forall i :: 0 <= i < |actions| ==> actions[i].Post? || actions[i].PostFailure?
  }

  function Enter(s: State): State
  {
    var s' := s.(local := s.shared + s.local, shared := [], ret := 0);
    s'.(stage := if s.ret < 0 then Leaving(s.ret) else Working)
  }

  /** A failed arrival is consumed too; the result of a removal is always 0. */
  function Turn(s: State, result: int): State
    requires s.local != []
  {
    var r := if s.local[0].Added? then result else 0;
    s.(local := s.local[1..], handled := s.handled + [s.local[0]], stage := if r < 0 then Leaving(r) else Working)
  }

  function Leave(s: State): State
  {
    var shared := s.local + s.shared;
    s.(shared := shared, local := [], event := s.event && shared != [], stage := Outside)
  }

  /** One step; a step that its thread cannot take now changes nothing. */
  function Step(s: State, a: Action): State
  {
    match a
    case Post(n) => s.(shared := s.shared + [n], event := true, posted := s.posted + [n])
    case PostFailure(error) => if error >= 0 then s else s.(ret := error, event := true)
    case Begin => if s.stage.Outside? then Enter(s) else s
    case Handle(result) =>
      if !s.stage.Working? then s
      else if s.local == [] then s.(stage := Leaving(0))
      else Turn(s, result)
    case End => if s.stage.Leaving? then Leave(s) else s
  }

  function Run(s: State, actions: seq<Action>): State
    decreases |actions|
  {
    if actions == [] then s else Run(Step(s, actions[0]), actions[1..])
  }

  lemma RunCons(s: State, a: Action, rest: seq<Action>)
    ensures Run(s, [a] + rest) == Run(Step(s, a), rest)
  {
    assert ([a] + rest)[1..] == rest;
  }

  lemma {:induction false} RunConcat(s: State, a: seq<Action>, b: seq<Action>)
    ensures Run(s, a + b) == Run(Run(s, a), b)
    decreases |a|
  {
    if a == [] {
      assert a + b == b;
    } else {
      assert a + b == [a[0]] + (a[1..] + b);
      RunCons(s, a[0], a[1..] + b);
      RunConcat(Step(s, a[0]), a[1..], b);
    }
  }

  lemma RunSnoc(s: State, a: seq<Action>, x: Action)
    ensures Run(s, a + [x]) == Step(Run(s, a), x)
  {
    RunConcat(s, a, [x]);
    RunCons(Run(s, a), x, []);
    assert [x] + [] == [x];
  }

  // ---------- what every interleaving keeps ----------

  /** Nothing lost, duplicated or reordered. */
  ghost predicate Conserved(s: State)
  {
    s.handled + s.local + s.shared == s.posted && (s.stage.Outside? ==> s.local == [])
  }

  /** Whoever waits on the event learns of every notification that is not handled. */
  ghost predicate Signalled(s: State)
  {
    (s.shared != [] || s.local != []) ==> s.event
  }

  lemma StepConserves(s: State, a: Action)
    requires Conserved(s)
    ensures Conserved(Step(s, a))
  {
    match a
    case Post(n) => assert s.handled + s.local + (s.shared + [n]) == s.handled + s.local + s.shared + [n];
    case PostFailure(_) =>
    case Begin =>
      if s.stage.Outside? {
        assert s.handled + (s.shared + []) + [] == s.handled + [] + s.shared;
      }
    case Handle(_) =>
      if s.stage.Working? && s.local != [] {
        assert s.handled + [s.local[0]] + s.local[1..] == s.handled + s.local;
      }
    case End =>
      if s.stage.Leaving? {
        assert s.handled + [] + (s.local + s.shared) == s.handled + s.local + s.shared;
      }
  }

  lemma StepSignals(s: State, a: Action)
    requires Signalled(s)
    ensures Signalled(Step(s, a))
  {
  }

  /** Under every interleaving, with refreshes that fail part-way and refreshes that do not. */
  lemma {:induction false} RunKeeps(s: State, actions: seq<Action>)
    requires Conserved(s) && Signalled(s)
    ensures Conserved(Run(s, actions)) && Signalled(Run(s, actions))
    decreases |actions|
  {
    if actions != [] {
      StepConserves(s, actions[0]);
      StepSignals(s, actions[0]);
      RunKeeps(Step(s, actions[0]), actions[1..]);
    }
  }

  /** From start-up on: handled ++ local ++ shared is what was posted, and what waits is signalled. */
  lemma NothingIsLost(actions: seq<Action>)
    ensures var s := Run(START, actions);
            && s.handled + s.local + s.shared == s.posted
            && ((s.shared != [] || s.local != []) ==> s.event)
  {
    RunKeeps(START, actions);
  }

  // ---------- what the background thread does ----------

  /** The notifications posted by some actions. */
  function Posts(actions: seq<Action>): seq<Notification>
    decreases |actions|
  {
    if actions == [] then []
    else (if actions[0].Post? then [actions[0].n] else []) + Posts(actions[1..])
  }

  /** The error recorded by some actions, on top of one recorded before. */
  function Recorded(ret: int, actions: seq<Action>): int
    decreases |actions|
  {
    if actions == [] then ret
    else Recorded(if actions[0].PostFailure? && actions[0].error < 0 then actions[0].error else ret, actions[1..])
  }

  /** Some action sets the event. */
  predicate Wakes(actions: seq<Action>)
    decreases |actions|
  {
    actions != [] && (actions[0].Post? || (actions[0].PostFailure? && actions[0].error < 0) || Wakes(actions[1..]))
  }

  lemma {:induction false} PostsConcat(a: seq<Action>, b: seq<Action>)
    ensures Posts(a + b) == Posts(a) + Posts(b)
    ensures forall ret :: Recorded(ret, a + b) == Recorded(Recorded(ret, a), b)
    ensures Wakes(a + b) <==> Wakes(a) || Wakes(b)
    decreases |a|
  {
    if a == [] {
      assert a + b == b;
    } else {
      assert (a + b)[0] == a[0] && (a + b)[1..] == a[1..] + b;
      PostsConcat(a[1..], b);
    }
  }

  /** Everything posted is taken down, in order, and nothing else is. */
  lemma {:induction false} PostedIsPosts(s: State, actions: seq<Action>)
    ensures Run(s, actions).posted == s.posted + Posts(actions)
    decreases |actions|
  {
    if actions != [] {
      PostedIsPosts(Step(s, actions[0]), actions[1..]);
    }
  }

  /** While the lock is free, what is posted joins the shared list, errors are recorded and the event is set. */
  lemma {:induction false} BackgroundDoes(s: State, actions: seq<Action>)
    requires Background(actions)
    ensures Run(s, actions) ==
            s.(shared := s.shared + Posts(actions), posted := s.posted + Posts(actions),
               ret := Recorded(s.ret, actions), event := s.event || Wakes(actions))
    decreases |actions|
  {
    if actions != [] {
      BackgroundDoes(Step(s, actions[0]), actions[1..]);
    }
  }

  // ---------- how a refresh ends ----------

  /** After every run: when a refresh ends, the event is set exactly if notifications are waiting. */
  lemma EventTellsWhatWaits(actions: seq<Action>)
    requires Run(START, actions).stage.Leaving?
    ensures var s := Run(START, actions + [End]);
            s.stage == Outside && (s.event <==> s.shared != [])
  {
    RunKeeps(START, actions);
    RunSnoc(START, actions, End);
  }

  /** A turn handles one notification; an arrival that fails ends the refresh with its error, nothing else does. */
  lemma TurnEnds(s: State, result: int)
    requires s.stage.Working? && s.local != []
    ensures var s' := Step(s, Handle(result));
            && s'.handled == s.handled + [s.local[0]] && [s.local[0]] + s'.local == s.local
            && (s.local[0].Added? && result < 0 ==> s'.stage == Leaving(result))
            && (s.local[0].Removed? || result >= 0 ==> s'.stage == Working)
  {
  }

  // ---------- a whole refresh ----------

  /** What process_arrival_notification returns if the k-th turn calls it. */
  function ResultAt(results: seq<int>, k: nat): int { if k < |results| then results[k] else 0 }

  /** What the background thread does before the k-th turn. */
  function Before(background: seq<seq<Action>>, k: nat): seq<Action> { if k < |background| then background[k] else [] }

  /** And before the first k of them. */
  function Meanwhile(background: seq<seq<Action>>, k: nat): seq<Action>
  {
    if k == 0 then [] else Meanwhile(background, k - 1) + Before(background, k - 1)
  }

  /** The first k turns. */
  function Turns(results: seq<int>, background: seq<seq<Action>>, k: nat): seq<Action>
  {
    if k == 0 then []
    else Turns(results, background, k - 1) + Before(background, k - 1) + [Handle(ResultAt(results, k - 1))]
  }

  predicate FailsAt(batch: seq<Notification>, results: seq<int>, k: nat)
  {
    k < |batch| && batch[k].Added? && ResultAt(results, k) < 0
  }

  /** The arrival n of the batch is the first that fails, or n is the end of the batch and none does. */
  ghost predicate FailsFirst(batch: seq<Notification>, results: seq<int>, n: nat)
  {
    && n <= |batch|
    && (forall i :: 0 <= i < n ==> !FailsAt(batch, results, i))
    && (n < |batch| ==> FailsAt(batch, results, n))
  }

  function FirstFailure(batch: seq<Notification>, results: seq<int>, k: nat): (n: nat)
    requires k <= |batch|
    ensures k <= n <= |batch|
    ensures forall i :: k <= i < n ==> !FailsAt(batch, results, i)
    ensures n < |batch| ==> FailsAt(batch, results, n)
    decreases |batch| - k
  {
    if k == |batch| || FailsAt(batch, results, k) then k else FirstFailure(batch, results, k + 1)
  }

  ghost predicate AllBackground(background: seq<seq<Action>>)
  {
    forall k :: 0 <= k < |background| ==> Background(background[k])
  }

  /** Since s, h notifications were handled, and the background thread did these actions. */
  ghost predicate Progressed(s: State, s': State, done: seq<Action>, h: nat)
  {
    && h <= |s.local| && s'.handled == s.handled + s.local[..h] && s'.local == s.local[h..]
    && s'.shared == s.shared + Posts(done) && s'.posted == s.posted + Posts(done)
    && s'.ret == Recorded(s.ret, done) && s'.event == (s.event || Wakes(done))
  }

  lemma MoreBackground(s: State, s': State, done: seq<Action>, h: nat, actions: seq<Action>)
    requires Progressed(s, s', done, h) && Background(actions)
    ensures Progressed(s, Run(s', actions), done + actions, h) && Run(s', actions).stage == s'.stage
  {
    BackgroundDoes(s', actions);
    PostsConcat(done, actions);
    Regroup(s.shared, Posts(done), Posts(actions));
    Regroup(s.posted, Posts(done), Posts(actions));
  }

  lemma OneMore(s: State, s': State, done: seq<Action>, h: nat, result: int)
    requires Progressed(s, s', done, h) && s'.stage.Working?
    ensures var s'' := Step(s', Handle(result));
            && Progressed(s, s'', done, if h < |s.local| then h + 1 else h)
            && s''.stage == if h == |s.local| then Leaving(0)
                            else if s.local[h].Added? && result < 0 then Leaving(result) else Working
  {
    if h < |s.local| {
      assert s.local[..h + 1] == s.local[..h] + [s.local[h]] && s.local[h..][1..] == s.local[h + 1..];
      Regroup(s.handled, s.local[..h], [s.local[h]]);
    }
  }

  lemma NextTurn(s: State, results: seq<int>, background: seq<seq<Action>>, k: nat)
    ensures Run(s, Turns(results, background, k + 1)) ==
            Step(Run(Run(s, Turns(results, background, k)), Before(background, k)), Handle(ResultAt(results, k)))
  {
    var turns, actions := Turns(results, background, k), Before(background, k);
    RunSnoc(s, turns + actions, Handle(ResultAt(results, k)));
    RunConcat(s, turns, actions);
  }

  /** The refresh has made k turns, n of which come before the one that ends it. */
  ghost predicate AfterTurns(s: State, results: seq<int>, done: seq<Action>, n: nat, k: nat, s': State)
    requires n < |s.local| ==> n < |results|
  {
    && Progressed(s, s', done, if k < |s.local| then k else |s.local|)
    && s'.stage == if k <= n then Working else Leaving(if n < |s.local| then results[n] else 0)
  }

  lemma AfterNextTurn(s: State, results: seq<int>, done: seq<Action>, actions: seq<Action>, n: nat, k: nat, s': State)
    requires FailsFirst(s.local, results, n) && k <= n && Background(actions)
    requires AfterTurns(s, results, done, n, k, s')
    ensures AfterTurns(s, results, done + actions, n, k + 1, Step(Run(s', actions), Handle(ResultAt(results, k))))
  {
    MoreBackground(s, s', done, k, actions);
    OneMore(s, Run(s', actions), done + actions, k, ResultAt(results, k));
    assert k < |s.local| ==> (FailsAt(s.local, results, k) <==> k == n);
  }

  lemma OneTurnMore(s: State, results: seq<int>, background: seq<seq<Action>>, n: nat, k: nat)
    requires FailsFirst(s.local, results, n) && k <= n && AllBackground(background)
    requires AfterTurns(s, results, Meanwhile(background, k), n, k, Run(s, Turns(results, background, k)))
    ensures AfterTurns(s, results, Meanwhile(background, k + 1), n, k + 1, Run(s, Turns(results, background, k + 1)))
  {
    NextTurn(s, results, background, k);
    AfterNextTurn(s, results, Meanwhile(background, k), Before(background, k), n, k, Run(s, Turns(results, background, k)));
  }

  lemma NoTurnYet(s: State, results: seq<int>, n: nat)
    requires FailsFirst(s.local, results, n) && s.stage.Working?
    ensures AfterTurns(s, results, [], n, 0, s)
  {
    assert s.local[0..] == s.local && s.local[..0] == [];
  }

  /** Up to the first failure, or the end of the batch, each turn handles one notification. */
  lemma {:induction false} TurnsDo(s: State, results: seq<int>, background: seq<seq<Action>>, n: nat, k: nat)
    requires FailsFirst(s.local, results, n) && k <= n + 1 && s.stage.Working? && AllBackground(background)
    ensures AfterTurns(s, results, Meanwhile(background, k), n, k, Run(s, Turns(results, background, k)))
    decreases k
  {
    if k == 0 {
      NoTurnYet(s, results, n);
    } else {
      TurnsDo(s, results, background, n, k - 1);
      OneTurnMore(s, results, background, n, k - 1);
    }
  }

  /** The run that a refresh is, begun in s. */
  function RefreshTrace(s: State, results: seq<int>, background: seq<seq<Action>>, late: seq<Action>): seq<Action>
  {
    [Begin]
    + (if s.ret < 0 then [] else Turns(results, background, FirstFailure(s.shared, results, 0) + 1))
    + late + [End]
  }

  /** What the background thread does during it. */
  function Interludes(s: State, results: seq<int>, background: seq<seq<Action>>, late: seq<Action>): seq<Action>
  {
    (if s.ret < 0 then [] else Meanwhile(background, FirstFailure(s.shared, results, 0) + 1)) + late
  }

  /** How much of the queue it handles: nothing after an error, else all up to and including the first failure. */
  function Handled(s: State, results: seq<int>): (h: nat)
    ensures h <= |s.shared|
  {
    var n := FirstFailure(s.shared, results, 0);
    if s.ret < 0 then 0 else if n < |s.shared| then n + 1 else n
  }

  /** What it returns: the error that was recorded, else that of the first arrival that fails, else 0. */
  function Returned(s: State, results: seq<int>): int
  {
    var n := FirstFailure(s.shared, results, 0);
    if s.ret < 0 then s.ret else if n < |s.shared| then results[n] else 0
  }

  /**
   What a refresh begun in s comes to: what it did not handle stays in front of what was posted
   meanwhile; the old error is read, and the event is set only if something waits.
   */
  ghost predicate Refreshed(s: State, results: seq<int>, meanwhile: seq<Action>, s': State)
  {
    var h := Handled(s, results);
    && s'.handled == s.handled + s.shared[..h]
    && s'.shared == s.shared[h..] + Posts(meanwhile) && s'.posted == s.posted + Posts(meanwhile)
    && s'.ret == Recorded(0, meanwhile)
    && (s'.event <==> (s.event || Wakes(meanwhile)) && s'.shared != [])
    && s'.local == [] && s'.stage == Outside
  }

  /** The second locked section, behind what came last. */
  lemma LeaveDoes(s: State, late: seq<Action>)
    requires s.stage.Leaving? && Background(late)
    ensures var s' := Run(s, late + [End]);
            && s'.shared == s.local + (s.shared + Posts(late)) && s'.local == [] && s'.stage == Outside
            && s'.posted == s.posted + Posts(late) && s'.handled == s.handled && s'.ret == Recorded(s.ret, late)
            && (s'.event <==> (s.event || Wakes(late)) && s'.shared != [])
  {
    BackgroundDoes(s, late);
    RunSnoc(s, late, End);
  }

  lemma TraceIsRun(s: State, turns: seq<Action>, late: seq<Action>)
    ensures Run(s, [Begin] + turns + late + [End]) == Run(Run(Step(s, Begin), turns), late + [End])
  {
    Regroup([Begin] + turns, late, [End]);
    Regroup([Begin], turns, late + [End]);
    RunCons(s, Begin, turns + (late + [End]));
    RunConcat(Step(s, Begin), turns, late + [End]);
  }

  /** The refresh in s1, behind its first locked section and its turns. */
  lemma LeftAs(s: State, s1: State, s2: State, results: seq<int>, done: seq<Action>, late: seq<Action>)
    requires s1.local == s.shared && s1.shared == [] && s1.ret == 0
    requires s1.handled == s.handled && s1.posted == s.posted && s1.event == s.event
    requires Progressed(s1, s2, done, Handled(s, results)) && s2.stage.Leaving? && Background(late)
    ensures Refreshed(s, results, done + late, Run(s2, late + [End]))
  {
    LeaveDoes(s2, late);
    PostsConcat(done, late);
    assert [] + Posts(done) == Posts(done);
    Regroup(s.posted, Posts(done), Posts(late));
  }

  /** Any refresh, with anything the background thread does between its steps. */
  lemma RefreshDoes(s: State, results: seq<int>, background: seq<seq<Action>>, late: seq<Action>)
    requires s.stage.Outside? && s.local == [] && AllBackground(background) && Background(late)
    ensures Refreshed(s, results, Interludes(s, results, background, late),
                      Run(s, RefreshTrace(s, results, background, late)))
  {
    var n, s1 := FirstFailure(s.shared, results, 0), Step(s, Begin);
    assert s1.local == s.shared + [] == s.shared;
    if s.ret < 0 {
      assert Progressed(s1, s1, [], 0);
      TraceIsRun(s, [], late);
      LeftAs(s, s1, s1, results, [], late);
    } else {
      TurnsDo(s1, results, background, n, n + 1);
      TraceIsRun(s, Turns(results, background, n + 1), late);
      LeftAs(s, s1, Run(s1, Turns(results, background, n + 1)), results, Meanwhile(background, n + 1), late);
    }
  }

  /** Where a refresh is before its second locked section. */
  lemma WorkEnds(s: State, results: seq<int>, background: seq<seq<Action>>, n: nat)
    requires s.stage.Outside? && s.local == [] && AllBackground(background)
    requires n == FirstFailure(s.shared, results, 0)
    ensures var s1 := Step(s, Begin);
            && s1.local == s.shared && FailsFirst(s1.local, results, n)
            && s1.stage == (if s.ret < 0 then Leaving(s.ret) else Working)
            && Run(s1, if s.ret < 0 then [] else Turns(results, background, n + 1)).stage == Leaving(Returned(s, results))
  {
    var s1 := Step(s, Begin);
    assert s1.local == s.shared + [] == s.shared;
    if s.ret >= 0 {
      TurnsDo(s1, results, background, n, n + 1);
    }
  }

  // ---------- the error that nobody is told about ----------

  /** A background failure is recorded but the event does not say so. */
  predicate Muted(s: State) { s.ret < 0 && !s.event }

  /** The event is taken back while an error is waiting: it came after the first locked section, and the queue is empty. */
  predicate Mutes(s: State, a: Action)
  {
    a == End && s.stage.Leaving? && s.ret < 0 && s.local == [] && s.shared == []
  }

  /** The event says so again, or the error is read. */
  predicate Unmutes(s: State, a: Action)
  {
    a.Post? || (a.PostFailure? && a.error < 0) || (a.Begin? && s.stage.Outside?)
  }

  lemma StepMuted(s: State, a: Action)
    ensures Muted(Step(s, a)) <==> Mutes(s, a) || (Muted(s) && !Unmutes(s, a))
  {
  }

  /** No step of the run unmutes. */
  predicate NeverUnmuted(s: State, actions: seq<Action>)
    decreases |actions|
  {
    actions == [] || (!Unmutes(s, actions[0]) && NeverUnmuted(Step(s, actions[0]), actions[1..]))
  }

  /** Some step of the run mutes, and none after it unmutes. */
  predicate LeftMuted(s: State, actions: seq<Action>)
    decreases |actions|
  {
    actions != [] &&
    var s' := Step(s, actions[0]);
    (Mutes(s, actions[0]) && NeverUnmuted(s', actions[1..])) || LeftMuted(s', actions[1..])
  }

  lemma {:induction false} RunMuted(s: State, actions: seq<Action>)
    ensures Muted(Run(s, actions)) <==> LeftMuted(s, actions) || (Muted(s) && NeverUnmuted(s, actions))
    decreases |actions|
  {
    if actions != [] {
      StepMuted(s, actions[0]);
      RunMuted(Step(s, actions[0]), actions[1..]);
    }
  }

  /**
   Over every run from start-up: an error goes unnoticed iff some refresh ended on empty lists with the
   error, recorded meanwhile, still unread, and since then nothing was posted, no other failure was
   recorded and no refresh began.
   */
  lemma MutedExactlyThen(actions: seq<Action>)
    ensures Muted(Run(START, actions)) <==> LeftMuted(START, actions)
  {
    RunMuted(START, actions);
  }

  /** And it happens: a failure while a refresh is at work, on an empty queue. */
  lemma ErrorCanBeMuted()
    ensures Muted(Run(START, [Begin, PostFailure(-1), Handle(0), End]))
  {
    var s1 := Step(START, Begin);
    var s2 := Step(s1, PostFailure(-1));
    var s3 := Step(s2, Handle(0));
    var s4 := Step(s3, End);
    assert s1.local == [] && s3.stage == Leaving(0) && s4.shared == [] && Muted(s4);
    assert [Begin, PostFailure(-1), Handle(0), End][1..] == [PostFailure(-1), Handle(0), End];
    assert [PostFailure(-1), Handle(0), End][1..] == [Handle(0), End];
    assert [Handle(0), End][1..] == [End] && [End][1..] == [];
    assert Run(s3, [End]) == Run(s4, []);
    assert Run(s2, [Handle(0), End]) == Run(s3, [End]);
    assert Run(s1, [PostFailure(-1), Handle(0), End]) == Run(s2, [Handle(0), End]);
  }

  // ---------- progress of one refresh ----------

  function Work(results: seq<int>): seq<Action>
  {
    if results == [] then [] else [Handle(results[0])] + Work(results[1..])
  }

  /** Every arrival in the queue is dealt with. */
  predicate Succeeds(local: seq<Notification>, results: seq<int>)
  {
    |results| == |local| &&
    (local == [] || ((local[0].Added? ==> results[0] >= 0) && Succeeds(local[1..], results[1..])))
  }

  /** Left alone, a refresher that meets no failure handles the whole queue in order. */
  lemma {:induction false} WorksThroughTheQueue(s: State, results: seq<int>)
    requires s.stage.Working? && Succeeds(s.local, results)
    ensures Run(s, Work(results)) == s.(local := [], handled := s.handled + s.local)
    decreases |results|
  {
    if results == [] {
      assert s.handled + s.local == s.handled;
    } else {
      var s1 := Turn(s, results[0]);
      WorksThroughTheQueue(s1, results[1..]);
      assert s1.handled + s1.local == s.handled + s.local;
      RunCons(s, Handle(results[0]), Work(results[1..]));
    }
  }
}
