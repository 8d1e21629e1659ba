/**
 The callback half of struct hs_monitor: the list `callbacks` and the counter `callback_id`, with
 the calls made and the notifications issued as a trace.
 */
module Callbacks {
  import opened Wrappers
  import opened Registry
  import L = LinkedList

  type CallbackNode = L.Node<int>  // struct callback; its entry is the callback's id

  function IdOf(n: CallbackNode): int
  {
    match n.entry
    case Some(id) => id
    case None => -1
  }

  lemma Split<T>(a: seq<T>, b: seq<T>)
    requires b != []
    ensures (a + b)[|a|] == b[0] && (a + b)[..|a|] + (a + b)[|a| + 1..] == a + b[1..]
    ensures a + b == a + [b[0]] + b[1..]
  {
  }

  lemma Shift<T>(a: seq<T>, x: T, b: seq<T>)
    ensures a + ([x] + b) == a + [x] + b
  {
  }

  class CallbackList {
    const head: CallbackNode
    var nextId: int
    const answers: Answers        // what the user's callbacks return
    var calls: seq<Call>          // the calls made to them
    ghost var events: seq<Event>  // the notifications issued
    ghost var ids: seq<int>       // the registered ids, in list order
    ghost var ring: seq<CallbackNode>
    ghost var repr: set<CallbackNode>
    ghost var freed: set<CallbackNode>

    ghost predicate Valid()
      reads this`ids, this`ring, this`repr, this`freed, repr
    {
      && (forall i :: 0 <= i < |ring| ==> ring[i] in repr && ring[i] !in freed)
      && freed <= repr
      && L.Ring(ring) && ring[0] == head
      && |ring| == |ids| + 1
      && forall i :: 0 <= i < |ids| ==> IdOf(ring[i + 1]) == ids[i]
    }

    constructor (answers: Answers)
      ensures Valid() && ids == [] && nextId == 0 && calls == [] && events == []
      ensures this.answers == answers && fresh(repr)
    {
      this.answers := answers;
      var node := new L.Node<int>(None);
      head, nextId, calls := node, 0, [];
      events, ids, ring, repr, freed := [], [], [node], {node}, {};
      new;
      L.Init(head);
    }

    lemma Walk(k: nat)
      requires Valid() && k <= |ids|
      ensures ring[k].next == (if k < |ids| then ring[k + 1] else head)
      ensures ring[k] == head <==> k == 0
      ensures 0 < k ==> IdOf(ring[k]) == ids[k - 1]
    {
      L.Neighbours(ring, k);
    }

    /** Links a new node at the end of the list. */
    method Append(callback: CallbackNode)
      requires Valid() && callback !in repr
      modifies this`ids, this`ring, this`repr, repr, callback
      ensures Valid() && ids == old(ids) + [IdOf(callback)] && repr == old(repr) + {callback}
    {
      L.Neighbours(ring, 0);
      L.AddTail(head, callback, ring);
      ids, ring, repr := ids + [IdOf(callback)], ring + [callback], repr + {callback};
    }

    /** Where a loop over the list goes on: a node is not read once it was freed. */
    static function NextOf(cur: CallbackNode, ghost gone: set<CallbackNode>): CallbackNode
      requires cur !in gone && cur.next != null
      reads cur
    {
      cur.next
    }

    method Register() returns (id: int)
      requires Valid()
      modifies this`nextId, this`ids, this`ring, this`repr, repr
      ensures Valid() && fresh(repr - old(repr))
      ensures id == old(nextId) && nextId == old(nextId) + 1
      ensures ids == old(ids) + [id]
    {
      var callback := new L.Node<int>(Some(nextId));
      nextId := nextId + 1;

      Append(callback);

      id := callback.entry.value;
    }

    /** Unlinks and frees the k-th node of the ring. */
    method Drop(callback: CallbackNode, ghost k: nat)
      requires Valid() && 1 <= k <= |ids| && ring[k] == callback
      modifies this`ids, this`ring, this`freed, repr
      ensures Valid() && freed == old(freed) + {callback}
      ensures ids == old(ids)[..k - 1] + old(ids)[k..]
      ensures ring == old(ring)[..k] + old(ring)[k + 1..]
    {
      L.Neighbours(ring, k);
      L.Remove(callback, ring, k);
      ids, ring := ids[..k - 1] + ids[k..], ring[..k] + ring[k + 1..];
      freed := freed + {callback};
    }

    method Deregister(id: int)
      requires Valid()
      modifies this`ids, this`ring, this`freed, repr
      ensures Valid()
      ensures ids == Without(old(ids), id)
    {
      ghost var kept, todo, k := [], ids, 1;
      Walk(0);
      var cur := head.next;
      while cur != head
        invariant Valid() && ids == old(ids)
        invariant 1 <= k == |kept| + 1 && ids == kept + todo
        invariant cur == if k <= |ids| then ring[k] else head
        invariant Without(ids, id) == kept + Without(todo, id)
        decreases |todo|
      {
        Walk(k);
        Split(kept, todo);
        Shift(kept, todo[0], Without(todo[1..], id));
        var next := NextOf(cur, freed);
        if IdOf(cur) == id {
          Drop(cur, k);
          return;
        }
        kept, todo, k := kept + [todo[0]], todo[1..], k + 1;
        cur := next;
      }
    }

    /** Calls one callback; a positive answer drops it. */
    method Visit(cur: CallbackNode, e: Event, ghost k: nat) returns (r: int)
      requires Valid() && 1 <= k <= |ids| && ring[k] == cur
      modifies this`ids, this`ring, this`freed, this`calls, repr
      ensures Valid()
      ensures r == Answer(answers, |old(calls)|) && calls == old(calls) + [Call(old(ids)[k - 1], e, r)]
      ensures r <= 0 ==> ids == old(ids) && ring == old(ring)
      ensures r > 0 ==> ids == old(ids)[..k - 1] + old(ids)[k..] && ring == old(ring)[..k] + old(ring)[k + 1..]
    {
      Walk(k);
      r := Answer(answers, |calls|);
      calls := calls + [Call(IdOf(cur), e, r)];
      if r > 0 {
        Drop(cur, k);
      }
    }

    /** What a traversal comes to that has kept and called so much, and has todo before it. */
    ghost function Prospect(kept: seq<int>, todo: seq<int>, e: Event): Outcome
      reads this`calls
    {
      var rest := Registry.Trigger(todo, e, answers, |calls|);
      Outcome(kept + rest.kept, calls + rest.calls, rest.ret)
    }

    /** One turn of the loop of trigger_callbacks. */
    method TriggerTurn(cur: CallbackNode, e: Event, ghost kept: seq<int>, ghost todo: seq<int>)
      returns (r: int, ghost kept': seq<int>)
      requires Valid() && ids == kept + todo && todo != [] && ring[|kept| + 1] == cur
      modifies this`ids, this`ring, this`freed, this`calls, repr
      ensures Valid()
      ensures old(Prospect(kept, todo, e)) == if r < 0 then Outcome(ids, calls, r) else Prospect(kept', todo[1..], e)
      ensures r >= 0 ==> ids == kept' + todo[1..]
      ensures r >= 0 && 1 < |todo| ==> ring[|kept'| + 1] == old(ring)[|kept| + 2]
    {
      Split(kept, todo);
      ghost var later := Registry.Trigger(todo[1..], e, answers, |calls| + 1);
      Shift(kept, todo[0], later.kept);
      Shift(calls, Call(todo[0], e, Answer(answers, |calls|)), later.calls);
      r := Visit(cur, e, |kept| + 1);
      kept' := if r == 0 then kept + [todo[0]] else kept;
    }

    /** Calls every callback with e, until one returns a negative value. */
    method Trigger(e: Event) returns (r: int)
      requires Valid()
      modifies this`ids, this`ring, this`freed, this`calls, this`events, repr
      ensures Valid()
      ensures var t := Registry.Trigger(old(ids), e, answers, |old(calls)|);
              ids == t.kept && calls == old(calls) + t.calls && r == t.ret
      ensures events == old(events) + [e]
    {
      events := events + [e];
      ghost var goal := Prospect([], ids, e);
      ghost var kept, todo := [], ids;
      Walk(0);
      var cur := head.next;
      Walk(if ids == [] then 0 else 1);
      var next := NextOf(cur, freed);
      while cur != head
        invariant Valid() && events == old(events) + [e]
        invariant ids == kept + todo && Prospect(kept, todo, e) == goal
        invariant cur == (if todo != [] then ring[|kept| + 1] else head) && next == cur.next
        decreases |todo|
      {
        Walk(|kept| + 1);
        r, kept := TriggerTurn(cur, e, kept, todo);
        if r < 0 {
          return;
        }
        todo := todo[1..];
        cur := next;
        Walk(if todo != [] then |kept| + 1 else 0);
        next := NextOf(cur, freed);
      }
      r := 0;
    }

    /** Frees every callback, reading where to go next before each one goes. */
    method Release() returns (released: seq<CallbackNode>)
      requires Valid()
      ensures released == ring[1..]
    {
      released := [];
      ghost var gone := freed;
      Walk(0);
      var cur := head.next;
      Walk(if ids == [] then 0 else 1);
      var next := NextOf(cur, gone);
      ghost var k := 1;
      while cur != head
        invariant 1 <= k <= |ring| && released == ring[1..k] && gone == freed + set n | n in released
        invariant cur == (if k < |ring| then ring[k] else head) && next == cur.next
        decreases |ring| - k
      {
        Walk(k);
        released, gone := released + [cur], gone + {cur};
        k := k + 1;
        cur := next;
        Walk(if k < |ring| then k else 0);
        assert cur !in released;
        next := NextOf(cur, gone);
      }
    }
  }
}
