/**
 The device registry of src/monitor.c as a state machine on values: which devices are registered
 and in which bucket, which callbacks are listening, which notifications were issued and which
 callback calls they led to.  Module Monitor proves that the C data structures implement it.

 User callbacks are an oracle: `Answer(answers, k)` is what the k-th callback call of the run
 returns.
 */
module Registry {
  import opened Wrappers
  import opened LinkedList
  import opened HashTable

  /** What makes two devices the same one for the registry. */
  datatype Ident = Ident(key: string, iface: Byte)

  datatype Status = Disconnected | Online
  datatype Event = Event(dev: Ident, status: Status)
  datatype Call = Call(id: int, event: Event, answer: int)

  /** A run makes finitely many calls, so a finite script describes any behaviour of the callbacks. */
  type Answers = seq<int>

  function Answer(answers: Answers, k: nat): int { if k < |answers| then answers[k] else 0 }

  datatype State = State(
    callbacks: seq<int>,         // ids of the registered callbacks, in list order
    nextId: int,                 // unbounded here, an int in C
    buckets: seq<seq<Ident>>,
    events: seq<Event>,          // notifications issued so far
    calls: seq<Call>             // callback calls made so far
  )

  // ---------- notifying ----------

  datatype Outcome = Outcome(kept: seq<int>, calls: seq<Call>, ret: int)

  /** Offers e to the callbacks in turn, the next call being the n-th of the run. */
  function Trigger(callbacks: seq<int>, e: Event, answers: Answers, n: nat): Outcome
  {
    if callbacks == [] then Outcome([], [], 0)
    else
      var r := Answer(answers, n);
      var call := Call(callbacks[0], e, r);
      if r < 0 then Outcome(callbacks, [call], r)
      else
        var rest := Trigger(callbacks[1..], e, answers, n + 1);
        Outcome(if r == 0 then [callbacks[0]] + rest.kept else rest.kept, [call] + rest.calls, rest.ret)
  }

  function Fire(s: State, e: Event, answers: Answers): State
  {
    var t := Trigger(s.callbacks, e, answers, |s.calls|);
    s.(callbacks := t.kept, events := s.events + [e], calls := s.calls + t.calls)
  }

  /** The callbacks that keep listening, given the calls made to the first |calls| of them. */
  function Surviving(callbacks: seq<int>, calls: seq<Call>): seq<int>
    requires |calls| <= |callbacks|
  {
    if calls == [] then callbacks
    else
      var rest := Surviving(callbacks[1..], calls[1..]);
      if calls[0].answer > 0 then rest else [callbacks[0]] + rest
  }

  /** The calls go to a prefix of the list, and the k-th of them returned the oracle's answer. */
  lemma {:induction false} TriggerCalls(callbacks: seq<int>, e: Event, answers: Answers, n: nat, k: nat)
    requires k < |Trigger(callbacks, e, answers, n).calls|
    ensures |Trigger(callbacks, e, answers, n).calls| <= |callbacks|
    ensures Trigger(callbacks, e, answers, n).calls[k] == Call(callbacks[k], e, Answer(answers, n + k))
  {
    if Answer(answers, n) >= 0 {
      if 0 < k {
        TriggerCalls(callbacks[1..], e, answers, n + 1, k - 1);
      } else if 0 < |Trigger(callbacks[1..], e, answers, n + 1).calls| {
        TriggerCalls(callbacks[1..], e, answers, n + 1, 0);
      }
    }
  }

  /** The prefix ends with the first negative answer, which is returned, or is the whole list. */
  lemma {:induction false} TriggerStops(callbacks: seq<int>, e: Event, answers: Answers, n: nat)
    ensures var t := Trigger(callbacks, e, answers, n);
            && (forall k :: k in t.calls[..|t.calls| - (if t.ret < 0 then 1 else 0)] ==> k.answer >= 0)
            && (t.ret < 0 ==> t.calls != [] && t.calls[|t.calls| - 1].answer == t.ret)
            && (t.ret >= 0 ==> t.ret == 0 && |t.calls| == |callbacks|)
  {
    if callbacks != [] && Answer(answers, n) >= 0 {
      TriggerStops(callbacks[1..], e, answers, n + 1);
      var t, rest := Trigger(callbacks, e, answers, n), Trigger(callbacks[1..], e, answers, n + 1);
      var m := if t.ret < 0 then 1 else 0;
      assert t.calls[..|t.calls| - m] == [t.calls[0]] + rest.calls[..|rest.calls| - m];
    }
  }

  /** Exactly the called callbacks that returned a positive value leave the list. */
  lemma {:induction false} TriggerDrops(callbacks: seq<int>, e: Event, answers: Answers, n: nat)
    ensures var t := Trigger(callbacks, e, answers, n);
            |t.calls| <= |callbacks| && t.kept == Surviving(callbacks, t.calls)
  {
    if callbacks != [] {
      var t := Trigger(callbacks, e, answers, n);
      if Answer(answers, n) >= 0 {
        TriggerDrops(callbacks[1..], e, answers, n + 1);
        assert t.calls[1..] == Trigger(callbacks[1..], e, answers, n + 1).calls;
      } else {
        assert t.calls[1..] == [] && callbacks == [callbacks[0]] + callbacks[1..];
      }
    }
  }

  /** What the last of some calls returned; 0 if there was none. */
  function LastAnswer(calls: seq<Call>): int { if calls == [] then 0 else calls[|calls| - 1].answer }

  /** All of these calls but perhaps the last returned 0. */
  predicate OnlyLast(calls: seq<Call>) { forall k :: 0 <= k < |calls| - 1 ==> calls[k].answer == 0 }

  /** The rule of include/hs/monitor.h: only 0 continues, and any other answer is returned. */
  predicate Obeyed(calls: seq<Call>, ret: int) { OnlyLast(calls) && ret == LastAnswer(calls) }

  /** One notification obeys the rule iff no callback that is called answers with a positive value. */
  lemma TriggerObeysExactlyIf(callbacks: seq<int>, e: Event, answers: Answers, n: nat)
    ensures var t := Trigger(callbacks, e, answers, n);
            && (Obeyed(t.calls, t.ret) <==> forall k :: 0 <= k < |t.calls| ==> t.calls[k].answer <= 0)
            && (|t.calls| < |callbacks| ==> t.ret != 0)
  {
    var t := Trigger(callbacks, e, answers, n);
    TriggerStops(callbacks, e, answers, n);
    forall k | 0 <= k < |t.calls| - (if t.ret < 0 then 1 else 0) ensures t.calls[k].answer >= 0 {
      assert t.calls[k] in t.calls[..|t.calls| - (if t.ret < 0 then 1 else 0)];
    }
  }

  /** It does not here: the first of two callbacks answers 1, yet the second is called and 0 returned. */
  lemma PositiveAnswerGoesOn(e: Event)
    ensures var t := Trigger([0, 1], e, [1, 0], 0);
            && t == Outcome([1], [Call(0, e, 1), Call(1, e, 0)], 0)
            && !Obeyed(t.calls, t.ret)
  {
    assert [0, 1][1..] == [1] && [1][1..] == [];
    assert Trigger([], e, [1, 0], 2) == Outcome([], [], 0);
    assert Trigger([1], e, [1, 0], 1) == Outcome([1], [Call(1, e, 0)], 0);
    var t := Trigger([0, 1], e, [1, 0], 0);
    assert t.calls[0].answer == 1;
  }

  // ---------- operations ----------

  function Home(s: State, key: string): (b: nat)
    requires 0 < |s.buckets|
    ensures b < |s.buckets|
  {
    Hash(key) % |s.buckets|
  }

  predicate Registered(s: State, d: Ident)
    requires 0 < |s.buckets|
  {
    d in s.buckets[Home(s, d.key)]
  }

  function Init(size: nat): State { State([], 0, seq(size, _ => []), [], []) }

  /** d comes first in its bucket. */
  function Entered(s: State, d: Ident): State
    requires 0 < |s.buckets|
  {
    var b := Home(s, d.key);
    s.(buckets := s.buckets[b := [d] + s.buckets[b]])
  }

  function AddDevice(s: State, d: Ident, answers: Answers): (State, int)
    requires 0 < |s.buckets|
  {
    if Registered(s, d) then (s, 0)
    else
      var s1, e := Entered(s, d), Event(d, Online);
      (Fire(s1, e, answers), Trigger(s1.callbacks, e, answers, |s1.calls|).ret)
  }

  function Without<T(==)>(s: seq<T>, x: T): seq<T>
  {
    if s == [] then [] else if s[0] == x then s[1..] else [s[0]] + Without(s[1..], x)
  }

  /** Announces that d is gone, whatever the callbacks return, then unregisters it. */
  function RemoveOne(s: State, d: Ident, answers: Answers): (s': State)
    requires 0 < |s.buckets|
    ensures |s'.buckets| == |s.buckets|
  {
    var b := Home(s, d.key);
    var s1 := Fire(s, Event(d, Disconnected), answers);
    s1.(buckets := s1.buckets[b := Without(s1.buckets[b], d)])
  }

  function RemoveWalk(s: State, key: string, todo: seq<Ident>, answers: Answers): (s': State)
    requires 0 < |s.buckets|
    ensures |s'.buckets| == |s.buckets|
    decreases |todo|
  {
    if todo == [] then s
    else RemoveWalk(if todo[0].key == key then RemoveOne(s, todo[0], answers) else s, key, todo[1..], answers)
  }

  function RemoveKey(s: State, key: string, answers: Answers): (s': State)
    requires 0 < |s.buckets|
    ensures |s'.buckets| == |s.buckets|
  {
    RemoveWalk(s, key, s.buckets[Home(s, key)], answers)
  }

  function Register(s: State): State
  {
    s.(callbacks := s.callbacks + [s.nextId], nextId := s.nextId + 1)
  }

  function Deregister(s: State, id: int): State
  {
    s.(callbacks := Without(s.callbacks, id))
  }

  // ---------- runs ----------

  datatype Op = Add(dev: Ident) | Remove(key: string) | Listen | Unlisten(id: int)

  function Step(s: State, op: Op, answers: Answers): (s': State)
    requires 0 < |s.buckets|
    ensures |s'.buckets| == |s.buckets|
  {
    match op
    case Add(d) => AddDevice(s, d, answers).0
    case Remove(key) => RemoveKey(s, key, answers)
    case Listen => Register(s)
    case Unlisten(id) => Deregister(s, id)
  }

  function Run(s: State, ops: seq<Op>, answers: Answers): (s': State)
    requires 0 < |s.buckets|
    ensures |s'.buckets| == |s.buckets|
    decreases |ops|
  {
    if ops == [] then s else Run(Step(s, ops[0], answers), ops[1..], answers)
  }

  lemma {:induction false} RunConcat(s: State, a: seq<Op>, b: seq<Op>, answers: Answers)
    requires 0 < |s.buckets|
    ensures Run(s, a + b, answers) == Run(Run(s, a, answers), b, answers)
    decreases |a|
  {
    if a == [] {
      assert a + b == b;
    } else {
      assert (a + b)[1..] == a[1..] + b;
      RunConcat(Step(s, a[0], answers), a[1..], b, answers);
    }
  }

  // ---------- the rule for callbacks ----------

  /** The calls made between s and s'. */
  function NewCalls(s: State, s': State): seq<Call>
    requires s.calls <= s'.calls
  {
    s'.calls[|s.calls|..]
  }

  /** What the operation returns: a removal drops what the callbacks answered. */
  function Result(s: State, op: Op, answers: Answers): int
    requires 0 < |s.buckets|
  {
    if op.Add? then AddDevice(s, op.dev, answers).1 else 0
  }

  /** The answers that take effect as documented: 0, and errors when a device has arrived. */
  predicate Heeded(call: Call) { call.answer == 0 || (call.answer < 0 && call.event.status == Online) }

  predicate AllHeeded(calls: seq<Call>) { forall k :: 0 <= k < |calls| ==> Heeded(calls[k]) }

  lemma AddObeysExactlyIf(s: State, d: Ident, answers: Answers)
    requires 0 < |s.buckets|
    ensures var (s', ret) := AddDevice(s, d, answers);
            && s.calls <= s'.calls && ret <= 0
            && (Obeyed(NewCalls(s, s'), ret) <==> AllHeeded(NewCalls(s, s')))
  {
    if !Registered(s, d) {
      var e, t := Event(d, Online), Trigger(s.callbacks, Event(d, Online), answers, |s.calls|);
      TriggerObeysExactlyIf(s.callbacks, e, answers, |s.calls|);
      TriggerStops(s.callbacks, e, answers, |s.calls|);
      assert NewCalls(s, AddDevice(s, d, answers).0) == t.calls;
      forall k | 0 <= k < |t.calls| ensures t.calls[k].event == e {
        TriggerCalls(s.callbacks, e, answers, |s.calls|, k);
      }
    }
  }

  lemma {:induction false} RemovalCalls(s: State, key: string, todo: seq<Ident>, answers: Answers)
    requires 0 < |s.buckets|
    ensures var s' := RemoveWalk(s, key, todo, answers);
            && s.calls <= s'.calls
            && forall k :: 0 <= k < |NewCalls(s, s')| ==> NewCalls(s, s')[k].event.status == Disconnected
    decreases |todo|
  {
    if todo != [] {
      var s1 := if todo[0].key == key then RemoveOne(s, todo[0], answers) else s;
      var t := Trigger(s.callbacks, Event(todo[0], Disconnected), answers, |s.calls|);
      RemovalCalls(s1, key, todo[1..], answers);
      assert s.calls <= s1.calls && NewCalls(s, s1) == if todo[0].key == key then t.calls else [];
      var s' := RemoveWalk(s, key, todo, answers);
      assert NewCalls(s, s') == NewCalls(s, s1) + NewCalls(s1, s');
      forall k | 0 <= k < |t.calls| ensures t.calls[k].event.status == Disconnected {
        TriggerCalls(s.callbacks, Event(todo[0], Disconnected), answers, |s.calls|, k);
      }
    }
  }

  /**
   An operation obeys the rule iff each callback it calls answers 0, or reports an error on an
   arrival: positive answers do not stop it, and what is answered to a removal is not returned.
   */
  lemma StepObeysExactlyIf(s: State, op: Op, answers: Answers)
    requires 0 < |s.buckets|
    ensures var s' := Step(s, op, answers);
            && s.calls <= s'.calls && Result(s, op, answers) <= 0
            && (Obeyed(NewCalls(s, s'), Result(s, op, answers)) <==> AllHeeded(NewCalls(s, s')))
  {
    match op
    case Add(d) => AddObeysExactlyIf(s, d, answers);
    case Remove(key) => RemovalCalls(s, key, s.buckets[Home(s, key)], answers);
    case Listen =>
    case Unlisten(_) =>
  }

  // ---------- the set it stands for ----------

  /** The registry as anyone would describe it: a plain set of identities. */
  function Apply(devs: set<Ident>, op: Op): set<Ident>
  {
    match op
    case Add(d) => devs + {d}
    case Remove(key) => set d | d in devs && d.key != key
    case Listen => devs
    case Unlisten(_) => devs
  }

  function Replay(devs: set<Ident>, ops: seq<Op>): set<Ident>
    decreases |ops|
  {
    if ops == [] then devs else Replay(Apply(devs, ops[0]), ops[1..])
  }

  // ---------- the structure is kept ----------

  ghost predicate Increasing(s: seq<int>) { forall i, j :: 0 <= i < j < |s| ==> s[i] < s[j] }

  /** Every device is in the bucket of its key, once; ids increase along the list. */
  ghost predicate WellFormed(s: State)
  {
    && 0 < |s.buckets|
    && (forall b :: 0 <= b < |s.buckets| ==> Distinct(s.buckets[b]))
    && (forall b :: 0 <= b < |s.buckets| ==> forall d :: d in s.buckets[b] ==> Home(s, d.key) == b)
    && Increasing(s.callbacks)
    && 0 <= s.nextId
    && forall c :: c in s.callbacks ==> 0 <= c < s.nextId
  }

  lemma {:induction false} WithoutKeeps<T>(s: seq<T>, x: T)
    requires Distinct(s)
    ensures Distinct(Without(s, x)) && forall y :: y in Without(s, x) <==> y in s && y != x
  {
    if s != [] {
      assert forall i :: 0 <= i < |s[1..]| ==> s[1..][i] == s[i + 1];
      WithoutKeeps(s[1..], x);
      assert s[0] !in s[1..];
      assert forall y :: y in s <==> y == s[0] || y in s[1..];
      DistinctConcat([s[0]], Without(s[1..], x));
    }
  }

  lemma {:induction false} WithoutAt<T>(s: seq<T>, k: nat)
    requires Distinct(s) && k < |s|
    ensures Without(s, s[k]) == s[..k] + s[k + 1..]
  {
    if 0 < k {
      assert forall i :: 0 <= i < |s[1..]| ==> s[1..][i] == s[i + 1];
      WithoutAt(s[1..], k - 1);
    }
  }

  lemma IncreasingConcat(a: seq<int>, b: seq<int>)
    requires Increasing(a) && Increasing(b) && forall x, y :: x in a && y in b ==> x < y
    ensures Increasing(a + b)
  {
    forall i, j | 0 <= i < j < |a + b| ensures (a + b)[i] < (a + b)[j] {
      if i < |a| <= j {
        assert a[i] in a && b[j - |a|] in b;
      }
    }
  }

  lemma {:induction false} WithoutIncreasing(s: seq<int>, x: int)
    requires Increasing(s)
    ensures Increasing(Without(s, x)) && forall y :: y in Without(s, x) <==> y in s && y != x
  {
    WithoutKeeps(s, x);
    if s != [] {
      WithoutIncreasing(s[1..], x);
      IncreasingConcat([s[0]], Without(s[1..], x));
    }
  }

  lemma {:induction false} SurvivingIncreasing(callbacks: seq<int>, calls: seq<Call>)
    requires |calls| <= |callbacks| && Increasing(callbacks)
    ensures Increasing(Surviving(callbacks, calls))
    ensures forall c :: c in Surviving(callbacks, calls) ==> c in callbacks
  {
    if calls != [] {
      SurvivingIncreasing(callbacks[1..], calls[1..]);
      IncreasingConcat([callbacks[0]], Surviving(callbacks[1..], calls[1..]));
    }
  }

  lemma FireKeeps(s: State, e: Event, answers: Answers)
    requires WellFormed(s)
    ensures WellFormed(Fire(s, e, answers))
  {
    TriggerDrops(s.callbacks, e, answers, |s.calls|);
    SurvivingIncreasing(s.callbacks, Trigger(s.callbacks, e, answers, |s.calls|).calls);
  }

  lemma EnteredKeeps(s: State, d: Ident)
    requires WellFormed(s) && !Registered(s, d)
    ensures WellFormed(Entered(s, d))
    ensures forall x :: Registered(Entered(s, d), x) <==> Registered(s, x) || x == d
  {
    DistinctConcat([d], s.buckets[Home(s, d.key)]);
  }

  lemma AddKeeps(s: State, d: Ident, answers: Answers)
    requires WellFormed(s)
    ensures WellFormed(AddDevice(s, d, answers).0)
    ensures forall x :: Registered(AddDevice(s, d, answers).0, x) <==> Registered(s, x) || x == d
  {
    if !Registered(s, d) {
      EnteredKeeps(s, d);
      FireKeeps(Entered(s, d), Event(d, Online), answers);
    }
  }

  lemma RemoveOneKeeps(s: State, d: Ident, answers: Answers)
    requires WellFormed(s)
    ensures WellFormed(RemoveOne(s, d, answers))
    ensures forall x :: Registered(RemoveOne(s, d, answers), x) <==> Registered(s, x) && x != d
  {
    FireKeeps(s, Event(d, Disconnected), answers);
    WithoutKeeps(s.buckets[Home(s, d.key)], d);
  }

  lemma {:induction false} RemoveWalkKeeps(s: State, key: string, todo: seq<Ident>, answers: Answers)
    requires WellFormed(s)
    ensures WellFormed(RemoveWalk(s, key, todo, answers))
    ensures forall x :: Registered(RemoveWalk(s, key, todo, answers), x) <==>
                        Registered(s, x) && !(x in todo && x.key == key)
    decreases |todo|
  {
    if todo != [] {
      if todo[0].key == key {
        RemoveOneKeeps(s, todo[0], answers);
      }
      RemoveWalkKeeps(if todo[0].key == key then RemoveOne(s, todo[0], answers) else s, key, todo[1..], answers);
      assert forall x :: x in todo <==> x == todo[0] || x in todo[1..];
    }
  }

  lemma StepKeeps(s: State, op: Op, answers: Answers)
    requires WellFormed(s)
    ensures WellFormed(Step(s, op, answers))
  {
    match op
    case Add(d) => AddKeeps(s, d, answers);
    case Remove(key) => RemoveWalkKeeps(s, key, s.buckets[Home(s, key)], answers);
    case Listen =>
      IncreasingConcat(s.callbacks, [s.nextId]);
      assert forall c :: c in Register(s).callbacks ==> c in s.callbacks || c == s.nextId;
    case Unlisten(id) => WithoutIncreasing(s.callbacks, id);
  }

  lemma StepHoldsApply(s: State, devs: set<Ident>, op: Op, answers: Answers)
    requires WellFormed(s) && forall d :: Registered(s, d) <==> d in devs
    ensures forall d :: Registered(Step(s, op, answers), d) <==> d in Apply(devs, op)
  {
    match op
    case Add(d) => AddKeeps(s, d, answers);
    case Remove(key) => RemoveWalkKeeps(s, key, s.buckets[Home(s, key)], answers);
    case Listen =>
    case Unlisten(_) =>
  }

  /**
   Over any run, whatever the callbacks answer and however keys collide, the buckets hold exactly
   the identities that a plain set would, each once and in the bucket of its key.
   */
  lemma {:induction false} RunHoldsReplay(s: State, devs: set<Ident>, ops: seq<Op>, answers: Answers)
    requires WellFormed(s) && forall d :: Registered(s, d) <==> d in devs
    ensures WellFormed(Run(s, ops, answers))
    ensures forall d :: Registered(Run(s, ops, answers), d) <==> d in Replay(devs, ops)
    decreases |ops|
  {
    if ops != [] {
      StepKeeps(s, ops[0], answers);
      StepHoldsApply(s, devs, ops[0], answers);
      RunHoldsReplay(Step(s, ops[0], answers), Apply(devs, ops[0]), ops[1..], answers);
    }
  }

  // ---------- the event history ----------

  function History(events: seq<Event>, d: Ident): seq<Status>
  {
    if events == [] then []
    else History(events[..|events| - 1], d) +
         (if events[|events| - 1].dev == d then [events[|events| - 1].status] else [])
  }

  ghost predicate Alternates(h: seq<Status>)
  {
    forall i :: 0 <= i < |h| ==> h[i] == if i % 2 == 0 then Online else Disconnected
  }

  /** d's notifications alternate, Online first, and the last one tells whether d is registered. */
  ghost predicate Announced(s: State, d: Ident)
    requires 0 < |s.buckets|
  {
    var h := History(s.events, d);
    Alternates(h) && (Registered(s, d) <==> |h| % 2 == 1)
  }

  lemma HistoryOf(s: State, e: Event, d: Ident, answers: Answers)
    ensures History(Fire(s, e, answers).events, d) ==
            History(s.events, d) + if e.dev == d then [e.status] else []
  {
    var events := s.events + [e];
    assert events[..|events| - 1] == s.events;
  }

  lemma RemoveOneAnnounces(s: State, x: Ident, d: Ident, answers: Answers)
    requires WellFormed(s) && Registered(s, x) && Announced(s, d)
    ensures Announced(RemoveOne(s, x, answers), d)
  {
    RemoveOneKeeps(s, x, answers);
    HistoryOf(s, Event(x, Disconnected), d, answers);
  }

  lemma {:induction false} RemoveWalkAnnounces(s: State, key: string, todo: seq<Ident>, d: Ident, answers: Answers)
    requires WellFormed(s) && Announced(s, d) && Distinct(todo)
    requires forall x :: x in todo && x.key == key ==> Registered(s, x)
    ensures Announced(RemoveWalk(s, key, todo, answers), d)
    decreases |todo|
  {
    if todo != [] {
      var s1 := if todo[0].key == key then RemoveOne(s, todo[0], answers) else s;
      if todo[0].key == key {
        RemoveOneAnnounces(s, todo[0], d, answers);
        RemoveOneKeeps(s, todo[0], answers);
      }
      assert forall x :: x in todo[1..] ==> x in todo && x != todo[0];
      RemoveWalkAnnounces(s1, key, todo[1..], d, answers);
    }
  }

  lemma AddAnnounces(s: State, x: Ident, d: Ident, answers: Answers)
    requires WellFormed(s) && Announced(s, d)
    ensures Announced(AddDevice(s, x, answers).0, d)
  {
    if !Registered(s, x) {
      HistoryOf(Entered(s, x), Event(x, Online), d, answers);
      AddKeeps(s, x, answers);
    }
  }

  /**
   Between operations, the notifications issued for a device alternate Online, Disconnected,
   starting with Online: refused duplicates and removals of unknown keys issue none.
   */
  lemma {:induction false} RunAnnounces(s: State, ops: seq<Op>, d: Ident, answers: Answers)
    requires WellFormed(s) && Announced(s, d)
    ensures Announced(Run(s, ops, answers), d)
    decreases |ops|
  {
    if ops != [] {
      match ops[0] {
        case Add(x) => AddAnnounces(s, x, d, answers);
        case Remove(key) => RemoveWalkAnnounces(s, key, s.buckets[Home(s, key)], d, answers);
        case Listen =>
        case Unlisten(_) =>
      }
      StepKeeps(s, ops[0], answers);
      RunAnnounces(Step(s, ops[0], answers), ops[1..], d, answers);
    }
  }

  /** A monitor from its creation on: the table, the set anyone would expect, and the history agree. */
  lemma FromStart(size: nat, ops: seq<Op>, d: Ident, answers: Answers)
    requires 0 < size
    ensures var s := Run(Init(size), ops, answers);
            && WellFormed(s)
            && (Registered(s, d) <==> d in Replay({}, ops))
            && Alternates(History(s.events, d))
            && (|History(s.events, d)| % 2 == 1 <==> d in Replay({}, ops))
  {
    var s0 := Init(size);
    RunHoldsReplay(s0, {}, ops, answers);
    RunAnnounces(s0, ops, d, answers);
  }

  // ---------- what one callback sees ----------

  /** The notifications callback c was called for. */
  function Seen(calls: seq<Call>, c: int): seq<Event>
  {
    if calls == [] then []
    else (if calls[0].id == c then [calls[0].event] else []) + Seen(calls[1..], c)
  }

  /** How often a callback registered before c returned a negative value, which ends the round. */
  function Cuts(calls: seq<Call>, c: int): nat
  {
    if calls == [] then 0
    else (if calls[0].id < c && calls[0].answer < 0 then 1 else 0) + Cuts(calls[1..], c)
  }

  /** c never asks to be dropped. */
  ghost predicate Stays(calls: seq<Call>, c: int)
  {
    forall k :: k in calls && k.id == c ==> k.answer <= 0
  }

  lemma {:induction false} SeenConcat(a: seq<Call>, b: seq<Call>, c: int)
    ensures Seen(a + b, c) == Seen(a, c) + Seen(b, c)
    ensures Cuts(a + b, c) == Cuts(a, c) + Cuts(b, c)
  {
    if a == [] {
      assert a + b == b;
    } else {
      assert (a + b)[1..] == a[1..] + b && (a + b)[0] == a[0];
      SeenConcat(a[1..], b, c);
      Regroup(if a[0].id == c then [a[0].event] else [], Seen(a[1..], c), Seen(b, c));
    }
  }

  /** Between s and s', c was called for every notification not cut short by an earlier callback. */
  ghost predicate Heard(s: State, s': State, c: int)
  {
    && s.calls <= s'.calls && s.events <= s'.events
    && var calls, events := s'.calls[|s.calls|..], s'.events[|s.events|..];
    && (Stays(calls, c) ==> c in s'.callbacks)
    && (Stays(calls, c) ==> |Seen(calls, c)| + Cuts(calls, c) == |events|)
    && (Stays(calls, c) && Cuts(calls, c) == 0 ==> Seen(calls, c) == events)
  }

  lemma HeardTransitive(s: State, s': State, s'': State, c: int)
    requires Heard(s, s', c)
    requires s'.calls <= s''.calls && s'.events <= s''.events
    requires c in s'.callbacks ==> Heard(s', s'', c)
    ensures Heard(s, s'', c)
  {
    var a, b := s'.calls[|s.calls|..], s''.calls[|s'.calls|..];
    assert s''.calls[|s.calls|..] == a + b;
    assert s''.events[|s.events|..] == s'.events[|s.events|..] + s''.events[|s'.events|..];
    assert Stays(a + b, c) ==> Stays(a, c) && Stays(b, c) by {
      assert forall k :: k in a || k in b ==> k in a + b;
    }
    SeenConcat(a, b, c);
  }

  lemma {:induction false} TriggerIsHeard(callbacks: seq<int>, e: Event, answers: Answers, n: nat, c: int)
    requires Increasing(callbacks)
    ensures var t := Trigger(callbacks, e, answers, n);
            && (c in callbacks && Stays(t.calls, c) ==> c in t.kept)
            && (c in callbacks ==> |Seen(t.calls, c)| + Cuts(t.calls, c) == 1)
            && (c in callbacks ==> Seen(t.calls, c) == [] || Seen(t.calls, c) == [e])
            && (c !in callbacks ==> Seen(t.calls, c) == [])
  {
    if callbacks != [] {
      var t := Trigger(callbacks, e, answers, n);
      assert c in callbacks <==> c == callbacks[0] || c in callbacks[1..];
      if Answer(answers, n) < 0 {
        assert t.calls[1..] == [];
      } else {
        TriggerIsHeard(callbacks[1..], e, answers, n + 1, c);
        assert t.calls[1..] == Trigger(callbacks[1..], e, answers, n + 1).calls;
        assert t.calls[0] in t.calls;
        if c == callbacks[0] {
          assert forall x :: x in callbacks[1..] ==> c < x;
          CutsAbove(callbacks[1..], e, answers, n + 1, c);
        }
      }
    }
  }

  /** A callback registered before all of these is cut by none of them. */
  lemma {:induction false} CutsAbove(callbacks: seq<int>, e: Event, answers: Answers, n: nat, c: int)
    requires forall x :: x in callbacks ==> c <= x
    ensures Cuts(Trigger(callbacks, e, answers, n).calls, c) == 0
  {
    if callbacks != [] {
      var t := Trigger(callbacks, e, answers, n);
      assert callbacks[0] in callbacks && forall x :: x in callbacks[1..] ==> x in callbacks;
      if Answer(answers, n) >= 0 {
        CutsAbove(callbacks[1..], e, answers, n + 1, c);
        assert t.calls[1..] == Trigger(callbacks[1..], e, answers, n + 1).calls;
      } else {
        assert t.calls[1..] == [];
      }
    }
  }

  lemma FireIsHeard(s: State, e: Event, answers: Answers, c: int)
    requires WellFormed(s) && c in s.callbacks
    ensures Heard(s, Fire(s, e, answers), c)
  {
    var s' := Fire(s, e, answers);
    TriggerIsHeard(s.callbacks, e, answers, |s.calls|, c);
    assert s'.calls[|s.calls|..] == Trigger(s.callbacks, e, answers, |s.calls|).calls;
    assert s'.events[|s.events|..] == [e];
  }

  lemma {:induction false} RemoveWalkIsHeard(s: State, key: string, todo: seq<Ident>, answers: Answers, c: int)
    requires WellFormed(s)
    ensures var s' := RemoveWalk(s, key, todo, answers); s.calls <= s'.calls && s.events <= s'.events
    ensures c in s.callbacks ==> Heard(s, RemoveWalk(s, key, todo, answers), c)
    decreases |todo|
  {
    if todo != [] {
      var s1 := if todo[0].key == key then RemoveOne(s, todo[0], answers) else s;
      if todo[0].key == key {
        RemoveOneKeeps(s, todo[0], answers);
        if c in s.callbacks {
          FireIsHeard(s, Event(todo[0], Disconnected), answers, c);
        }
      }
      RemoveWalkIsHeard(s1, key, todo[1..], answers, c);
      if c in s.callbacks {
        HeardTransitive(s, s1, RemoveWalk(s, key, todo, answers), c);
      }
    }
  }

  lemma StepIsHeard(s: State, op: Op, answers: Answers, c: int)
    requires WellFormed(s) && op != Unlisten(c)
    ensures var s' := Step(s, op, answers); s.calls <= s'.calls && s.events <= s'.events
    ensures c in s.callbacks ==> Heard(s, Step(s, op, answers), c)
  {
    match op
    case Add(d) =>
      if !Registered(s, d) {
        EnteredKeeps(s, d);
        if c in s.callbacks {
          FireIsHeard(Entered(s, d), Event(d, Online), answers, c);
        }
      }
    case Remove(key) => RemoveWalkIsHeard(s, key, s.buckets[Home(s, key)], answers, c);
    case Listen =>
    case Unlisten(id) => WithoutIncreasing(s.callbacks, id);
  }

  /**
   A callback that is not deregistered and never returns a positive value stays registered over any
   run.  It misses exactly as many notifications as earlier callbacks returned negative values;
   when there is none it sees the whole history, each notification once and in order.
   */
  lemma {:induction false} RunIsHeard(s: State, ops: seq<Op>, answers: Answers, c: int)
    requires WellFormed(s) && Unlisten(c) !in ops
    ensures var s' := Run(s, ops, answers); s.calls <= s'.calls && s.events <= s'.events
    ensures c in s.callbacks ==> Heard(s, Run(s, ops, answers), c)
    decreases |ops|
  {
    if ops != [] {
      var s1 := Step(s, ops[0], answers);
      StepIsHeard(s, ops[0], answers, c);
      StepKeeps(s, ops[0], answers);
      RunIsHeard(s1, ops[1..], answers, c);
      if c in s.callbacks {
        HeardTransitive(s, s1, Run(s, ops, answers), c);
      }
    }
  }

  // ---------- callback ids ----------

  /** The ids handed out by the registrations of a run. */
  function Issued(s: State, ops: seq<Op>, answers: Answers): seq<int>
    requires 0 < |s.buckets|
    decreases |ops|
  {
    if ops == [] then []
    else (if ops[0].Listen? then [s.nextId] else []) + Issued(Step(s, ops[0], answers), ops[1..], answers)
  }

  lemma {:induction false} RemoveWalkIssuesNone(s: State, key: string, todo: seq<Ident>, answers: Answers)
    requires 0 < |s.buckets|
    ensures RemoveWalk(s, key, todo, answers).nextId == s.nextId
    decreases |todo|
  {
    if todo != [] {
      RemoveWalkIssuesNone(if todo[0].key == key then RemoveOne(s, todo[0], answers) else s, key, todo[1..], answers);
    }
  }

  /** No id is ever handed out twice. */
  lemma {:induction false} IdsAreFresh(s: State, ops: seq<Op>, answers: Answers)
    requires WellFormed(s)
    ensures Increasing(Issued(s, ops, answers))
    ensures forall id :: id in Issued(s, ops, answers) ==> s.nextId <= id && id !in s.callbacks
    decreases |ops|
  {
    if ops != [] {
      var s1 := Step(s, ops[0], answers);
      if ops[0].Remove? {
        RemoveWalkIssuesNone(s, ops[0].key, s.buckets[Home(s, ops[0].key)], answers);
      }
      StepKeeps(s, ops[0], answers);
      IdsAreFresh(s1, ops[1..], answers);
      assert s.nextId <= s1.nextId;
      if ops[0].Listen? {
        IncreasingConcat([s.nextId], Issued(s1, ops[1..], answers));
      }
    }
  }

  // ---------- a callback that left the list ----------

  /** c is not listening and never will again; it was not called between s and s'. */
  ghost predicate Silent(s: State, s': State, c: int)
  {
    && s.calls <= s'.calls
    && c !in s'.callbacks && c < s'.nextId
    && Seen(s'.calls[|s.calls|..], c) == []
  }

  lemma SilentTransitive(s: State, s': State, s'': State, c: int)
    requires Silent(s, s', c) && Silent(s', s'', c)
    ensures Silent(s, s'', c)
  {
    var a, b := s'.calls[|s.calls|..], s''.calls[|s'.calls|..];
    assert s''.calls[|s.calls|..] == a + b;
    SeenConcat(a, b, c);
  }

  lemma FireIsSilent(s: State, e: Event, answers: Answers, c: int)
    requires WellFormed(s) && c !in s.callbacks && c < s.nextId
    ensures Silent(s, Fire(s, e, answers), c)
  {
    TriggerIsHeard(s.callbacks, e, answers, |s.calls|, c);
    TriggerDrops(s.callbacks, e, answers, |s.calls|);
    var t := Trigger(s.callbacks, e, answers, |s.calls|);
    SurvivingIncreasing(s.callbacks, t.calls);
    assert Fire(s, e, answers).calls[|s.calls|..] == t.calls;
  }

  lemma {:induction false} RemoveWalkIsSilent(s: State, key: string, todo: seq<Ident>, answers: Answers, c: int)
    requires WellFormed(s) && c !in s.callbacks && c < s.nextId
    ensures Silent(s, RemoveWalk(s, key, todo, answers), c)
    decreases |todo|
  {
    if todo != [] {
      var s1 := if todo[0].key == key then RemoveOne(s, todo[0], answers) else s;
      if todo[0].key == key {
        RemoveOneKeeps(s, todo[0], answers);
        FireIsSilent(s, Event(todo[0], Disconnected), answers, c);
      }
      RemoveWalkIsSilent(s1, key, todo[1..], answers, c);
      SilentTransitive(s, s1, RemoveWalk(s, key, todo, answers), c);
    }
  }

  lemma StepIsSilent(s: State, op: Op, answers: Answers, c: int)
    requires WellFormed(s) && c !in s.callbacks && c < s.nextId
    ensures Silent(s, Step(s, op, answers), c)
  {
    match op
    case Add(d) =>
      if !Registered(s, d) {
        EnteredKeeps(s, d);
        FireIsSilent(Entered(s, d), Event(d, Online), answers, c);
      }
    case Remove(key) => RemoveWalkIsSilent(s, key, s.buckets[Home(s, key)], answers, c);
    case Listen =>
    case Unlisten(id) => WithoutIncreasing(s.callbacks, id);
  }

  /** A callback that was dropped or deregistered is never called again, over any run. */
  lemma {:induction false} RunIsSilent(s: State, ops: seq<Op>, answers: Answers, c: int)
    requires WellFormed(s) && c !in s.callbacks && c < s.nextId
    ensures Silent(s, Run(s, ops, answers), c)
    decreases |ops|
  {
    if ops != [] {
      StepIsSilent(s, ops[0], answers, c);
      StepKeeps(s, ops[0], answers);
      RunIsSilent(Step(s, ops[0], answers), ops[1..], answers, c);
      SilentTransitive(s, Step(s, ops[0], answers), Run(s, ops, answers), c);
    }
  }

  // ---------- callbacks come and go ----------

  /** Deregistering takes exactly that callback off the list, and does nothing else. */
  lemma UnlistenTakesOff(s: State, id: int, answers: Answers)
    requires WellFormed(s)
    ensures var s' := Step(s, Unlisten(id), answers);
            && Increasing(s'.callbacks)
            && (forall c :: c in s'.callbacks <==> c in s.callbacks && c != id)
            && s'.buckets == s.buckets && s'.events == s.events && s'.calls == s.calls && s'.nextId == s.nextId
  {
    WithoutIncreasing(s.callbacks, id);
  }

  /** Registering puts one callback more on the list, behind all others, under an id never used before. */
  lemma ListenPutsLast(s: State, answers: Answers)
    requires WellFormed(s)
    ensures var s' := Step(s, Listen, answers);
            && s.callbacks < s'.callbacks && |s'.callbacks| == |s.callbacks| + 1
            && s'.callbacks[|s.callbacks|] == s.nextId < s'.nextId && s.nextId !in s.callbacks
            && s'.buckets == s.buckets && s'.events == s.events && s'.calls == s.calls
  {
  }

  lemma {:induction false} NextIdGrows(s: State, ops: seq<Op>, answers: Answers)
    requires WellFormed(s)
    ensures WellFormed(Run(s, ops, answers)) && s.nextId <= Run(s, ops, answers).nextId
    decreases |ops|
  {
    if ops != [] {
      if ops[0].Remove? {
        RemoveWalkIssuesNone(s, ops[0].key, s.buckets[Home(s, ops[0].key)], answers);
      }
      StepKeeps(s, ops[0], answers);
      NextIdGrows(Step(s, ops[0], answers), ops[1..], answers);
    }
  }

  lemma {:induction false} NotSeen(calls: seq<Call>, c: int)
    requires Seen(calls, c) == []
    ensures forall k :: 0 <= k < |calls| ==> calls[k].id != c
  {
    if calls != [] {
      NotSeen(calls[1..], c);
      assert forall k :: 1 <= k < |calls| ==> calls[k] == calls[1..][k - 1];
    }
  }

  lemma RunOne(s: State, op: Op, answers: Answers)
    requires 0 < |s.buckets|
    ensures Run(s, [op], answers) == Step(s, op, answers)
  {
    assert [op][1..] == [];
    assert Run(Step(s, op, answers), [], answers) == Step(s, op, answers);
  }

  /** Whatever was done before and is done afterwards, a callback is not called any more once it was deregistered. */
  lemma DeregisteredIsSilent(s: State, before: seq<Op>, c: int, after: seq<Op>, answers: Answers)
    requires WellFormed(s) && c < s.nextId
    ensures var s1 := Run(s, before + [Unlisten(c)], answers);
            var s2 := Run(s, before + [Unlisten(c)] + after, answers);
            && s1.calls <= s2.calls
            && (forall k :: |s1.calls| <= k < |s2.calls| ==> s2.calls[k].id != c)
            && c !in s2.callbacks
  {
    var s0 := Run(s, before, answers);
    NextIdGrows(s, before, answers);
    RunConcat(s, before, [Unlisten(c)], answers);
    RunConcat(s, before + [Unlisten(c)], after, answers);
    RunOne(s0, Unlisten(c), answers);
    UnlistenTakesOff(s0, c, answers);
    StepKeeps(s0, Unlisten(c), answers);
    var s1, s2 := Step(s0, Unlisten(c), answers), Run(s, before + [Unlisten(c)] + after, answers);
    RunIsSilent(s1, after, answers, c);
    var calls := s2.calls[|s1.calls|..];
    NotSeen(calls, c);
    assert forall k :: |s1.calls| <= k < |s2.calls| ==> s2.calls[k] == calls[k - |s1.calls|];
  }

  /** And one that is registered hears what comes afterwards. */
  lemma RegisteredHears(s: State, before: seq<Op>, after: seq<Op>, answers: Answers)
    requires WellFormed(s) && Unlisten(Run(s, before, answers).nextId) !in after
    ensures var c := Run(s, before, answers).nextId;
            var s1, s2 := Run(s, before + [Listen], answers), Run(s, before + [Listen] + after, answers);
            c in s1.callbacks && Heard(s1, s2, c)
  {
    var s0 := Run(s, before, answers);
    NextIdGrows(s, before, answers);
    RunConcat(s, before, [Listen], answers);
    RunConcat(s, before + [Listen], after, answers);
    RunOne(s0, Listen, answers);
    ListenPutsLast(s0, answers);
    StepKeeps(s0, Listen, answers);
    RunIsHeard(Step(s0, Listen, answers), after, answers, s0.nextId);
  }

  lemma StaysCons(call: Call, rest: seq<Call>, c: int)
    ensures Stays([call] + rest, c) <==> (call.id == c ==> call.answer <= 0) && Stays(rest, c)
  {
    assert forall k :: k in [call] + rest <==> k == call || k in rest;
    assert call in [call] + rest;
  }

  lemma OthersCalled(callbacks: seq<int>, e: Event, answers: Answers, n: nat, c: int)
    requires c !in callbacks
    ensures Stays(Trigger(callbacks, e, answers, n).calls, c)
  {
    var t := Trigger(callbacks, e, answers, n);
    forall k | 0 <= k < |t.calls| ensures t.calls[k].id != c {
      TriggerCalls(callbacks, e, answers, n, k);
    }
  }

  /** A round of calls takes off exactly the callbacks that answered it with a positive value. */
  lemma {:induction false} KeptExactlyIf(callbacks: seq<int>, e: Event, answers: Answers, n: nat, c: int)
    requires Increasing(callbacks)
    ensures var t := Trigger(callbacks, e, answers, n);
            c in t.kept <==> c in callbacks && Stays(t.calls, c)
  {
    if callbacks != [] {
      var t := Trigger(callbacks, e, answers, n);
      assert c in callbacks <==> c == callbacks[0] || c in callbacks[1..];
      var rest := if Answer(answers, n) < 0 then [] else Trigger(callbacks[1..], e, answers, n + 1).calls;
      StaysCons(Call(callbacks[0], e, Answer(answers, n)), rest, c);
      if Answer(answers, n) >= 0 {
        KeptExactlyIf(callbacks[1..], e, answers, n + 1, c);
        if c == callbacks[0] {
          assert c !in callbacks[1..];
          OthersCalled(callbacks[1..], e, answers, n + 1, c);
        }
      }
    }
  }

  // ---------- listing ----------

  /** The devices of the buckets from h on, bucket after bucket. */
  function Flat<T>(buckets: seq<seq<T>>, h: nat): seq<T>
    requires h <= |buckets|
    decreases |buckets| - h
  {
    if h == |buckets| then [] else buckets[h] + Flat(buckets, h + 1)
  }

  /** How many calls were made, and what the last one returned. */
  datatype Tally = Tally(calls: nat, ret: int)

  /** Calls f with up to `count` devices in turn, the next call being the n-th of the run. */
  function Offer(count: nat, f: Answers, n: nat): Tally
  {
    if count == 0 then Tally(0, 0)
    else if Answer(f, n) != 0 then Tally(1, Answer(f, n))
    else
      var rest := Offer(count - 1, f, n + 1);
      Tally(1 + rest.calls, rest.ret)
  }

  /** Calls before the last one returned zero; a non-zero result is returned, and ends the calls. */
  lemma {:induction false} OfferStops(count: nat, f: Answers, n: nat, k: nat)
    requires k < Offer(count, f, n).calls
    ensures var t := Offer(count, f, n);
            && t.calls <= count && (t.ret == 0 ==> t.calls == count)
            && Answer(f, n + k) == if k == t.calls - 1 then t.ret else 0
  {
    if Answer(f, n) == 0 {
      if 0 < Offer(count - 1, f, n + 1).calls {
        OfferStops(count - 1, f, n + 1, if k == 0 then 0 else k - 1);
      }
    }
  }

  /** There is a call if there is a device, a result only from a call, and no call too many. */
  lemma OfferCalls(count: nat, f: Answers, n: nat)
    ensures var t := Offer(count, f, n);
            && (0 < t.calls <==> 0 < count) && t.calls <= count
            && (t.ret != 0 ==> 0 < t.calls && t.ret == Answer(f, n + t.calls - 1))
  {
    if 0 < count {
      var t := Offer(count, f, n);
      OfferStops(count, f, n, t.calls - 1);
    }
  }

  lemma {:induction false} OfferAll(count: nat, f: Answers, n: nat)
    requires Offer(count, f, n).ret == 0
    ensures Offer(count, f, n).calls == count
  {
    if count != 0 {
      OfferAll(count - 1, f, n + 1);
    }
  }

  lemma {:induction false} OfferMore(a: nat, b: nat, f: Answers, n: nat)
    ensures var t, t' := Offer(a, f, n), Offer(b, f, n + a);
            Offer(a + b, f, n) == if t.ret != 0 then t else Tally(a + t'.calls, t'.ret)
  {
    if a != 0 {
      OfferMore(a - 1, b, f, n + 1);
    }
  }

  /** Each registered device is in the flat list, exactly once. */
  lemma {:induction false} FlatIsOnceEach(s: State, h: nat, d: Ident)
    requires WellFormed(s) && h <= |s.buckets|
    ensures multiset(Flat(s.buckets, h))[d] == if h <= Home(s, d.key) && Registered(s, d) then 1 else 0
    decreases |s.buckets| - h
  {
    if h < |s.buckets| {
      FlatIsOnceEach(s, h + 1, d);
      OnceIfDistinct(s.buckets[h], d);
    }
  }

  lemma {:induction false} OnceIfDistinct<T>(s: seq<T>, x: T)
    requires Distinct(s)
    ensures multiset(s)[x] == if x in s then 1 else 0
  {
    if s != [] {
      assert s == [s[0]] + s[1..];
      assert forall i :: 0 <= i < |s[1..]| ==> s[1..][i] == s[i + 1];
      OnceIfDistinct(s[1..], x);
    }
  }
}
