/**
 The HID report queue of src/hid_darwin.c as a protocol: the run-loop thread stores reports under
 the mutex and signals through a pipe after it released the mutex; a reader polls the pipe, then
 takes a report under the mutex.  An action is one step of one thread, so a sequence of actions is
 an interleaving.  Module HidHandle proves that the data structures do what the locked steps say.
 */
module ReportQueue {
  import opened Wrappers

  const MAX_REPORTS: nat := 64

  /** What a reader received, and how big its buffer was. */
  datatype Delivery = Delivery(room: nat, data: Bytes)

  datatype Reader = Idle | Polling(room: nat) | Ready(room: nat)

  datatype State = State(
    queued: seq<Bytes>,
    free: nat,                  // report nodes in free_reports
    pool: nat,                  // allocated_reports
    error: int,                 // thread_ret
    gone: bool,                 // the device was removed: hid == NULL
    bytes: nat,                 // what the pipe holds
    owed: bool,                 // the run-loop thread is about to write to the pipe
    reader: Reader,
    accepted: seq<Bytes>,       // every report stored so far
    taken: seq<Bytes>,          // every report removed so far
    delivered: seq<Delivery>
  )

  const START := State([], 0, 0, 0, false, 0, false, Idle, [], [], [])

  datatype Action =
    | Arrive(id: Byte, payload: Bytes, memory: bool)  // hid_report_callback, up to the unlock
    | Vanish                                          // hid_removal_callback, up to the unlock
    | Fire                                            // the write that either of them owes
    | Call(room: nat, wait: bool)                     // hs_hid_read, up to poll()
    | PollReady
    | PollTimeout
    | Take                                            // hs_hid_read under the mutex

  /** The report id, then at most `size` bytes of payload. */
  function Stored(size: nat, id: Byte, payload: Bytes): Bytes
  {
    [id] + if |payload| > size then payload[..size] else payload
  }

  function Enqueue(s: State, size: nat, id: Byte, payload: Bytes, memory: bool): State
  {
    var fire := s.queued == [];
    var report := Stored(size, id, payload);
    if 0 < s.free then
      s.(free := s.free - 1, queued := s.queued + [report], accepted := s.accepted + [report], owed := fire)
    else if s.pool == MAX_REPORTS then
      s.(owed := fire)
    else if !memory then
      s.(error := ERROR_MEMORY, owed := fire)
    else
      s.(pool := s.pool + 1, queued := s.queued + [report], accepted := s.accepted + [report], owed := fire)
  }

  function Reset(s: State): State
  {
    if s.queued == [] && 0 < s.bytes then s.(bytes := s.bytes - 1) else s
  }

  /** The locked part of hs_hid_read, for a caller with a buffer of `room` bytes, and what it returns. */
  function Dequeue(s: State, room: nat): (State, int)
  {
    if s.error < 0 then (Reset(s.(error := 0)), s.error)
    else if s.queued == [] then (s, 0)
    else
      var data := Prefix(s.queued[0], room);
      (Reset(s.(queued := s.queued[1..], free := s.free + 1, taken := s.taken + [s.queued[0]],
                delivered := s.delivered + [Delivery(room, data)])), |data|)
  }

  /** One step; a step that its thread cannot take now changes nothing. */
  function Step(s: State, size: nat, capacity: nat, a: Action): State
  {
    match a
    case Arrive(id, payload, memory) =>
      if s.owed then s else Enqueue(s, size, id, payload, memory)
    case Vanish =>
      if s.owed || s.gone then s else s.(gone := true, owed := true)
    case Fire =>
      if !s.owed then s
      else s.(owed := false, bytes := if s.bytes < capacity then s.bytes + 1 else s.bytes)
    case Call(room, wait) =>
      if !s.reader.Idle? || s.gone then s else s.(reader := if wait then Polling(room) else Ready(room))
    case PollReady =>
      if s.reader.Polling? && 0 < s.bytes then s.(reader := Ready(s.reader.room)) else s
    case PollTimeout =>
      if s.reader.Polling? then s.(reader := Idle) else s
    case Take =>
      if s.reader.Ready? then Dequeue(s, s.reader.room).0.(reader := Idle) else s
  }

  function Run(s: State, size: nat, capacity: nat, actions: seq<Action>): State
    decreases |actions|
  {
    if actions == [] then s else Run(Step(s, size, capacity, actions[0]), size, capacity, actions[1..])
  }

  // ---------- what every interleaving keeps ----------

  /** No node is lost or made up, and the pool never grows beyond its limit. */
  ghost predicate PoolKept(s: State)
  {
    |s.queued| + s.free == s.pool <= MAX_REPORTS
  }

  /** First in, first out; each delivery is as much of its report as fits. */
  ghost predicate InOrder(s: State, size: nat)
  {
    && s.accepted == s.taken + s.queued
    && (forall i :: 0 <= i < |s.accepted| ==> 1 <= |s.accepted[i]| <= size + 1)
    && |s.delivered| == |s.taken|
    && forall i :: 0 <= i < |s.taken| ==> Fits(s.delivered[i], s.taken[i])
  }

  predicate Fits(d: Delivery, r: Bytes)
  {
    d.data <= r && |d.data| == if d.room < |r| then d.room else |r|
  }

  /** There is something for a reader: a report or an error. */
  predicate Pending(s: State) { s.queued != [] || s.error < 0 }

  function One(b: bool): nat { if b then 1 else 0 }

  /** Enough wake-ups for what is pending, and one more that stays once the device is gone. */
  ghost predicate Awake(s: State)
  {
    s.error <= 0 && s.bytes + One(s.owed) >= One(Pending(s)) + One(s.gone)
  }

  lemma StepKeepsPool(s: State, size: nat, capacity: nat, a: Action)
    requires PoolKept(s)
    ensures PoolKept(Step(s, size, capacity, a))
  {
  }

  lemma EnqueueKeepsOrder(s: State, size: nat, id: Byte, payload: Bytes, memory: bool)
    requires InOrder(s, size)
    ensures InOrder(Enqueue(s, size, id, payload, memory), size)
  {
    var report, s' := Stored(size, id, payload), Enqueue(s, size, id, payload, memory);
    if s'.queued == s.queued {
      assert s'.accepted == s.accepted && s'.taken == s.taken && s'.delivered == s.delivered;
    } else {
      Regroup(s.taken, s.queued, [report]);
      assert s'.accepted == s'.taken + s'.queued;
      assert 1 <= |report| <= size + 1;
    }
  }

  lemma DequeueKeepsOrder(s: State, size: nat, room: nat)
    requires InOrder(s, size)
    ensures InOrder(Dequeue(s, room).0, size)
  {
    if s.error >= 0 && s.queued != [] {
      var s', r := Dequeue(s, room).0, s.queued[0];
      assert s.taken + s.queued == s.taken + [r] + s.queued[1..];
      assert s'.accepted == s'.taken + s'.queued;
      assert Fits(Delivery(room, Prefix(r, room)), r);
      forall i | 0 <= i < |s'.taken| ensures Fits(s'.delivered[i], s'.taken[i]) {
        if i < |s.taken| {
          assert Fits(s.delivered[i], s.taken[i]);
        }
      }
    }
  }

  lemma StepKeepsOrder(s: State, size: nat, capacity: nat, a: Action)
    requires InOrder(s, size)
    ensures InOrder(Step(s, size, capacity, a), size)
  {
    match a
    case Arrive(id, payload, memory) => EnqueueKeepsOrder(s, size, id, payload, memory);
    case Take =>
      if s.reader.Ready? {
        DequeueKeepsOrder(s, size, s.reader.room);
      }
    case _ =>
  }

  lemma StepKeepsAwake(s: State, size: nat, capacity: nat, a: Action)
    requires PoolKept(s) && Awake(s) && 2 <= capacity
    ensures Awake(Step(s, size, capacity, a))
  {
  }

  /** Under every interleaving: the pool is conserved, delivery is in order, and no wake-up is lost. */
  lemma {:induction false} RunKeeps(s: State, size: nat, capacity: nat, actions: seq<Action>)
    requires PoolKept(s) && InOrder(s, size) && Awake(s) && 2 <= capacity
    ensures var s' := Run(s, size, capacity, actions); PoolKept(s') && InOrder(s', size) && Awake(s')
    decreases |actions|
  {
    if actions != [] {
      StepKeepsPool(s, size, capacity, actions[0]);
      StepKeepsOrder(s, size, capacity, actions[0]);
      StepKeepsAwake(s, size, capacity, actions[0]);
      RunKeeps(Step(s, size, capacity, actions[0]), size, capacity, actions[1..]);
    }
  }

  /**
   A reader blocked in poll() while something is pending, or the device is gone, can go on: at once,
   or as soon as the run-loop thread has made the write it owes.
   */
  lemma NoLostWakeUp(size: nat, capacity: nat, actions: seq<Action>)
    requires 2 <= capacity
    ensures var s := Run(START, size, capacity, actions);
            Pending(s) || s.gone ==>
              && (0 < s.bytes || s.owed)
              && (s.reader.Polling? ==> Run(s, size, capacity, [Fire, PollReady]).reader == Ready(s.reader.room))
  {
    RunKeeps(START, size, capacity, actions);
    var s := Run(START, size, capacity, actions);
    if (Pending(s) || s.gone) && s.reader.Polling? {
      PollerGoesOn(s, size, capacity);
    }
  }

  lemma PollerGoesOn(s: State, size: nat, capacity: nat)
    requires 2 <= capacity && (0 < s.bytes || s.owed) && s.reader.Polling?
    ensures Run(s, size, capacity, [Fire, PollReady]).reader == Ready(s.reader.room)
  {
    RunTwo(s, size, capacity, Fire, PollReady);
  }

  lemma RunTwo(s: State, size: nat, capacity: nat, a: Action, b: Action)
    ensures Run(s, size, capacity, [a, b]) == Step(Step(s, size, capacity, a), size, capacity, b)
  {
    var s1 := Step(s, size, capacity, a);
    assert [a, b][1..] == [b] && [b][1..] == [];
    assert Run(s1, size, capacity, [b]) == Run(Step(s1, size, capacity, b), size, capacity, []);
    assert Run(s, size, capacity, [a, b]) == Run(s1, size, capacity, [b]);
  }

  /** A report is refused for lack of space exactly when 64 are queued; then no wake-up is owed for it. */
  lemma RefusedOnlyWhenFull(size: nat, capacity: nat, actions: seq<Action>, id: Byte, payload: Bytes)
    requires 2 <= capacity
    ensures var s := Run(START, size, capacity, actions);
            var s' := Enqueue(s, size, id, payload, true);
            && (s'.accepted == s.accepted <==> |s.queued| == MAX_REPORTS)
            && (s'.accepted == s.accepted ==> s'.queued == s.queued && !s'.owed)
  {
    RunKeeps(START, size, capacity, actions);
  }

  /** An error is reported before any report, and consumes none. */
  lemma ErrorsConsumeNothing(s: State, room: nat)
    requires s.error < 0
    ensures var (s', r) := Dequeue(s, room);
            r == s.error && s'.error == 0 && s'.queued == s.queued && s'.taken == s.taken && s'.free == s.free
  {
  }

  /** Reading an empty queue returns 0 and does nothing. */
  lemma NothingToRead(s: State, room: nat)
    requires !Pending(s)
    ensures Dequeue(s, room) == (s, 0)
  {
  }

  /** Reading otherwise takes the first report, gives the caller what fits, and frees its node. */
  lemma FirstIsRead(s: State, room: nat)
    requires s.error >= 0 && s.queued != []
    ensures var (s', r) := Dequeue(s, room);
            && s.queued == [s.queued[0]] + s'.queued && s'.free == s.free + 1
            && |s'.delivered| == |s.delivered| + 1 && s.delivered < s'.delivered
            && var d := s'.delivered[|s.delivered|]; d.room == room && Fits(d, s.queued[0]) && r == |d.data|
  {
    var d := Dequeue(s, room).0.delivered[|s.delivered|];
    assert d.data == Prefix(s.queued[0], room);
  }

  // ---------- what the reports are ----------

  /** What the device sent: a report id and the bytes behind it. */
  datatype Packet = Packet(id: Byte, payload: Bytes)

  /** The id, and as much of the payload as the handle takes. */
  predicate Carries(report: Bytes, p: Packet, size: nat)
  {
    && |report| == 1 + (if |p.payload| < size then |p.payload| else size)
    && report[0] == p.id
    && forall i :: 1 <= i < |report| ==> report[i] == p.payload[i - 1]
  }

  /** The report thread is free, and there is a node or the memory for one. */
  predicate Admits(s: State, a: Action)
  {
    a.Arrive? && !s.owed && (0 < s.free || (s.pool != 64 && a.memory))
  }

  /** A report is stored exactly then, behind all others; and a lack of memory, only that, is recorded as an error. */
  lemma ArrivalIsStored(s: State, size: nat, capacity: nat, a: Action)
    requires a.Arrive?
    ensures var s' := Step(s, size, capacity, a);
            && (if Admits(s, a) then
                  && |s'.accepted| == |s.accepted| + 1 && s.accepted < s'.accepted
                  && |s'.queued| == |s.queued| + 1 && s.queued < s'.queued
                  && s'.queued[|s.queued|] == s'.accepted[|s.accepted|]
                  && Carries(s'.accepted[|s.accepted|], Packet(a.id, a.payload), size)
                else
                  s'.accepted == s.accepted && s'.queued == s.queued)
            && s'.error == (if !s.owed && s.free == 0 && s.pool != 64 && !a.memory then ERROR_MEMORY else s.error)
            && s'.taken == s.taken && s'.delivered == s.delivered
  {
  }

  lemma OnlyArrivalsAreAccepted(s: State, size: nat, capacity: nat, a: Action)
    requires !a.Arrive?
    ensures Step(s, size, capacity, a).accepted == s.accepted
  {
  }

  /** What was sent in the arrivals of a run that were not refused. */
  function Admitted(s: State, size: nat, capacity: nat, actions: seq<Action>): seq<Packet>
    decreases |actions|
  {
    if actions == [] then []
    else
      (if Admits(s, actions[0]) then [Packet(actions[0].id, actions[0].payload)] else [])
      + Admitted(Step(s, size, capacity, actions[0]), size, capacity, actions[1..])
  }

  ghost predicate CarryAll(reports: seq<Bytes>, packets: seq<Packet>, size: nat)
  {
    |reports| == |packets| && forall k :: 0 <= k < |reports| ==> Carries(reports[k], packets[k], size)
  }

  lemma CarryConcat(r1: seq<Bytes>, p1: seq<Packet>, r2: seq<Bytes>, p2: seq<Packet>, size: nat)
    requires CarryAll(r1, p1, size) && CarryAll(r2, p2, size)
    ensures CarryAll(r1 + r2, p1 + p2, size)
  {
  }

  /** The reports accepted in a run are, one for one and in order, what arrived and was not refused. */
  lemma {:induction false} RunAccepts(s: State, size: nat, capacity: nat, actions: seq<Action>)
    ensures var s' := Run(s, size, capacity, actions);
            && s.accepted <= s'.accepted
            && CarryAll(s'.accepted[|s.accepted|..], Admitted(s, size, capacity, actions), size)
    decreases |actions|
  {
    if actions != [] {
      var a := actions[0];
      var s1, s' := Step(s, size, capacity, a), Run(s, size, capacity, actions);
      var first := if Admits(s, a) then [Packet(a.id, a.payload)] else [];
      if a.Arrive? {
        ArrivalIsStored(s, size, capacity, a);
      } else {
        OnlyArrivalsAreAccepted(s, size, capacity, a);
      }
      assert CarryAll(s1.accepted[|s.accepted|..], first, size);
      RunAccepts(s1, size, capacity, actions[1..]);
      CarryConcat(s1.accepted[|s.accepted|..], first, s'.accepted[|s1.accepted|..],
                  Admitted(s1, size, capacity, actions[1..]), size);
      assert s'.accepted[|s.accepted|..] == s1.accepted[|s.accepted|..] + s'.accepted[|s1.accepted|..];
    }
  }

  /** What the k-th read got is what was sent in the k-th arrival not refused, cut to the handle's and the reader's size. */
  predicate Delivers(d: Delivery, p: Packet, size: nat)
  {
    var n := 1 + if |p.payload| < size then |p.payload| else size;
    && |d.data| == (if d.room < n then d.room else n)
    && (0 < |d.data| ==> d.data[0] == p.id)
    && forall i :: 1 <= i < |d.data| ==> d.data[i] == p.payload[i - 1]
  }

  lemma FitsDelivers(d: Delivery, r: Bytes, p: Packet, size: nat)
    requires Fits(d, r) && Carries(r, p, size)
    ensures Delivers(d, p, size)
  {
    assert forall i :: 0 <= i < |d.data| ==> d.data[i] == r[i];
  }

  lemma DeliveredIsSent(size: nat, capacity: nat, actions: seq<Action>)
    requires 2 <= capacity
    ensures var s, sent := Run(START, size, capacity, actions), Admitted(START, size, capacity, actions);
            && |s.delivered| <= |sent| && |s.delivered| + |s.queued| == |sent|
            && forall k :: 0 <= k < |s.delivered| ==> Delivers(s.delivered[k], sent[k], size)
  {
    var s, sent := Run(START, size, capacity, actions), Admitted(START, size, capacity, actions);
    RunKeeps(START, size, capacity, actions);
    RunAccepts(START, size, capacity, actions);
    assert s.accepted[0..] == s.accepted;
    forall k | 0 <= k < |s.delivered| ensures Delivers(s.delivered[k], sent[k], size) {
      assert s.taken[k] == s.accepted[k] && Carries(s.accepted[k], sent[k], size);
      FitsDelivers(s.delivered[k], s.taken[k], sent[k], size);
    }
  }

  // ---------- removal ----------

  /** The removal of the device, once the report thread gets to it, stays known. */
  lemma {:induction false} RunStaysGone(s: State, size: nat, capacity: nat, actions: seq<Action>)
    ensures s.gone ==> Run(s, size, capacity, actions).gone
    decreases |actions|
  {
    if actions != [] {
      RunStaysGone(Step(s, size, capacity, actions[0]), size, capacity, actions[1..]);
    }
  }

  /** From the removal on, under every interleaving, the pipe is readable or about to be, and no read starts. */
  lemma RemovalIsSeen(size: nat, capacity: nat, before: seq<Action>, after: seq<Action>)
    requires 2 <= capacity && !Run(START, size, capacity, before).owed
    ensures var s := Run(Step(Run(START, size, capacity, before), size, capacity, Vanish), size, capacity, after);
            && s.gone && (0 < s.bytes || s.owed)
            && forall room, wait :: Step(s, size, capacity, Call(room, wait)) == s
  {
    var s0 := Run(START, size, capacity, before);
    RunKeeps(START, size, capacity, before);
    StepKeepsPool(s0, size, capacity, Vanish);
    StepKeepsOrder(s0, size, capacity, Vanish);
    StepKeepsAwake(s0, size, capacity, Vanish);
    var s1 := Step(s0, size, capacity, Vanish);
    RunKeeps(s1, size, capacity, after);
    RunStaysGone(s1, size, capacity, after);
  }

  // ---------- how exact the pipe is ----------

  /**
   The two races after which the pipe holds one byte too many: the last report is taken before the
   write that announces it, or a first report (or failure) is announced while an error still is.
   */
  predicate Race(s: State, a: Action)
  {
    match a
    case Take =>
      && s.reader.Ready? && s.bytes == 0
      && (if s.error < 0 then s.queued == [] else |s.queued| == 1)
    case Arrive(_, _, _) => !s.owed && s.queued == [] && s.error < 0
    case _ => false
  }

  function Races(s: State, size: nat, capacity: nat, actions: seq<Action>): nat
    decreases |actions|
  {
    if actions == [] then 0
    else One(Race(s, actions[0])) + Races(Step(s, size, capacity, actions[0]), size, capacity, actions[1..])
  }

  /** No write finds the pipe full. */
  predicate Roomy(s: State, size: nat, capacity: nat, actions: seq<Action>)
    decreases |actions|
  {
    actions == [] || ((actions[0] == Fire ==> s.bytes < capacity)
                      && Roomy(Step(s, size, capacity, actions[0]), size, capacity, actions[1..]))
  }

  ghost predicate Surplus(s: State, n: nat)
  {
    s.error <= 0 && s.bytes + One(s.owed) == One(Pending(s)) + One(s.gone) + n
  }

  lemma StepSurplus(s: State, size: nat, capacity: nat, a: Action, n: nat)
    requires PoolKept(s) && Surplus(s, n) && (a == Fire ==> s.bytes < capacity)
    ensures Surplus(Step(s, size, capacity, a), n + One(Race(s, a)))
  {
  }

  /** The bytes in the pipe, and the one owed, exceed what is pending by the number of races so far. */
  lemma {:induction false} RunSurplus(s: State, size: nat, capacity: nat, actions: seq<Action>, n: nat)
    requires PoolKept(s) && Surplus(s, n) && Roomy(s, size, capacity, actions)
    ensures Surplus(Run(s, size, capacity, actions), n + Races(s, size, capacity, actions))
    decreases |actions|
  {
    if actions != [] {
      StepKeepsPool(s, size, capacity, actions[0]);
      StepSurplus(s, size, capacity, actions[0], n);
      RunSurplus(Step(s, size, capacity, actions[0]), size, capacity, actions[1..], n + One(Race(s, actions[0])));
    }
  }

  /** What n races leave when writes may also be lost to a full pipe: too much if there was one, else the exact number. */
  ghost predicate Exact(s: State, n: nat)
  {
    var have, need := s.bytes + One(s.owed), One(Pending(s)) + One(s.gone);
    && s.error <= 0
    && (n == 0 ==> have == need)
    && (0 < n ==> have >= need)
    && (0 < n && !s.gone ==> have > need)
  }

  lemma StepKeepsExact(s: State, size: nat, capacity: nat, a: Action, n: nat)
    requires PoolKept(s) && Exact(s, n) && 2 <= capacity
    ensures Exact(Step(s, size, capacity, a), n + One(Race(s, a)))
  {
  }

  lemma {:induction false} RunKeepsExact(s: State, size: nat, capacity: nat, actions: seq<Action>, n: nat)
    requires PoolKept(s) && Exact(s, n) && 2 <= capacity
    ensures Exact(Run(s, size, capacity, actions), n + Races(s, size, capacity, actions))
    decreases |actions|
  {
    if actions != [] {
      StepKeepsPool(s, size, capacity, actions[0]);
      StepKeepsExact(s, size, capacity, actions[0], n);
      RunKeepsExact(Step(s, size, capacity, actions[0]), size, capacity, actions[1..], n + One(Race(s, actions[0])));
    }
  }

  /**
   Under every interleaving, while the device is there and no write is owed: the pipe is readable iff
   something is pending, or a race has happened.
   */
  lemma ReadableIffPendingOrRaced(size: nat, capacity: nat, actions: seq<Action>)
    requires 2 <= capacity
    ensures var s := Run(START, size, capacity, actions);
            !s.owed && !s.gone ==> (0 < s.bytes <==> Pending(s) || 0 < Races(START, size, capacity, actions))
  {
    RunKeepsExact(START, size, capacity, actions, 0);
  }

  /** Such a race: the report is read before its wake-up is written, so poll() lies from then on. */
  lemma StaleWakeUp(size: nat, id: Byte)
    ensures var s := Run(START, size, 2, [Arrive(id, [], true), Call(1, false), Take, Fire]);
            s.bytes == 1 && !s.owed && !Pending(s)
  {
    var a, b, c, d := Arrive(id, [], true), Call(1, false), Take, Fire;
    var s1 := Step(START, size, 2, a);
    assert |s1.queued| == 1 && s1.owed && |Stored(size, id, [])| == 1;
    var s2 := Step(s1, size, 2, b);
    var s3 := Step(s2, size, 2, c);
    assert s3.queued == [] && s3.owed && s3.bytes == 0 && !Pending(s3);
    RunTwo(s2, size, 2, c, d);
    assert [a, b, c, d][1..] == [b, c, d] && [b, c, d][1..] == [c, d];
    assert Run(s1, size, 2, [b, c, d]) == Run(s2, size, 2, [c, d]);
  }
}
