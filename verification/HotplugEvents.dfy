/**
 What hs_monitor_refresh makes of the registry: the hot-plug events of the system, one after the
 other, until one of them fails.  This is the loop of src/monitor_linux.c on values; module Monitor
 proves that the code does it.
 */
module HotplugEvents {
  import opened Wrappers
  import opened Registry

  /** A hot-plug event of the system; for an arrival, what discovery makes of it. */
  datatype Hotplug = Plugged(found: int, key: string, iface: Byte) | Unplugged(key: string) | Other

  function OpsOf(ev: Hotplug): seq<Op>
  {
    match ev
    case Plugged(found, key, iface) => if found > 0 then [Op.Add(Ident(key, iface))] else []
    case Unplugged(key) => [Op.Remove(key)]
    case Other => []
  }

  /** What handling the event returns. */
  function ResultOf(s: State, ev: Hotplug, answers: Answers): int
    requires 0 < |s.buckets|
  {
    match ev
    case Plugged(found, key, iface) => if found > 0 then AddDevice(s, Ident(key, iface), answers).1 else found
    case Unplugged(_) => 0
    case Other => 0
  }

  lemma OpsOfRun(s: State, ev: Hotplug, answers: Answers)
    requires 0 < |s.buckets|
    ensures Run(s, OpsOf(ev), answers) ==
            if ev.Plugged? && ev.found > 0 then AddDevice(s, Ident(ev.key, ev.iface), answers).0
            else if ev.Unplugged? then RemoveKey(s, ev.key, answers)
            else s
  {
    if OpsOf(ev) != [] {
      assert OpsOf(ev)[1..] == [];
    }
  }

  datatype Progress = Progress(handled: nat, state: State, ret: int)

  /** The events from the n-th on, until one of them fails. */
  function Process(s: State, events: seq<Hotplug>, n: nat, answers: Answers): Progress
    requires 0 < |s.buckets|
    decreases |events| - n
  {
    if n >= |events| then Progress(n, s, 0)
    else
      var s', r := Run(s, OpsOf(events[n]), answers), ResultOf(s, events[n], answers);
      if r < 0 then Progress(n + 1, s', r) else Process(s', events, n + 1, answers)
  }

  lemma OnlyArrivalsFail(s: State, event: Hotplug, answers: Answers)
    requires 0 < |s.buckets|
    ensures ResultOf(s, event, answers) < 0 ==> event.Plugged?
  {
  }

  function Ops(events: seq<Hotplug>): seq<Op>
  {
    if events == [] then [] else OpsOf(events[0]) + Ops(events[1..])
  }

  /** It handles every event, or stops behind an arrival that failed. */
  lemma {:induction false} ProcessEnds(s: State, events: seq<Hotplug>, n: nat, answers: Answers)
    requires 0 < |s.buckets| && n <= |events|
    ensures var p := Process(s, events, n, answers);
            && n <= p.handled <= |events|
            && (p.ret < 0 ==> n < p.handled && events[p.handled - 1].Plugged?)
            && (p.ret >= 0 ==> p.ret == 0 && p.handled == |events|)
    decreases |events| - n
  {
    if n < |events| {
      OnlyArrivalsFail(s, events[n], answers);
      if ResultOf(s, events[n], answers) >= 0 {
        ProcessEnds(Run(s, OpsOf(events[n]), answers), events, n + 1, answers);
      }
    }
  }

  /**
   A refresh is a run of the registry over the events it handled: all of them, or those up to and
   including the first failed arrival.
   */
  lemma {:induction false} ProcessIsRun(s: State, events: seq<Hotplug>, n: nat, answers: Answers)
    requires 0 < |s.buckets| && n <= |events|
    ensures var p := Process(s, events, n, answers);
            && n <= p.handled <= |events|
            && p.state == Run(s, Ops(events[n..p.handled]), answers)
            && (p.ret < 0 ==> n < p.handled && events[p.handled - 1].Plugged?)
            && (p.ret >= 0 ==> p.ret == 0 && p.handled == |events|)
    decreases |events| - n
  {
    ProcessEnds(s, events, n, answers);
    if n < |events| {
      var s', p := Run(s, OpsOf(events[n]), answers), Process(s, events, n, answers);
      if ResultOf(s, events[n], answers) >= 0 {
        ProcessIsRun(s', events, n + 1, answers);
      }
      var part := events[n..p.handled];
      assert part[1..] == events[n + 1..p.handled] && part[0] == events[n];
      RunConcat(s, OpsOf(events[n]), Ops(part[1..]), answers);
      assert p.handled == n + 1 ==> part[1..] == [];
    }
  }

  // ---------- what becomes of the answers of callbacks ----------

  lemma {:induction false} RunAddsCalls(s: State, ops: seq<Op>, answers: Answers)
    requires 0 < |s.buckets|
    ensures s.calls <= Run(s, ops, answers).calls
    decreases |ops|
  {
    if ops != [] {
      StepObeysExactlyIf(s, ops[0], answers);
      RunAddsCalls(Step(s, ops[0], answers), ops[1..], answers);
    }
  }

  /** The state in which a refresh that handled the events from n up to `handled` came to the last of them. */
  function BeforeLast(s: State, events: seq<Hotplug>, n: nat, handled: nat, answers: Answers): State
    requires 0 < |s.buckets| && n <= handled <= |events|
  {
    if n == handled then s else Run(s, Ops(events[n..handled - 1]), answers)
  }

  predicate AllZero(calls: seq<Call>) { forall k :: 0 <= k < |calls| ==> calls[k].answer == 0 }

  /** A non-zero answer came in the last event handled, was the last of all, and is what ret is. */
  predicate Stopped(early: seq<Call>, late: seq<Call>, ret: int)
  {
    AllZero(early) && OnlyLast(late) && (LastAnswer(late) != 0 ==> ret == LastAnswer(late))
  }

  /** The rule of include/hs/monitor.h for a refresh: non-zero answers stop it and are returned. */
  ghost predicate RefreshObeys(s: State, events: seq<Hotplug>, n: nat, answers: Answers)
    requires 0 < |s.buckets| && n <= |events|
  {
    var p := Process(s, events, n, answers);
    ProcessEnds(s, events, n, answers);
    var before := BeforeLast(s, events, n, p.handled, answers);
    && s.calls <= before.calls <= p.state.calls
    && Stopped(NewCalls(s, before), NewCalls(before, p.state), p.ret)
  }

  /** One event: what it returns is never positive, and if it is 0 only zeros are heeded. */
  lemma EventStops(s: State, ev: Hotplug, answers: Answers)
    requires 0 < |s.buckets|
    ensures var s', ret := Run(s, OpsOf(ev), answers), ResultOf(s, ev, answers);
            && s.calls <= s'.calls && ret <= 0
            && (Stopped([], NewCalls(s, s'), ret) <==> AllHeeded(NewCalls(s, s')))
            && (ret == 0 ==> (AllZero(NewCalls(s, s')) <==> AllHeeded(NewCalls(s, s'))))
  {
    if OpsOf(ev) != [] {
      StepObeysExactlyIf(s, OpsOf(ev)[0], answers);
      assert OpsOf(ev)[1..] == [];
      assert Run(s, OpsOf(ev), answers) == Step(s, OpsOf(ev)[0], answers);
    }
  }

  lemma ForBoth(a: seq<Call>, b: seq<Call>)
    ensures AllHeeded(a + b) <==> AllHeeded(a) && AllHeeded(b)
    ensures AllZero(a + b) <==> AllZero(a) && AllZero(b)
  {
    assert forall k :: 0 <= k < |a| ==> a[k] == (a + b)[k];
    assert forall k :: 0 <= k < |b| ==> b[k] == (a + b)[|a| + k];
  }

  lemma NewCallsConcat(s: State, s': State, s'': State)
    requires s.calls <= s'.calls <= s''.calls
    ensures NewCalls(s, s'') == NewCalls(s, s') + NewCalls(s', s'')
  {
  }

  lemma FirstIsLast(s: State, events: seq<Hotplug>, n: nat, answers: Answers)
    requires 0 < |s.buckets| && n < |events| && Process(s, events, n, answers).handled == n + 1
    ensures var p := Process(s, events, n, answers);
            && p.state == Run(s, OpsOf(events[n]), answers) && p.ret == ResultOf(s, events[n], answers)
            && s.calls <= p.state.calls
            && (RefreshObeys(s, events, n, answers) <==> Stopped([], NewCalls(s, p.state), p.ret))
  {
    EventStops(s, events[n], answers);
    ProcessEnds(s, events, n, answers);
    assert events[n..n + 1 - 1] == [];
    assert BeforeLast(s, events, n, n + 1, answers) == s;
    if ResultOf(s, events[n], answers) >= 0 {
      ProcessEnds(Run(s, OpsOf(events[n]), answers), events, n + 1, answers);
    }
  }

  lemma BeforeLastNext(s: State, events: seq<Hotplug>, n: nat, handled: nat, answers: Answers)
    requires 0 < |s.buckets| && n + 1 < handled <= |events|
    ensures var s1 := Run(s, OpsOf(events[n]), answers);
            && s1.calls <= BeforeLast(s1, events, n + 1, handled, answers).calls
            && BeforeLast(s, events, n, handled, answers) == BeforeLast(s1, events, n + 1, handled, answers)
  {
    var part := events[n..handled - 1];
    assert part[1..] == events[n + 1..handled - 1] && part[0] == events[n];
    RunConcat(s, OpsOf(events[n]), Ops(part[1..]), answers);
    RunAddsCalls(Run(s, OpsOf(events[n]), answers), Ops(part[1..]), answers);
  }

  lemma FirstIsEarly(s: State, events: seq<Hotplug>, n: nat, answers: Answers)
    requires 0 < |s.buckets| && n < |events| && n + 1 < Process(s, events, n, answers).handled
    ensures var s1 := Run(s, OpsOf(events[n]), answers);
            && Process(s, events, n, answers) == Process(s1, events, n + 1, answers)
            && s.calls <= s1.calls && ResultOf(s, events[n], answers) == 0
            && (RefreshObeys(s, events, n, answers) <==>
                AllZero(NewCalls(s, s1)) && RefreshObeys(s1, events, n + 1, answers))
  {
    var s1, p := Run(s, OpsOf(events[n]), answers), Process(s, events, n, answers);
    EventStops(s, events[n], answers);
    ProcessEnds(s, events, n, answers);
    BeforeLastNext(s, events, n, p.handled, answers);
    var before := BeforeLast(s1, events, n + 1, p.handled, answers);
    NewCallsConcat(s, s1, before);
    ForBoth(NewCalls(s, s1), NewCalls(s1, before));
  }

  /**
   A refresh keeps to the rule iff every callback it calls answers 0, or reports an error on an
   arrival.
   */
  lemma {:induction false} RefreshObeysExactlyIf(s: State, events: seq<Hotplug>, n: nat, answers: Answers)
    requires 0 < |s.buckets| && n <= |events|
    ensures var s' := Process(s, events, n, answers).state;
            && s.calls <= s'.calls
            && (RefreshObeys(s, events, n, answers) <==> AllHeeded(NewCalls(s, s')))
    decreases |events| - n
  {
    if n < |events| {
      var s1, p := Run(s, OpsOf(events[n]), answers), Process(s, events, n, answers);
      EventStops(s, events[n], answers);
      ProcessEnds(s, events, n, answers);
      if p.handled == n + 1 {
        FirstIsLast(s, events, n, answers);
      } else {
        FirstIsEarly(s, events, n, answers);
        RefreshObeysExactlyIf(s1, events, n + 1, answers);
        NewCallsConcat(s, s1, p.state);
        ForBoth(NewCalls(s, s1), NewCalls(s1, p.state));
      }
    }
  }

  /**
   A removal does not keep to it: the callback answers -1, yet the refresh goes on to the next event
   and returns 0.
   */
  lemma RemovalGoesOn(key: string)
    ensures var d := Ident(key, 0);
            var s := State([0], 1, [[d]], [], []);
            var events, answers := [Unplugged(key), Plugged(1, key, 0)], [-1, 0];
            var p := Process(s, events, 0, answers);
            && WellFormed(s)
            && p.ret == 0 && p.handled == 2
            && p.state.calls == [Call(0, Event(d, Disconnected), -1), Call(0, Event(d, Online), 0)]
            && !RefreshObeys(s, events, 0, answers)
  {
    var d := Ident(key, 0);
    var s := State([0], 1, [[d]], [], []);
    var events, answers := [Unplugged(key), Plugged(1, key, 0)], [-1, 0];
    var gone, back := Event(d, Disconnected), Event(d, Online);
    assert Trigger([0], gone, answers, 0) == Outcome([0], [Call(0, gone, -1)], -1);
    assert [0][1..] == [] && [d][1..] == [] && Without([d], d) == [];
    var s1 := RemoveOne(s, d, answers);
    assert s1 == State([0], 1, [[]], [gone], [Call(0, gone, -1)]);
    assert RemoveKey(s, key, answers) == RemoveWalk(s1, key, [], answers) == s1;
    OpsOfRun(s, events[0], answers);
    assert Trigger([0], back, answers, 1) == Outcome([0], [Call(0, back, 0)], 0);
    OpsOfRun(s1, events[1], answers);
    var s2 := AddDevice(s1, d, answers).0;
    assert Process(s1, events, 1, answers) == Process(s2, events, 2, answers);
    RefreshObeysExactlyIf(s, events, 0, answers);
    assert NewCalls(s, s2)[0].answer == -1;
  }

  // ---------- what each event does ----------

  /** The set of devices after an event: an arrival counts if discovery found something usable. */
  lemma EventMeans(s: State, ev: Hotplug, answers: Answers, d: Ident)
    requires WellFormed(s)
    ensures var s' := Run(s, OpsOf(ev), answers);
            && WellFormed(s')
            && (ev.Plugged? ==>
                  (Registered(s', d) <==> Registered(s, d) || (0 < ev.found && d == Ident(ev.key, ev.iface))))
            && (ev.Unplugged? ==> (Registered(s', d) <==> Registered(s, d) && d.key != ev.key))
            && (ev.Other? ==> s' == s)
  {
    OpsOfRun(s, ev, answers);
    match ev
    case Plugged(found, key, iface) =>
      if 0 < found {
        AddKeeps(s, Ident(key, iface), answers);
      }
    case Unplugged(key) => RemoveWalkKeeps(s, key, s.buckets[Home(s, key)], answers);
    case Other =>
  }

  /** The error of an event: that of discovery, or else what the last callback called for an arrival answered. */
  function Failure(ev: Hotplug, calls: seq<Call>): int
  {
    if !ev.Plugged? then 0
    else if ev.found <= 0 then ev.found
    else if LastAnswer(calls) < 0 then LastAnswer(calls) else 0
  }

  lemma ResultMeans(s: State, ev: Hotplug, answers: Answers)
    requires 0 < |s.buckets|
    ensures var s' := Run(s, OpsOf(ev), answers);
            s.calls <= s'.calls && ResultOf(s, ev, answers) == Failure(ev, NewCalls(s, s'))
  {
    EventStops(s, ev, answers);
    if ev.Plugged? && 0 < ev.found {
      OpsOfRun(s, ev, answers);
      var d := Ident(ev.key, ev.iface);
      if !Registered(s, d) {
        var t := Trigger(s.callbacks, Event(d, Online), answers, |s.calls|);
        TriggerStops(s.callbacks, Event(d, Online), answers, |s.calls|);
        assert NewCalls(s, AddDevice(s, d, answers).0) == t.calls;
        if t.ret >= 0 && t.calls != [] {
          assert t.calls[|t.calls| - 1] in t.calls[..|t.calls|];
        }
      }
    }
  }

  /** The errors of the events from n up to h. */
  ghost function Errors(s: State, events: seq<Hotplug>, n: nat, h: nat, answers: Answers): (errors: seq<int>)
    requires 0 < |s.buckets| && n <= h <= |events|
    ensures |errors| == h - n
    decreases h - n
  {
    if n == h then []
    else
      var s1 := Run(s, OpsOf(events[n]), answers);
      RunAddsCalls(s, OpsOf(events[n]), answers);
      [Failure(events[n], NewCalls(s, s1))] + Errors(s1, events, n + 1, h, answers)
  }

  /** None but the last is an error, and that one is ret. */
  predicate OnlyLastIs(errors: seq<int>, ret: int)
  {
    && (forall i :: 0 <= i < |errors| - 1 ==> errors[i] == 0)
    && (errors != [] ==> errors[|errors| - 1] == ret)
  }

  lemma OnlyLastCons(errors: seq<int>, ret: int)
    requires errors != [] && OnlyLastIs(errors, ret)
    ensures OnlyLastIs([0] + errors, ret)
  {
  }

  /**
   A refresh handles one event after the other, stops behind the first one with an error, that of
   discovery included, and returns this error; without one it handles all and returns 0.
   */
  lemma {:induction false} ProcessStops(s: State, events: seq<Hotplug>, n: nat, answers: Answers)
    requires 0 < |s.buckets| && n <= |events|
    ensures var p := Process(s, events, n, answers);
            && n <= p.handled <= |events|
            && OnlyLastIs(Errors(s, events, n, p.handled, answers), p.ret)
            && p.ret <= 0 && (p.ret == 0 ==> p.handled == |events|)
    decreases |events| - n
  {
    ProcessEnds(s, events, n, answers);
    if n < |events| {
      var s1, p := Run(s, OpsOf(events[n]), answers), Process(s, events, n, answers);
      ResultMeans(s, events[n], answers);
      EventStops(s, events[n], answers);
      if ResultOf(s, events[n], answers) >= 0 {
        ProcessStops(s1, events, n + 1, answers);
        ProcessEnds(s1, events, n + 1, answers);
        if n + 1 < p.handled {
          OnlyLastCons(Errors(s1, events, n + 1, p.handled, answers), p.ret);
        }
      }
    }
  }

  /** The devices there are after some events, as anyone would describe it. */
  function Present(devs: set<Ident>, events: seq<Hotplug>): set<Ident>
    decreases |events|
  {
    if events == [] then devs
    else
      var ev := events[0];
      var devs' := if ev.Plugged? && 0 < ev.found then devs + {Ident(ev.key, ev.iface)}
                   else if ev.Unplugged? then set d | d in devs && d.key != ev.key
                   else devs;
      Present(devs', events[1..])
  }

  /** The registry behind any events holds the devices that are present after them. */
  lemma {:induction false} RunHoldsPresent(s: State, devs: set<Ident>, events: seq<Hotplug>, answers: Answers)
    requires WellFormed(s) && forall d :: Registered(s, d) <==> d in devs
    ensures var s' := Run(s, Ops(events), answers);
            WellFormed(s') && forall d :: Registered(s', d) <==> d in Present(devs, events)
    decreases |events|
  {
    if events != [] {
      var ev, s1 := events[0], Run(s, OpsOf(events[0]), answers);
      var devs' := if ev.Plugged? && 0 < ev.found then devs + {Ident(ev.key, ev.iface)}
                   else if ev.Unplugged? then set d | d in devs && d.key != ev.key
                   else devs;
      EventMeans(s, ev, answers, Ident("", 0));
      forall d ensures Registered(s1, d) <==> d in devs' {
        EventMeans(s, ev, answers, d);
      }
      RunConcat(s, OpsOf(ev), Ops(events[1..]), answers);
      RunHoldsPresent(s1, devs', events[1..], answers);
    }
  }
}
