/**
 The registry behind the notifications of src/monitor_win32.c: what a turn of hs_monitor_refresh makes
 of the first notification is done to the registry, and its result steers the protocol of module
 Notifications, while the background thread goes on posting.
 */
module RegistryWin32 {
  import opened Wrappers
  import R = Registry
  import N = Notifications
  import E = HotplugEvents

  datatype Joint = Joint(registry: R.State, queue: N.State, done: seq<E.Hotplug>)

  /** A step that leaves the registry alone, or a turn, with what discovery makes of an arrival. */
  datatype Move = Protocol(a: N.Action) | Turn(found: int, iface: Byte)

  /** The notification, as an event with the outcome of discovery. */
  function Met(n: N.Notification, found: int, iface: Byte): E.Hotplug
  {
    match n
    case Added(key) => E.Plugged(found, key, iface)
    case Removed(key) => E.Unplugged(key)
  }

  function Step(j: Joint, m: Move, answers: R.Answers): (j': Joint)
    requires 0 < |j.registry.buckets|
    ensures |j'.registry.buckets| == |j.registry.buckets|
  {
    match m
    case Protocol(a) => if a.Handle? then j else j.(queue := N.Step(j.queue, a))
    case Turn(found, iface) =>
      if !j.queue.stage.Working? || j.queue.local == [] then j.(queue := N.Step(j.queue, N.Handle(0)))
      else
        var ev := Met(j.queue.local[0], found, iface);
        var r := E.ResultOf(j.registry, ev, answers);
        Joint(R.Run(j.registry, E.OpsOf(ev), answers), N.Step(j.queue, N.Handle(r)), j.done + [ev])
  }

  function Run(j: Joint, moves: seq<Move>, answers: R.Answers): (j': Joint)
    requires 0 < |j.registry.buckets|
    ensures |j'.registry.buckets| == |j.registry.buckets|
    decreases |moves|
  {
    if moves == [] then j else Run(Step(j, moves[0], answers), moves[1..], answers)
  }

  predicate Meets(ev: E.Hotplug, n: N.Notification)
  {
    match n
    case Added(key) => ev.Plugged? && ev.key == key
    case Removed(key) => ev == E.Unplugged(key)
  }

  /** From s0 on the registry did the events, which are the notifications handled, a prefix of those posted. */
  ghost predicate InStep(s0: R.State, j: Joint, answers: R.Answers)
    requires 0 < |s0.buckets|
  {
    && N.Conserved(j.queue) && N.Signalled(j.queue)
    && j.registry == R.Run(s0, E.Ops(j.done), answers)
    && |j.done| == |j.queue.handled|
    && forall i :: 0 <= i < |j.done| ==> Meets(j.done[i], j.queue.handled[i])
  }

  lemma {:induction false} OpsConcat(a: seq<E.Hotplug>, b: seq<E.Hotplug>)
    ensures E.Ops(a + b) == E.Ops(a) + E.Ops(b)
    decreases |a|
  {
    if a == [] {
      assert a + b == b;
    } else {
      assert (a + b)[0] == a[0] && (a + b)[1..] == a[1..] + b;
      OpsConcat(a[1..], b);
      Regroup(E.OpsOf(a[0]), E.Ops(a[1..]), E.Ops(b));
    }
  }

  lemma OneMore(s0: R.State, done: seq<E.Hotplug>, ev: E.Hotplug, answers: R.Answers)
    requires 0 < |s0.buckets|
    ensures R.Run(s0, E.Ops(done + [ev]), answers) == R.Run(R.Run(s0, E.Ops(done), answers), E.OpsOf(ev), answers)
  {
    OpsConcat(done, [ev]);
    assert [ev][1..] == [] && E.Ops([ev]) == E.OpsOf(ev) + [] == E.OpsOf(ev);
    R.RunConcat(s0, E.Ops(done), E.OpsOf(ev), answers);
  }

  lemma QueueStepKeeps(q: N.State, a: N.Action)
    requires N.Conserved(q) && N.Signalled(q)
    ensures N.Conserved(N.Step(q, a)) && N.Signalled(N.Step(q, a))
    ensures N.Step(q, a).handled ==
            q.handled + if a.Handle? && q.stage.Working? && q.local != [] then [q.local[0]] else []
  {
    N.StepConserves(q, a);
    N.StepSignals(q, a);
  }

  lemma TurnKeepsInStep(s0: R.State, j: Joint, found: int, iface: Byte, answers: R.Answers)
    requires 0 < |s0.buckets| == |j.registry.buckets| && InStep(s0, j, answers)
    requires j.queue.stage.Working? && j.queue.local != []
    ensures InStep(s0, Step(j, Turn(found, iface), answers), answers)
  {
    var n := j.queue.local[0];
    var ev := Met(n, found, iface);
    assert Meets(ev, n);
    QueueStepKeeps(j.queue, N.Handle(E.ResultOf(j.registry, ev, answers)));
    OneMore(s0, j.done, ev, answers);
  }

  lemma StepKeepsInStep(s0: R.State, j: Joint, m: Move, answers: R.Answers)
    requires 0 < |s0.buckets| == |j.registry.buckets| && InStep(s0, j, answers)
    ensures InStep(s0, Step(j, m, answers), answers)
  {
    match m
    case Protocol(a) => QueueStepKeeps(j.queue, a);
    case Turn(found, iface) =>
      if j.queue.stage.Working? && j.queue.local != [] {
        TurnKeepsInStep(s0, j, found, iface, answers);
      } else {
        QueueStepKeeps(j.queue, N.Handle(0));
      }
  }

  /**
   A turn adds what discovery found, or removes every device with the key; an arrival that discovery or
   a callback fails ends the refresh with that error, and nothing else does.
   */
  lemma TurnMeans(j: Joint, found: int, iface: Byte, answers: R.Answers, d: R.Ident)
    requires R.WellFormed(j.registry) && j.queue.stage.Working? && j.queue.local != []
    ensures var n, j' := j.queue.local[0], Step(j, Turn(found, iface), answers);
            && j'.queue.handled == j.queue.handled + [n]
            && (n.Added? ==> (R.Registered(j'.registry, d) <==>
                              R.Registered(j.registry, d) || (0 < found && d == R.Ident(n.key, iface))))
            && (n.Removed? ==> (R.Registered(j'.registry, d) <==> R.Registered(j.registry, d) && d.key != n.key))
            && j.registry.calls <= j'.registry.calls
            && var calls := R.NewCalls(j.registry, j'.registry);
               var error := if n.Removed? then 0 else if found <= 0 then found else R.LastAnswer(calls);
               j'.queue.stage == if error < 0 then N.Leaving(error) else N.Working
  {
    var n := j.queue.local[0];
    var ev := Met(n, found, iface);
    E.EventMeans(j.registry, ev, answers, d);
    E.ResultMeans(j.registry, ev, answers);
    N.TurnEnds(j.queue, E.ResultOf(j.registry, ev, answers));
  }

  lemma {:induction false} RunKeepsInStep(s0: R.State, j: Joint, moves: seq<Move>, answers: R.Answers)
    requires 0 < |s0.buckets| == |j.registry.buckets| && InStep(s0, j, answers)
    ensures InStep(s0, Run(j, moves, answers), answers)
    decreases |moves|
  {
    if moves != [] {
      StepKeepsInStep(s0, j, moves[0], answers);
      RunKeepsInStep(s0, Step(j, moves[0], answers), moves[1..], answers);
    }
  }

  /**
   Under every interleaving and for all outcomes of discovery: the registry holds what a plain set
   would after the operations of the notifications handled, which are a prefix of those posted, in
   order; the others are still waiting.
   */
  lemma RegistryFollowsPosted(s0: R.State, devs: set<R.Ident>, moves: seq<Move>, answers: R.Answers)
    requires R.WellFormed(s0) && forall d :: R.Registered(s0, d) <==> d in devs
    ensures var j := Run(Joint(s0, N.START, []), moves, answers);
            && j.registry == R.Run(s0, E.Ops(j.done), answers)
            && (forall d :: R.Registered(j.registry, d) <==> d in R.Replay(devs, E.Ops(j.done)))
            && |j.done| <= |j.queue.posted|
            && (forall i :: 0 <= i < |j.done| ==> Meets(j.done[i], j.queue.posted[i]))
            && j.queue.posted[|j.done|..] == j.queue.local + j.queue.shared
  {
    var start := Joint(s0, N.START, []);
    assert E.Ops([]) == [];
    RunKeepsInStep(s0, start, moves, answers);
    var j := Run(start, moves, answers);
    Regroup(j.queue.handled, j.queue.local, j.queue.shared);
    R.RunHoldsReplay(s0, devs, E.Ops(j.done), answers);
  }
}
