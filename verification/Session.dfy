/**
 A program that uses libhs: it discovers devices, holds references, registers and opens devices, and
 gives everything back.  Every operation is the one of modules Monitor and Handles, on the heap, and is
 proved to make exactly one move of module Ledger; so whatever that module says of worlds holds of the
 reference counts in memory.
 */
module Session {
  import opened Wrappers
  import opened Registry
  import opened Monitor
  import opened Handles
  import H = HashTable
  import L = Ledger

  /** What one handle holds: nothing once it was closed. */
  ghost function One(d: Device?): multiset<Device>
  {
    if d == null then multiset{} else multiset{d}
  }

  ghost function HeldBy(devs: seq<Device?>): multiset<Device>
  {
    if devs == [] then multiset{} else HeldBy(devs[..|devs| - 1]) + One(devs[|devs| - 1])
  }

  lemma HeldBySnoc(devs: seq<Device?>, d: Device?)
    ensures HeldBy(devs + [d]) == HeldBy(devs) + One(d)
  {
    assert (devs + [d])[..|devs|] == devs;
  }

  lemma UpdateSnoc<T>(init: seq<T>, last: T, i: nat, x: T)
    requires i <= |init|
    ensures (init + [last])[i := x] == if i < |init| then init[i := x] + [last] else init + [x]
  {
  }

  lemma Divide<T>(s: seq<T>)
    requires s != []
    ensures s[..|s| - 1] + [s[|s| - 1]] == s
  {
  }

  lemma HeldByLast(init: seq<Device?>, d: Device)
    ensures HeldBy(init + [d]) == HeldBy((init + [d])[|init| := null]) + multiset{d}
  {
    HeldBySnoc(init, d);
    HeldBySnoc(init, null);
    UpdateSnoc<Device?>(init, d, |init|, null);
  }

  lemma HeldByInner(init: seq<Device?>, last: Device?, i: nat, d: Device)
    requires i < |init| && HeldBy(init) == HeldBy(init[i := null]) + multiset{d}
    ensures HeldBy(init + [last]) == HeldBy((init + [last])[i := null]) + multiset{d}
  {
    HeldBySnoc(init, last);
    HeldBySnoc(init[i := null], last);
    UpdateSnoc(init, last, i, null);
  }

  /** Closing a handle gives up what it holds. */
  lemma {:induction false} HeldByClosed(held: seq<Device?>, i: nat, d: Device)
    requires i < |held| && held[i] == d
    ensures HeldBy(held) == HeldBy(held[i := null]) + multiset{d}
    decreases |held|
  {
    var n := |held| - 1;
    Divide(held);
    if i < n {
      HeldByClosed(held[..n], i, d);
      HeldByInner(held[..n], held[n], i, d);
    } else {
      HeldByLast(held[..n], d);
    }
  }

  lemma HandleGone(held: seq<Device?>, i: nat, d: Device)
    requires i < |held| && held[i] == d
    ensures d in HeldBy(held) && HeldBy(held[i := null]) == HeldBy(held) - multiset{d}
  {
    HeldByClosed(held, i, d);
  }

  lemma Twice<T>(s: seq<T>, x: T, y: T)
    ensures s + [x] + [y] == s + [x, y]
  {
  }

  lemma Thrice<T>(s: seq<T>, x: T, y: T, z: T)
    ensures s + [x] + [y, z] == s + [x, y, z]
  {
  }

  lemma AccountsGrow(devs: set<Device>, d: Device)
    requires d !in devs
    ensures Accounts(devs + {d}) == Accounts(devs)[d := Account(d.refcount, d.freed, d.state, d.hnode)]
  {
  }

  /** What can be read off the heap is this world. */
  ghost predicate Shows(w: L.World, devices: set<Device>, callers: multiset<Device>, held: seq<Device?>,
                        members: set<Device>)
    reads devices
  {
    w == L.World(Accounts(devices), callers, HeldBy(held), members)
  }

  class Program {
    const monitor: HsMonitor
    ghost var devices: set<Device>  // every device discovered
    var open: seq<Handle>           // every handle opened
    var callers: multiset<Device>   // the references this program holds
    var released: bool              // the monitor was freed
    ghost var held: seq<Device?>    // what each handle is open on
    ghost var world: L.World
    ghost var log: L.Log            // what was done so far

    ghost function Members(): set<Device>
      reads `released, monitor.devices
    {
      if released then {} else monitor.Owners()
    }

    ghost predicate MonitorValid()
      reads `released, monitor.callbacks, monitor.callbacks.repr, monitor.devices, monitor.devices.repr, monitor.Owners()
    {
      released || monitor.Valid()
    }

    ghost predicate HandlesValid()
      reads `open, `held, open
    {
      && |held| == |open|
      && (forall i, j :: 0 <= i < j < |open| ==> open[i] != open[j])
      && forall i :: 0 <= i < |open| ==> open[i].dev == held[i] && (held[i] != null ==> !open[i].freed)
    }

    /** The world is the one in memory, its counts are right, and it is what came of the moves so far. */
    ghost predicate Valid()
      reads this, devices, open, monitor.devices
    {
      HandlesValid() && Shows(world, devices, callers, held, Members()) && L.Balanced(world) && L.LeadsTo(log, world)
    }

    lemma Next(m: L.Move) returns (w: L.World, record: L.Log)
      requires L.LeadsTo(log, world) && L.Balanced(world) && L.Legal(world, m)
      ensures w == L.Apply(world, m) && L.Balanced(w)
      ensures L.LeadsTo(record, w) && record == L.Extended(log, m, w)
    {
      L.LeadsOn(log, world, m);
      w := L.Apply(world, m);
      record := L.Extended(log, m, w);
    }

    lemma NextOpen(d: Device, ok: bool) returns (w: L.World, record: L.Log)
      requires L.LeadsTo(log, world) && L.Balanced(world) && L.Held(world, d)
      ensures d in world.books && w == L.Apply(world, L.Open(d, ok)) && L.Balanced(w)
      ensures L.LeadsTo(record, w) && record == L.Extended(log, L.Open(d, ok), w)
      ensures w == if ok && world.books[d].state == Online
                   then L.World(L.More(world.books, d, Online), world.callers, world.handles + multiset{d}, world.registered)
                   else world
    {
      w, record := Next(L.Open(d, ok));
    }

    lemma NextRelease() returns (w: L.World, record: L.Log)
      requires L.LeadsTo(log, world) && L.Balanced(world)
      ensures w == L.Apply(world, L.Release) && L.Balanced(w)
      ensures L.LeadsTo(record, w) && record == L.Extended(log, L.Release, w)
      ensures w == L.World(Settle(world.books, world.registered, Online), world.callers, world.handles, {})
    {
      w, record := Next(L.Release);
    }

    lemma NextClose(d: Device) returns (w: L.World, record: L.Log)
      requires L.LeadsTo(log, world) && L.Balanced(world) && d in world.handles
      ensures d in world.books && w == L.Apply(world, L.Close(d)) && L.Balanced(w)
      ensures L.LeadsTo(record, w) && record == L.Extended(log, L.Close(d), w)
      ensures w == L.World(Settle(world.books, {d}, world.books[d].state), world.callers, world.handles - multiset{d},
                           world.registered)
    {
      w, record := Next(L.Close(d));
    }

    constructor (answers: Answers)
      ensures Valid() && MonitorValid() && log.moves == [] && !released && devices == {} && open == []
      ensures fresh(monitor) && fresh(monitor.callbacks) && fresh(monitor.callbacks.repr)
      ensures fresh(monitor.devices) && fresh(monitor.devices.repr)
    {
      monitor := new HsMonitor(answers);
      devices, open, held, callers, released := {}, [], [], multiset{}, false;
      world, log := L.EMPTY, L.Log([L.EMPTY], []);
      new;
      forall d | d in monitor.Owners() ensures false { monitor.OwnedIsRegistered(d); }
      assert Members() == {};
    }

    method Put(ghost devs: set<Device>, refs: multiset<Device>, ghost w: L.World, ghost record: L.Log)
      requires MonitorValid()
      modifies `devices, `callers, `world, `log
      ensures MonitorValid() && Members() == old(Members())
      ensures devices == devs && callers == refs && world == w && log == record
    {
      devices, callers, world, log := devs, refs, w, record;
      assert MonitorValid() == old(MonitorValid());
    }

    /** Writes down what this program now knows and holds, and what it has done. */
    method Note(ghost devs: set<Device>, refs: multiset<Device>, ghost w: L.World, ghost record: L.Log)
      requires MonitorValid() && HandlesValid() && Shows(w, devs, refs, held, Members())
      requires L.Balanced(w) && L.LeadsTo(record, w)
      modifies `devices, `callers, `world, `log
      ensures Valid() && MonitorValid() && devices == devs && callers == refs && world == w && log == record
    {
      Put(devs, refs, w, record);
      assert HandlesValid() == old(HandlesValid());
      assert Shows(w, devs, refs, held, Members()) == old(Shows(w, devs, refs, held, Members()));
    }

    method NewDevice(key: string, iface: Byte) returns (d: Device)
      requires MonitorValid() && HandlesValid()
      ensures fresh(d) && fresh(d.hnode) && d.Embeds() && d.Id() == Ident(key, iface)
      ensures Accounts(devices + {d}) == old(Accounts(devices))[d := Account(1, false, Disconnected, d.hnode)]
      ensures Members() == old(Members())
      ensures MonitorValid() && HandlesValid()
    {
      d := new Device(key, iface);
      AccountsGrow(devices, d);
      assert MonitorValid() == old(MonitorValid());
    }

    /** Discovery comes up with a device. */
    method Discover(key: string, iface: Byte) returns (d: Device)
      requires Valid() && MonitorValid()
      modifies `devices, `callers, `world, `log
      ensures fresh(d) && fresh(d.hnode) && d.Embeds() && d !in old(devices) && d.Id() == Ident(key, iface)
      ensures Valid() && MonitorValid() && devices == old(devices) + {d} && open == old(open)
      ensures world == L.Apply(old(world), L.Discover(d, d.hnode)) && log.moves == old(log.moves) + [L.Discover(d, d.hnode)]
      ensures callers == old(callers) + multiset{d}
    {
      d := NewDevice(key, iface);
      ghost var w, record := Next(L.Discover(d, d.hnode));
      Note(devices + {d}, callers + multiset{d}, w, record);
    }

    method TakeReference(d: Device)
      requires MonitorValid() && HandlesValid() && d in devices && !d.freed
      modifies d`refcount
      ensures Accounts(devices) == L.More(old(Accounts(devices)), d, d.state)
      ensures Members() == old(Members())
      ensures MonitorValid() && HandlesValid()
    {
      DeviceRef(d);
      if !released {
        monitor.StillValid(d);
      }
    }

    /** hs_device_ref, for a device that somebody holds. */
    method Ref(d: Device)
      requires Valid() && MonitorValid() && L.Held(world, d)
      modifies d`refcount, `devices, `callers, `world, `log
      ensures Valid() && MonitorValid() && devices == old(devices)
      ensures world == L.Apply(old(world), L.Ref(d)) && log.moves == old(log.moves) + [L.Ref(d)]
    {
      assert L.Right(world, d);
      ghost var w, record := Next(L.Ref(d));
      TakeReference(d);
      Note(devices, callers + multiset{d}, w, record);
    }

    method DropReference(d: Device)
      requires MonitorValid() && HandlesValid() && d in devices && !d.freed
      requires 0 < d.refcount && (d in Members() ==> 1 < d.refcount)
      modifies d
      ensures Accounts(devices) == Settle(old(Accounts(devices)), {d}, old(d.state))
      ensures Members() == old(Members())
      ensures MonitorValid() && HandlesValid()
    {
      DeviceUnref(d);
      if !released {
        monitor.StillValid(d);
      }
    }

    /** hs_device_unref, for a reference of this program. */
    method Unref(d: Device)
      requires Valid() && MonitorValid() && d in callers
      modifies d, `devices, `callers, `world, `log
      ensures Valid() && MonitorValid() && devices == old(devices)
      ensures world == L.Apply(old(world), L.Unref(d)) && log.moves == old(log.moves) + [L.Unref(d)]
    {
      assert L.Right(world, d);
      ghost var w, record := Next(L.Unref(d));
      DropReference(d);
      Note(devices, callers - multiset{d}, w, record);
    }

    lemma KnownIfRegistered(id: Ident)
      requires monitor.Valid() && !released && Members() == world.registered
      ensures Registered(monitor.View(), id) <==> L.Known(world, id)
    {
      if Registered(monitor.View(), id) {
        var d := monitor.RegisteredIsOwned(id);
        assert d in world.registered;
      }
      if L.Known(world, id) {
        var d :| d in world.registered && d.Id() == id;
        monitor.OwnedIsRegistered(d);
      }
    }

    /** The registry's part of it: who owns a node now, and what becomes of the device. */
    method AddOwner(d: Device) returns (r: int)
      requires monitor.Valid() && !d.freed && d.Embeds()
      modifies monitor.callbacks, monitor.callbacks.repr, monitor.devices, monitor.devices.repr, d.hnode, d
      ensures monitor.Valid() && !d.freed && d.hnode == old(d.hnode)
      ensures if Registered(old(monitor.View()), d.Id()) then
                monitor.Owners() == old(monitor.Owners()) && d.refcount == old(d.refcount) && d.state == old(d.state)
              else
                && monitor.Owners() == old(monitor.Owners()) + {d}
                && d.refcount == old(d.refcount) + 1 && d.state == Online
    {
      ghost var before, owners := monitor.devices.repr, monitor.Owners();
      ghost var refused := Registered(monitor.View(), d.Id());
      r := monitor.Add(d);
      if !refused {
        monitor.OwnersGrow(before, owners, d);
      }
    }

    lemma AccountsAfter(books: map<Device, Account>, books': map<Device, Account>, d: Device, refused: bool)
      requires d in books && books'.Keys == books.Keys && forall e :: e in books && e != d ==> books'[e] == books[e]
      requires books'[d] == if refused then books[d] else books[d].(refcount := books[d].refcount + 1, state := Online)
      ensures books' == if refused then books else L.More(books, d, Online)
    {
    }

    /** As the ledger sees it. */
    method EnterRegistry(d: Device) returns (r: int)
      requires MonitorValid() && HandlesValid() && !released && d in devices && !d.freed && d.Embeds()
      modifies monitor.callbacks, monitor.callbacks.repr, monitor.devices, monitor.devices.repr, d.hnode, d
      ensures Accounts(devices) == if Registered(old(monitor.View()), d.Id()) then old(Accounts(devices))
                                   else L.More(old(Accounts(devices)), d, Online)
      ensures Members() == old(Members()) + if Registered(old(monitor.View()), d.Id()) then {} else {d}
      ensures MonitorValid() && HandlesValid() == old(HandlesValid())
    {
      ghost var books, refused := Accounts(devices), Registered(monitor.View(), d.Id());
      r := AddOwner(d);
      AccountsAfter(books, Accounts(devices), d, refused);
    }

    /** _hs_monitor_add. */
    method Add(d: Device) returns (r: int)
      requires Valid() && MonitorValid() && !released && d in callers
      modifies monitor.callbacks, monitor.callbacks.repr, monitor.devices, monitor.devices.repr, d.hnode, d
      modifies `devices, `callers, `world, `log
      ensures Valid() && MonitorValid() && devices == old(devices)
      ensures world == L.Apply(old(world), L.Enter(d)) && log.moves == old(log.moves) + [L.Enter(d)]
      ensures callers == old(callers)
    {
      assert L.Right(world, d);
      KnownIfRegistered(d.Id());
      ghost var w, record := Next(L.Enter(d));
      r := EnterRegistry(d);
      Note(devices, callers, w, record);
    }

    /** What is settled among the registered devices is settled among all. */
    lemma SettledAmong(books: map<Device, Account>, books': map<Device, Account>, part: map<Device, Account>,
                       gone: set<Device>, state: Status)
      requires gone <= part.Keys <= books.Keys && books'.Keys == books.Keys
      requires forall d :: d in part ==> books'[d] == part[d] == Settle(books, gone, state)[d]
      requires forall d :: d in books && d !in part ==> books'[d] == books[d]
      ensures books' == Settle(books, gone, state)
    {
    }

    method LeaveRegistry(key: string)
      requires MonitorValid() && HandlesValid() && !released && Members() <= devices
      modifies monitor.callbacks, monitor.callbacks.repr, monitor.devices, monitor.devices.repr, Members()
      ensures Accounts(devices) == Settle(old(Accounts(devices)), WithKey(old(Members()), key), Disconnected)
      ensures Members() == old(Members()) - WithKey(old(Members()), key)
      ensures MonitorValid() && HandlesValid()
    {
      ghost var books, owners := Accounts(devices), Members();
      monitor.Remove(key);
      forall d | d in devices && d !in owners ensures Accounts(devices)[d] == books[d] { assert unchanged(d); }
      SettledAmong(books, Accounts(devices), Accounts(owners), WithKey(owners, key), Disconnected);
    }

    /** _hs_monitor_remove. */
    method Remove(key: string)
      requires Valid() && MonitorValid() && !released
      modifies monitor.callbacks, monitor.callbacks.repr, monitor.devices, monitor.devices.repr, Members()
      modifies `devices, `callers, `world, `log
      ensures Valid() && MonitorValid() && devices == old(devices)
      ensures world == L.Apply(old(world), L.Leave(key)) && log.moves == old(log.moves) + [L.Leave(key)]
    {
      ghost var w, record := Next(L.Leave(key));
      LeaveRegistry(key);
      Note(devices, callers, w, record);
    }

    method OpenOn(d: Device, attempt: Attempt, thread: nat) returns (r: int, h: Handle?)
      requires MonitorValid() && HandlesValid() && d in devices && !d.freed && 0 < d.refcount && 0 < thread
      requires attempt.Fails? ==> attempt.error < 0
      modifies d
      ensures Accounts(devices) == if r == 0 then L.More(old(Accounts(devices)), d, Online) else old(Accounts(devices))
      ensures r == 0 <==> old(d.state) == Online && attempt.Succeeds?
      ensures r == 0 ==> h != null && fresh(h) && h.dev == d && !h.freed
      ensures Members() == old(Members())
      ensures MonitorValid() && HandlesValid()
    {
      r, h := OpenDevice(d, attempt, thread);
      if !released {
        monitor.StillValid(d);
      }
    }

    method AddHandle(h: Handle)
      requires MonitorValid() && HandlesValid() && h !in open && h.dev != null && !h.freed
      modifies `open, `held
      ensures MonitorValid() && HandlesValid() && Members() == old(Members())
      ensures open == old(open) + [h] && held == old(held) + [h.dev]
    {
      open, held := open + [h], held + [h.dev];
      assert MonitorValid() == old(MonitorValid());
    }

    method OpenAndKeep(d: Device, attempt: Attempt, thread: nat) returns (r: int)
      requires MonitorValid() && HandlesValid() && d in devices && !d.freed && 0 < d.refcount && 0 < thread
      requires attempt.Fails? ==> attempt.error < 0
      modifies d, `open, `held
      ensures Accounts(devices) == if r == 0 then L.More(old(Accounts(devices)), d, Online) else old(Accounts(devices))
      ensures r == 0 <==> old(d.state) == Online && attempt.Succeeds?
      ensures held == if r == 0 then old(held) + [d] else old(held)
      ensures Members() == old(Members())
      ensures MonitorValid() && HandlesValid()
    {
      var h;
      r, h := OpenOn(d, attempt, thread);
      if r == 0 {
        AddHandle(h);
      }
    }

    /**
     In memory, at any time: a device's count is the references this program holds, plus its open
     handles, plus one while it is registered; it is freed iff that is nothing; no registered device is.
     */
    lemma CountIsRight(d: Device)
      requires Valid() && d in devices
      ensures d.refcount == callers[d] + HeldBy(held)[d] + if d in Members() then 1 else 0
      ensures d.freed <==> d.refcount == 0
      ensures d in Members() ==> !d.freed && d.state == Online
    {
      assert L.Right(world, d) && world.books[d] == Accounts(devices)[d];
    }

    /** A device that somebody holds is there. */
    lemma Alive(d: Device)
      requires Valid() && L.Held(world, d)
      ensures d in devices && !d.freed && 0 < d.refcount && d.Embeds()
      ensures world.books[d].state == d.state && d.refcount == L.Count(world, d)
    {
      assert L.Right(world, d) && world.books[d] == Accounts(devices)[d];
    }

    method OpenInto(d: Device, attempt: Attempt, thread: nat, ghost w: L.World, ghost record: L.Log)
      returns (r: int)
      requires MonitorValid() && HandlesValid() && d in devices && !d.freed && 0 < d.refcount && 0 < thread
      requires attempt.Fails? ==> attempt.error < 0
      requires L.Balanced(w) && L.LeadsTo(record, w)
      requires var opens := d.state == Online && attempt.Succeeds?;
               w == L.World(if opens then L.More(Accounts(devices), d, Online) else Accounts(devices), callers,
                            HeldBy(if opens then held + [d] else held), Members())
      modifies d, `open, `held, `devices, `callers, `world, `log
      ensures Valid() && MonitorValid() && devices == old(devices) && world == w && log == record
      ensures r == 0 <==> old(d.state) == Online && attempt.Succeeds?
      ensures held == if r == 0 then old(held) + [d] else old(held)
    {
      ghost var opens := d.state == Online && attempt.Succeeds?;
      r := OpenAndKeep(d, attempt, thread);
      assert opens <==> r == 0;
      Note(devices, callers, w, record);
    }

    /** hs_device_open, which takes a reference only if every step of it succeeds. */
    method Open(d: Device, attempt: Attempt, thread: nat) returns (r: int)
      requires Valid() && MonitorValid() && L.Held(world, d) && 0 < thread
      requires attempt.Fails? ==> attempt.error < 0
      modifies d, `open, `held, `devices, `callers, `world, `log
      ensures Valid() && MonitorValid() && devices == old(devices)
      ensures r == 0 <==> old(d.state) == Online && attempt.Succeeds?
      ensures held == if r == 0 then old(held) + [d] else old(held)
      ensures world == L.Apply(old(world), L.Open(d, attempt.Succeeds?))
      ensures log.moves == old(log.moves) + [L.Open(d, attempt.Succeeds?)]
    {
      Alive(d);
      HeldBySnoc(held, d);
      ghost var w, record := NextOpen(d, attempt.Succeeds?);
      r := OpenInto(d, attempt, thread, w, record);
    }

    method CloseOn(i: nat, cancelIoEx: bool, thread: nat) returns (done: bool)
      requires MonitorValid() && HandlesValid() && i < |open| && held[i] != null && held[i] in devices
      requires var d := held[i];
               !d.freed && 0 < d.refcount && (d in Members() ==> 1 < d.refcount)
      modifies held[i], open[i], `held
      ensures Accounts(devices) == Settle(old(Accounts(devices)), {old(held[i])}, old(held[i].state))
      ensures Members() == old(Members()) && open == old(open) && held == old(held)[i := null]
      ensures MonitorValid() && HandlesValid()
    {
      ghost var d: Device := held[i];
      done := CloseHandle(open[i], cancelIoEx, thread);
      held := held[i := null];
      if !released {
        monitor.StillValid(d);
      }
    }

    method CloseInto(i: nat, cancelIoEx: bool, thread: nat, ghost w: L.World, ghost record: L.Log)
      returns (done: bool)
      requires MonitorValid() && HandlesValid() && i < |open| && held[i] != null && held[i] in devices
      requires L.Balanced(w) && L.LeadsTo(record, w)
      requires var d: Device := held[i];
               && !d.freed && 0 < d.refcount && (d in Members() ==> 1 < d.refcount)
               && w == L.World(Settle(Accounts(devices), {d}, d.state), callers, HeldBy(held[i := null]), Members())
      modifies held[i], open[i], `held, `devices, `callers, `world, `log
      ensures Valid() && MonitorValid() && devices == old(devices) && world == w && log == record
      ensures open == old(open) && held == old(held)[i := null]
    {
      done := CloseOn(i, cancelIoEx, thread);
      Note(devices, callers, w, record);
    }

    /** hs_handle_close: the reference is given back at once, whether or not the handle itself can go. */
    method Close(i: nat, cancelIoEx: bool, thread: nat) returns (done: bool)
      requires Valid() && MonitorValid() && i < |open| && held[i] != null
      modifies held[i], open[i], `held, `devices, `callers, `world, `log
      ensures Valid() && MonitorValid() && devices == old(devices) && open == old(open) && held == old(held)[i := null]
      ensures old(held[i]) in old(world).handles
      ensures world == L.Apply(old(world), L.Close(old(held[i]))) && log.moves == old(log.moves) + [L.Close(old(held[i]))]
    {
      ghost var d: Device := held[i];
      HandleGone(held, i, d);
      Alive(d);
      ghost var w, record := NextClose(d);
      done := CloseInto(i, cancelIoEx, thread, w, record);
    }

    method ReleaseMonitor()
      requires MonitorValid() && HandlesValid() && !released && Members() <= devices
      modifies Members(), `released
      ensures Accounts(devices) == Settle(old(Accounts(devices)), old(Members()), Online)
      ensures released && Members() == {} && MonitorValid() && HandlesValid()
    {
      ghost var books, owners := Accounts(devices), Members();
      var freed := monitor.Release();
      released := true;
      forall d | d in devices && d !in owners ensures Accounts(devices)[d] == books[d] { assert unchanged(d); }
      SettledAmong(books, Accounts(devices), Accounts(owners), owners, Online);
    }

    method ReleaseInto(ghost w: L.World, ghost record: L.Log)
      requires MonitorValid() && HandlesValid() && !released && Members() <= devices
      requires L.Balanced(w) && L.LeadsTo(record, w)
      requires w == L.World(Settle(Accounts(devices), Members(), Online), callers, HeldBy(held), {})
      modifies Members(), `released, `devices, `callers, `world, `log
      ensures Valid() && MonitorValid() && released && devices == old(devices) && world == w && log == record
    {
      ReleaseMonitor();
      Note(devices, callers, w, record);
    }

    /** _hs_monitor_release. */
    method Release()
      requires Valid() && MonitorValid() && !released
      modifies Members(), `released, `devices, `callers, `world, `log
      ensures Valid() && MonitorValid() && released && devices == old(devices)
      ensures world == L.Apply(old(world), L.Release) && log.moves == old(log.moves) + [L.Release]
    {
      ghost var w, record := NextRelease();
      ReleaseInto(w, record);
    }

    /** The second phase of a close, on the cleanup thread: no reference changes. */
    method Cleanup(i: nat, stillPending: bool, thread: nat)
      requires Valid() && MonitorValid() && i < |open| && held[i] == null && !open[i].freed
      modifies open[i]
      ensures Valid() && MonitorValid() && world == old(world)
    {
      CleanupThread(open[i], stillPending, thread);
      assert MonitorValid() == old(MonitorValid());
      assert Shows(world, devices, callers, held, Members()) == old(Shows(world, devices, callers, held, Members()));
    }

    /** What discovery does with a device it has found. */
    method Offer(d: Device) returns (r: int)
      requires Valid() && MonitorValid() && !released && d in callers
      modifies monitor.callbacks, monitor.callbacks.repr, monitor.devices, monitor.devices.repr, d.hnode, d
      modifies `devices, `callers, `world, `log
      ensures Valid() && MonitorValid() && log.moves == old(log.moves) + [L.Enter(d), L.Unref(d)]
    {
      r := Add(d);
      Unref(d);
      Twice(old(log.moves), L.Enter(d), L.Unref(d));
    }

    /** An arrival in hs_monitor_refresh: discovered, offered to the registry, given back. */
    method Arrive(key: string, iface: Byte) returns (r: int, d: Device, ghost node: H.HNode<Device>)
      requires Valid() && MonitorValid() && !released
      modifies monitor.callbacks, monitor.callbacks.repr, monitor.devices, monitor.devices.repr
      modifies `devices, `callers, `world, `log
      ensures Valid() && MonitorValid()
      ensures fresh(d) && d !in old(world).books && d.Id() == Ident(key, iface) && node.entry == Some(d)
      ensures log.moves == old(log.moves) + [L.Discover(d, node), L.Enter(d), L.Unref(d)]
    {
      d := Discover(key, iface);
      node := d.hnode;
      r := Offer(d);
      Thrice(old(log.moves), L.Discover(d, node), L.Enter(d), L.Unref(d));
    }

    /** What stands in memory is the outcome of everything done so far. */
    lemma WorldIsRun()
      requires Valid()
      ensures world == L.Run(L.EMPTY, log.moves)
      ensures world == L.World(Accounts(devices), callers, HeldBy(held), Members())
    {
      L.LogIsRun(log, world);
    }
  }
}
