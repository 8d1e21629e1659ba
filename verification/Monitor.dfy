/**
 The device registry on its data structures: src/monitor.c over the list, the hash table and the
 reference counts of src/device.c.  Every operation is proved to do what module Registry says.
 */
module Monitor {
  import opened Wrappers
  import opened Registry
  import opened Callbacks
  import opened HotplugEvents
  import L = LinkedList
  import H = HashTable

  type DeviceNode = H.HNode<Device>  // hs_device.hnode; its entry is the device around it

  class Device {
    const key: string
    const iface: Byte
    var hnode: H.HNode?<Device>     // the node embedded in this structure, set once
    var monitor: HsMonitor?
    var state: Status
    var refcount: nat
    ghost var freed: bool

    /** As discovery creates it: the caller owns the only reference. */
    constructor (key: string, iface: Byte)
      ensures this.key == key && this.iface == iface && Embeds() && fresh(hnode)
      ensures monitor == null && state == Disconnected && refcount == 1 && !freed
    {
      this.key, this.iface := key, iface;
      monitor, state, refcount, freed := null, Disconnected, 1, false;
      new;
      hnode := new H.HNode<Device>(Some(this));
    }

    ghost predicate Embeds()
      reads this`hnode
    {
      hnode != null && hnode.entry == Some(this)
    }

    function Id(): Ident { Ident(key, iface) }
  }

  method DeviceRef(dev: Device)
    requires !dev.freed
    modifies dev`refcount
    ensures dev.refcount == old(dev.refcount) + 1
  {
    dev.refcount := dev.refcount + 1;
  }

  /** The memory goes with the last reference. */
  method DeviceUnref(dev: Device?)
    requires dev != null ==> !dev.freed && 0 < dev.refcount
    modifies if dev == null then {} else {dev}
    ensures dev != null ==> unchanged(dev`state, dev`monitor, dev`hnode)
    ensures dev != null ==> dev.refcount == old(dev.refcount) - 1 && (dev.freed <==> dev.refcount == 0)
  {
    if dev != null {
      dev.refcount := dev.refcount - 1;
      if dev.refcount > 0 {
        return;
      }
      dev.freed := true;
    }
  }

  /** What the operations change in a device, and the node they must not change. */
  datatype Account = Account(refcount: int, freed: bool, state: Status, node: H.HNode?<Device>)

  ghost function Accounts(devs: set<Device>): (m: map<Device, Account>)
    reads devs
    ensures m.Keys == devs
  {
    map d | d in devs :: Account(d.refcount, d.freed, d.state, d.hnode)
  }

  /** One reference less: the memory goes with the last one. */
  ghost function Less(a: Account, state: Status): Account
  {
    Account(a.refcount - 1, a.refcount == 1, state, a.node)
  }

  /** Every device that goes loses one reference, and its memory with the last one. */
  ghost function Settle(m: map<Device, Account>, gone: set<Device>, state: Status): (m': map<Device, Account>)
    ensures m'.Keys == m.Keys
  {
    map d | d in m :: if d in gone then Less(m[d], state) else m[d]
  }

  lemma SettleTwice(m: map<Device, Account>, a: set<Device>, b: set<Device>, state: Status)
    requires a !! b
    ensures Settle(Settle(m, a, state), b, state) == Settle(m, b + a, state)
  {
  }

  lemma SettleEmpty(m: map<Device, Account>, state: Status)
    ensures Settle(m, {}, state) == m
  {
  }

  lemma SettleOne(m: map<Device, Account>, m': map<Device, Account>, dev: Device, goes: bool, state: Status)
    requires m'.Keys == m.Keys && forall d :: d in m && d != dev ==> m'[d] == m[d]
    requires dev in m ==> m'[dev] == if goes then Less(m[dev], state) else m[dev]
    ensures m' == Settle(m, if goes then {dev} else {}, state)
  {
  }

  ghost function WithKey(devs: set<Device>, key: string): set<Device>
  {
    set d | d in devs && d.key == key
  }

  /** Each of these is registered, under an identity of its own. */
  ghost predicate OfState(s: State, owners: set<Device>)
    requires 0 < |s.buckets|
  {
    && (forall d :: d in owners ==> Registered(s, d.Id()))
    && forall d, e :: d in owners && e in owners && d.Id() == e.Id() ==> d == e
  }

  /** Of these, exactly the ones with another key are registered. */
  ghost predicate LeftBy(s: State, owners: set<Device>, key: string)
    requires 0 < |s.buckets|
  {
    && (forall d :: d in owners ==> (Registered(s, d.Id()) <==> d.key != key))
    && forall d, e :: d in owners && e in owners && d.Id() == e.Id() ==> d == e
  }

  lemma RemoveLeaves(s: State, owners: set<Device>, key: string, answers: Answers)
    requires WellFormed(s) && OfState(s, owners)
    ensures LeftBy(RemoveKey(s, key, answers), owners, key)
  {
    RemoveWalkKeeps(s, key, s.buckets[Home(s, key)], answers);
  }

  function IdentOf(n: DeviceNode): Ident
  {
    match n.entry
    case Some(d) => d.Id()
    case None => Ident("", 0)
  }

  ghost function Idents(nodes: seq<DeviceNode>): (ids: seq<Ident>)
    ensures |ids| == |nodes| && forall i :: 0 <= i < |nodes| ==> ids[i] == IdentOf(nodes[i])
  {
    seq(|nodes|, i requires 0 <= i < |nodes| => IdentOf(nodes[i]))
  }

  /** The contents of a chain: all but its head. */
  ghost function Content(chain: seq<DeviceNode>): (ids: seq<Ident>)
    ensures |ids| == if chain == [] then 0 else |chain| - 1
    ensures forall i :: 0 <= i < |ids| ==> ids[i] == IdentOf(chain[i + 1])
  {
    if chain == [] then [] else Idents(chain[1..])
  }

  lemma ContentWithout(chain: seq<DeviceNode>, k: nat)
    requires 1 <= k < |chain|
    ensures Content(chain[..k] + chain[k + 1..]) == Content(chain)[..k - 1] + Content(chain)[k..]
  {
  }

  ghost function Contents(chains: seq<seq<DeviceNode>>): (buckets: seq<seq<Ident>>)
    ensures |buckets| == |chains|
    ensures forall b :: 0 <= b < |chains| ==> buckets[b] == Content(chains[b])
  {
    seq(|chains|, b requires 0 <= b < |chains| => Content(chains[b]))
  }

  ghost function IdsOf(devs: seq<Device>): (ids: seq<Ident>)
    ensures |ids| == |devs| && forall i :: 0 <= i < |devs| ==> ids[i] == devs[i].Id()
  {
    seq(|devs|, i requires 0 <= i < |devs| => devs[i].Id())
  }

  lemma IdsAppend(a: seq<Device>, b: seq<Device>)
    ensures IdsOf(a + b) == IdsOf(a) + IdsOf(b)
  {
  }

  lemma SeenIsPrefix(seen: seq<Device>, c: seq<DeviceNode>)
    requires c != [] && |seen| < |c| && forall i :: 0 <= i < |seen| ==> Some(seen[i]) == c[i + 1].entry
    ensures IdsOf(seen) <= Content(c)
  {
    assert forall i :: 0 <= i < |seen| ==> IdsOf(seen)[i] == Content(c)[i];
  }

  lemma PrefixBehind<T>(a: seq<T>, s: seq<T>, c: seq<T>, rest: seq<T>)
    requires s <= c
    ensures a + s <= a + (c + rest) && (|s| == |c| ==> a + s + rest == a + (c + rest))
  {
  }

  /** A chain that was walked to its end, or to a non-zero answer, extends what was visited. */
  lemma ListIds(visited: seq<Device>, seen: seq<Device>, c: seq<DeviceNode>, rest: seq<Ident>, rest': seq<Ident>,
                all: seq<Ident>)
    requires c != [] && |seen| < |c| && forall i :: 0 <= i < |seen| ==> Some(seen[i]) == c[i + 1].entry
    requires all == IdsOf(visited) + rest && rest == Content(c) + rest'
    ensures IdsOf(visited + seen) <= all
    ensures |seen| == |c| - 1 ==> all == IdsOf(visited + seen) + rest'
  {
    IdsAppend(visited, seen);
    SeenIsPrefix(seen, c);
    PrefixBehind(IdsOf(visited), IdsOf(seen), Content(c), rest');
  }

  /** After n calls that returned 0, what remains is to offer the rest. */
  ghost function OfferAfter(n: nat, rest: nat, f: Answers): Tally
  {
    Tally(n + Offer(rest, f, n).calls, Offer(rest, f, n).ret)
  }

  lemma ListCalls(n: nat, n': nat, chain: nat, left: nat, left': nat, f: Answers, r: int)
    requires n <= n' && left == chain + left' && Tally(n' - n, r) == Offer(chain, f, n)
    ensures OfferAfter(n, left, f) == if r == 0 then OfferAfter(n', left', f) else Tally(n', r)
    ensures r == 0 ==> n' == n + chain
  {
    OfferMore(chain, left', f, n);
    if r == 0 {
      OfferAll(chain, f, n);
    }
  }

  /** The inner loop of HsMonitor.List, which has made n calls before. */
  method ListChain(head: DeviceNode, f: Answers, n: nat, ghost c: seq<DeviceNode>, ghost more: nat, ghost rest: nat)
    returns (r: int, n': nat, seen: seq<Device>)
    requires c != [] && more == |c| - 1 + rest
    requires H.Chain(c) && c[0] == head
    requires forall i :: 1 <= i < |c| ==> c[i].entry.Some?
    ensures |seen| < |c| && forall i :: 0 <= i < |seen| ==> Some(seen[i]) == c[i + 1].entry
    ensures n' == n + |seen| && (r == 0 ==> |seen| == |c| - 1)
    ensures OfferAfter(n, more, f) == if r == 0 then OfferAfter(n', rest, f) else Tally(n', r)
  {
    seen := [];
    n' := n;
    ghost var left: nat := |c| - 1;
    H.ChainNext(c, 0);
    var cur := head.next;
    while cur != head
      invariant |seen| + left == |c| - 1 && n' == n + |seen|
      invariant cur == if |seen| + 1 < |c| then c[|seen| + 1] else head
      invariant forall i :: 0 <= i < |seen| ==> Some(seen[i]) == c[i + 1].entry
      invariant Offer(|c| - 1, f, n) == Tally(|seen| + Offer(left, f, n').calls, Offer(left, f, n').ret)
      decreases left
    {
      H.ChainNext(c, |seen| + 1);
      r := Answer(f, n');
      n' := n' + 1;
      seen := seen + [cur.entry.value];
      if r != 0 {
        ListCalls(n, n', |c| - 1, more, rest, f, r);
        return;
      }
      left := left - 1;
      cur := cur.next;
    }
    r := 0;
    ListCalls(n, n', |c| - 1, more, rest, f, r);
  }

  /** Notifies the callbacks of the device's monitor of its state. */
  method TriggerCallbacks(dev: Device) returns (r: int)
    requires dev.monitor != null && dev.monitor.callbacks.Valid()
    modifies dev.monitor.callbacks, dev.monitor.callbacks.repr
    ensures var l, e := dev.monitor.callbacks, Event(dev.Id(), dev.state);
            && l.Valid() && l.nextId == old(l.nextId) && l.repr == old(l.repr)
            && var t := Trigger(old(l.ids), e, l.answers, |old(l.calls)|);
               l.ids == t.kept && l.calls == old(l.calls) + t.calls && r == t.ret && l.events == old(l.events) + [e]
  {
    r := dev.monitor.callbacks.Trigger(Event(dev.Id(), dev.state));
  }

  /** Where a loop over nodes goes on: a node is read only as long as the device around it is there. */
  function NextOf(node: DeviceNode): (next: DeviceNode)
    requires node.next != null && (node.entry.Some? ==> !node.entry.value.freed)
    reads node, if node.entry.Some? then {node.entry.value} else {}
  {
    node.next
  }

  class HsMonitor {
    const callbacks: CallbackList
    const devices: H.HTable<Device>

    /** The devices whose nodes are in the table. */
    ghost function Owners(): set<Device>
      reads devices
    {
      set n | n in devices.repr && n.entry.Some? :: n.entry.value
    }

    /** What a registered device looks like between two operations. */
    ghost predicate Enrolled(n: DeviceNode)
      reads n, if n.entry.Some? then {n.entry.value} else {}
    {
      && n.entry.Some?
      && var d := n.entry.value;
        d.hnode == n && d.monitor == this && d.state == Online && !d.freed && 0 < d.refcount && n.key == H.Hash(d.key)
    }

    ghost predicate ValidDevices()
      reads devices, devices.repr, Owners()
    {
      && devices.Valid()
      && forall n {:trigger Enrolled(n)} :: n in devices.repr && n.entry.Some? ==> Enrolled(n)
    }

    ghost predicate Valid()
      reads callbacks, callbacks.repr, devices, devices.repr, Owners()
    {
      callbacks.Valid() && ValidDevices() && WellFormed(View())
    }

    ghost function View(): State
      reads callbacks, devices
    {
      State(callbacks.ids, callbacks.nextId, Contents(devices.chains), callbacks.events, callbacks.calls)
    }

    constructor (answers: Answers)
      ensures Valid() && View() == Init(64) && callbacks.answers == answers
      ensures fresh(callbacks) && fresh(callbacks.repr) && fresh(devices) && fresh(devices.repr)
    {
      callbacks := new CallbackList(answers);
      devices := new H.HTable<Device>(64);
      new;
      assert View() == Init(64);
    }

    method RegisterCallback() returns (id: int)
      requires Valid()
      modifies callbacks, callbacks.repr
      ensures Valid() && View() == Register(old(View())) && id == old(callbacks.nextId)
      ensures callbacks.ids == old(callbacks.ids) + [id] && id !in old(callbacks.ids)
      ensures fresh(callbacks.repr - old(callbacks.repr))
    {
      StepKeeps(View(), Listen, callbacks.answers);
      ListenPutsLast(View(), callbacks.answers);
      label L:
      id := callbacks.Register();
      assert ValidDevices() == old@L(ValidDevices());
      assert View() == Register(old(View()));
    }

    method DeregisterCallback(id: int)
      requires Valid() && id >= 0
      modifies callbacks, callbacks.repr
      ensures Valid() && View() == Deregister(old(View()), id)
      ensures forall c :: c in callbacks.ids <==> c in old(callbacks.ids) && c != id
      ensures callbacks.repr == old(callbacks.repr)
    {
      StepKeeps(View(), Unlisten(id), callbacks.answers);
      UnlistenTakesOff(View(), id, callbacks.answers);
      label L:
      callbacks.Deregister(id);
      assert ValidDevices() == old@L(ValidDevices());
      assert View() == Deregister(old(View()), id);
    }

    /** The chain where a key is looked up. */
    ghost function ChainOf(key: string): (c: seq<DeviceNode>)
      requires devices.Valid()
      reads devices, devices.repr
      ensures H.Chain(c) && c[0] == devices.heads[devices.Bucket(H.Hash(key))] && c[0].entry == None
    {
      var b := devices.Bucket(H.Hash(key));
      assert H.BucketChain(devices.chains[b], devices.heads[b], b, |devices.heads|);
      devices.chains[b]
    }

    lemma WalkIn(b: nat, k: nat)
      requires devices.Valid() && b < |devices.heads| && k < |devices.chains[b]|
      ensures var c := devices.chains[b];
              && c[k].next == (if k + 1 < |c| then c[k + 1] else c[0])
              && c[0] == devices.heads[b] && (c[k] == c[0] <==> k == 0) && c[k] in devices.repr
              && (0 < k ==> c[k].entry.Some? && c[k].key % |devices.heads| == b && IdentOf(c[k]) == Content(c)[k - 1])
    {
      var c := devices.chains[b];
      assert H.BucketChain(c, devices.heads[b], b, |devices.heads|);
      H.ChainNext(c, k);
      assert c[k] in H.Nodes(c) && H.Nodes(c) <= devices.repr;
    }

    lemma Walk(key: string, k: nat)
      requires ValidDevices() && k < |ChainOf(key)|
      ensures var c := ChainOf(key);
              && c[k].next == (if k + 1 < |c| then c[k + 1] else c[0])
              && (c[k] == c[0] <==> k == 0) && c[k] in devices.repr
              && (0 < k ==> Enrolled(c[k]) && IdentOf(c[k]) == Content(c)[k - 1])
    {
      WalkIn(devices.Bucket(H.Hash(key)), k);
    }

    lemma Stored(n: DeviceNode)
      requires ValidDevices() && n in devices.repr && n.entry.Some?
      ensures n in ChainOf(n.entry.value.key) && n != ChainOf(n.entry.value.key)[0]
      ensures n.entry.value.Id() in Content(ChainOf(n.entry.value.key))
    {
      assert Enrolled(n) && devices.InChain(n);
      var c := ChainOf(n.entry.value.key);
      var k :| 0 <= k < |c| && c[k] == n;
      assert Content(c)[k - 1] == n.entry.value.Id();
    }

    /** Whoever owns a node in the table is registered. */
    lemma OwnedIsRegistered(d: Device)
      requires ValidDevices() && d in Owners()
      ensures Registered(View(), d.Id()) && d.hnode != null && d.hnode in devices.repr && d.hnode.entry == Some(d)
    {
      var n :| n in devices.repr && n.entry == Some(d);
      assert Enrolled(n);
      Stored(n);
    }

    /** Whatever is registered belongs to an owner. */
    lemma RegisteredIsOwned(id: Ident) returns (d: Device)
      requires ValidDevices() && Registered(View(), id)
      ensures d in Owners() && d.Id() == id
    {
      var c := ChainOf(id.key);
      var k :| 0 <= k < |Content(c)| && Content(c)[k] == id;
      Walk(id.key, k + 1);
      d := c[k + 1].entry.value;
      assert c[k + 1] in devices.repr && c[k + 1].entry == Some(d);
    }

    lemma Position(d: Device) returns (k: nat)
      requires ValidDevices() && d in Owners()
      ensures k < |Content(ChainOf(d.key))| && Content(ChainOf(d.key))[k] == d.Id()
      ensures ChainOf(d.key)[k + 1].entry == Some(d)
    {
      OwnedIsRegistered(d);
      Stored(d.hnode);
      var c := ChainOf(d.key);
      var i :| 0 <= i < |c| && c[i] == d.hnode;
      k := i - 1;
    }

    /** No two owners are the same device to the registry. */
    lemma OwnersDiffer(d: Device, e: Device)
      requires ValidDevices() && WellFormed(View()) && d in Owners() && e in Owners() && d.Id() == e.Id()
      ensures d == e
    {
      var i := Position(d);
      var j := Position(e);
      var bucket := View().buckets[Home(View(), d.key)];
      assert L.Distinct(bucket) && bucket[i] == bucket[j];
      assert i == j;
    }

    /** Looks a device up in the chain of its key. */
    method Find(key: string, iface: Byte) returns (found: bool)
      requires ValidDevices()
      ensures found <==> Ident(key, iface) in Content(ChainOf(key))
    {
      var hash := H.HashStr(key);
      var head := devices.GetHead(hash);
      ghost var c := ChainOf(key);
      ghost var k := 1;
      Walk(key, 0);
      var cur := head.next;
      while cur != head
        invariant 1 <= k <= |c| && cur == if k < |c| then c[k] else head
        invariant forall i :: 0 <= i < k - 1 ==> Content(c)[i] != Ident(key, iface)
        decreases |c| - k
      {
        Walk(key, k);
        if cur.key == hash {
          var dev := cur.entry.value;
          if dev.key == key && dev.iface == iface {
            return true;
          }
        }
        cur := cur.next;
        k := k + 1;
      }
      return false;
    }

    /** Puts the node at the front of the chain of its key. */
    method Store(node: DeviceNode, hash: nat)
      requires devices.Valid() && node !in devices.repr && node.entry.Some? && hash == H.Hash(node.entry.value.key)
      modifies devices, devices.heads[devices.Bucket(hash)], node
      ensures devices.Valid() && node.key == hash && devices.repr == old(devices.repr) + {node}
      ensures var dev := node.entry.value;
              Contents(devices.chains) == old(Contents(devices.chains))[devices.Bucket(hash) :=
                                            [dev.Id()] + old(Content(ChainOf(dev.key)))]
    {
      ghost var b := devices.Bucket(hash);
      ghost var was := ChainOf(node.entry.value.key);
      devices.Add(hash, node);
      assert Content(devices.chains[b]) == [node.entry.value.Id()] + Content(was);
    }

    /** The device belongs to this monitor now, and the registry holds a reference to it. */
    method Adopt(dev: Device)
      requires ValidDevices() && dev.Embeds() && dev.hnode !in devices.repr && !dev.freed
      modifies dev
      ensures ValidDevices()
      ensures dev.monitor == this && dev.state == Online && dev.refcount == old(dev.refcount) + 1
      ensures !dev.freed && dev.hnode == old(dev.hnode)
    {
      dev.monitor := this;
      dev.state := Online;

      DeviceRef(dev);
      forall n | n in devices.repr && n.entry.Some? ensures Enrolled(n) {
        assert old(Enrolled(n));
      }
    }

    /** Stored, an adopted device is enrolled like the others. */
    method StoreEnrolled(node: DeviceNode, hash: nat)
      requires ValidDevices() && node !in devices.repr && node.entry.Some? && hash == H.Hash(node.entry.value.key)
      requires var dev := node.entry.value;
               dev.hnode == node && dev.monitor == this && dev.state == Online && !dev.freed && 0 < dev.refcount
      modifies devices, devices.heads[devices.Bucket(hash)], node
      ensures ValidDevices() && devices.repr == old(devices.repr) + {node}
      ensures var dev := node.entry.value;
              Contents(devices.chains) == old(Contents(devices.chains))[devices.Bucket(hash) :=
                                            [dev.Id()] + old(Content(ChainOf(dev.key)))]
    {
      assert ChainOf(node.entry.value.key)[0] == devices.heads[devices.Bucket(hash)];
      Store(node, hash);
      forall n | n in devices.repr && n.entry.Some? ensures Enrolled(n) {
        if n != node {
          assert old(Enrolled(n));
        }
      }
    }

    lemma HeadInRepr(b: nat)
      requires devices.Valid() && b < |devices.heads|
      ensures devices.heads[b] in devices.repr
    {
      WalkIn(b, 0);
    }

    /** The device becomes the first one of its bucket, and the registry holds a reference to it. */
    method Enroll(dev: Device)
      requires ValidDevices() && dev.Embeds() && dev.hnode !in devices.repr && !dev.freed
      modifies devices, devices.repr, dev.hnode, dev
      ensures ValidDevices() && devices.repr == old(devices.repr) + {dev.hnode} && dev.hnode == old(dev.hnode)
      ensures dev.refcount == old(dev.refcount) + 1 && !dev.freed && dev.monitor == this && dev.state == Online
      ensures Contents(devices.chains) == old(Contents(devices.chains))[devices.Bucket(H.Hash(dev.key)) :=
                                            [dev.Id()] + old(Content(ChainOf(dev.key)))]
    {
      var hash := H.HashStr(dev.key);
      HeadInRepr(devices.Bucket(hash));
      Adopt(dev);
      StoreEnrolled(dev.hnode, hash);
    }

    /** trigger_callbacks for a device of this monitor, seen from the registry. */
    method Notify(dev: Device) returns (r: int)
      requires callbacks.Valid() && dev.monitor == this
      modifies callbacks, callbacks.repr
      ensures callbacks.Valid() && callbacks.repr == old(callbacks.repr)
      ensures View() == Fire(old(View()), Event(dev.Id(), dev.state), callbacks.answers)
      ensures r == Registry.Trigger(old(View()).callbacks, Event(dev.Id(), dev.state), callbacks.answers,
                                    |old(View()).calls|).ret
    {
      r := TriggerCallbacks(dev);
    }

    /** The same, when all is well with the devices. */
    method NotifyOnline(dev: Device) returns (r: int)
      requires callbacks.Valid() && ValidDevices() && dev.monitor == this && dev.state == Online
      modifies callbacks, callbacks.repr
      ensures callbacks.Valid() && callbacks.repr == old(callbacks.repr) && ValidDevices()
      ensures View() == Fire(old(View()), Event(dev.Id(), Online), callbacks.answers)
      ensures r == Registry.Trigger(old(View()).callbacks, Event(dev.Id(), Online), callbacks.answers,
                                    |old(View()).calls|).ret
    {
      r := Notify(dev);
      assert ValidDevices() == old(ValidDevices());
    }

    /** A device that is not registered yet is, then announced. */
    method AddNew(dev: Device) returns (r: int)
      requires callbacks.Valid() && ValidDevices() && dev.Embeds() && dev.hnode !in devices.repr && !dev.freed
      requires !Registered(View(), dev.Id())
      modifies callbacks, callbacks.repr, devices, devices.repr, dev.hnode, dev
      ensures callbacks.Valid() && callbacks.repr == old(callbacks.repr)
      ensures ValidDevices() && devices.repr == old(devices.repr) + {dev.hnode} && dev.hnode == old(dev.hnode)
      ensures View() == AddDevice(old(View()), dev.Id(), callbacks.answers).0
      ensures r == AddDevice(old(View()), dev.Id(), callbacks.answers).1
      ensures dev.refcount == old(dev.refcount) + 1 && dev.state == Online && dev.monitor == this && !dev.freed
    {
      ghost var s := View();
      label L:
      Enroll(dev);
      assert callbacks.Valid() == old@L(callbacks.Valid());
      assert View() == Entered(s, dev.Id());
      r := NotifyOnline(dev);
    }

    /** A node in the table is that of a registered device. */
    lemma NotYetIn(dev: Device)
      requires ValidDevices() && dev.Embeds() && !Registered(View(), dev.Id())
      ensures dev.hnode !in devices.repr
    {
      if dev.hnode in devices.repr {
        Stored(dev.hnode);
      }
    }

    method AddUnknown(dev: Device) returns (r: int)
      requires Valid() && dev.Embeds() && !dev.freed && !Registered(View(), dev.Id())
      modifies callbacks, callbacks.repr, devices, devices.repr, dev.hnode, dev
      ensures Valid() && callbacks.repr == old(callbacks.repr)
      ensures devices.repr == old(devices.repr) + {dev.hnode} && dev.hnode == old(dev.hnode)
      ensures View() == AddDevice(old(View()), dev.Id(), callbacks.answers).0
      ensures r == AddDevice(old(View()), dev.Id(), callbacks.answers).1
      ensures dev.refcount == old(dev.refcount) + 1 && dev.state == Online && dev.monitor == this && !dev.freed
    {
      NotYetIn(dev);
      AddKeeps(View(), dev.Id(), callbacks.answers);
      r := AddNew(dev);
    }

    /** _hs_monitor_add: a device already registered is refused without a word. */
    method Add(dev: Device) returns (r: int)
      requires Valid() && dev.Embeds() && !dev.freed
      modifies callbacks, callbacks.repr, devices, devices.repr, dev.hnode, dev
      ensures Valid() && callbacks.repr == old(callbacks.repr)
      ensures View() == AddDevice(old(View()), dev.Id(), callbacks.answers).0
      ensures r == AddDevice(old(View()), dev.Id(), callbacks.answers).1
      ensures dev.hnode == old(dev.hnode) && !dev.freed
      ensures if Registered(old(View()), dev.Id()) then
                && dev.refcount == old(dev.refcount) && dev.state == old(dev.state)
                && dev.monitor == old(dev.monitor) && devices.repr == old(devices.repr)
              else
                && dev.refcount == old(dev.refcount) + 1 && dev.state == Online
                && dev.monitor == this && devices.repr == old(devices.repr) + {dev.hnode}
    {
      var found := Find(dev.key, dev.iface);
      if found {
        return 0;
      }
      r := AddUnknown(dev);
    }

    /** Takes the k-th node of its chain out of the table. */
    method Unstore(node: DeviceNode, ghost key: string, ghost k: nat)
      requires devices.Valid() && 1 <= k < |ChainOf(key)| && ChainOf(key)[k] == node
      modifies devices, node, ChainOf(key)[k - 1]
      ensures devices.Valid() && devices.repr == old(devices.repr) - {node}
      ensures node.key == old(node.key) && old(ChainOf(key))[k - 1].key == old(ChainOf(key)[k - 1].key)
      ensures ChainOf(key) == old(ChainOf(key))[..k] + old(ChainOf(key))[k + 1..]
      ensures Contents(devices.chains) == old(Contents(devices.chains))[devices.Bucket(H.Hash(key)) :=
                                            old(Content(ChainOf(key)))[..k - 1] + old(Content(ChainOf(key)))[k..]]
    {
      ghost var b, was := devices.Bucket(H.Hash(key)), ChainOf(key);
      assert H.BucketChain(was, devices.heads[b], b, |devices.heads|);
      devices.Remove(node, b, k);
      ContentWithout(was, k);
    }

    ghost predicate OthersEnrolled(node: DeviceNode)
      reads devices, devices.repr, Owners()
    {
      forall n {:trigger Enrolled(n)} :: n in devices.repr && n.entry.Some? && n != node ==> Enrolled(n)
    }

    /** References to one device come and go, but the registry keeps its own. */
    twostate lemma StillValid(dev: Device)
      requires old(Valid())
      requires unchanged(callbacks) && unchanged(callbacks.repr) && unchanged(devices) && unchanged(devices.repr)
      requires unchanged(Owners() - {dev}) && unchanged(dev`monitor, dev`state, dev`hnode)
      requires dev in Owners() ==> !dev.freed && 0 < dev.refcount
      ensures Valid()
    {
      forall n | n in devices.repr && n.entry.Some? ensures Enrolled(n) {
        assert old(Enrolled(n));
      }
      assert callbacks.Valid() == old(callbacks.Valid()) && devices.Valid() == old(devices.Valid());
    }

    /** A caller gives back a reference of its own: it cannot take a registered device with it. */
    method GiveBack(dev: Device)
      requires ValidDevices() && dev.Embeds() && !dev.freed
      requires (if dev.hnode in devices.repr then 1 else 0) < dev.refcount
      modifies dev
      ensures ValidDevices() && (dev.hnode in devices.repr ==> !dev.freed)
      ensures dev.refcount == old(dev.refcount) - 1 && (dev.freed <==> dev.refcount == 0)
      ensures unchanged(dev`state, dev`monitor, dev`hnode)
      ensures View() == old(View()) && callbacks.Valid() == old(callbacks.Valid())
    {
      DeviceUnref(dev);
      assert callbacks.Valid() == old(callbacks.Valid()) && devices.Valid() == old(devices.Valid());
      forall n | n in devices.repr && n.entry.Some? ensures Enrolled(n) {
        assert old(Enrolled(n));
        assert n.entry.value == dev ==> n == dev.hnode;
      }
    }

    /** Unlinks the node; all that stay are enrolled. */
    method Unlink(node: DeviceNode, ghost k: nat)
      requires devices.Valid() && OthersEnrolled(node) && node.entry.Some?
      requires var dev := node.entry.value;
               && dev.hnode == node
               && 1 <= k < |ChainOf(dev.key)| && ChainOf(dev.key)[k] == node
               && node in devices.repr && ChainOf(dev.key)[k - 1] in devices.repr
      modifies devices, devices.repr
      ensures ValidDevices() && devices.repr == old(devices.repr) - {node}
      ensures var key := node.entry.value.key;
              && ChainOf(key) == old(ChainOf(key))[..k] + old(ChainOf(key))[k + 1..]
              && Contents(devices.chains) == old(Contents(devices.chains))[devices.Bucket(H.Hash(key)) :=
                                               old(Content(ChainOf(key)))[..k - 1] + old(Content(ChainOf(key)))[k..]]
    {
      Unstore(node, node.entry.value.key, k);
      forall n | n in devices.repr && n.entry.Some? ensures Enrolled(n) {
        assert old(Enrolled(n));
      }
    }

    /** Unlinks the node and gives up the registry's reference. */
    method Withdraw(node: DeviceNode, ghost k: nat)
      requires devices.Valid() && OthersEnrolled(node) && node.entry.Some?
      requires var dev := node.entry.value;
               && dev.hnode == node && !dev.freed && 0 < dev.refcount
               && 1 <= k < |ChainOf(dev.key)| && ChainOf(dev.key)[k] == node
               && node in devices.repr && ChainOf(dev.key)[k - 1] in devices.repr
      modifies devices, devices.repr, node.entry.value
      ensures ValidDevices() && devices.repr == old(devices.repr) - {node}
      ensures var dev := node.entry.value;
              && dev.refcount == old(dev.refcount) - 1 && (dev.freed <==> dev.refcount == 0)
              && unchanged(dev`state, dev`monitor, dev`hnode)
      ensures var key := node.entry.value.key;
              && ChainOf(key) == old(ChainOf(key))[..k] + old(ChainOf(key))[k + 1..]
              && Contents(devices.chains) == old(Contents(devices.chains))[devices.Bucket(H.Hash(key)) :=
                                               old(Content(ChainOf(key)))[..k - 1] + old(Content(ChainOf(key)))[k..]]
    {
      Unlink(node, k);
      GiveBack(node.entry.value);
    }

    /** Tells the callbacks that the device is gone. */
    method Announce(node: DeviceNode)
      requires callbacks.Valid() && ValidDevices() && node in devices.repr && node.entry.Some?
      modifies callbacks, callbacks.repr, node.entry.value`state
      ensures callbacks.Valid() && callbacks.repr == old(callbacks.repr)
      ensures devices.Valid() && OthersEnrolled(node) && node.entry.value.state == Disconnected
      ensures unchanged(node.entry.value`refcount, node.entry.value`freed, node.entry.value`hnode)
      ensures ChainOf(node.entry.value.key) == old(ChainOf(node.entry.value.key))
      ensures View() == Fire(old(View()), Event(node.entry.value.Id(), Disconnected), callbacks.answers)
    {
      var dev := node.entry.value;
      assert Enrolled(node);
      dev.state := Disconnected;

      var r := Notify(dev);

      assert devices.Valid() == old(devices.Valid());
      forall n | n in devices.repr && n.entry.Some? && n != node ensures Enrolled(n) {
        assert old(Enrolled(n)) && n.entry.value != dev;
      }
    }

    /** The same, seen from the registry. */
    method WithdrawQuietly(node: DeviceNode, ghost k: nat)
      requires callbacks.Valid() && devices.Valid() && OthersEnrolled(node) && node.entry.Some?
      requires var dev := node.entry.value;
               && dev.hnode == node && !dev.freed && 0 < dev.refcount
               && 1 <= k < |ChainOf(dev.key)| && ChainOf(dev.key)[k] == node
               && node in devices.repr && ChainOf(dev.key)[k - 1] in devices.repr
      modifies devices, devices.repr, node.entry.value
      ensures callbacks.Valid() && ValidDevices() && devices.repr == old(devices.repr) - {node}
      ensures var dev := node.entry.value;
              && dev.refcount == old(dev.refcount) - 1 && (dev.freed <==> dev.refcount == 0)
              && unchanged(dev`state, dev`monitor, dev`hnode)
      ensures var d, c := node.entry.value.Id(), old(ChainOf(node.entry.value.key));
              && ChainOf(d.key) == c[..k] + c[k + 1..]
              && View() == old(View()).(buckets := old(View()).buckets[Home(old(View()), d.key) :=
                                                     Content(c)[..k - 1] + Content(c)[k..]])
    {
      Withdraw(node, k);
      assert callbacks.Valid() == old(callbacks.Valid());
    }

    /** One turn of the loop of Remove: the device is announced gone, unlinked and released. */
    method Discard(node: DeviceNode, ghost k: nat)
      requires callbacks.Valid() && ValidDevices() && node in devices.repr && node.entry.Some?
      requires Enrolled(node)
      requires var c := ChainOf(node.entry.value.key); 1 <= k < |c| && c[k] == node && c[k - 1] in devices.repr
      modifies callbacks, callbacks.repr, devices, devices.repr, node.entry.value
      ensures callbacks.Valid() && callbacks.repr == old(callbacks.repr)
      ensures ValidDevices() && devices.repr == old(devices.repr) - {node}
      ensures var dev := node.entry.value;
              && dev.refcount == old(dev.refcount) - 1 && (dev.freed <==> dev.refcount == 0)
              && dev.state == Disconnected && dev.hnode == old(dev.hnode)
      ensures var d, c := node.entry.value.Id(), old(ChainOf(node.entry.value.key));
              && ChainOf(d.key) == c[..k] + c[k + 1..]
              && var s := Fire(old(View()), Event(d, Disconnected), callbacks.answers);
                 View() == s.(buckets := s.buckets[Home(s, d.key) := Content(c)[..k - 1] + Content(c)[k..]])
    {
      Announce(node);
      WithdrawQuietly(node, k);
    }

    /** The devices with this key among the owners of some nodes. */
    ghost function Matching(nodes: seq<DeviceNode>, key: string): set<Device>
    {
      set n | n in nodes && n.entry.Some? && n.entry.value.key == key :: n.entry.value
    }

    /** One turn of the loop below, when the device has the key. */
    method DiscardAt(node: DeviceNode, ghost key: string, ghost k: nat)
      requires callbacks.Valid() && ValidDevices()
      requires node in devices.repr && node.entry.Some? && node.entry.value.key == key
      requires var c := ChainOf(key); 1 <= k < |c| && c[k] == node && L.Distinct(Content(c))
      modifies callbacks, callbacks.repr, devices, devices.repr, node.entry.value
      ensures callbacks.Valid() && callbacks.repr == old(callbacks.repr)
      ensures ValidDevices() && devices.repr == old(devices.repr) - {node}
      ensures ChainOf(key) == old(ChainOf(key))[..k] + old(ChainOf(key))[k + 1..]
      ensures View() == RemoveOne(old(View()), node.entry.value.Id(), callbacks.answers)
      ensures var dev := node.entry.value;
              && dev.refcount == old(dev.refcount) - 1 && (dev.freed <==> dev.refcount == 0)
              && dev.state == Disconnected && dev.hnode == old(dev.hnode)
    {
      ghost var bucket := Content(ChainOf(key));
      Walk(key, k - 1);
      Walk(key, k);
      WithoutAt(bucket, k - 1);
      Discard(node, k);
    }

    lemma MatchingStep(key: string, kept: seq<DeviceNode>, todo: seq<DeviceNode>)
      requires ValidDevices() && kept != [] && todo != [] && ChainOf(key) == kept + todo
      ensures var n := todo[0];
              && n in devices.repr && Enrolled(n) && (kept + todo)[|kept|] == n
              && n.entry.value !in Matching(todo[1..], key)
              && Matching(todo, key) == Matching(todo[1..], key) + if n.entry.value.key == key then {n.entry.value} else {}
    {
      var n, k := todo[0], |kept|;
      Walk(key, k);
      forall m | m in todo[1..] ensures m.entry.Some? && m.entry.value != n.entry.value {
        var i :| 0 <= i < |todo[1..]| && todo[1..][i] == m;
        Walk(key, k + 1 + i);
        assert ChainOf(key)[k + 1 + i] == m && ChainOf(key)[k] == n;
      }
      assert todo == [n] + todo[1..];
    }

    /** The loop of Remove has visited kept, and todo is what is left of the chain. */
    ghost predicate Walking(key: string, kept: seq<DeviceNode>, todo: seq<DeviceNode>)
      reads callbacks, callbacks.repr, devices, devices.repr, Owners()
    {
      && callbacks.Valid() && ValidDevices() && WellFormed(View())
      && kept != [] && ChainOf(key) == kept + todo
    }

    /** The body of the loop of Remove. */
    method Turn(cur: DeviceNode, key: string, hash: nat, ghost kept: seq<DeviceNode>, ghost todo: seq<DeviceNode>)
      returns (ghost kept': seq<DeviceNode>)
      requires Walking(key, kept, todo) && todo != [] && cur == todo[0] && cur.entry.Some? && hash == H.Hash(key)
      modifies callbacks, callbacks.repr, devices, devices.repr, cur.entry.value
      ensures Walking(key, kept', todo[1..]) && kept'[0] == kept[0]
      ensures callbacks.repr == old(callbacks.repr) && devices.repr <= old(devices.repr)
      ensures RemoveWalk(View(), key, Idents(todo[1..]), callbacks.answers) ==
              RemoveWalk(old(View()), key, Idents(todo), callbacks.answers)
      ensures var dev := cur.entry.value;
              if dev.key == key then
                && dev.refcount == old(dev.refcount) - 1 && (dev.freed <==> dev.refcount == 0)
                && dev.state == Disconnected && dev.hnode == old(dev.hnode)
              else
                unchanged(dev`refcount, dev`freed, dev`state, dev`hnode)
    {
      MatchingStep(key, kept, todo);
      Split(kept, todo);
      assert Idents(todo)[0] == IdentOf(cur) && Idents(todo)[1..] == Idents(todo[1..]);
      if cur.key == hash && cur.entry.value.key == key {
        assert WellFormed(RemoveOne(View(), IdentOf(cur), callbacks.answers)) by {
          RemoveOneKeeps(View(), IdentOf(cur), callbacks.answers);
        }
        DiscardAt(cur, key, |kept|);
        kept' := kept;
      } else {
        kept' := kept + [todo[0]];
      }
    }

    /** The same, for all the devices that may be concerned. */
    method TurnAmong(cur: DeviceNode, key: string, hash: nat, ghost kept: seq<DeviceNode>, ghost todo: seq<DeviceNode>,
                     ghost owners: set<Device>)
      returns (ghost kept': seq<DeviceNode>)
      requires Walking(key, kept, todo) && todo != [] && cur == todo[0] && cur.entry.Some? && hash == H.Hash(key)
      modifies callbacks, callbacks.repr, devices, devices.repr, cur.entry.value
      ensures Walking(key, kept', todo[1..]) && kept'[0] == kept[0]
      ensures callbacks.repr == old(callbacks.repr) && devices.repr <= old(devices.repr)
      ensures RemoveWalk(View(), key, Idents(todo[1..]), callbacks.answers) ==
              RemoveWalk(old(View()), key, Idents(todo), callbacks.answers)
      ensures Accounts(owners) == Settle(old(Accounts(owners)),
                                       if cur.entry.value.key == key then {cur.entry.value} else {}, Disconnected)
    {
      ghost var books, dev := Accounts(owners), cur.entry.value;
      kept' := Turn(cur, key, hash, kept, todo);
      forall d | d in owners && d != dev ensures Accounts(owners)[d] == books[d] {
        assert unchanged(d);
      }
      SettleOne(books, Accounts(owners), dev, dev.key == key, Disconnected);
    }

    /** The k-th node still to visit, the head coming after the last. */
    ghost function Nth(todo: seq<DeviceNode>, k: nat, head: DeviceNode): DeviceNode
    {
      if k < |todo| then todo[k] else head
    }

    lemma WalkTo(key: string, kept: seq<DeviceNode>, todo: seq<DeviceNode>)
      requires ValidDevices() && kept != [] && ChainOf(key) == kept + todo
      ensures var n := Nth(todo, 0, kept[0]);
              && n.next != null && (n.entry.Some? ==> !n.entry.value.freed)
              && (n == kept[0] <==> todo == [])
              && (todo != [] ==> n.next == Nth(todo[1..], 0, kept[0]))
    {
      Walk(key, if todo == [] then 0 else |kept|);
    }

    /** The loop of Remove: `next` is read before the current node may go away. */
    method Sweep(head: DeviceNode, key: string, hash: nat, ghost todo0: seq<DeviceNode>, ghost owners: set<Device>)
      requires Walking(key, [head], todo0) && hash == H.Hash(key)
      requires forall n :: n in devices.repr && n.entry.Some? ==> n.entry.value in owners
      modifies callbacks, callbacks.repr, devices, devices.repr, owners
      ensures callbacks.Valid() && ValidDevices() && WellFormed(View())
      ensures callbacks.repr == old(callbacks.repr) && devices.repr <= old(devices.repr)
      ensures View() == RemoveWalk(old(View()), key, Idents(todo0), callbacks.answers)
      ensures Accounts(owners) == Settle(old(Accounts(owners)), Matching(todo0, key), Disconnected)
    {
      ghost var goal := RemoveWalk(View(), key, Idents(todo0), callbacks.answers);
      ghost var books := Settle(Accounts(owners), Matching(todo0, key), Disconnected);
      ghost var kept, todo := [head], todo0;
      Walk(key, 0);
      var cur := head.next;
      WalkTo(key, kept, todo);
      var next := NextOf(cur);
      while cur != head
        invariant Walking(key, kept, todo) && kept[0] == head
        invariant callbacks.repr == old(callbacks.repr) && devices.repr <= old(devices.repr)
        invariant cur == Nth(todo, 0, head) && next == cur.next
        invariant RemoveWalk(View(), key, Idents(todo), callbacks.answers) == goal
        invariant Settle(Accounts(owners), Matching(todo, key), Disconnected) == books
        decreases |todo|
      {
        WalkTo(key, kept, todo);
        MatchingStep(key, kept, todo);
        SettleTwice(Accounts(owners), if cur.entry.value.key == key then {cur.entry.value} else {},
                    Matching(todo[1..], key), Disconnected);
        kept := TurnAmong(cur, key, hash, kept, todo, owners);
        todo := todo[1..];
        cur := next;
        WalkTo(key, kept, todo);
        next := NextOf(cur);
      }
      WalkTo(key, kept, todo);
      assert todo == [] && Matching([], key) == {};
      SettleEmpty(Accounts(owners), Disconnected);
    }

    lemma MatchingOwners(key: string)
      requires ValidDevices()
      ensures Matching(ChainOf(key), key) == WithKey(Owners(), key)
    {
      var c := ChainOf(key);
      forall d | d in WithKey(Owners(), key) ensures d in Matching(c, key) {
        OwnedIsRegistered(d);
        Stored(d.hnode);
      }
      forall d | d in Matching(c, key) ensures d in Owners() {
        var n :| n in c && n.entry == Some(d);
        var k :| 0 <= k < |c| && c[k] == n;
        Walk(key, k);
      }
    }

    lemma OwnersAreOfState()
      requires Valid()
      ensures OfState(View(), Owners())
    {
      forall d | d in Owners() ensures Registered(View(), d.Id()) { OwnedIsRegistered(d); }
      forall d, e | d in Owners() && e in Owners() && d.Id() == e.Id() ensures d == e { OwnersDiffer(d, e); }
    }

    lemma OwnersAfter(before: set<DeviceNode>, owners: set<Device>, key: string)
      requires ValidDevices() && devices.repr <= before && LeftBy(View(), owners, key)
      requires owners == set n | n in before && n.entry.Some? :: n.entry.value
      ensures Owners() == owners - WithKey(owners, key)
    {
      forall d | d in Owners() ensures d in owners && d.key != key {
        OwnedIsRegistered(d);
        assert d.hnode in before;
      }
      forall d | d in owners && d.key != key ensures d in Owners() {
        var e := RegisteredIsOwned(d.Id());
        assert e.hnode in devices.repr || e in Owners();
        OwnedIsRegistered(e);
        assert e in owners;
      }
    }

    /** What is behind the head of the bucket is what the loop goes over. */
    lemma BehindHead(key: string) returns (todo: seq<DeviceNode>)
      requires ValidDevices()
      ensures ChainOf(key) == [devices.heads[devices.Bucket(H.Hash(key))]] + todo
      ensures RemoveWalk(View(), key, Idents(todo), callbacks.answers) == RemoveKey(View(), key, callbacks.answers)
      ensures Matching(todo, key) == WithKey(Owners(), key)
    {
      MatchingOwners(key);
      todo := ChainOf(key)[1..];
      assert Idents(todo) == Content(ChainOf(key));
      assert Matching(todo, key) == Matching(ChainOf(key), key);
    }

    /** The search for the bucket and its loop. */
    method SweepBucket(key: string)
      requires Valid()
      modifies callbacks, callbacks.repr, devices, devices.repr, Owners()
      ensures Valid() && callbacks.repr == old(callbacks.repr) && devices.repr <= old(devices.repr)
      ensures View() == RemoveKey(old(View()), key, callbacks.answers)
      ensures Accounts(old(Owners())) == Settle(old(Accounts(Owners())), old(WithKey(Owners(), key)), Disconnected)
    {
      ghost var todo := BehindHead(key);
      var hash := H.HashStr(key);
      var head := devices.GetHead(hash);
      Sweep(head, key, hash, todo, Owners());
    }

    /** _hs_monitor_remove: every device with this key goes, after the callbacks were told. */
    method Remove(key: string)
      requires Valid()
      modifies callbacks, callbacks.repr, devices, devices.repr, Owners()
      ensures Valid() && callbacks.repr == old(callbacks.repr) && devices.repr <= old(devices.repr)
      ensures View() == RemoveKey(old(View()), key, callbacks.answers)
      ensures Accounts(old(Owners())) == Settle(old(Accounts(Owners())), old(WithKey(Owners(), key)), Disconnected)
      ensures Owners() == old(Owners()) - old(WithKey(Owners(), key))
    {
      ghost var s, owners, before := View(), Owners(), devices.repr;
      OwnersAreOfState();
      SweepBucket(key);
      RemoveLeaves(s, owners, key, callbacks.answers);
      OwnersAfter(before, owners, key);
    }

    /** hs_monitor_list: offers the devices to a function until it returns a non-zero value. */
    method List(f: Answers) returns (r: int, visited: seq<Device>)
      requires devices.Valid()
      ensures var all := Flat(Contents(devices.chains), 0);
              IdsOf(visited) <= all && Tally(|visited|, r) == Offer(|all|, f, 0)
    {
      ghost var buckets := Contents(devices.chains);
      ghost var all := Flat(buckets, 0);
      ghost var rest, left: nat := all, |all|;
      ghost var goal := OfferAfter(0, left, f);
      visited, r := [], 0;
      var n := 0;
      assert all == IdsOf([]) + rest;
      var h := 0;
      while h < |devices.heads|
        invariant 0 <= h <= |devices.heads| && rest == Flat(buckets, h)
        invariant all == IdsOf(visited) + rest && IdsOf(visited) <= all
        invariant n == |visited| && left == |rest| && OfferAfter(n, left, f) == goal
      {
        ghost var c, rest' := devices.chains[h], Flat(buckets, h + 1);
        ghost var left': nat := |rest'|;
        assert H.BucketChain(c, devices.heads[h], h, |devices.heads|);
        var seen;
        r, n, seen := ListChain(devices.heads[h], f, n, c, left, left');
        ListIds(visited, seen, c, rest, rest', all);
        visited := visited + seen;
        if r != 0 {
          return;
        }
        rest, left := rest', left';
        h := h + 1;
      }
      r := 0;
    }

    /** The node is still to be visited, todo being what is left of bucket h. */
    ghost predicate Pending(m: DeviceNode, h: nat, todo: seq<DeviceNode>)
      requires 0 < |devices.heads|
      reads m
    {
      h < m.key % |devices.heads| || (h == m.key % |devices.heads| && m in todo)
    }

    /** The devices not released yet are those of the nodes still to be visited. */
    ghost predicate Releasing(h: nat, todo: seq<DeviceNode>, left: set<Device>)
      requires 0 < |devices.heads|
      reads devices, devices.repr, Owners()
    {
      forall m {:trigger Pending(m, h, todo)} :: m in devices.repr && m.entry.Some? ==>
        && m.entry.value.hnode == m
        && (m.entry.value in left <==> Pending(m, h, todo))
        && (Pending(m, h, todo) ==> Enrolled(m))
    }

    /** The devices released so far have no monitor any more. */
    ghost predicate Detached(owners: set<Device>, left: set<Device>)
      reads owners
    {
      forall d :: d in owners && d !in left ==> d.monitor == null
    }

    /** The registry gives up its reference to one device. */
    method ReleaseOne(cur: DeviceNode, ghost h: nat, ghost todo: seq<DeviceNode>, ghost left: set<Device>)
      requires devices.Valid() && h < |devices.heads| && Releasing(h, todo, left)
      requires todo != [] && cur == todo[0] && L.Distinct(todo)
      requires cur in devices.repr && cur.entry.Some? && cur.key % |devices.heads| == h
      modifies cur.entry.value
      ensures Releasing(h, todo[1..], left - {cur.entry.value})
      ensures var dev := cur.entry.value;
              && dev in left && dev.monitor == null && dev.state == Online && dev.hnode == old(dev.hnode)
              && dev.refcount == old(dev.refcount) - 1 && (dev.freed <==> dev.refcount == 0)
    {
      var dev := cur.entry.value;
      assert Pending(cur, h, todo);
      dev.monitor := null;
      DeviceUnref(dev);
      forall m | m in devices.repr && m.entry.Some?
        ensures m.entry.value.hnode == m && (m.entry.value in left - {dev} <==> Pending(m, h, todo[1..]))
        ensures Pending(m, h, todo[1..]) ==> Enrolled(m)
      {
        assert old(Pending(m, h, todo)) == Pending(m, h, todo);
        assert todo == [cur] + todo[1..];
      }
    }

    /** The same, seen from the ledger: what remains to be settled is for the others. */
    method ReleaseAmong(cur: DeviceNode, ghost h: nat, ghost todo: seq<DeviceNode>, ghost left: set<Device>,
                        ghost owners: set<Device>)
      requires devices.Valid() && h < |devices.heads| && Releasing(h, todo, left)
      requires todo != [] && cur == todo[0] && L.Distinct(todo)
      requires cur in devices.repr && cur.entry.Some? && cur.key % |devices.heads| == h
      requires left <= owners && Detached(owners, left)
      modifies cur.entry.value
      ensures Releasing(h, todo[1..], left - {cur.entry.value}) && Detached(owners, left - {cur.entry.value})
      ensures Settle(Accounts(owners), left - {cur.entry.value}, Online) == Settle(old(Accounts(owners)), left, Online)
    {
      ghost var books, dev := Accounts(owners), cur.entry.value;
      ReleaseOne(cur, h, todo, left);
      SettleOne(books, Accounts(owners), dev, true, Online);
      SettleTwice(books, {dev}, left - {dev}, Online);
      assert left - {dev} + {dev} == left;
    }

    /** One turn of the inner loop of ReleaseDevices. */
    method ReleaseTurn(cur: DeviceNode, ghost h: nat, ghost done: seq<DeviceNode>, ghost todo: seq<DeviceNode>,
                       ghost left: set<Device>, ghost owners: set<Device>)
      returns (ghost done': seq<DeviceNode>, ghost left': set<Device>)
      requires devices.Valid() && h < |devices.heads| && done != [] && devices.chains[h] == done + todo
      requires Releasing(h, todo, left) && left <= owners && Detached(owners, left)
      requires todo != [] && cur == todo[0] && cur in devices.repr && cur.entry.Some?
      modifies left
      ensures devices.Valid() && done' != [] && devices.chains[h] == done' + todo[1..]
      ensures Releasing(h, todo[1..], left') && left' <= left && Detached(owners, left')
      ensures Settle(Accounts(owners), left', Online) == Settle(old(Accounts(owners)), left, Online)
    {
      WalkBucket(h, done, todo);
      Split(done, todo);
      assert Pending(cur, h, todo);
      label L:
      ReleaseAmong(cur, h, todo, left, owners);
      assert devices.Valid() == old@L(devices.Valid());
      done', left' := done + [todo[0]], left - {cur.entry.value};
    }

    /** The inner loop of ReleaseDevices: no node is read once its device may be gone. */
    method ReleaseBucket(h: nat, ghost left: set<Device>, ghost owners: set<Device>) returns (ghost left': set<Device>)
      requires devices.Valid() && h < |devices.heads| && Releasing(h, devices.chains[h][1..], left) && left <= owners
      requires Detached(owners, left)
      modifies left
      ensures Releasing(h, [], left') && left' <= left && Detached(owners, left')
      ensures Settle(Accounts(owners), left', Online) == Settle(old(Accounts(owners)), left, Online)
    {
      left' := left;
      ghost var books := Settle(Accounts(owners), left, Online);
      var head := devices.heads[h];
      ghost var done: seq<DeviceNode>, todo := [head], devices.chains[h][1..];
      WalkIn(h, 0);
      var cur := head.next;
      WalkBucket(h, done, todo);
      assert todo != [] ==> Pending(cur, h, todo);
      var next := NextOf(cur);
      while cur != head
        invariant devices.Valid() && done != [] && devices.chains[h] == done + todo
        invariant Releasing(h, todo, left') && left' <= left && Detached(owners, left')
        invariant cur == Nth(todo, 0, head) && next == cur.next
        invariant Settle(Accounts(owners), left', Online) == books
        decreases |todo|
      {
        WalkBucket(h, done, todo);
        done, left' := ReleaseTurn(cur, h, done, todo, left', owners);
        todo := todo[1..];
        cur := next;
        WalkBucket(h, done, todo);
        assert todo != [] ==> Pending(cur, h, todo) && !cur.entry.value.freed;
        next := NextOf(cur);
      }
      WalkBucket(h, done, todo);
    }

    lemma WalkBucket(h: nat, done: seq<DeviceNode>, todo: seq<DeviceNode>)
      requires devices.Valid() && h < |devices.heads| && done != [] && devices.chains[h] == done + todo
      ensures var n := Nth(todo, 0, devices.heads[h]);
              && n.next != null && (n == devices.heads[h] <==> todo == []) && L.Distinct(todo)
              && (todo != [] ==> n in devices.repr && n.entry.Some? && n.key % |devices.heads| == h)
              && (todo != [] ==> n.next == Nth(todo[1..], 0, devices.heads[h]))
    {
      WalkIn(h, if todo == [] then 0 else |done|);
      WalkIn(h, 0);
      assert L.Distinct(done + todo);
      forall i, j | 0 <= i < j < |todo| ensures todo[i] != todo[j] {
        assert (done + todo)[|done| + i] == todo[i] && (done + todo)[|done| + j] == todo[j];
      }
    }

    /** Ready for bucket h, or done after the last one. */
    ghost predicate ReadyFor(h: nat, left: set<Device>)
      requires devices.Valid() && h <= |devices.heads|
      reads devices, devices.repr, Owners()
    {
      if h < |devices.heads| then Releasing(h, devices.chains[h][1..], left) else left == {}
    }

    /** One turn of the outer loop. */
    method ReleaseNext(h: nat, ghost left: set<Device>, ghost owners: set<Device>) returns (ghost left': set<Device>)
      requires devices.Valid() && h < |devices.heads| && ReadyFor(h, left)
      requires owners == Owners() && left <= owners && Detached(owners, left)
      modifies left
      ensures devices.Valid() && ReadyFor(h + 1, left')
      ensures left' <= left && Detached(owners, left')
      ensures Settle(Accounts(owners), left', Online) == Settle(old(Accounts(owners)), left, Online)
    {
      label L:
      left' := ReleaseBucket(h, left, owners);
      assert devices.Valid() == old@L(devices.Valid());
      BucketsContinue(h, left');
    }

    /** _hs_monitor_release, after the callbacks: one reference per registered device goes. */
    method ReleaseDevices()
      requires ValidDevices()
      modifies Owners()
      ensures Accounts(Owners()) == Settle(old(Accounts(Owners())), Owners(), Online)
      ensures forall d :: d in Owners() ==> d.monitor == null
    {
      ghost var owners, left := Owners(), Owners();
      ghost var books := Settle(Accounts(owners), left, Online);
      BucketsBegin(left);
      var h := 0;
      while h < |devices.heads|
        invariant 0 <= h <= |devices.heads| && devices.Valid()
        invariant owners == Owners() && left <= owners && Detached(owners, left)
        invariant ReadyFor(h, left)
        invariant Settle(Accounts(owners), left, Online) == books
      {
        left := ReleaseNext(h, left, owners);
        h := h + 1;
      }
      SettleEmpty(Accounts(owners), Online);
    }

    lemma InRest(m: DeviceNode)
      requires devices.Valid() && m in devices.repr && m.entry.Some?
      ensures m in devices.chains[m.key % |devices.heads|][1..]
    {
      var b := m.key % |devices.heads|;
      var c := devices.chains[b];
      assert devices.InChain(m) && H.BucketChain(c, devices.heads[b], b, |devices.heads|);
      var k :| 0 <= k < |c| && c[k] == m;
      assert c[1..][k - 1] == m;
    }

    lemma BucketsBegin(left: set<Device>)
      requires ValidDevices() && left == Owners()
      ensures Releasing(0, devices.chains[0][1..], left)
    {
      forall m | m in devices.repr && m.entry.Some?
        ensures m.entry.value.hnode == m && m.entry.value in left && Enrolled(m)
        ensures Pending(m, 0, devices.chains[0][1..])
      {
        InRest(m);
        assert Enrolled(m);
      }
    }

    lemma BucketsContinue(h: nat, left: set<Device>)
      requires devices.Valid() && h < |devices.heads| && Releasing(h, [], left) && left <= Owners()
      ensures ReadyFor(h + 1, left)
    {
      if h + 1 < |devices.heads| {
        forall m | m in devices.repr && m.entry.Some?
          ensures Pending(m, h + 1, devices.chains[h + 1][1..]) == Pending(m, h, [])
        {
          InRest(m);
        }
      } else {
        forall d | d in left ensures false {
          var m :| m in devices.repr && m.entry == Some(d);
          var pending := Pending(m, h, []);
        }
      }
    }

    method Release() returns (freed: seq<CallbackNode>)
      requires Valid()
      modifies Owners()
      ensures freed == callbacks.ring[1..]
      ensures Accounts(Owners()) == Settle(old(Accounts(Owners())), Owners(), Online)
      ensures forall d :: d in Owners() ==> d.monitor == null
    {
      freed := callbacks.Release();
      ReleaseDevices();
    }

    /** What discovery does with a new device: offer it to the registry, and forget about it. */
    method HandOver(dev: Device) returns (r: int)
      requires Valid() && dev.Embeds() && !dev.freed && dev.refcount == 1 && dev.hnode !in devices.repr
      modifies callbacks, callbacks.repr, devices, devices.repr, dev.hnode, dev
      ensures Valid() && callbacks.repr == old(callbacks.repr) && devices.repr <= old(devices.repr) + {dev.hnode}
      ensures dev.hnode == old(dev.hnode)
      ensures View() == AddDevice(old(View()), dev.Id(), callbacks.answers).0
      ensures r == AddDevice(old(View()), dev.Id(), callbacks.answers).1
      ensures dev.freed <==> Registered(old(View()), dev.Id())
      ensures dev.refcount == if Registered(old(View()), dev.Id()) then 0 else 1
    {
      r := Add(dev);
      GiveBack(dev);
    }

    lemma OwnersGrow(before: set<DeviceNode>, owners: set<Device>, dev: Device)
      requires owners == set n | n in before && n.entry.Some? :: n.entry.value
      requires dev.Embeds() && devices.repr == before + {dev.hnode}
      ensures Owners() == owners + {dev}
    {
      assert dev.hnode in devices.repr;
    }

    lemma OwnersWithin(before: set<DeviceNode>, owners: set<Device>, dev: Device)
      requires owners == set n | n in before && n.entry.Some? :: n.entry.value
      requires dev.Embeds() && devices.repr <= before + {dev.hnode}
      ensures Owners() <= owners + {dev}
    {
    }

    method NewDevice(key: string, iface: Byte) returns (dev: Device)
      requires Valid()
      ensures fresh(dev) && fresh(dev.hnode) && dev.Embeds() && dev.Id() == Ident(key, iface)
      ensures !dev.freed && dev.refcount == 1 && dev.hnode !in devices.repr
      ensures Valid() && View() == old(View()) && Owners() == old(Owners())
    {
      dev := new Device(key, iface);
      assert Valid() == old(Valid());
    }

    method Discover(key: string, iface: Byte) returns (r: int)
      requires Valid()
      modifies callbacks, callbacks.repr, devices, devices.repr
      ensures Valid() && callbacks.repr == old(callbacks.repr)
      ensures fresh(devices.repr - old(devices.repr)) && fresh(Owners() - old(Owners()))
      ensures View() == AddDevice(old(View()), Ident(key, iface), callbacks.answers).0
      ensures r == AddDevice(old(View()), Ident(key, iface), callbacks.answers).1
    {
      ghost var owners := Owners();
      var dev := NewDevice(key, iface);
      r := HandOver(dev);
      OwnersWithin(old(devices.repr), owners, dev);
    }

    /** A device was plugged in: discovery reports an error, nothing usable, or a new device. */
    method Plug(found: int, key: string, iface: Byte) returns (r: int)
      requires Valid()
      modifies callbacks, callbacks.repr, devices, devices.repr
      ensures Valid() && callbacks.repr == old(callbacks.repr)
      ensures fresh(devices.repr - old(devices.repr)) && fresh(Owners() - old(Owners()))
      ensures found <= 0 ==> r == found && View() == old(View())
      ensures found > 0 ==> View() == AddDevice(old(View()), Ident(key, iface), callbacks.answers).0
      ensures found > 0 ==> r == AddDevice(old(View()), Ident(key, iface), callbacks.answers).1
    {
      if found <= 0 {
        return found;
      }
      r := Discover(key, iface);
    }

    method Handle(ev: Hotplug) returns (r: int)
      requires Valid()
      modifies callbacks, callbacks.repr, devices, devices.repr, Owners()
      ensures Valid() && callbacks.repr == old(callbacks.repr)
      ensures fresh(devices.repr - old(devices.repr)) && fresh(Owners() - old(Owners()))
      ensures View() == Run(old(View()), OpsOf(ev), callbacks.answers)
      ensures r == ResultOf(old(View()), ev, callbacks.answers)
    {
      OpsOfRun(View(), ev, callbacks.answers);
      match ev
      case Plugged(found, key, iface) => r := Plug(found, key, iface);
      case Unplugged(key) => Remove(key); r := 0;
      case Other => r := 0;
    }

    /** hs_monitor_refresh on Linux: processes hot-plug events until one of them fails. */
    method Refresh(events: seq<Hotplug>) returns (r: int, handled: nat)
      requires Valid()
      modifies callbacks, callbacks.repr, devices, devices.repr, Owners()
      ensures Valid()
      ensures Progress(handled, View(), r) == Process(old(View()), events, 0, callbacks.answers)
    {
      ghost var goal := Process(View(), events, 0, callbacks.answers);
      handled := 0;
      while handled < |events|
        invariant Valid() && handled <= |events|
        invariant Process(View(), events, handled, callbacks.answers) == goal
        invariant callbacks.repr == old(callbacks.repr)
        invariant fresh(devices.repr - old(devices.repr)) && fresh(Owners() - old(Owners()))
      {
        r := Handle(events[handled]);
        handled := handled + 1;
        if r < 0 {
          return;
        }
      }
      r := 0;
    }
  }
}
