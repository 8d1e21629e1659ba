/**
 Who holds the references to devices, over any run of discovery, callers, registry and handles.  A
 world is what there is to see of all devices at one time; a move is one operation.  Module Session
 proves that the operations of modules Monitor and Handles make exactly these moves on the heap.
 */
module Ledger {
  import opened Wrappers
  import opened Registry
  import opened Monitor
  import H = HashTable

  datatype World = World(
    books: map<Device, Account>,  // every device discovered: its count, whether it is freed, its status
    callers: multiset<Device>,    // references held by callers
    handles: multiset<Device>,    // open handles
    registered: set<Device>
  )

  const EMPTY := World(map[], multiset{}, multiset{}, {})

  datatype Move =
    | Discover(d: Device, node: H.HNode<Device>)  // a new device, owned by the caller
    | Ref(d: Device)
    | Unref(d: Device)
    | Enter(d: Device)                            // _hs_monitor_add
    | Leave(key: string)                          // _hs_monitor_remove
    | Open(d: Device, ok: bool)
    | Close(d: Device)
    | Release                                     // _hs_monitor_release

  /** Somebody has a reference to d. */
  ghost predicate Held(w: World, d: Device)
  {
    d in w.callers || d in w.handles || d in w.registered
  }

  /** What callers may do: use devices they can reach, give back what they have. */
  ghost predicate Legal(w: World, m: Move)
  {
    match m
    case Discover(d, node) => d !in w.books && node.entry == Some(d)
    case Ref(d) => Held(w, d)
    case Unref(d) => d in w.callers
    case Enter(d) => d in w.callers
    case Leave(_) => true
    case Open(d, _) => Held(w, d)
    case Close(d) => d in w.handles
    case Release => true
  }

  ghost function More(books: map<Device, Account>, d: Device, state: Status): map<Device, Account>
    requires d in books
  {
    books[d := books[d].(refcount := books[d].refcount + 1, state := state)]
  }

  ghost predicate Known(w: World, id: Ident)
  {
    exists x :: x in w.registered && x.Id() == id
  }

  ghost function Apply(w: World, m: Move): World
    requires Balanced(w) && Legal(w, m)
  {
    match m
    case Discover(d, node) =>
      w.(books := w.books[d := Account(1, false, Disconnected, node)], callers := w.callers + multiset{d})
    case Ref(d) =>
      w.(books := More(w.books, d, w.books[d].state), callers := w.callers + multiset{d})
    case Unref(d) =>
      w.(books := Settle(w.books, {d}, w.books[d].state), callers := w.callers - multiset{d})
    case Enter(d) =>
      if Known(w, d.Id()) then w
      else w.(books := More(w.books, d, Online), registered := w.registered + {d})
    case Leave(key) =>
      var gone := WithKey(w.registered, key);
      w.(books := Settle(w.books, gone, Disconnected), registered := w.registered - gone)
    case Open(d, ok) =>
      if !ok || w.books[d].state != Online then w
      else w.(books := More(w.books, d, Online), handles := w.handles + multiset{d})
    case Close(d) =>
      w.(books := Settle(w.books, {d}, w.books[d].state), handles := w.handles - multiset{d})
    case Release =>
      w.(books := Settle(w.books, w.registered, Online), registered := {})
  }

  /** The references somebody has to d. */
  ghost function Count(w: World, d: Device): nat
  {
    w.callers[d] + w.handles[d] + if d in w.registered then 1 else 0
  }

  /** One device's count is the references held to it; it is freed iff there is none; its node embeds it. */
  ghost predicate Right(w: World, d: Device)
    requires d in w.books
  {
    var a := w.books[d];
    && a.refcount == Count(w, d)
    && (a.freed <==> a.refcount == 0)
    && a.node != null && a.node.entry == Some(d)
  }

  ghost predicate Balanced(w: World)
  {
    && (forall d :: d in w.callers ==> d in w.books)
    && (forall d :: d in w.handles ==> d in w.books)
    && (forall d :: d in w.registered ==> d in w.books && w.books[d].state == Online)
    && (forall d {:trigger Right(w, d)} :: d in w.books ==> Right(w, d))
    && forall x, y :: x in w.registered && y in w.registered && x.Id() == y.Id() ==> x == y
  }

  /** Moves that no correct caller makes are not made. */
  ghost function Run(w: World, moves: seq<Move>): (w': World)
    requires Balanced(w)
    ensures Balanced(w')
    decreases |moves|
  {
    if moves == [] then w
    else if !Legal(w, moves[0]) then Run(w, moves[1..])
    else
      ApplyKeeps(w, moves[0]);
      Run(Apply(w, moves[0]), moves[1..])
  }

  /** Every d loses a reference that a holder gave up, or none. */
  lemma SettleKeeps(w: World, w': World, gone: set<Device>, state: Status)
    requires Balanced(w) && gone <= w.books.Keys
    requires w'.books == Settle(w.books, gone, state) && w'.registered <= w.registered
    requires forall d :: d in w.books ==> Count(w, d) == Count(w', d) + if d in gone then 1 else 0
    requires forall d :: d in w'.callers || d in w'.handles ==> d in w.books
    requires forall d :: d in w'.registered ==> d !in gone || state == Online
    ensures Balanced(w')
  {
    forall d | d in w'.books ensures Right(w', d) {
      assert Right(w, d);
    }
  }

  lemma MoreKeeps(w: World, w': World, d: Device, state: Status)
    requires Balanced(w) && d in w.books && Held(w, d)
    requires w'.books == More(w.books, d, state) && (d in w.registered ==> state == Online)
    requires forall e :: e in w.books ==> Count(w', e) == Count(w, e) + if e == d then 1 else 0
    requires forall e :: e in w'.callers || e in w'.handles ==> e in w.books
    requires w'.registered == w.registered || (w'.registered == w.registered + {d} && state == Online && !Known(w, d.Id()))
    ensures Balanced(w')
  {
    assert Right(w, d);
    forall e | e in w'.books ensures Right(w', e) {
      assert Right(w, e);
    }
  }

  lemma DiscoverKeeps(w: World, d: Device, node: H.HNode<Device>)
    requires Balanced(w) && Legal(w, Discover(d, node))
    ensures Balanced(Apply(w, Discover(d, node)))
  {
    var w' := Apply(w, Discover(d, node));
    forall e | e in w'.books ensures Right(w', e) {
      if e != d {
        assert Right(w, e);
      }
    }
  }

  lemma RefKeeps(w: World, d: Device)
    requires Balanced(w) && Legal(w, Ref(d))
    ensures Balanced(Apply(w, Ref(d)))
  {
    MoreKeeps(w, Apply(w, Ref(d)), d, w.books[d].state);
  }

  lemma EnterKeeps(w: World, d: Device)
    requires Balanced(w) && Legal(w, Enter(d))
    ensures Balanced(Apply(w, Enter(d)))
  {
    if !Known(w, d.Id()) {
      MoreKeeps(w, Apply(w, Enter(d)), d, Online);
    }
  }

  lemma OpenKeeps(w: World, d: Device, ok: bool)
    requires Balanced(w) && Legal(w, Open(d, ok))
    ensures Balanced(Apply(w, Open(d, ok)))
  {
    if ok && w.books[d].state == Online {
      MoreKeeps(w, Apply(w, Open(d, ok)), d, Online);
    }
  }

  lemma UnrefKeeps(w: World, d: Device)
    requires Balanced(w) && Legal(w, Unref(d))
    ensures Balanced(Apply(w, Unref(d)))
  {
    SettleKeeps(w, Apply(w, Unref(d)), {d}, w.books[d].state);
  }

  lemma CloseKeeps(w: World, d: Device)
    requires Balanced(w) && Legal(w, Close(d))
    ensures Balanced(Apply(w, Close(d)))
  {
    SettleKeeps(w, Apply(w, Close(d)), {d}, w.books[d].state);
  }

  lemma LeaveKeeps(w: World, key: string)
    requires Balanced(w)
    ensures Balanced(Apply(w, Leave(key)))
  {
    SettleKeeps(w, Apply(w, Leave(key)), WithKey(w.registered, key), Disconnected);
  }

  lemma ReleaseKeeps(w: World)
    requires Balanced(w)
    ensures Balanced(Apply(w, Release))
  {
    SettleKeeps(w, Apply(w, Release), w.registered, Online);
  }

  /** Every move keeps all counts right. */
  lemma ApplyKeeps(w: World, m: Move)
    requires Balanced(w) && Legal(w, m)
    ensures Balanced(Apply(w, m))
  {
    match m
    case Discover(d, node) => DiscoverKeeps(w, d, node);
    case Ref(d) => RefKeeps(w, d);
    case Unref(d) => UnrefKeeps(w, d);
    case Enter(d) => EnterKeeps(w, d);
    case Leave(key) => LeaveKeeps(w, key);
    case Open(d, ok) => OpenKeeps(w, d, ok);
    case Close(d) => CloseKeeps(w, d);
    case Release => ReleaseKeeps(w);
  }

  /**
   In every reachable world a device is freed iff nobody, caller, handle or registry, holds it: what
   can still be reached is never freed, and what cannot is never kept.
   */
  lemma NothingDanglesNothingLeaks(moves: seq<Move>)
    ensures var w := Run(EMPTY, moves);
            && (forall d :: Held(w, d) ==> d in w.books)
            && forall d :: d in w.books ==> (w.books[d].freed <==> !Held(w, d))
  {
    var w := Run(EMPTY, moves);
    forall d | d in w.books ensures w.books[d].freed <==> !Held(w, d) {
      assert Right(w, d);
    }
  }

  lemma {:induction false} RunConcat(w: World, a: seq<Move>, b: seq<Move>)
    requires Balanced(w)
    ensures Run(w, a + b) == Run(Run(w, a), b)
    decreases |a|
  {
    if a == [] {
      assert a + b == b;
    } else {
      assert (a + b)[0] == a[0] && (a + b)[1..] == a[1..] + b;
      if Legal(w, a[0]) {
        ApplyKeeps(w, a[0]);
        RunConcat(Apply(w, a[0]), a[1..], b);
      } else {
        RunConcat(w, a[1..], b);
      }
    }
  }

  lemma RunSnoc(w: World, moves: seq<Move>, m: Move)
    requires Balanced(w) && Legal(Run(w, moves), m)
    ensures Run(w, moves + [m]) == Apply(Run(w, moves), m)
  {
    RunConcat(w, moves, [m]);
    ApplyKeeps(Run(w, moves), m);
    assert [m][1..] == [] && Run(Run(w, moves), [m]) == Run(Apply(Run(w, moves), m), []);
  }

  // ---------- records ----------

  /** The moves of a program, and the worlds it went through with them. */
  datatype Log = Log(worlds: seq<World>, moves: seq<Move>)

  /** The i-th move was a legal one, and led to the next world. */
  ghost predicate Made(log: Log, i: nat)
    requires |log.worlds| == |log.moves| + 1 && i < |log.moves|
  {
    && Balanced(log.worlds[i]) && Legal(log.worlds[i], log.moves[i])
    && log.worlds[i + 1] == Apply(log.worlds[i], log.moves[i])
  }

  /** It leads from nothing to w, one legal move after the other. */
  ghost predicate LeadsTo(log: Log, w: World)
  {
    && |log.worlds| == |log.moves| + 1
    && log.worlds[0] == EMPTY && log.worlds[|log.moves|] == w
    && forall i {:trigger Made(log, i)} :: 0 <= i < |log.moves| ==> Made(log, i)
  }

  function Extended(log: Log, m: Move, w: World): Log { Log(log.worlds + [w], log.moves + [m]) }

  lemma LeadsOn(log: Log, w: World, m: Move)
    requires LeadsTo(log, w) && Balanced(w) && Legal(w, m)
    ensures LeadsTo(Extended(log, m, Apply(w, m)), Apply(w, m)) && Balanced(Apply(w, m))
  {
    ApplyKeeps(w, m);
    var log' := Extended(log, m, Apply(w, m));
    forall i | 0 <= i < |log'.moves| ensures Made(log', i) {
      assert i < |log.moves| ==> Made(log, i);
    }
  }

  /** So w is the outcome of the moves. */
  lemma {:induction false} LogIsRun(log: Log, w: World)
    requires LeadsTo(log, w)
    ensures w == Run(EMPTY, log.moves)
    decreases |log.moves|
  {
    if log.moves != [] {
      var n := |log.moves| - 1;
      var before := Log(log.worlds[..n + 1], log.moves[..n]);
      assert Made(log, n);
      forall i | 0 <= i < n ensures Made(before, i) {
        assert Made(log, i);
      }
      LogIsRun(before, log.worlds[n]);
      assert log.moves == log.moves[..n] + [log.moves[n]];
      RunSnoc(EMPTY, log.moves[..n], log.moves[n]);
    }
  }
}
