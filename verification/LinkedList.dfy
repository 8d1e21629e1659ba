/**
 The intrusive circular doubly linked list of src/list.h.

 A list is a ring of nodes: the head comes first, the elements follow in order.  The head is a
 node too, but it is not embedded in any element, so it has no entry.  Every operation takes the
 ring it works on as a ghost argument and says which ring it leaves; each rewrites only the
 `prev` and `next` pointers of the nodes named in its `modifies` clause.
 */
module LinkedList {
  import opened Wrappers

  class Node<T> {
    var prev: Node?<T>
    var next: Node?<T>
    const entry: Option<T>  // the structure that embeds this node

    constructor (entry: Option<T>)
      ensures this.entry == entry && prev == null && next == null
    {
      this.entry := entry;
      prev, next := null, null;
    }
  }

  ghost predicate Distinct<T>(r: seq<T>) {
    forall i, j :: 0 <= i < j < |r| ==> r[i] != r[j]
  }

  lemma DistinctConcat<T>(a: seq<T>, b: seq<T>)
    requires Distinct(a) && Distinct(b) && (forall x :: x in a ==> x !in b)
    ensures Distinct(a + b)
  {
    forall i, j | 0 <= i < j < |a + b| ensures (a + b)[i] != (a + b)[j] {
      if i < |a| <= j {
        assert a[i] in a && b[j - |a|] in b;
      }
    }
  }

  /** Following `next` from r[0] walks r and comes back; `prev` is its inverse. */
  ghost predicate Ring<T>(r: seq<Node<T>>)
    reads r
  {
    && 1 <= |r|
    && Distinct(r)
    && (forall i :: 0 <= i < |r| - 1 ==> r[i].next == r[i + 1])
    && (forall i :: 1 <= i < |r| ==> r[i].prev == r[i - 1])
    && r[|r| - 1].next == r[0]
    && r[0].prev == r[|r| - 1]
  }

  lemma Neighbours<T>(r: seq<Node<T>>, k: nat)
    requires Ring(r) && k < |r|
    ensures r[k].next == (if k + 1 < |r| then r[k + 1] else r[0])
    ensures r[k].prev == (if 0 < k then r[k - 1] else r[|r| - 1])
    ensures r[k].next == r[k] <==> |r| == 1
  {
  }

  /** Rings are built link by link. */
  lemma MakeRing<T>(t: seq<Node<T>>)
    requires 1 <= |t| && Distinct(t)
    requires forall i :: 0 <= i < |t| - 1 ==> t[i].next == t[i + 1] && t[i + 1].prev == t[i]
    requires t[|t| - 1].next == t[0] && t[0].prev == t[|t| - 1]
    ensures Ring(t)
  {
    forall i | 1 <= i < |t| ensures t[i].prev == t[i - 1] {
      assert t[(i - 1) + 1].prev == t[i - 1];
    }
  }

  method Init<T>(list: Node<T>)
    modifies list
    ensures Ring([list])
  {
    list.prev := list;
    list.next := list;
  }

  method InsertInternal<T>(prev: Node<T>, next: Node<T>, head: Node<T>)
    requires head != prev && head != next
    modifies prev, next, head
    ensures prev.next == head && head.prev == prev
    ensures next.prev == head && head.next == next
    ensures prev != next ==> prev.prev == old(prev.prev) && next.next == old(next.next)
  {
    prev.next := head;
    head.prev := prev;

    next.prev := head;
    head.next := next;
  }

  method Add<T>(list: Node<T>, head: Node<T>, ghost r: seq<Node<T>>)
    requires Ring(r) && r[0] == list && head !in r
    modifies list, list.next, head
    ensures Ring([list, head] + r[1..])
  {
    assert list.next == if |r| == 1 then list else r[1];
    InsertInternal(list, list.next, head);
  }

  method AddTail<T>(list: Node<T>, head: Node<T>, ghost r: seq<Node<T>>)
    requires Ring(r) && r[0] == list && head !in r
    modifies list.prev, list, head
    ensures Ring(r + [head])
  {
    InsertInternal(list.prev, list, head);
  }

  method Remove<T>(head: Node<T>, ghost r: seq<Node<T>>, ghost k: nat)
    requires Ring(r) && 1 <= k < |r| && r[k] == head
    modifies head.prev, head.next, head
    ensures Ring(r[..k] + r[k + 1..])
    ensures head.prev == null && head.next == null
  {
    assert head.prev == r[k - 1];
    assert head.next == if k + 1 < |r| then r[k + 1] else r[0];
    head.prev.next := head.next;
    head.next.prev := head.prev;

    head.prev := null;
    head.next := null;
  }

  method IsEmpty<T>(list: Node<T>, ghost r: seq<Node<T>>) returns (empty: bool)
    requires Ring(r) && r[0] == list
    ensures empty <==> r[1..] == []
  {
    Neighbours(r, 0);
    empty := list.next == list;
  }

  method IsSingular<T>(list: Node<T>, ghost r: seq<Node<T>>) returns (singular: bool)
    requires Ring(r) && r[0] == list
    ensures singular <==> |r[1..]| == 1
  {
    assert |r| > 1 ==> list.next == r[1] && list.prev == r[|r| - 1];
    singular := list.next != list && list.next == list.prev;
  }

  method SpliceInternal<T>(prev: Node<T>, next: Node<T>, head: Node<T>, ghost s: seq<Node<T>>)
    requires Ring(s) && s[0] == head && prev !in s && next !in s
    modifies prev, next, head, head.next, head.prev
    ensures Ring([head])
    ensures |s| == 1 ==> prev.next == old(prev.next) && next.prev == old(next.prev)
    ensures |s| > 1 ==> prev.next == s[1] && s[1].prev == prev
    ensures |s| > 1 ==> next.prev == s[|s| - 1] && s[|s| - 1].next == next
    ensures prev != next ==> prev.prev == old(prev.prev) && next.next == old(next.next)
    ensures forall i :: 1 <= i < |s| - 1 ==> s[i].next == old(s[i].next)
    ensures forall i :: 2 <= i < |s| ==> s[i].prev == old(s[i].prev)
  {
    Neighbours(s, 0);
    if head.next == head {
      return;
    }
    assert head.next == s[1] && head.prev == s[|s| - 1];

    head.next.prev := prev;
    prev.next := head.next;

    head.prev.next := next;
    next.prev := head.prev;

    Init(head);
  }

  method Splice<T>(list: Node<T>, from: Node<T>, ghost r: seq<Node<T>>, ghost s: seq<Node<T>>)
    requires Ring(r) && r[0] == list && Ring(s) && s[0] == from
    requires forall n :: n in r ==> n !in s
    modifies list, list.next, from, from.next, from.prev
    ensures Ring([from])
    ensures Ring([list] + s[1..] + r[1..])
  {
    Neighbours(r, 0);
    SpliceInternal(list, list.next, from, s);
    ghost var t := [list] + s[1..] + r[1..];
    DistinctConcat([list], s[1..]);
    assert forall x :: x in [list] + s[1..] ==> x == list || x in s;
    DistinctConcat([list] + s[1..], r[1..]);
    forall i | 0 <= i < |t| - 1
      ensures t[i].next == t[i + 1] && t[i + 1].prev == t[i]
    {
      if i < |s| - 1 {
        assert t[i + 1] == s[i + 1] && (0 < i ==> t[i] == s[i]);
      } else {
        assert t[i + 1] == r[i + 2 - |s|];
        assert t[i] == if |s| <= i then r[i + 1 - |s|] else if i == 0 then list else s[i];
        assert t[i + 1] in r && (|s| <= i ==> t[i] in r);
      }
    }
    MakeRing(t);
  }

  method SpliceTail<T>(list: Node<T>, from: Node<T>, ghost r: seq<Node<T>>, ghost s: seq<Node<T>>)
    requires Ring(r) && r[0] == list && Ring(s) && s[0] == from
    requires forall n :: n in r ==> n !in s
    modifies list.prev, list, from, from.next, from.prev
    ensures Ring([from])
    ensures Ring(r + s[1..])
  {
    Neighbours(r, 0);
    SpliceInternal(list.prev, list, from, s);
    ghost var t := r + s[1..];
    DistinctConcat(r, s[1..]);
    forall i | 0 <= i < |t| - 1
      ensures t[i].next == t[i + 1] && t[i + 1].prev == t[i]
    {
      if i < |r| - 1 {
        assert t[i] == r[i] && t[i + 1] == r[i + 1] && r[i] in r && r[i + 1] in r;
      } else {
        assert t[i + 1] == s[i + 2 - |r|];
        assert t[i] == if |r| <= i then s[i + 1 - |r|] else r[i];
      }
    }
    MakeRing(t);
  }

  ghost function Kept<T>(s: seq<Node<T>>, drop: Node<T> -> bool): seq<Node<T>>
  {
    if s == [] then []
    else Kept(s[..|s| - 1], drop) + (if drop(s[|s| - 1]) then [] else [s[|s| - 1]])
  }

  /** What the ring looks like once the first k - 1 elements of r have been visited. */
  ghost function Partial<T>(r: seq<Node<T>>, drop: Node<T> -> bool, k: nat): (p: seq<Node<T>>)
    requires 1 <= k <= |r|
    ensures 0 < |p| && p[0] == r[0]
    ensures k < |r| ==> 1 + |Kept(r[1..k], drop)| < |p| && p[1 + |Kept(r[1..k], drop)|] == r[k]
  {
    [r[0]] + Kept(r[1..k], drop) + r[k..]
  }

  lemma PartialStep<T>(r: seq<Node<T>>, drop: Node<T> -> bool, k: nat)
    requires 1 <= k < |r|
    ensures var p, at := Partial(r, drop, k), 1 + |Kept(r[1..k], drop)|;
            Partial(r, drop, k + 1) == if drop(r[k]) then p[..at] + p[at + 1..] else p
  {
    assert r[1..k + 1][..k - 1] == r[1..k];
    assert r[k..] == [r[k]] + r[k + 1..];
  }

  lemma KeptSubset<T>(s: seq<Node<T>>, drop: Node<T> -> bool)
    ensures forall n :: n in Kept(s, drop) ==> n in s
    ensures forall n :: n in s ==> (n in Kept(s, drop) <==> !drop(n))
  {
  }

  lemma PartialSubset<T>(r: seq<Node<T>>, drop: Node<T> -> bool, k: nat)
    requires 1 <= k <= |r|
    ensures forall n :: n in Partial(r, drop, k) ==> n in r
  {
    KeptSubset(r[1..k], drop);
  }

  lemma PartialNext<T>(r: seq<Node<T>>, drop: Node<T> -> bool, k: nat)
    requires 1 <= k <= |r| && Ring(Partial(r, drop, k))
    ensures k < |r| ==> r[k].next == if k + 1 < |r| then r[k + 1] else r[0]
    ensures r[0].next != null
  {
    var p, at := Partial(r, drop, k), 1 + |Kept(r[1..k], drop)|;
    Neighbours(p, 0);
    if k < |r| {
      Neighbours(p, at);
      assert p[at..] == r[k..];
      assert at + 1 < |p| ==> p[at + 1] == r[k..][1];
    }
  }

  lemma PartialEnds<T>(r: seq<Node<T>>, drop: Node<T> -> bool)
    requires r != []
    ensures Partial(r, drop, 1) == r && r[1..1] == []
    ensures Partial(r, drop, |r|) == [r[0]] + Kept(r[1..], drop) && r[1..|r|] == r[1..]
  {
    assert r[1..1] == [] && [r[0]] + r[1..] == r;
    assert r[|r|..] == [] && r[1..|r|] == r[1..];
  }

  lemma TakeOneMore<T>(s: seq<T>, k: nat)
    requires 1 <= k < |s|
    ensures s[1..k] + [s[k]] == s[1..k + 1]
  {
  }

  /** A foreach whose body may remove the current node: the next node is read before the body runs. */
  method ForeachRemoving<T>(list: Node<T>, drop: Node<T> -> bool, ghost r: seq<Node<T>>)
    returns (visited: seq<Node<T>>)
    requires Ring(r) && r[0] == list
    modifies r
    ensures visited == r[1..]
    ensures Ring([list] + Kept(r[1..], drop))
  {
    visited := [];
    ghost var k := 1;
    PartialEnds(r, drop);
    PartialNext(r, drop, 1);
    Neighbours(r, 0);
    var cur: Node<T> := list.next;
    var next := cur.next;
    while cur != list
      invariant 1 <= k <= |r|
      invariant visited == r[1..k]
      invariant Ring(Partial(r, drop, k))
      invariant cur == if k < |r| then r[k] else list
      invariant next == cur.next
      decreases |r| - k
    {
      TakeOneMore(r, k);
      visited := visited + [cur];
      cur, next := VisitAndGoOn(cur, next, drop, r, k);
      k := k + 1;
    }
  }

  /** One turn: next was read before the current element may go. */
  method VisitAndGoOn<T>(cur: Node<T>, next: Node?<T>, drop: Node<T> -> bool, ghost r: seq<Node<T>>, ghost k: nat)
    returns (cur': Node<T>, next': Node?<T>)
    requires 1 <= k < |r| && cur == r[k] && next == cur.next && Ring(Partial(r, drop, k))
    modifies r
    ensures Ring(Partial(r, drop, k + 1))
    ensures cur' == (if k + 1 < |r| then r[k + 1] else r[0]) && next' == cur'.next
  {
    PartialNext(r, drop, k);
    VisitOne(cur, drop, r, k);
    cur' := next;
    PartialNext(r, drop, k + 1);
    next' := cur'.next;
  }

  method VisitOne<T>(cur: Node<T>, drop: Node<T> -> bool, ghost r: seq<Node<T>>, ghost k: nat)
    requires 1 <= k < |r| && cur == r[k] && Ring(Partial(r, drop, k))
    modifies r
    ensures Ring(Partial(r, drop, k + 1))
  {
    PartialStep(r, drop, k);
    if drop(cur) {
      PartialSubset(r, drop, k);
      RemoveWithin(cur, Partial(r, drop, k), 1 + |Kept(r[1..k], drop)|);
    }
  }

  /** Remove, with the whole ring as its frame. */
  method RemoveWithin<T>(head: Node<T>, ghost r: seq<Node<T>>, ghost k: nat)
    requires Ring(r) && 1 <= k < |r| && r[k] == head
    modifies set n | n in r
    ensures Ring(r[..k] + r[k + 1..])
  {
    Neighbours(r, k);
    Remove(head, r, k);
  }
}
