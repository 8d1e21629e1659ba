/**
 The intrusive hash table of src/htable.c and src/htable.h: an array of bucket heads, each the
 start of a circular singly linked chain.  A bucket head is used as a node, through its `next`
 pointer only; it belongs to no element and has no entry.
 */
module HashTable {
  import opened Wrappers
  import opened LinkedList

  class HNode<T> {
    var next: HNode?<T>
    var key: nat
    const entry: Option<T>  // the structure that embeds this node

    constructor (entry: Option<T>)
      ensures this.entry == entry && next == null
    {
      this.entry := entry;
      next, key := null, 0;
    }
  }

  /** uint32_t arithmetic wraps around. */

  function HashFrom(hash: nat, s: string): nat
    decreases |s|
  {
    if s == [] then hash else HashFrom((hash * 101 + s[0] as int % 0x100) % TWO_TO_THE_32, s[1..])
  }

  function Hash(s: string): nat { HashFrom(0, s) }

  function Power101(e: nat): nat { if e == 0 then 1 else 101 * Power101(e - 1) }

  /** The characters as the digits of a number in base 101. */
  function Polynomial(s: string): nat
    decreases |s|
  {
    if s == [] then 0 else s[0] as int % 0x100 * Power101(|s| - 1) + Polynomial(s[1..])
  }

  lemma Multiples(k: int, z: int)
    ensures (TWO_TO_THE_32 * k + z) % TWO_TO_THE_32 == z % TWO_TO_THE_32
  {
  }

  lemma ReduceFirst(x: nat, p: nat, y: nat)
    ensures (x % TWO_TO_THE_32 * p + y) % TWO_TO_THE_32 == (x * p + y) % TWO_TO_THE_32
  {
    var q, m := x / TWO_TO_THE_32, x % TWO_TO_THE_32;
    assert x * p == (TWO_TO_THE_32 * q + m) * p == TWO_TO_THE_32 * (q * p) + m * p;
    Multiples(q * p, m * p + y);
  }

  lemma Horner(hash: nat, c: nat, next: nat, p': nat, y': nat, p: nat, y: nat)
    requires next == (hash * 101 + c) % TWO_TO_THE_32 && p == 101 * p' && y == c * p' + y'
    ensures (next * p' + y') % TWO_TO_THE_32 == (hash * p + y) % TWO_TO_THE_32
  {
    ReduceFirst(hash * 101 + c, p', y');
    assert (hash * 101 + c) * p' == hash * (101 * p') + c * p';
  }

  lemma {:induction false} HashFromIs(hash: nat, s: string, p: nat, y: nat)
    requires hash < TWO_TO_THE_32 && p == Power101(|s|) && y == Polynomial(s)
    ensures HashFrom(hash, s) == (hash * p + y) % TWO_TO_THE_32
    decreases |s|
  {
    if s == [] {
      assert p == 1 && y == 0;
    } else {
      var c, p', y' := s[0] as int % 0x100, Power101(|s| - 1), Polynomial(s[1..]);
      var next := (hash * 101 + c) % TWO_TO_THE_32;
      HashFromIs(next, s[1..], p', y');
      Horner(hash, c, next, p', y', p, y);
    }
  }

  /** Without wrap-around in between: the hash is that number modulo 2^32. */
  lemma HashIsPolynomial(s: string)
    ensures Hash(s) == Polynomial(s) % 0x1_0000_0000
  {
    HashFromIs(0, s, Power101(|s|), Polynomial(s));
  }

  method HashStr(s: string) returns (hash: nat)
    ensures hash == Hash(s)
  {
    hash := 0;
    var i := 0;
    while i < |s|
      invariant 0 <= i <= |s|
      invariant HashFrom(hash, s[i..]) == Hash(s)
    {
      assert s[i..][1..] == s[i + 1..];
      hash := (hash * 101 + s[i] as int % 0x100) % TWO_TO_THE_32;
      i := i + 1;
    }
  }

  /** Following `next` from r[0] walks r and comes back. */
  ghost predicate Chain<T>(r: seq<HNode<T>>)
    reads r
  {
    && 1 <= |r|
    && Distinct(r)
    && (forall i :: 0 <= i < |r| - 1 ==> r[i].next == r[i + 1])
    && r[|r| - 1].next == r[0]
  }

  lemma ChainNext<T>(r: seq<HNode<T>>, k: nat)
    requires Chain(r) && k < |r|
    ensures r[k].next == (if k + 1 < |r| then r[k + 1] else r[0])
  {
  }

  /** Links n behind r[k] in its chain. */
  method LinkAfter<T>(prev: HNode<T>, n: HNode<T>, ghost r: seq<HNode<T>>, ghost k: nat)
    requires Chain(r) && k < |r| && r[k] == prev && n !in r
    modifies n`next, prev`next
    ensures Chain(r[..k + 1] + [n] + r[k + 1..])
  {
    ChainNext(r, k);
    n.next := prev.next;
    prev.next := n;
    ghost var t := r[..k + 1] + [n] + r[k + 1..];
    forall i | 0 <= i < |t| - 1 ensures t[i].next == t[i + 1] {
      if k + 2 <= i {
        assert t[i] == r[i - 1] && t[i + 1] == r[i];
      }
    }
    forall i, j | 0 <= i < j < |t| ensures t[i] != t[j] {
      assert t[i] == if i <= k then r[i] else if i == k + 1 then n else r[i - 1];
      assert t[j] == if j <= k then r[j] else if j == k + 1 then n else r[j - 1];
    }
    assert k + 1 < |r| ==> t[|t| - 1] == r[|r| - 1];
  }

  lemma FirstOf<T>(r: seq<HNode<T>>, head: HNode<T>, n: HNode<T>)
    requires 0 < |r| && r[0] == head
    ensures r[..0 + 1] + [n] + r[0 + 1..] == [head, n] + r[1..]
  {
  }

  /** Walks the chain from the node to its predecessor, and unlinks exactly this node. */
  method Unlink<T>(head: HNode<T>, ghost r: seq<HNode<T>>, ghost k: nat)
    requires Chain(r) && 1 <= k < |r| && r[k] == head
    modifies head, r[k - 1]
    ensures Chain(r[..k] + r[k + 1..])
    ensures head.next == null && head.key == old(head.key) && r[k - 1].key == old(r[k - 1].key)
  {
    ChainNext(r, k);
    var prev := head.next;
    ghost var j := if k + 1 < |r| then k + 1 else 0;
    while prev != head
      invariant 0 <= j < |r| && j != k && prev == r[j]
      invariant Chain(r) && head.key == old(head.key) && r[k - 1].key == old(r[k - 1].key)
      decreases if j <= k then k - j else |r| + k - j
    {
      ChainNext(r, j);
      if prev.next == head {
        prev.next := head.next;
        head.next := null;

        break;
      }
      j := if j + 1 < |r| then j + 1 else 0;
      prev := prev.next;
    }
    ghost var t := r[..k] + r[k + 1..];
    forall i | 0 <= i < |t| - 1 ensures t[i].next == t[i + 1] {
      assert t[i] == if i < k then r[i] else r[i + 1];
    }
    assert k + 1 < |r| ==> t[|t| - 1] == r[|r| - 1];
  }

  /** The chain r of bucket b: its head, then elements whose key falls in this bucket. */
  ghost predicate BucketChain<T>(r: seq<HNode<T>>, head: HNode<T>, b: nat, size: nat)
    reads r
  {
    && Chain(r)
    && r[0] == head && head.entry == None
    && 0 < size
    && forall i :: 1 <= i < |r| ==> r[i].entry.Some? && r[i].key % size == b
  }

  /** A node with a key of this bucket can come behind any node of its chain. */
  method LinkInBucket<T>(prev: HNode<T>, n: HNode<T>, ghost r: seq<HNode<T>>, ghost k: nat,
                         ghost head: HNode<T>, ghost b: nat, ghost size: nat)
    requires BucketChain(r, head, b, size) && k < |r| && r[k] == prev && n !in r
    requires n.entry.Some? && n.key % size == b
    modifies n`next, prev`next
    ensures BucketChain(r[..k + 1] + [n] + r[k + 1..], head, b, size)
  {
    LinkAfter(prev, n, r, k);
    ghost var t := r[..k + 1] + [n] + r[k + 1..];
    forall i | 1 <= i < |t| ensures t[i].entry.Some? && t[i].key % size == b {
      assert t[i] == if i <= k then r[i] else if i == k + 1 then n else r[i - 1];
    }
  }

  lemma InsertedMembers<T>(r: seq<T>, k: nat, x: T)
    requires k <= |r|
    ensures forall y :: y in r[..k] + [x] + r[k..] <==> y == x || y in r
  {
    assert r == r[..k] + r[k..];
  }

  lemma RemovedMembers<T>(r: seq<T>, k: nat)
    requires k < |r| && Distinct(r)
    ensures forall y :: y in r[..k] + r[k + 1..] <==> y != r[k] && y in r
  {
    assert r == r[..k] + [r[k]] + r[k + 1..];
  }

  ghost function Nodes<T>(r: seq<HNode<T>>): set<HNode<T>> { set n | n in r }

  class HTable<T> {
    const heads: seq<HNode<T>>  // the addresses of the bucket head cells
    ghost var chains: seq<seq<HNode<T>>>
    ghost var repr: set<HNode<T>>

    ghost predicate Valid()
      reads this, repr
    {
      Shaped() && Filed()
    }

    /** Every node is in the chain of its key. */
    ghost predicate Filed()
      requires 0 < |heads| == |chains|
      reads this, repr
    {
      forall n {:trigger InChain(n)} :: n in repr && n.entry.Some? ==> InChain(n)
    }

    ghost predicate InChain(n: HNode<T>)
      requires 0 < |heads| == |chains|
      reads this, n
    {
      n in chains[n.key % |heads|]
    }

    ghost predicate Shaped()
      reads this, repr
    {
      && 0 < |heads| == |chains|
      && Distinct(heads)
      && (forall b :: 0 <= b < |heads| ==> Nodes(chains[b]) <= repr)
      && forall b :: 0 <= b < |heads| ==> BucketChain(chains[b], heads[b], b, |heads|)
    }

    /** No node sits in two buckets. */
    lemma Elsewhere(b: nat, n: HNode<T>)
      requires Shaped() && b < |heads| && n in Nodes(chains[b])
      ensures forall c :: 0 <= c < |heads| && c != b ==> n !in Nodes(chains[c])
    {
      forall c | 0 <= c < |heads| && n in Nodes(chains[c]) ensures b == c {
        assert BucketChain(chains[b], heads[b], b, |heads|) && BucketChain(chains[c], heads[c], c, |heads|);
        var i :| 0 <= i < |chains[b]| && chains[b][i] == n;
        var j :| 0 <= j < |chains[c]| && chains[c][j] == n;
      }
    }

    constructor (size: nat)
      requires 0 < size
      ensures Valid() && |heads| == size && fresh(repr)
      ensures forall b :: 0 <= b < size ==> chains[b] == [heads[b]]
      ensures forall n :: n in repr ==> n.entry == None
    {
      var cells: seq<HNode<T>> := [];
      while |cells| < size
        invariant |cells| <= size && Distinct(cells)
        invariant forall n :: n in cells ==> fresh(n) && n.entry == None
      {
        var cell := new HNode<T>(None);
        cells := cells + [cell];
      }
      heads := cells;
      chains := seq(size, b requires 0 <= b < size => [cells[b]]);
      new;
      assert forall n :: n in heads ==> fresh(n);
      Clear();
    }

    /** Every bucket becomes empty: its head points to itself. */
    method Clear()
      requires 0 < |heads| && Distinct(heads)
      requires forall n :: n in heads ==> n.entry == None
      modifies this, set n | n in heads
      ensures Valid() && repr == (set n | n in heads)
      ensures |chains| == |heads| && forall b :: 0 <= b < |heads| ==> chains[b] == [heads[b]]
    {
      var i := 0;
      while i < |heads|
        invariant 0 <= i <= |heads|
        invariant forall b :: 0 <= b < i ==> heads[b].next == heads[b]
        modifies heads
      {
        heads[i].next := heads[i];
        i := i + 1;
      }
      chains := seq(|heads|, b requires 0 <= b < |heads| => [heads[b]]);
      repr := set n | n in heads;
    }

    function Bucket(key: nat): (b: nat)
      requires 0 < |heads|
      ensures b < |heads|
    {
      key % |heads|
    }

    method GetHead(key: nat) returns (head: HNode<T>)
      requires Valid()
      ensures head == heads[Bucket(key)]
    {
      assert BucketChain(chains[Bucket(key)], heads[Bucket(key)], Bucket(key), |heads|);
      head := heads[key % |heads|];
    }

    /** The pointers; no other chain is touched. */
    method LinkPointers(prev: HNode<T>, n: HNode<T>, ghost b: nat, ghost k: nat)
      requires Shaped() && n !in repr && n.entry.Some?
      requires b < |heads| && n.key % |heads| == b && k < |chains[b]| && chains[b][k] == prev
      modifies n`next, prev`next
      ensures BucketChain(chains[b][..k + 1] + [n] + chains[b][k + 1..], heads[b], b, |heads|)
      ensures forall c :: 0 <= c < |heads| && c != b ==> BucketChain(chains[c], heads[c], c, |heads|)
    {
      ghost var r := chains[b];
      assert BucketChain(r, heads[b], b, |heads|);
      Elsewhere(b, prev);
      LinkInBucket(prev, n, r, k, heads[b], b, |heads|);
      forall c | 0 <= c < |heads| && c != b ensures BucketChain(chains[c], heads[c], c, |heads|) {
        assert old(BucketChain(chains[c], heads[c], c, |heads|)) && Nodes(chains[c]) <= repr;
        assert forall m :: m in chains[c] ==> m in Nodes(chains[c]) && m != n && m != prev;
      }
    }

    method LinkShaped(prev: HNode<T>, n: HNode<T>, ghost b: nat, ghost k: nat)
      requires Shaped() && n !in repr && n.entry.Some?
      requires b < |heads| && n.key % |heads| == b && k < |chains[b]| && chains[b][k] == prev
      modifies this`chains, this`repr, n`next, prev`next
      ensures Shaped() && repr == old(repr) + {n}
      ensures chains == old(chains)[b := old(chains)[b][..k + 1] + [n] + old(chains)[b][k + 1..]]
    {
      LinkPointers(prev, n, b, k);
      chains := chains[b := chains[b][..k + 1] + [n] + chains[b][k + 1..]];
      repr := repr + {n};
    }

    /** Links n, which already has its key, behind a node of bucket b. */
    method Link(prev: HNode<T>, n: HNode<T>, ghost b: nat, ghost k: nat)
      requires Valid() && n !in repr && n.entry.Some?
      requires b < |heads| && n.key % |heads| == b && k < |chains[b]| && chains[b][k] == prev
      modifies this`chains, this`repr, n`next, prev`next
      ensures Valid() && repr == old(repr) + {n}
      ensures chains == old(chains)[b := old(chains)[b][..k + 1] + [n] + old(chains)[b][k + 1..]]
    {
      InsertedMembers(chains[b], k + 1, n);
      ghost var was := chains;
      LinkShaped(prev, n, b, k);
      forall m | m in repr && m.entry.Some? ensures InChain(m) {
        assert m != n ==> old(InChain(m)) && m in was[m.key % |heads|];
      }
    }

    /** The node becomes the first one of the bucket of its key. */
    method Add(key: nat, n: HNode<T>)
      requires Valid() && n !in repr && n.entry.Some?
      modifies this`chains, this`repr, n, heads[Bucket(key)]
      ensures Valid() && n.key == key && repr == old(repr) + {n}
      ensures 0 < |old(chains)[Bucket(key)]|
      ensures chains == old(chains)[Bucket(key) := [heads[Bucket(key)], n] + old(chains)[Bucket(key)][1..]]
    {
      var head := GetHead(key);
      ghost var b := Bucket(key);
      assert BucketChain(chains[b], heads[b], b, |heads|);
      FirstOf(chains[b], head, n);
      n.key := key;

      Link(head, n, b, 0);
    }

    /** n takes the key of prev and follows it in its chain. */
    method Insert(prev: HNode<T>, n: HNode<T>, ghost b: nat, ghost k: nat)
      requires Valid() && n !in repr && n.entry.Some?
      requires b < |heads| && 1 <= k < |chains[b]| && chains[b][k] == prev
      modifies this`chains, this`repr, n, prev`next
      ensures Valid() && n.key == prev.key == old(prev.key) && repr == old(repr) + {n}
      ensures chains == old(chains)[b := old(chains)[b][..k + 1] + [n] + old(chains)[b][k + 1..]]
    {
      assert BucketChain(chains[b], heads[b], b, |heads|);
      assert prev in Nodes(chains[b]);
      n.key := prev.key;

      Link(prev, n, b, k);
    }

    method UnlinkShaped(head: HNode<T>, ghost b: nat, ghost k: nat)
      requires Shaped() && b < |heads| && 1 <= k < |chains[b]| && chains[b][k] == head
      modifies this`chains, this`repr, head, chains[b][k - 1]
      ensures Shaped() && repr == old(repr) - {head} && head.next == null
      ensures head.key == old(head.key) && old(chains)[b][k - 1].key == old(chains[b][k - 1].key)
      ensures chains == old(chains)[b := old(chains)[b][..k] + old(chains)[b][k + 1..]]
    {
      ghost var r := chains[b];
      assert BucketChain(r, heads[b], b, |heads|);
      Elsewhere(b, head);
      Elsewhere(b, r[k - 1]);
      Unlink(head, r, k);
      chains := chains[b := r[..k] + r[k + 1..]];
      repr := repr - {head};
      forall c | 0 <= c < |heads| && c != b ensures BucketChain(chains[c], heads[c], c, |heads|) {
        assert old(BucketChain(chains[c], heads[c], c, |heads|)) && Nodes(chains[c]) <= old(repr);
        assert forall n :: n in chains[c] ==> n in Nodes(chains[c]);
      }
    }

    /** _hs_htable_remove, for a node of this table. */
    method Remove(head: HNode<T>, ghost b: nat, ghost k: nat)
      requires Valid() && b < |heads| && 1 <= k < |chains[b]| && chains[b][k] == head
      modifies this`chains, this`repr, head, chains[b][k - 1]
      ensures Valid() && repr == old(repr) - {head} && head.next == null
      ensures head.key == old(head.key) && old(chains)[b][k - 1].key == old(chains[b][k - 1].key)
      ensures chains == old(chains)[b := old(chains)[b][..k] + old(chains)[b][k + 1..]]
    {
      assert BucketChain(chains[b], heads[b], b, |heads|);
      RemovedMembers(chains[b], k);
      ghost var was := chains;
      UnlinkShaped(head, b, k);
      forall m | m in repr && m.entry.Some? ensures InChain(m) {
        assert old(InChain(m)) && m in was[m.key % |heads|];
      }
    }
  }
}
