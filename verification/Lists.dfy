/**
 Linked lists with a head, as rings: what the list operations of src/list.h do to a list that is kept in
 a structure.  A list is known by its head, the ring that starts there, and the set of its nodes.
 */
module Lists {
  import opened Wrappers
  import opened LinkedList

  /** Only the head carries nothing. */
  ghost predicate Loaded<T>(ring: seq<Node<T>>)
  {
    0 < |ring| && forall i :: 1 <= i < |ring| ==> ring[i].entry.Some?
  }

  /** What the elements are. */
  ghost function Entries<T>(ring: seq<Node<T>>): seq<T>
    requires Loaded(ring)
  {
    seq(|ring| - 1, i requires 0 <= i < |ring| - 1 => ring[i + 1].entry.value)
  }

  lemma EntriesAppend<T>(ring: seq<Node<T>>, node: Node<T>)
    requires Loaded(ring) && node.entry.Some?
    ensures Loaded(ring + [node]) && Entries(ring + [node]) == Entries(ring) + [node.entry.value]
  {
  }

  lemma EntriesPrepend<T>(ring: seq<Node<T>>, node: Node<T>)
    requires Loaded(ring) && node.entry.Some?
    ensures var r := [ring[0], node] + ring[1..];
            Loaded(r) && Entries(r) == [node.entry.value] + Entries(ring)
  {
  }

  lemma EntriesSplice<T>(r: seq<Node<T>>, s: seq<Node<T>>)
    requires Loaded(r) && Loaded(s)
    ensures Loaded([r[0]] + s[1..] + r[1..])
    ensures Entries([r[0]] + s[1..] + r[1..]) == Entries(s) + Entries(r)
  {
  }

  lemma EntriesRemoveFirst<T>(ring: seq<Node<T>>)
    requires Loaded(ring) && 1 < |ring|
    ensures Loaded(ring[..1] + ring[2..])
    ensures Entries(ring) == [ring[1].entry.value] + Entries(ring[..1] + ring[2..])
    ensures Entries(ring)[1..] == Entries(ring[..1] + ring[2..])
  {
  }

  /** ring is the list at head, made of the given nodes. */
  ghost predicate Listed<T>(head: Node<T>, ring: seq<Node<T>>, nodes: set<Node<T>>)
    reads nodes
  {
    && Loaded(ring)
    && ring[0] == head
    && (forall i :: 0 <= i < |ring| ==> ring[i] in nodes)
    && Ring(ring)
  }

  method NewList<T>() returns (head: Node<T>)
    ensures fresh(head) && Listed(head, [head], {head}) && Entries([head]) == []
  {
    head := new Node(None);
    Init(head);
  }

  method Append<T>(list: Node<T>, node: Node<T>, ghost ring: seq<Node<T>>, ghost nodes: set<Node<T>>)
    requires Listed(list, ring, nodes) && node !in nodes && node.entry.Some?
    modifies nodes, node
    ensures Listed(list, ring + [node], nodes + {node})
    ensures Entries(ring + [node]) == Entries(ring) + [node.entry.value]
  {
    Neighbours(ring, 0);
    EntriesAppend(ring, node);
    AddTail(list, node, ring);
  }

  method Prepend<T>(list: Node<T>, node: Node<T>, ghost ring: seq<Node<T>>, ghost nodes: set<Node<T>>)
    requires Listed(list, ring, nodes) && node !in nodes && node.entry.Some?
    modifies nodes, node
    ensures Listed(list, [list, node] + ring[1..], nodes + {node})
    ensures Entries([list, node] + ring[1..]) == [node.entry.value] + Entries(ring)
  {
    Neighbours(ring, 0);
    EntriesPrepend(ring, node);
    Add(list, node, ring);
  }

  /** Takes the first element out of the list. */
  method RemoveFirst<T>(list: Node<T>, ghost ring: seq<Node<T>>, ghost nodes: set<Node<T>>) returns (node: Node<T>)
    requires Listed(list, ring, nodes) && 1 < |ring|
    modifies nodes
    ensures node == ring[1] && node.entry.Some?
    ensures Listed(list, ring[..1] + ring[2..], nodes - {node})
    ensures Entries(ring) == [node.entry.value] + Entries(ring[..1] + ring[2..])
  {
    Neighbours(ring, 0);
    Neighbours(ring, 1);
    node := list.next;
    EntriesRemoveFirst(ring);
    Remove(node, ring, 1);
  }

  /** Takes the whole list at from and puts it in front of the one at list. */
  method MoveAll<T>(list: Node<T>, from: Node<T>, ghost r: seq<Node<T>>, ghost s: seq<Node<T>>,
                    ghost mine: set<Node<T>>, ghost theirs: set<Node<T>>)
    requires Listed(list, r, mine) && Listed(from, s, theirs) && mine !! theirs
    modifies mine, theirs
    ensures Listed(from, [from], {from})
    ensures Listed(list, [list] + s[1..] + r[1..], mine + (theirs - {from}))
    ensures Entries([list] + s[1..] + r[1..]) == Entries(s) + Entries(r)
  {
    forall n | n in r ensures n !in s { assert n in mine; }
    Neighbours(s, 0);
    Neighbours(r, 0);
    EntriesSplice(r, s);
    Splice(list, from, r, s);
    assert forall i :: 1 <= i < |s| ==> s[i] != s[0];
  }
}
