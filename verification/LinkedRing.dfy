/** The circular doubly linked lists of linux_list.h.  A ring is the sentinel followed by its
    entries; `next` and `prev` run around it in both directions. */
module LinkedRing {
  import opened Wrappers
  import opened Bytes

  /** struct list_head together with the structure it is embedded in: container_of is the
      identity, and a sentinel's entry fields are never read. */
  class Link {
    var next: Link
    var prev: Link
    var index: nat
    var flags: nat
    var iftype: nat
    var name: seq<byte>

    /** INIT_LIST_HEAD */
    constructor ()
      ensures next == this && prev == this
    {
      next, prev, index, flags, iftype, name := this, this, 0, 0, 0, [];
    }
  }

  ghost predicate Distinct(ring: seq<Link>) {
    forall i, j :: 0 <= i < j < |ring| ==> ring[i] != ring[j]
  }

  function Succ(i: nat, n: nat): nat
    requires i < n
  {
    if i + 1 == n then 0 else i + 1
  }

  function Pred(i: nat, n: nat): nat
    requires i < n
  {
    if i == 0 then n - 1 else i - 1
  }

  ghost predicate Ring(ring: seq<Link>)
    reads ring
  {
    && ring != [] && Distinct(ring)
    && (forall i {:trigger ring[i].next} :: 0 <= i < |ring| ==> ring[i].next == ring[Succ(i, |ring|)])
    && (forall i {:trigger ring[i].prev} :: 0 <= i < |ring| ==> ring[i].prev == ring[Pred(i, |ring|)])
  }

  /** list_add: the new entry goes right after the sentinel. */
  method ListAdd(entry: Link, head: Link, ghost ring: seq<Link>)
    requires Ring(ring) && ring[0] == head && entry !in ring
    modifies entry`next, entry`prev, ring`next, ring`prev
    ensures Ring(InsertAt(ring, 1, entry))
  {
    assert head.next == ring[0].next;
    Insert(entry, head, head.next, ring, 1);
  }

  /** list_add_tail: the new entry goes right before the sentinel. */
  method ListAddTail(entry: Link, head: Link, ghost ring: seq<Link>)
    requires Ring(ring) && ring[0] == head && entry !in ring
    modifies entry`next, entry`prev, ring`next, ring`prev
    ensures Ring(ring + [entry])
  {
    assert head.prev == ring[0].prev;
    assert InsertAt(ring, |ring|, entry) == ring + [entry];
    Insert(entry, head.prev, head, ring, |ring|);
  }

  /** __list_add between two neighbours: `at` is where the new entry ends up. */
  method Insert(entry: Link, prev: Link, next: Link, ghost ring: seq<Link>, ghost at: nat)
    requires Ring(ring) && entry !in ring && 1 <= at <= |ring|
    requires prev == ring[at - 1] && next == ring[Succ(at - 1, |ring|)]
    modifies entry`next, entry`prev, ring`next, ring`prev
    ensures Ring(InsertAt(ring, at, entry))
  {
    ghost var n := |ring|;
    ghost var ring' := InsertAt(ring, at, entry);
    DistinctInsert(ring, entry, at);
    hide Distinct, InsertAt;
    next.prev := entry;
    entry.next := next;
    entry.prev := prev;
    prev.next := entry;
    forall i | 0 <= i < |ring'|
      ensures ring'[i].next == ring'[Succ(i, n + 1)] && ring'[i].prev == ring'[Pred(i, n + 1)]
    {
      if i != at {
        // Away from the new entry only the neighbours' facing links changed.
        var j := if i < at then i else i - 1;
        assert old(ring[j].next) == ring[Succ(j, n)] && old(ring[j].prev) == ring[Pred(j, n)];
        SamePlace(ring, j, at - 1);
        SamePlace(ring, j, Succ(at - 1, n));
        InsertNeighbours(ring, entry, at, i);
      }
    }
  }

  /** Where the neighbours of an old entry are once a new one is in the ring. */
  lemma InsertNeighbours<T>(s: seq<T>, x: T, at: nat, i: nat)
    requires 1 <= at <= |s| && i <= |s| && i != at
    ensures var n, j, s' := |s|, if i < at then i else i - 1, InsertAt(s, at, x);
            && s'[i] == s[j]
            && s'[Succ(i, n + 1)] == (if j == at - 1 then x else s[Succ(j, n)])
            && s'[Pred(i, n + 1)] == (if j == Succ(at - 1, n) then x else s[Pred(j, n)])
  {
  }

  /** Where the neighbours of an entry are once another one has left the ring. */
  lemma RemoveNeighbours<T>(s: seq<T>, at: nat, i: nat)
    requires 1 <= at < |s| && i < |s| - 1
    ensures var n, j, s' := |s|, if i < at then i else i + 1, RemoveAt(s, at);
            && s'[i] == s[j]
            && s'[Succ(i, n - 1)] == (if j == at - 1 then s[Succ(at, n)] else s[Succ(j, n)])
            && s'[Pred(i, n - 1)] == (if j == Succ(at, n) then s[at - 1] else s[Pred(j, n)])
  {
  }

  /** list_del: the neighbours close over the entry, whose own links are poisoned. */
  method ListDel(entry: Link, poison1: Link, poison2: Link, ghost ring: seq<Link>, ghost at: nat)
    requires Ring(ring) && 1 <= at < |ring| && ring[at] == entry
    modifies ring`next, ring`prev
    ensures Ring(RemoveAt(ring, at)) && entry.next == poison1 && entry.prev == poison2
  {
    hide RemoveAt;
    assert entry.prev == ring[Pred(at, |ring|)] && entry.next == ring[Succ(at, |ring|)];
    Unlink(entry.prev, entry.next, ring, at);
    DistinctRemove(ring, at);
    entry.next := poison1;
    entry.prev := poison2;
  }

  /** __list_del: two neighbours of an entry close over it. */
  method Unlink(prev: Link, next: Link, ghost ring: seq<Link>, ghost at: nat)
    requires Ring(ring) && 1 <= at < |ring| && prev == ring[Pred(at, |ring|)] && next == ring[Succ(at, |ring|)]
    modifies ring`next, ring`prev
    ensures Ring(RemoveAt(ring, at))
  {
    ghost var n := |ring|;
    ghost var ring' := RemoveAt(ring, at);
    DistinctRemove(ring, at);
    hide Distinct, RemoveAt;
    next.prev := prev;
    prev.next := next;
    forall i | 0 <= i < |ring'|
      ensures ring'[i].next == ring'[Succ(i, n - 1)] && ring'[i].prev == ring'[Pred(i, n - 1)]
    {
      var j := if i < at then i else i + 1;
      assert old(ring[j].next) == ring[Succ(j, n)] && old(ring[j].prev) == ring[Pred(j, n)];
      SamePlace(ring, j, at - 1);
      SamePlace(ring, j, Succ(at, n));
      RemoveNeighbours(ring, at, i);
    }
  }

  lemma SamePlace(ring: seq<Link>, i: nat, j: nat)
    requires Distinct(ring) && i < |ring| && j < |ring|
    ensures ring[i] == ring[j] <==> i == j
  {
  }

  lemma DistinctInsert(ring: seq<Link>, entry: Link, at: nat)
    requires Distinct(ring) && entry !in ring && at <= |ring|
    ensures Distinct(InsertAt(ring, at, entry))
  {
  }

  lemma DistinctRemove(ring: seq<Link>, at: nat)
    requires Distinct(ring) && at < |ring|
    ensures Distinct(RemoveAt(ring, at)) && ring[at] !in RemoveAt(ring, at)
  {
  }
}
