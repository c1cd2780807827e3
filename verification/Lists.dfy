/**
 Intrusive circular doubly-linked lists. A list head and the entries of its list are links of the
 same kind; `Ring` says which links a head currently connects, in order.
 */
module Lists {

  class Link {
    var next: Link?
    var prev: Link?

    constructor ()
      ensures next == null && prev == null
    {
      next, prev := null, null;
    }
  }

  /** Position `i` of the cycle: 0 and |items| + 1 are the head. */
  ghost function At(head: Link, items: seq<Link>, i: nat): Link
    requires i <= |items| + 1
  {
    if i == 0 || i == |items| + 1 then head else items[i - 1]
  }

  ghost predicate Distinct<T>(s: seq<T>) {
    forall i, j :: 0 <= i < j < |s| ==> s[i] != s[j]
  }

  /** Starting at `head`, `next` visits `items` in order and comes back; `prev` is its inverse. */
  ghost predicate Ring(head: Link, items: seq<Link>)
    reads head, items
  {
    && head !in items
    && Distinct(items)
    && forall i {:trigger At(head, items, i)} {:trigger Joined(head, items, i)} :: 0 <= i <= |items| ==>
         Joined(head, items, i)
  }

  /** Position `i` and the next are linked to each other. */
  ghost predicate Joined(head: Link, items: seq<Link>, i: nat)
    requires i <= |items|
    reads head, items
  {
    && At(head, items, i).next == At(head, items, i + 1)
    && At(head, items, i + 1).prev == At(head, items, i)
  }

  /** All but position `k` of the cycle are linked. */
  ghost predicate RingBut(head: Link, items: seq<Link>, k: nat)
    reads head, items
  {
    && head !in items
    && Distinct(items)
    && forall i :: 0 <= i <= |items| && i != k ==> Joined(head, items, i)
  }

  function Inserted<T>(s: seq<T>, k: nat, x: T): (r: seq<T>)
    requires k <= |s|
    ensures |r| == |s| + 1
  {
    s[..k] + [x] + s[k..]
  }

  function Removed<T>(s: seq<T>, k: nat): (r: seq<T>)
    requires k < |s|
    ensures |r| == |s| - 1
  {
    s[..k] + s[k + 1..]
  }

  /** list_init: an empty list. */
  method ListInit(l: Link)
    modifies l
    ensures Ring(l, [])
  {
    l.next := l;
    l.prev := l;
  }

  /** do_list_append: link `x` between two neighbours. */
  method DoListAppend(x: Link, prev: Link, next: Link)
    requires x != prev && x != next
    modifies x, prev`next, next`prev
    ensures next.prev == x && prev.next == x && x.next == next && x.prev == prev
  {
    next.prev := x;
    x.next := next;
    x.prev := prev;
    prev.next := x;
  }

  /** do_list_delete: join two neighbours. */
  method DoListDelete(prev: Link, next: Link)
    modifies prev`next, next`prev
    ensures next.prev == prev && prev.next == next
  {
    next.prev := prev;
    prev.next := next;
  }

  /** Positions 0 .. |items| of a cycle are pairwise different links. */
  lemma AtDistinct(head: Link, items: seq<Link>, i: nat, j: nat)
    requires head !in items && Distinct(items) && i <= |items| && j <= |items|
    ensures At(head, items, i) == At(head, items, j) <==> i == j
  {
  }

  lemma AtInserted(head: Link, items: seq<Link>, k: nat, x: Link, i: nat)
    requires k <= |items| && i <= |items| + 2
    ensures At(head, Inserted(items, k, x), i) ==
            if i <= k then At(head, items, i) else if i == k + 1 then x else At(head, items, i - 1)
  {
  }

  lemma AtRemoved(head: Link, items: seq<Link>, k: nat, i: nat)
    requires k < |items| && i <= |items|
    ensures At(head, Removed(items, k), i) == At(head, items, if i <= k then i else i + 1)
  {
  }

  /** Links between `i` and its successor are not the ones redirected around position `k`. */
  lemma Elsewhere(head: Link, items: seq<Link>, i: nat, k: nat)
    requires head !in items && Distinct(items) && i <= |items| && k <= |items| && i != k
    ensures At(head, items, i) != At(head, items, k)
    ensures At(head, items, i + 1) != At(head, items, k + 1)
  {
    var n := |items|;
    assert At(head, items, i + 1) == At(head, items, if i == n then 0 else i + 1);
    assert At(head, items, k + 1) == At(head, items, if k == n then 0 else k + 1);
  }

  lemma InsertedDistinct<T>(s: seq<T>, k: nat, x: T)
    requires Distinct(s) && k <= |s| && x !in s
    ensures Distinct(Inserted(s, k, x)) && forall y :: y in Inserted(s, k, x) ==> y == x || y in s
  {
  }

  /** An entry that sits between position `k` and the next completes the longer cycle. */
  lemma RingGrows(head: Link, items: seq<Link>, k: nat, x: Link)
    requires RingBut(head, items, k) && k <= |items| && x != head && x !in items
    requires At(head, items, k).next == x && x.next == At(head, items, k + 1)
    requires At(head, items, k + 1).prev == x && x.prev == At(head, items, k)
    ensures Ring(head, Inserted(items, k, x))
  {
    hide Inserted, Distinct, At;
    var r := Inserted(items, k, x);
    InsertedDistinct(items, k, x);
    forall i | 0 <= i <= |r| ensures Joined(head, r, i) {
      AtInserted(head, items, k, x, i);
      AtInserted(head, items, k, x, i + 1);
      assert i < k ==> Joined(head, items, i);
      assert i > k + 1 ==> Joined(head, items, i - 1);
    }
  }

  /** Putting an entry between position `k` and the next: what list_append and list_insert share. */
  method LinkBetween(x: Link, a: Link, b: Link, ghost head: Link, ghost items: seq<Link>, ghost k: nat)
    requires Ring(head, items) && k <= |items| && a == At(head, items, k) && b == At(head, items, k + 1)
    requires x != head && x !in items
    modifies x, a`next, b`prev
    ensures Ring(head, Inserted(items, k, x))
  {
    hide Inserted;
    DoListAppend(x, a, b);
    forall i | 0 <= i <= |items| && i != k ensures Joined(head, items, i) {
      Elsewhere(head, items, i, k);
      assert old(Joined(head, items, i));
    }
    RingGrows(head, items, k, x);
  }

  /** list_append: put `x` behind position `k` of the cycle. */
  method ListAppend(x: Link, item: Link, ghost head: Link, ghost items: seq<Link>, ghost k: nat)
    requires Ring(head, items) && k <= |items| && item == At(head, items, k)
    requires x != head && x !in items
    modifies x, item`next, At(head, items, k + 1)`prev
    ensures Ring(head, Inserted(items, k, x))
  {
    hide Inserted, Distinct;
    assert Joined(head, items, k);
    LinkBetween(x, item, item.next, head, items, k);
  }

  /** list_insert: put `x` in front of position `k` of the cycle (of the head: at the end of the list). */
  method ListInsert(x: Link, item: Link, ghost head: Link, ghost items: seq<Link>, ghost k: nat)
    requires Ring(head, items) && 1 <= k <= |items| + 1 && item == At(head, items, k)
    requires x != head && x !in items
    modifies x, item`prev, At(head, items, k - 1)`next
    ensures Ring(head, Inserted(items, k - 1, x))
  {
    hide Inserted, Distinct;
    assert At(head, items, k - 1).next == At(head, items, k) && Joined(head, items, k - 1);
    LinkBetween(x, item.prev, item, head, items, k - 1);
  }

  /** The unlinking that list_delete, list_move_append and list_move_insert share. */
  method Unlink(item: Link, ghost head: Link, ghost items: seq<Link>, ghost k: nat)
    requires Ring(head, items) && k < |items| && item == items[k]
    modifies At(head, items, k)`next, At(head, items, k + 2)`prev
    ensures Ring(head, Removed(items, k))
  {
    hide Removed;
    ghost var a, b := At(head, items, k), At(head, items, k + 2);
    assert At(head, items, k + 1) == item && Joined(head, items, k) && Joined(head, items, k + 1);
    DoListDelete(item.prev, item.next);
    forall i | 0 <= i <= |items| && i != k && i != k + 1 ensures Joined(head, items, i) {
      Elsewhere(head, items, i, k);
      Elsewhere(head, items, i, k + 1);
      assert old(Joined(head, items, i));
    }
    RingShrinks(head, items, k);
  }

  /** Two neighbours joined around position `k` complete the shorter cycle. */
  lemma RingShrinks(head: Link, items: seq<Link>, k: nat)
    requires k < |items| && head !in items && Distinct(items)
    requires forall i :: 0 <= i <= |items| && i != k && i != k + 1 ==> Joined(head, items, i)
    requires At(head, items, k).next == At(head, items, k + 2) && At(head, items, k + 2).prev == At(head, items, k)
    ensures Ring(head, Removed(items, k))
  {
    hide Removed, Distinct, At;
    var r := Removed(items, k);
    RemovedFacts(items, k);
    forall i | 0 <= i <= |r| ensures Joined(head, r, i) {
      AtRemoved(head, items, k, i);
      AtRemoved(head, items, k, i + 1);
      assert i < k ==> Joined(head, items, i);
      assert i > k ==> Joined(head, items, i + 1);
    }
  }

  /** list_delete: unlink and invalidate the entry (the source's invalid-item address is null here). */
  method ListDelete(item: Link, ghost head: Link, ghost items: seq<Link>, ghost k: nat)
    requires Ring(head, items) && k < |items| && item == items[k]
    modifies item, At(head, items, k)`next, At(head, items, k + 2)`prev
    ensures Ring(head, Removed(items, k))
    ensures item.next == null && item.prev == null
  {
    Unlink(item, head, items, k);
    RemovedFacts(items, k);
    item.next := null;
    item.prev := null;
  }

  lemma RemovedFacts<T>(s: seq<T>, k: nat)
    requires k < |s| && Distinct(s)
    ensures s[k] !in Removed(s, k) && Distinct(Removed(s, k))
    ensures forall x :: x in s && x != s[k] ==> x in Removed(s, k)
    ensures forall x :: x in Removed(s, k) ==> x in s
  {
    var r := Removed(s, k);
    forall x | x in s && x != s[k]
      ensures x in r
    {
      var i :| 0 <= i < |s| && s[i] == x;
      assert r[if i < k then i else i - 1] == x;
    }
  }

  lemma RingFacts(head: Link, items: seq<Link>)
    requires Ring(head, items)
    ensures head !in items && Distinct(items)
  {
  }

  ghost predicate Apart(head1: Link, items1: seq<Link>, head2: Link, items2: seq<Link>) {
    && head1 != head2 && head1 !in items2 && head2 !in items1
    && forall l :: l in items1 ==> l !in items2
  }

  lemma ApartAt(head1: Link, items1: seq<Link>, head2: Link, items2: seq<Link>, i: nat)
    requires Apart(head1, items1, head2, items2) && i <= |items1| + 1
    ensures At(head1, items1, i) != head2 && At(head1, items1, i) !in items2
  {
  }

  /** list_move_append: take entry `k` out of one list and put it behind `dest` in another. */
  method ListMoveAppend(item: Link, dest: Link, ghost head1: Link, ghost items1: seq<Link>, ghost k: nat,
                        ghost head2: Link, ghost items2: seq<Link>, ghost k2: nat)
    requires Ring(head1, items1) && k < |items1| && item == items1[k]
    requires Ring(head2, items2) && k2 <= |items2| && dest == At(head2, items2, k2)
    requires Apart(head1, items1, head2, items2)
    modifies head1, items1, head2, items2
    ensures Ring(head1, Removed(items1, k)) && Ring(head2, Inserted(items2, k2, item))
  {
    hide Joined, Inserted;
    RingFacts(head1, items1);
    RemovedFacts(items1, k);
    ApartAt(head1, items1, head2, items2, k);
    ApartAt(head1, items1, head2, items2, k + 2);
    Unlink(item, head1, items1, k);
    ApartAt(head2, items2, head1, items1, k2);
    ApartAt(head2, items2, head1, items1, k2 + 1);
    ListAppend(item, dest, head2, items2, k2);
  }

  /** list_move_insert: take entry `k` out of one list and put it in front of `dest` in another. */
  method ListMoveInsert(item: Link, dest: Link, ghost head1: Link, ghost items1: seq<Link>, ghost k: nat,
                        ghost head2: Link, ghost items2: seq<Link>, ghost k2: nat)
    requires Ring(head1, items1) && k < |items1| && item == items1[k]
    requires Ring(head2, items2) && 1 <= k2 <= |items2| + 1 && dest == At(head2, items2, k2)
    requires Apart(head1, items1, head2, items2)
    modifies head1, items1, head2, items2
    ensures Ring(head1, Removed(items1, k)) && Ring(head2, Inserted(items2, k2 - 1, item))
  {
    hide Joined, Inserted;
    RingFacts(head1, items1);
    RemovedFacts(items1, k);
    ApartAt(head1, items1, head2, items2, k);
    ApartAt(head1, items1, head2, items2, k + 2);
    Unlink(item, head1, items1, k);
    ApartAt(head2, items2, head1, items1, k2);
    ApartAt(head2, items2, head1, items1, k2 - 1);
    ListInsert(item, dest, head2, items2, k2);
  }

  /** list_is_last: whether `item` is the last entry before `first`. */
  method ListIsLast(item: Link, first: Link, ghost items: seq<Link>, ghost k: nat) returns (last: bool)
    requires Ring(first, items) && k < |items| && item == items[k]
    ensures last <==> k == |items| - 1
  {
    assert At(first, items, k + 1) == item && Joined(first, items, k + 1);
    AtDistinct(first, items, 0, if k + 2 == |items| + 1 then 0 else k + 2);
    last := item.next == first;
  }
}
