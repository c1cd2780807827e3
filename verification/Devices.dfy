/**
 The device tree: first-child / next-sibling links with back links, kept in step with a pre-order
 listing of the devices and their depths.
 */
module Devices {
  import opened Lists
  import opened Options
  import opened Preorder

  const EEXIST: int := 17
  const EMFILE: int := 24
  const ENOSYS: int := 38

  /** The suffix characters, in order of preference. */
  const SUFFIXES: string := "0123456789abcdefghijklmnopqrstuvwxyzABCDEFGHIJKLMNOPQRSTUVWXYZ"

  class Dev {
    var name: string
    var parent: Dev?
    var firstChild: Dev?
    var prevSibling: Dev?
    var nextSibling: Dev?

    constructor (name: string)
      ensures this.name == name
      ensures parent == null && firstChild == null && prevSibling == null && nextSibling == null
    {
      this.name := name;
      parent, firstChild, prevSibling, nextSibling := null, null, null, null;
    }
  }

  ghost function Opt(order: seq<Dev>, o: Option<nat>): Dev? {
    if o.Some? && o.value < |order| then order[o.value] else null
  }

  /** The listing: devices in pre-order, each once, with their depths. */
  ghost predicate Listing(order: seq<Dev>, d: seq<nat>) {
    Nested(d) && |order| == |d| && Distinct(order)
  }

  ghost function ParentOf(order: seq<Dev>, d: seq<nat>, i: nat): Dev?
    requires Listing(order, d) && i < |d|
  {
    if i == 0 then null else order[Parent(d, i)]
  }

  /** The four links of `x` are those of node `i` of the listing. */
  ghost predicate LinksOf(x: Dev, order: seq<Dev>, d: seq<nat>, i: nat)
    requires Listing(order, d) && i < |d|
    reads x
  {
    && x.parent == ParentOf(order, d, i)
    && x.firstChild == Opt(order, FirstChild(d, i))
    && x.prevSibling == Opt(order, PrevSibling(d, i))
    && x.nextSibling == Opt(order, NextSibling(d, i))
  }

  ghost predicate Linked(order: seq<Dev>, d: seq<nat>)
    reads order
  {
    && Listing(order, d)
    && forall i {:trigger LinksOf(order[i], order, d, i)} :: 0 <= i < |order| ==> LinksOf(order[i], order, d, i)
  }

  ghost predicate NamesDiffer(ds: seq<Dev>)
    reads ds
  {
    forall i, j :: 0 <= i < j < |ds| ==> ds[i].name != ds[j].name
  }

  // ---------------------------------------------------------------- one leaf more or less

  /** How a leaf `x` of depth `c` at position `e` changes the links of old node `i`. */
  lemma LeafShiftsLinks(order: seq<Dev>, d: seq<nat>, e: nat, c: nat, x: Dev, i: nat)
    requires Listing(order, d) && LeafFits(d, e, c) && i < |d| && x !in order
    ensures var order', d', k := Inserted(order, e, x), Inserted(d, e, c), Shift(e, i);
            && Listing(order', d') && k < |d'|
            && ParentOf(order', d', k) == ParentOf(order, d, i)
            && Opt(order', FirstChild(d', k)) ==
               (if i == e - 1 && c == d[i] + 1 then x else Opt(order, FirstChild(d, i)))
            && Opt(order', NextSibling(d', k)) ==
               (if i < e <= End(d, i) && c == d[i] then x else Opt(order, NextSibling(d, i)))
            && Opt(order', PrevSibling(d', k)) ==
               (if i == e < |d| && d[i] == c then x else Opt(order, PrevSibling(d, i)))
  {
    hide FirstChild;
    hide NextSibling;
    hide PrevSibling;
    hide Parent;
    hide Inserted;
    hide Nested;
    hide Distinct;
    LeafListing(order, d, e, c, x);
    LeafFirst(d, e, c, i);
    LeafNext(d, e, c, i);
    LeafPrev(d, e, c, i);
    OptShift(order, e, x, FirstChild(d, i));
    OptShift(order, e, x, NextSibling(d, i));
    OptShift(order, e, x, PrevSibling(d, i));
    if i > 0 {
      LeafParent(d, e, c, i);
      NodeShift(order, e, x, Parent(d, i));
    }
  }

  lemma LeafListing(order: seq<Dev>, d: seq<nat>, e: nat, c: nat, x: Dev)
    requires Listing(order, d) && LeafFits(d, e, c) && x !in order
    ensures Listing(Inserted(order, e, x), Inserted(d, e, c)) && |Inserted(d, e, c)| == |d| + 1
  {
    LeafNested(d, e, c);
    InsertedDistinct(order, e, x);
  }

  lemma DistinctAt(order: seq<Dev>, i: nat, j: nat)
    requires Distinct(order) && i < |order| && j < |order|
    ensures order[i] == order[j] <==> i == j
  {
  }

  lemma NodeShift(order: seq<Dev>, e: nat, x: Dev, i: nat)
    requires e <= |order| && i < |order|
    ensures Shift(e, i) < |Inserted(order, e, x)| && Inserted(order, e, x)[Shift(e, i)] == order[i]
  {
  }

  /** A relative stands at its shifted position once the leaf `x` is in the listing. */
  lemma OptShift(order: seq<Dev>, e: nat, x: Dev, o: Option<nat>)
    requires e <= |order|
    ensures Opt(Inserted(order, e, x), ShiftOption(e, o)) == Opt(order, o)
    ensures Opt(Inserted(order, e, x), Some(e)) == x
  {
  }

  /** The links of the leaf itself. */
  lemma LeafLinks(order: seq<Dev>, d: seq<nat>, e: nat, c: nat, x: Dev)
    requires Listing(order, d) && LeafFits(d, e, c) && x !in order
    ensures var order', d' := Inserted(order, e, x), Inserted(d, e, c);
            && Listing(order', d')
            && ParentOf(order', d', e) == order[LastUpTo(d, e, c - 1)]
            && FirstChild(d', e) == None
            && Opt(order', NextSibling(d', e)) == (if e < |d| && d[e] == c then order[e] else null)
            && Opt(order', PrevSibling(d', e)) == (var q := LastUpTo(d, e, c); if d[q] == c then order[q] else null)
  {
    hide FirstChild;
    hide NextSibling;
    hide PrevSibling;
    hide Parent;
    hide LastUpTo;
    hide Nested;
    LeafListing(order, d, e, c, x);
    LeafSelf(d, e, c);
  }

  /** `y`, node `i` of the listing without the leaf `x`, is linked as in the listing with the leaf. */
  ghost predicate Patched(y: Dev, order: seq<Dev>, d: seq<nat>, e: nat, c: nat, x: Dev, i: nat)
    requires Listing(order, d) && i < |d|
    reads y
  {
    && y.parent == ParentOf(order, d, i)
    && y.firstChild == (if i == e - 1 && c == d[i] + 1 then x else Opt(order, FirstChild(d, i)))
    && y.nextSibling == (if i < e <= End(d, i) && c == d[i] then x else Opt(order, NextSibling(d, i)))
    && y.prevSibling == (if i == e < |d| && d[i] == c then x else Opt(order, PrevSibling(d, i)))
  }

  /** The links of the leaf, read off the listing without it. */
  ghost predicate LeafAt(x: Dev, order: seq<Dev>, d: seq<nat>, e: nat, c: nat)
    requires Listing(order, d) && LeafFits(d, e, c)
    reads x
  {
    && x.parent == order[LastUpTo(d, e, c - 1)]
    && x.firstChild == null
    && x.nextSibling == (if e < |d| && d[e] == c then order[e] else null)
    && x.prevSibling == (var q := LastUpTo(d, e, c); if d[q] == c then order[q] else null)
  }

  /** A listing with a leaf is linked exactly when the other nodes are patched for it and the leaf is linked. */
  lemma LeafLinked(order: seq<Dev>, d: seq<nat>, e: nat, c: nat, x: Dev)
    requires Listing(order, d) && LeafFits(d, e, c) && x !in order
    ensures Linked(Inserted(order, e, x), Inserted(d, e, c)) <==>
            && LeafAt(x, order, d, e, c)
            && forall i :: 0 <= i < |d| ==> Patched(order[i], order, d, e, c, x, i)
  {
    hide LinksOf;
    hide Patched;
    var order', d' := Inserted(order, e, x), Inserted(d, e, c);
    LeafItself(order, d, e, c, x);
    forall i | 0 <= i < |d|
      ensures LinksOf(order'[Shift(e, i)], order', d', Shift(e, i)) <==> Patched(order[i], order, d, e, c, x, i)
    {
      LeafNode(order, d, e, c, x, i);
    }
    if LeafAt(x, order, d, e, c) && forall i :: 0 <= i < |d| ==> Patched(order[i], order, d, e, c, x, i) {
      forall k | 0 <= k < |order'|
        ensures LinksOf(order'[k], order', d', k)
      {
        if k != e {
          var i := if k < e then k else k - 1;
          assert k == Shift(e, i) && Patched(order[i], order, d, e, c, x, i);
        }
      }
    }
  }

  lemma LeafNode(order: seq<Dev>, d: seq<nat>, e: nat, c: nat, x: Dev, i: nat)
    requires Listing(order, d) && LeafFits(d, e, c) && x !in order && i < |d|
    ensures var order', d', k := Inserted(order, e, x), Inserted(d, e, c), Shift(e, i);
            && Listing(order', d') && order'[k] == order[i]
            && (LinksOf(order'[k], order', d', k) <==> Patched(order[i], order, d, e, c, x, i))
  {
    hide FirstChild;
    hide NextSibling;
    hide PrevSibling;
    LeafShiftsLinks(order, d, e, c, x, i);
  }

  lemma LeafItself(order: seq<Dev>, d: seq<nat>, e: nat, c: nat, x: Dev)
    requires Listing(order, d) && LeafFits(d, e, c) && x !in order
    ensures var order', d' := Inserted(order, e, x), Inserted(d, e, c);
            && Listing(order', d') && order'[e] == x
            && (LinksOf(x, order', d', e) <==> LeafAt(x, order, d, e, c))
  {
    LeafLinks(order, d, e, c, x);
  }

  // ---------------------------------------------------------------- the tree in memory

  class DeviceTree {
    const root: Dev
    ghost var order: seq<Dev>
    ghost var depth: seq<nat>

    ghost predicate Valid()
      reads this, order
    {
      && Linked(order, depth)
      && order[0] == root
    }

    /** dev_init: a nameless root device. */
    constructor ()
      ensures Valid() && order == [root] && root.name == ""
    {
      var r := new Dev("");
      root := r;
      order, depth := [r], [0];
      new;
      assert LinksOf(order[0], order, depth, 0);
    }

    /** dev_get_next: the next device in pre-order, found by links alone; NULL after the last. */
    method GetNext(node: Dev?) returns (r: Dev?)
      requires Valid() && (node == null || node in order)
      ensures node == null ==> r == order[0]
      ensures forall i {:trigger order[i]} :: 0 <= i < |order| && order[i] == node ==>
                r == if i + 1 < |order| then order[i + 1] else null
    {
      hide Nested;
      hide End;
      hide LastUpTo;
      if node == null {
        return root;
      }
      ghost var i :| 0 <= i < |order| && order[i] == node;
      assert LinksOf(order[i], order, depth, i);
      if node.firstChild != null {
        return node.firstChild;
      }
      EndWithoutChild(depth, i);
      if node.nextSibling != null {
        return node.nextSibling;
      }
      var first, j := FirstOfSiblings(node, i);
      if i == 0 { RootEnd(depth); }
      r := Climb(first.parent, i);
    }

    /** Iteration as the rest of the kernel does it, from NULL until NULL: every device once, in listing order. */
    method Iterate() returns (visited: seq<Dev>)
      requires Valid()
      ensures visited == order
    {
      hide LinksOf;
      visited := [];
      var dev := GetNext(null);
      while dev != null
        invariant |visited| <= |order| && visited == order[..|visited|]
        invariant dev == if |visited| < |order| then order[|visited|] else null
        decreases |order| - |visited|
      {
        ghost var n := |visited|;
        visited := visited + [dev];
        var next := GetNext(dev);
        assert order[n] == dev;
        dev := next;
      }
    }

    /** The rewinding loop of dev_get_next: back to the first child of the same parent. */
    method FirstOfSiblings(node: Dev, ghost i: nat) returns (n: Dev, ghost j: nat)
      requires Valid() && i < |order| && node == order[i]
      ensures j < |order| && n == order[j] && n.parent == ParentOf(order, depth, i)
    {
      hide Nested;
      hide LastUpTo;
      hide Distinct;
      n, j := node, i;
      assert LinksOf(order[j], order, depth, j);
      while n.prevSibling != null
        invariant j < |order| && n == order[j] && LinksOf(n, order, depth, j)
        invariant ParentOf(order, depth, j) == ParentOf(order, depth, i)
        decreases j
      {
        SiblingParent(depth, j);
        j := PrevSibling(depth, j).value;
        n := n.prevSibling;
        assert LinksOf(order[j], order, depth, j);
      }
    }

    /** One step from a node without next sibling to its parent. */
    lemma StepUp(j: nat)
      requires Valid() && 0 < j < |order| && NextSibling(depth, j).None?
      ensures var p := Parent(depth, j); LinksOf(order[p], order, depth, p) && End(depth, p) == End(depth, j)
    {
      ClimbKeepsEnd(depth, j);
    }

    /** The climbing loop of dev_get_next: the next sibling of the nearest ancestor of node `i` that has one. */
    method Climb(from: Dev?, ghost i: nat) returns (r: Dev?)
      requires Valid() && i < |order| && from == ParentOf(order, depth, i)
      requires NextSibling(depth, i).None? && End(depth, i) == i + 1
      ensures r == if i + 1 < |order| then order[i + 1] else null
    {
      hide Nested;
      hide LastUpTo;
      hide Distinct;
      hide End;
      var n := from;
      ghost var j: nat := i;
      if i == 0 { RootEnd(depth); } else { StepUp(i); j := Parent(depth, i); }
      while n != null && n.nextSibling == null
        invariant n == null ==> i + 1 == |order|
        invariant n != null ==> j < |order| && n == order[j] && LinksOf(n, order, depth, j) && End(depth, j) == i + 1
        decreases if n == null then 0 else j + 1
      {
        n := n.parent;
        if j == 0 { RootEnd(depth); } else { StepUp(j); j := Parent(depth, j); }
      }
      r := if n != null then n.nextSibling else null;
    }

    /** One past the last device that a search from node `i` covers: its subtree and its later siblings'. */
    ghost function Limit(i: nat): nat
      requires Valid() && i < |order|
      reads this, order
    {
      if i == 0 then |order| else End(depth, Parent(depth, i))
    }

    /** No device in [lo, hi) of the listing has this name. */
    ghost predicate NoneNamed(name: string, lo: nat, hi: nat)
      requires hi <= |order|
      reads this, order
    {
      forall k :: lo <= k < hi ==> order[k].name != name
    }

    /** `r` is the first device in [lo, hi) with this name, or null. */
    ghost predicate FirstNamed(r: Dev?, name: string, lo: nat, hi: nat)
      requires hi <= |order|
      reads this, order
    {
      if r == null then NoneNamed(name, lo, hi)
      else exists k :: lo <= k < hi && r == order[k] && order[k].name == name && NoneNamed(name, lo, k)
    }

    lemma LimitFacts(i: nat)
      requires Valid() && i < |order|
      ensures |depth| == |order| && i < End(depth, i) <= Limit(i) <= |order|
      ensures LinksOf(order[i], order, depth, i)
      ensures FirstChild(depth, i) == (if order[i].firstChild == null then None else Some(i + 1))
      ensures NextSibling(depth, i) == (if order[i].nextSibling == null then None else Some(End(depth, i)))
      ensures if FirstChild(depth, i).Some?
              then i + 1 < |order| && order[i].firstChild == order[i + 1] && Limit(i + 1) == End(depth, i)
              else End(depth, i) == i + 1
      ensures NextSibling(depth, i).Some? ==>
                && Limit(End(depth, i)) == Limit(i) && i < End(depth, i) < |order|
                && order[i].nextSibling == order[End(depth, i)]
      ensures NextSibling(depth, i).None? ==> End(depth, i) == Limit(i)
    {
      hide LastUpTo;
      LinksInverse(depth, i);
      RootEnd(depth);
      if i > 0 {
        if NextSibling(depth, i).Some? {
          SiblingParent(depth, End(depth, i));
        } else {
          ClimbKeepsEnd(depth, i);
        }
        EndInParent(depth, i);
      }
    }

    /** A search continued behind a stretch without match. */
    lemma ContinueSearch(r: Dev?, name: string, lo: nat, mid: nat, hi: nat, top: nat)
      requires lo <= mid <= hi <= top <= |order| && NoneNamed(name, lo, mid) && FirstNamed(r, name, mid, hi)
      ensures r != null ==> FirstNamed(r, name, lo, top)
      ensures r == null ==> NoneNamed(name, lo, hi)
    {
      if r != null {
        var k :| mid <= k < hi && r == order[k] && order[k].name == name && NoneNamed(name, mid, k);
        assert NoneNamed(name, lo, k);
      }
    }

    lemma Narrow(name: string, lo: nat, mid: nat, hi: nat)
      requires lo <= mid <= hi <= |order| && NoneNamed(name, lo, hi)
      ensures NoneNamed(name, lo, mid)
    {
    }

    lemma SearchHere(i: nat, name: string, hi: nat)
      requires i < hi <= |order|
      ensures if order[i].name == name then FirstNamed(order[i], name, i, hi) else NoneNamed(name, i, i + 1)
      ensures NoneNamed(name, i, hi) ==> FirstNamed(null, name, i, hi)
    {
      if order[i].name == name {
        assert NoneNamed(name, i, i);
      }
    }

    /** dev_find_subtree: depth-first search through children and following siblings. */
    method FindSubtree(name: string, node: Dev, ghost i: nat) returns (r: Dev?)
      requires Valid() && i < |order| && node == order[i]
      ensures FirstNamed(r, name, i, Limit(i))
      decreases |order| - i, 1
    {
      hide Linked;
      hide LinksOf;
      hide Limit;
      hide End;
      hide FirstChild;
      hide NextSibling;
      hide NoneNamed;
      hide FirstNamed;
      LimitFacts(i);
      SearchHere(i, name, Limit(i));
      if node.name == name {
        return node;
      }
      if node.firstChild != null {
        r := FindSubtree(name, node.firstChild, i + 1);
        ContinueSearch(r, name, i, i + 1, Limit(i + 1), Limit(i));
        if r != null {
          return;
        }
      }
      r := SearchSiblings(name, node, i);
    }

    /** The loop of dev_find_subtree over the following siblings of a node whose subtree has no match. */
    method SearchSiblings(name: string, node: Dev, ghost i: nat) returns (r: Dev?)
      requires Valid() && i < |order| && node == order[i] && NoneNamed(name, i, End(depth, i))
      ensures FirstNamed(r, name, i, Limit(i))
      decreases |order| - i, 0
    {
      hide Linked;
      hide LinksOf;
      hide Limit;
      hide End;
      hide FirstChild;
      hide NextSibling;
      hide NoneNamed;
      hide FirstNamed;
      LimitFacts(i);
      var n := node;
      ghost var j: nat := i;
      while n.nextSibling != null
        invariant i <= j < |order| && n == order[j] && Limit(j) == Limit(i) && End(depth, j) <= |order|
        invariant NoneNamed(name, i, End(depth, j))
        decreases |order| - j
      {
        LimitFacts(j);
        j := End(depth, j);
        n := n.nextSibling;
        LimitFacts(j);
        r := FindSubtree(name, n, j);
        ContinueSearch(r, name, i, j, Limit(j), Limit(i));
        if r != null {
          return;
        }
        Narrow(name, i, End(depth, j), Limit(j));
      }
      LimitFacts(j);
      SearchHere(i, name, Limit(i));
      r := null;
    }

    /** dev_find: the device with this name, if the tree has one. */
    method Find(name: string) returns (r: Dev?)
      requires Valid()
      ensures r == null <==> NoneNamed(name, 0, |order|)
      ensures r != null ==> r in order && r.name == name && FirstNamed(r, name, 0, |order|)
    {
      r := FindSubtree(name, root, 0);
    }

    /** Some device has the name that the suffix character at index `j` gives. */
    ghost predicate Taken(prefix: string, j: nat)
      reads this, order
    {
      j < |SUFFIXES| && !NoneNamed(prefix + [SUFFIXES[j]], 0, |order|)
    }

    /** The suffix character at index `k` is the first that gives a name no device has. */
    ghost predicate FirstFree(prefix: string, k: nat)
      reads this, order
    {
      && k < |SUFFIXES| && !Taken(prefix, k)
      && forall j :: 0 <= j < k ==> Taken(prefix, j)
    }

    /** dev_add_suffix: complete a prefix with the first suffix character that gives a free name. */
    method AddSuffix(prefix: string) returns (ret: int, name: string)
      requires Valid()
      ensures ret == 0 || ret == -EMFILE
      ensures ret == 0 ==> NoneNamed(name, 0, |order|)
      ensures ret == 0 ==>
                exists k: nat :: old(FirstFree(prefix, k)) && k < |SUFFIXES| && name == prefix + [SUFFIXES[k]]
      ensures ret == 0 <==> old(exists k: nat :: FirstFree(prefix, k))
    {
      hide NoneNamed;
      for i := 0 to |SUFFIXES|
        invariant forall j :: 0 <= j < i ==> Taken(prefix, j)
      {
        name := prefix + [SUFFIXES[i]];
        var other := Find(name);
        if other == null {
          assert FirstFree(prefix, i);
          return 0, name;
        }
        assert Taken(prefix, i);
      }
      forall k: nat ensures !old(FirstFree(prefix, k)) {
        if k < |SUFFIXES| { assert Taken(prefix, k); }
      }
      return -EMFILE, prefix;
    }

    /** Where dev_add_child puts a new child of node `p`: behind its subtree, one level down. */
    ghost predicate AddedLeaf(order0: seq<Dev>, depth0: seq<nat>, p: nat, x: Dev)
      requires p < |depth0| == |order0|
      reads this
    {
      && order == Inserted(order0, End(depth0, p), x)
      && depth == Inserted(depth0, End(depth0, p), depth0[p] + 1)
    }

    /** dev_add_child: make an unlinked device the last child of `parent`, unless its name is taken. */
    method AddChild(parent: Dev?, child: Dev, ghost p: nat) returns (ret: int)
      requires Valid() && child !in order && p < |order| && (if parent == null then p == 0 else parent == order[p])
      requires child.parent == null && child.firstChild == null
      requires child.prevSibling == null && child.nextSibling == null
      modifies this`order, this`depth, child`parent, child`prevSibling, order`firstChild, order`nextSibling
      ensures Valid() && (old(DistinctNames()) ==> DistinctNames())
      ensures ret == if old(NoneNamed(child.name, 0, |order|)) then 0 else -EEXIST
      ensures ret == 0 ==> AddedLeaf(old(order), old(depth), p, child)
      ensures ret == 0 ==> child.parent == (if parent == null then root else parent) && child.nextSibling == null
      ensures ret != 0 ==> order == old(order) && depth == old(depth)
    {
      hide LinksOf;
      hide Nested;
      hide Distinct;
      hide Inserted;
      var other := Find(child.name);
      if other != null {
        return -EEXIST;
      }
      var par := if parent == null then root else parent;
      ghost var os := order;
      HookChild(par, child, p);
      InsertedNames(os, End(old(depth), p), child);
      ret := 0;
    }

    /** All links are those of the listing with the leaf `x` of depth `c` at position `e`. */
    ghost predicate Hooked(e: nat, c: nat, x: Dev)
      requires Listing(order, depth) && LeafFits(depth, e, c)
      reads this, x, order
    {
      && LeafAt(x, order, depth, e, c)
      && forall i {:trigger Patched(order[i], order, depth, e, c, x, i)} :: 0 <= i < |order| ==>
           Patched(order[i], order, depth, e, c, x, i)
    }

    /** The link updates of dev_add_child. */
    method HookChild(par: Dev, child: Dev, ghost p: nat)
      requires Valid() && child !in order && p < |order| && par == order[p]
      requires child.parent == null && child.firstChild == null
      requires child.prevSibling == null && child.nextSibling == null
      modifies this`order, this`depth, child`parent, child`prevSibling, order`firstChild, order`nextSibling
      ensures Valid() && AddedLeaf(old(order), old(depth), p, child) && child.parent == par
    {
      hide Patched;
      hide LeafAt;
      hide LinksOf;
      assert LinksOf(order[p], order, depth, p);
      LastChildSpot(depth, p);
      HasFirstChild(p);
      ghost var e, c := End(depth, p), depth[p] + 1;
      if par.firstChild == null {
        HookFirst(par, child, p, e, c);
      } else {
        HookLast(par, child, p, e, c);
      }
      ghost var os, ds := Inserted(order, e, child), Inserted(depth, e, c);
      LeafLinked(order, depth, e, c, child);
      assert Linked(os, ds);
      order, depth := os, ds;
    }

    lemma HasFirstChild(p: nat)
      requires Valid() && p < |order|
      ensures |order| == |depth|
      ensures if order[p].firstChild == null then FirstChild(depth, p).None?
              else FirstChild(depth, p).Some? && p + 1 < |order| && order[p].firstChild == order[p + 1]
    {
      assert LinksOf(order[p], order, depth, p);
    }

    lemma NewLeaf(child: Dev, p: nat, q: nat)
      requires Valid() && p < |order| && child.parent == order[p]
      requires child.firstChild == null && child.nextSibling == null
      requires if child.prevSibling == null then FirstChild(depth, p).None?
               else && p < q < |order| && depth[q] == depth[p] + 1 && End(depth, q) == End(depth, p)
                    && child.prevSibling == order[q]
      ensures LeafFits(depth, End(depth, p), depth[p] + 1)
      ensures LeafAt(child, order, depth, End(depth, p), depth[p] + 1)
    {
      LastChildSpot(depth, p);
      if child.prevSibling != null {
        LastChildNeighbour(depth, p, q);
      }
    }

    method HookFirst(par: Dev, child: Dev, ghost p: nat, ghost e: nat, ghost c: nat)
      requires Valid() && child !in order && p < |order| && par == order[p] && FirstChild(depth, p).None?
      requires e == End(depth, p) && c == depth[p] + 1 && LeafFits(depth, e, c)
      requires child.parent == null && child.firstChild == null
      requires child.prevSibling == null && child.nextSibling == null
      modifies child`parent, par`firstChild
      ensures Hooked(e, c, child) && child.parent == par
    {
      hide Nested;
      hide LastUpTo;
      hide End;
      hide LeafFits;
      hide LeafAt;
      hide NextSibling;
      hide PrevSibling;
      child.parent := par;
      NewLeaf(child, p, 0);
      par.firstChild := child;
      assert LeafAt(child, order, depth, e, c);
      LastChildSpot(depth, p);
      forall i | 0 <= i < |order| ensures Patched(order[i], order, depth, e, c, child, i) {
        assert old(LinksOf(order[i], order, depth, i));
      }
    }

    method HookLast(par: Dev, child: Dev, ghost p: nat, ghost e: nat, ghost c: nat)
      requires Valid() && child !in order && p + 1 < |order| && par == order[p]
      requires FirstChild(depth, p).Some? && par.firstChild == order[p + 1]
      requires e == End(depth, p) && c == depth[p] + 1 && LeafFits(depth, e, c)
      requires child.parent == null && child.firstChild == null
      requires child.prevSibling == null && child.nextSibling == null
      modifies child`parent, child`prevSibling, order`nextSibling
      ensures Hooked(e, c, child) && child.parent == par
    {
      hide Nested;
      hide LastUpTo;
      hide End;
      hide LeafFits;
      hide LeafAt;
      hide NextSibling;
      hide PrevSibling;
      child.parent := par;
      var last, q := LastSibling(par.firstChild, p);
      HookBehind(last, child, p, q, e, c);
    }

    /** The child, its parent set, goes behind the last child `q` so far. */
    method HookBehind(last: Dev, child: Dev, ghost p: nat, ghost q: nat, ghost e: nat, ghost c: nat)
      requires Valid() && child !in order && p < q < |order| && FirstChild(depth, p).Some? && last == order[q]
      requires depth[q] == c && End(depth, q) == e
      requires e == End(depth, p) && c == depth[p] + 1 && LeafFits(depth, e, c)
      requires child.parent == order[p] && child.firstChild == null
      requires child.prevSibling == null && child.nextSibling == null
      modifies child`prevSibling, order`nextSibling
      ensures Hooked(e, c, child)
    {
      hide Nested;
      hide LastUpTo;
      hide End;
      hide LeafFits;
      hide LeafAt;
      hide FirstChild;
      hide NextSibling;
      hide PrevSibling;
      hide Parent;
      hide Distinct;
      child.prevSibling := last;
      NewLeaf(child, p, q);
      last.nextSibling := child;
      assert LeafAt(child, order, depth, e, c);
      forall i | 0 <= i < |order| ensures Patched(order[i], order, depth, e, c, child, i) {
        assert old(LinksOf(order[i], order, depth, i));
        LastChildPatch(depth, p, q, i);
        DistinctAt(order, i, q);
      }
    }

    /** The walk of dev_add_child to the last child of node `p`. */
    method LastSibling(first: Dev, ghost p: nat) returns (last: Dev, ghost q: nat)
      requires Linked(order, depth) && p + 1 < |order| && FirstChild(depth, p).Some? && first == order[p + 1]
      ensures p < q < |order| && last == order[q] && depth[q] == depth[p] + 1 && End(depth, q) == End(depth, p)
    {
      hide Nested;
      hide LastUpTo;
      hide Distinct;
      last, q := first, p + 1;
      LinksInverse(depth, p);
      assert LinksOf(order[q], order, depth, q);
      while last.nextSibling != null
        invariant p < q < |order| && last == order[q] && Parent(depth, q) == p && LinksOf(last, order, depth, q)
        decreases |order| - q
      {
        LinksInverse(depth, q);
        q := End(depth, q);
        SiblingParent(depth, q);
        last := last.nextSibling;
        assert LinksOf(order[q], order, depth, q);
      }
      ClimbKeepsEnd(depth, q);
      ParentDepth(depth, q);
    }

    /** The unlinking at the end of dev_destroy, for a device without children. */
    method UnlinkLeaf(dev: Dev, ghost i: nat)
      requires Valid() && 0 < i < |order| && dev == order[i] && dev.firstChild == null
      modifies this`order, this`depth, order`firstChild, order`prevSibling, order`nextSibling
      ensures Valid()
      ensures order == Removed(old(order), i) && depth == Removed(old(depth), i)
    {
      hide LinksOf;
      hide Patched;
      hide LeafAt;
      HasFirstChild(i);
      LeafRemoved(depth, i);
      RemovedFacts(order, i);
      ghost var c, os, ds := depth[i], Removed(order, i), Removed(depth, i);
      assert Inserted(os, i, dev) == order;
      LeafLinked(os, ds, i, c, dev);
      Detach(dev, os, ds, i, c);
      order, depth := os, ds;
    }

    /** The three link updates: the listing (os, ds) is the one without the leaf. */
    method Detach(dev: Dev, ghost os: seq<Dev>, ghost ds: seq<nat>, ghost i: nat, ghost c: nat)
      requires Listing(os, ds) && LeafFits(ds, i, c) && dev !in os && LeafAt(dev, os, ds, i, c)
      requires forall k {:trigger Patched(os[k], os, ds, i, c, dev, k)} :: 0 <= k < |os| ==>
                 Patched(os[k], os, ds, i, c, dev, k)
      modifies os`firstChild, os`prevSibling, os`nextSibling
      ensures Linked(os, ds)
    {
      hide LastUpTo;
      hide End;
      hide NextSibling;
      hide PrevSibling;
      hide FirstChild;
      LeafRelatives(ds, i, c);
      if dev.parent != null && dev.parent.firstChild == dev {
        dev.parent.firstChild := dev.nextSibling;
      }
      if dev.prevSibling != null {
        dev.prevSibling.nextSibling := dev.nextSibling;
      }
      if dev.nextSibling != null {
        dev.nextSibling.prevSibling := dev.prevSibling;
      }
      forall k | 0 <= k < |os| ensures LinksOf(os[k], os, ds, k) {
        assert old(Patched(os[k], os, ds, i, c, dev, k));
      }
    }

    /** Part of a subtree is gone: positions i+1 .. m of the listing (os, ds). */
    ghost predicate Pruned(os: seq<Dev>, ds: seq<nat>, i: nat, m: nat)
      reads this
    {
      && |os| == |ds| && i < |ds| && i + 1 <= m <= End(ds, i)
      && order == Cut(os, i + 1, m) && depth == Cut(ds, i + 1, m)
    }

    /** A device below another one, all shut-down handlers agreeing: first its children go, then the device. */
    method DestroySubtree(dev: Dev, ghost i: nat)
      requires Valid() && 0 < i < |order| && dev == order[i]
      modifies this`order, this`depth, order`firstChild, order`prevSibling, order`nextSibling
      ensures Valid()
      ensures order == Cut(old(order), i, End(old(depth), i)) && depth == Cut(old(depth), i, End(old(depth), i))
      decreases End(depth, i) - i, 2
    {
      hide Linked;
      hide Cut;
      hide End;
      DestroyChildren(dev, i);
      UnlinkPruned(dev, i, old(order), old(depth));
    }

    /** The device itself, once its children are gone. */
    method UnlinkPruned(dev: Dev, ghost i: nat, ghost os: seq<Dev>, ghost ds: seq<nat>)
      requires Valid() && 0 < i < |os| == |ds| && dev == os[i] && Pruned(os, ds, i, End(ds, i))
      modifies this`order, this`depth, order`firstChild, order`prevSibling, order`nextSibling
      ensures Valid()
      ensures order == Cut(os, i, End(ds, i)) && depth == Cut(ds, i, End(ds, i))
    {
      hide Linked;
      hide End;
      PrunedFacts(os, ds, i, End(ds, i));
      CutAll(os, i, End(ds, i));
      CutAll(ds, i, End(ds, i));
      UnlinkLeaf(dev, i);
    }

    /** The first loop of dev_destroy: destroy the first child until there is none. */
    method DestroyChildren(dev: Dev, ghost i: nat)
      requires Valid() && i < |order| && dev == order[i]
      modifies this`order, this`depth, order`firstChild, order`prevSibling, order`nextSibling
      ensures Valid() && |old(depth)| == |old(order)| && Pruned(old(order), old(depth), i, End(old(depth), i))
      ensures dev.firstChild == null && forall k :: 0 <= k < |order| ==> order[k] in old(order)
      decreases End(depth, i) - i, 1
    {
      hide Linked;
      hide Cut;
      hide End;
      HasFirstChild(i);
      ghost var os, ds := order, depth;
      ghost var m: nat := i + 1;
      CutNone(os, i + 1);
      CutNone(ds, i + 1);
      while dev.firstChild != null
        invariant Valid() && Pruned(os, ds, i, m)
        decreases End(ds, i) - m
      {
        PrunedFacts(os, ds, i, m);
        m := DestroyFirst(dev, i, os, ds, m);
      }
      PrunedFacts(os, ds, i, m);
    }

    lemma PrunedFacts(os: seq<Dev>, ds: seq<nat>, i: nat, m: nat)
      requires Valid() && Pruned(os, ds, i, m)
      ensures i < |order| && order[i] == os[i] && forall k :: 0 <= k < |order| ==> order[k] in os
      ensures if order[i].firstChild == null then m == End(ds, i)
              else m < End(ds, i) && i + 1 < |order| && order[i].firstChild == order[i + 1]
                   && m < End(ds, m) <= End(ds, i) && End(depth, i + 1) == End(ds, m) - (m - i - 1)
    {
      hide Linked;
      hide Cut;
      hide End;
      CutAt(os, i + 1, m);
      CutAt(ds, i + 1, m);
      BelowEnd(ds, i, m);
      HasFirstChild(i);
      if m < |ds| {
        SuffixEnd(ds, i, m, depth);
      }
    }

    /** Destroy the first child that is left. */
    method DestroyFirst(dev: Dev, ghost i: nat, ghost os: seq<Dev>, ghost ds: seq<nat>, ghost m: nat)
      returns (ghost t: nat)
      requires Valid() && Pruned(os, ds, i, m) && dev == os[i] && dev.firstChild != null
      modifies this`order, this`depth, order`firstChild, order`prevSibling, order`nextSibling
      ensures Valid() && m < t && Pruned(os, ds, i, t)
      decreases End(ds, i) - i, 0
    {
      hide Linked;
      hide Cut;
      hide End;
      PrunedFacts(os, ds, i, m);
      t := End(ds, m);
      CutMore(os, i + 1, m, t);
      CutMore(ds, i + 1, m, t);
      DestroySubtree(dev.firstChild, i + 1);
    }

    /** Positions [lo, hi) of the old listing are gone. */
    ghost predicate Gone(order0: seq<Dev>, depth0: seq<nat>, lo: nat, hi: nat)
      requires lo <= hi <= |order0| && |depth0| == |order0|
      reads this
    {
      order == Cut(order0, lo, hi) && depth == Cut(depth0, lo, hi)
    }

    /** dev_destroy of a device other than the root; its own shut-down handler returns `shutDown`. */
    method Destroy(dev: Dev, shutDown: int, ghost i: nat) returns (ret: int)
      requires Valid() && 0 < i < |order| && dev == order[i]
      modifies this`order, this`depth, order`firstChild, order`prevSibling, order`nextSibling
      ensures Valid() && (old(DistinctNames()) ==> DistinctNames())
      ensures ret == if shutDown == 0 || shutDown == -38 then 0 else shutDown
      ensures shutDown == 0 || shutDown == -38 ==> dev !in order
      ensures Gone(old(order), old(depth), if ret == 0 then i else i + 1, End(old(depth), i))
    {
      hide Linked;
      hide Cut;
      HasFirstChild(i);
      ghost var os, ds, e := order, depth, End(depth, i);
      OnceListed(i);
      DestroyChildren(dev, i);
      CutNames(os, i + 1, e);
      ret := shutDown;
      if ret != 0 && ret != -ENOSYS {
        return;
      }
      UnlinkPruned(dev, i, os, ds);
      CutNames(os, i, e);
      ret := 0;
    }

    lemma OnceListed(i: nat)
      requires Valid() && i < |order|
      ensures End(depth, i) <= |order| && order[i] !in Cut(order, i, End(depth, i))
    {
      CutGone(order, i, End(depth, i));
    }

    /** No two devices share a name. */
    ghost predicate DistinctNames()
      reads this, order
    {
      NamesDiffer(order)
    }

    /**
     dev_create below node `p`: a new last child with the first free name. When its driver's initialisation
     (outcome `init`) fails, it is taken out again, unless its shut-down handler refuses.
     */
    method Create(prefix: string, parent: Dev?, init: int, shutDown: int, ghost p: nat) returns (ret: int, dev: Dev?)
      requires Valid() && p < |order| && (if parent == null then p == 0 else parent == order[p])
      modifies this`order, this`depth, order`firstChild, order`prevSibling, order`nextSibling
      ensures Valid() && (old(DistinctNames()) ==> DistinctNames())
      ensures ret == if old(exists k: nat :: FirstFree(prefix, k)) then init else -EMFILE
      ensures ret == 0 ==>
                && dev != null && fresh(dev) && AddedLeaf(old(order), old(depth), p, dev)
                && exists k: nat :: old(FirstFree(prefix, k)) && k < |SUFFIXES| && dev.name == prefix + [SUFFIXES[k]]
      ensures ret != 0 ==> dev == null
      ensures ret != 0 && (shutDown == 0 || shutDown == -38 || !old(exists k: nat :: FirstFree(prefix, k))) ==>
                order == old(order) && depth == old(depth)
      ensures ret != 0 && shutDown != 0 && shutDown != -38 && old(exists k: nat :: FirstFree(prefix, k)) ==>
                exists d: Dev :: fresh(d) && AddedLeaf(old(order), old(depth), p, d)
    {
      hide LinksOf;
      hide LeafFits;
      hide End;
      hide Inserted;
      hide Cut;
      hide FirstFree;
      var name;
      ret, name := AddSuffix(prefix);
      if ret != 0 {
        return ret, null;
      }
      var d := new Dev(name);
      ret := Install(parent, d, init, shutDown, p);
      dev := if ret == 0 then d else null;
    }

    /** The second half of dev_create: hook the device in, initialise it, destroy it again on failure. */
    method Install(parent: Dev?, d: Dev, init: int, shutDown: int, ghost p: nat) returns (ret: int)
      requires Valid() && d !in order && p < |order| && (if parent == null then p == 0 else parent == order[p])
      requires d.parent == null && d.firstChild == null && d.prevSibling == null && d.nextSibling == null
      requires NoneNamed(d.name, 0, |order|)
      modifies this`order, this`depth, order`firstChild, order`prevSibling, order`nextSibling
      modifies d`parent, d`firstChild, d`prevSibling, d`nextSibling
      ensures Valid() && ret == init && (old(DistinctNames()) ==> DistinctNames())
      ensures if ret != 0 && (shutDown == 0 || shutDown == -38) then order == old(order) && depth == old(depth)
              else AddedLeaf(old(order), old(depth), p, d)
    {
      hide LinksOf;
      hide LeafFits;
      hide End;
      hide Inserted;
      hide Cut;
      hide Nested;
      hide Distinct;
      hide NoneNamed;
      hide DistinctNames;
      ghost var os, ds, e := order, depth, End(depth, p);
      ret := AddChild(parent, d, p);
      if init != 0 {
        NewLeafEnd(os, ds, p, d);
        InsertedIn(os, e, d);
        ghost var os1, ds1 := order, depth;
        CutInserted(os, e, d);
        CutInserted(ds, e, ds[p] + 1);
        CutNone(os1, e + 1);
        CutNone(ds1, e + 1);
        var gone := Destroy(d, shutDown, e);
        assert gone != 0 ==> order == os1 && depth == ds1;
        ret := init;
      }
    }

    lemma NewLeafEnd(os: seq<Dev>, ds: seq<nat>, p: nat, x: Dev)
      requires Listing(os, ds) && p < |os| && AddedLeaf(os, ds, p, x) && x !in os
      ensures var e := End(ds, p); 0 < e < |depth| && order[e] == x && End(depth, e) == e + 1
    {
      LastChildSpot(ds, p);
      LeafLinks(os, ds, End(ds, p), ds[p] + 1, x);
      EndWithoutChild(depth, End(ds, p));
    }
  }

  lemma InsertedIn<T>(s: seq<T>, k: nat, x: T)
    requires k <= |s|
    ensures forall i :: 0 <= i < |Inserted(s, k, x)| ==> Inserted(s, k, x)[i] == x || Inserted(s, k, x)[i] in s
  {
  }

  lemma CutInserted<T>(s: seq<T>, k: nat, x: T)
    requires k <= |s|
    ensures Cut(Inserted(s, k, x), k, k + 1) == s
  {
  }

  /** `s` without the positions in [lo, hi). */
  function Cut<T>(s: seq<T>, lo: nat, hi: nat): seq<T>
    requires lo <= hi <= |s|
  {
    s[..lo] + s[hi..]
  }

  lemma CutAt<T>(s: seq<T>, lo: nat, hi: nat)
    requires lo <= hi <= |s|
    ensures var r := Cut(s, lo, hi);
            && |r| == |s| - (hi - lo)
            && (forall k :: 0 <= k < lo ==> r[k] == s[k])
            && (forall k :: lo <= k < |r| ==> r[k] == s[k + (hi - lo)])
            && (forall k :: 0 <= k < |r| ==> r[k] in s)
            && r == s[..lo] + s[hi..]
  {
  }

  /** Between a node and its subtree's end, everything is below the node, subtrees included. */
  lemma BelowEnd(d: seq<nat>, i: nat, m: nat)
    requires i < |d| && i < m <= End(d, i)
    ensures m < End(d, i) ==> d[m] > d[i] && End(d, m) <= End(d, i)
    ensures m == End(d, i) < |d| ==> d[m] <= d[i]
  {
    if m < End(d, i) {
      assert !(End(d, i) < End(d, m));
    }
  }

  lemma InsertedNames(s: seq<Dev>, k: nat, x: Dev)
    requires k <= |s| && forall i :: 0 <= i < |s| ==> s[i].name != x.name
    ensures NamesDiffer(s) ==> NamesDiffer(Inserted(s, k, x))
  {
  }

  lemma CutNames(s: seq<Dev>, lo: nat, hi: nat)
    requires lo <= hi <= |s|
    ensures NamesDiffer(s) ==> NamesDiffer(Cut(s, lo, hi))
  {
  }

  lemma CutGone(s: seq<Dev>, i: nat, hi: nat)
    requires Distinct(s) && i < hi <= |s|
    ensures s[i] !in Cut(s, i, hi)
  {
  }

  lemma CutNone<T>(s: seq<T>, lo: nat)
    requires lo <= |s|
    ensures Cut(s, lo, lo) == s
  {
  }

  lemma CutMore<T>(s: seq<T>, lo: nat, m: nat, t: nat)
    requires lo <= m <= t <= |s|
    ensures Cut(Cut(s, lo, m), lo, lo + (t - m)) == Cut(s, lo, t)
  {
  }

  lemma CutAll<T>(s: seq<T>, i: nat, e: nat)
    requires i < e <= |s|
    ensures i < |Cut(s, i + 1, e)| && Removed(Cut(s, i + 1, e), i) == Cut(s, i, e)
  {
  }

  lemma EndWithoutChild(d: seq<nat>, i: nat)
    requires i < |d|
    ensures FirstChild(d, i).None? ==> End(d, i) == i + 1
  {
  }

  /** A subtree lies inside its parent's. */
  lemma EndInParent(d: seq<nat>, i: nat)
    requires Nested(d) && 0 < i < |d|
    ensures End(d, i) <= End(d, Parent(d, i))
  {
    var p := Parent(d, i);
    ParentDepth(d, i);
    assert !(End(d, p) < End(d, i));
  }
}
