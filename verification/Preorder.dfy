/**
 Trees as pre-order sequences of depths: position i holds the depth of the i-th node visited. Parent,
 children and siblings of a node are functions of this sequence.
 */
module Preorder {
  import opened Lists
  import opened Options

  /** Depths of a pre-order walk: the root first, and never more than one level down at a time. */
  ghost predicate Nested(d: seq<nat>) {
    && |d| > 0 && d[0] == 0
    && forall i :: 1 <= i < |d| ==> Follows(d, i)
  }

  /** Node `i` is below the root, and at most one level below the node before it. */
  predicate Follows(d: seq<nat>, i: nat)
    requires 1 <= i < |d|
  {
    1 <= d[i] <= d[i - 1] + 1
  }

  /** One past the last node below node `i`. */
  function End(d: seq<nat>, i: nat): (e: nat)
    requires i < |d|
    ensures i < e <= |d|
    ensures forall k :: i < k < e ==> d[k] > d[i]
    ensures e < |d| ==> d[e] <= d[i]
  {
    EndFrom(d, i, i + 1)
  }

  function EndFrom(d: seq<nat>, i: nat, k: nat): (e: nat)
    requires i < k <= |d|
    ensures k <= e <= |d|
    ensures forall j :: k <= j < e ==> d[j] > d[i]
    ensures e < |d| ==> d[e] <= d[i]
    decreases |d| - k
  {
    if k < |d| && d[k] > d[i] then EndFrom(d, i, k + 1) else k
  }

  /** The last position before `k` whose depth is at most `c`. */
  function LastUpTo(d: seq<nat>, k: nat, c: nat): (j: nat)
    requires 0 < k <= |d| && d[0] <= c
    ensures j < k && d[j] <= c
    ensures forall m :: j < m < k ==> d[m] > c
    decreases k
  {
    if d[k - 1] <= c then k - 1 else LastUpTo(d, k - 1, c)
  }

  function Parent(d: seq<nat>, i: nat): (p: nat)
    requires Nested(d) && 0 < i < |d|
    ensures p < i && d[p] < d[i]
    ensures forall m :: p < m < i ==> d[m] >= d[i]
  {
    assert Follows(d, i);
    LastUpTo(d, i, d[i] - 1)
  }

  function FirstChild(d: seq<nat>, i: nat): Option<nat>
    requires i < |d|
  {
    if i + 1 < |d| && d[i + 1] > d[i] then Some(i + 1) else None
  }

  function NextSibling(d: seq<nat>, i: nat): Option<nat>
    requires i < |d|
  {
    var e := End(d, i);
    if e < |d| && d[e] == d[i] then Some(e) else None
  }

  function PrevSibling(d: seq<nat>, i: nat): Option<nat>
    requires Nested(d) && i < |d|
  {
    if i == 0 then None else
      var j := LastUpTo(d, i, d[i]);
      if d[j] == d[i] then Some(j) else None
  }

  lemma EndIs(d: seq<nat>, i: nat, e: nat)
    requires i < e <= |d| && (forall k :: i < k < e ==> d[k] > d[i]) && (e < |d| ==> d[e] <= d[i])
    ensures End(d, i) == e
  {
    var x := End(d, i);
    assert !(x < e) && !(e < x);
  }

  lemma LastUpToIs(d: seq<nat>, k: nat, c: nat, j: nat)
    requires 0 < k <= |d| && d[0] <= c && j < k && d[j] <= c && forall m :: j < m < k ==> d[m] > c
    ensures LastUpTo(d, k, c) == j
  {
    var x := LastUpTo(d, k, c);
    assert !(x < j) && !(j < x);
  }

  /** A parent is exactly one level up. */
  lemma ParentDepth(d: seq<nat>, i: nat)
    requires Nested(d) && 0 < i < |d|
    ensures d[Parent(d, i)] == d[i] - 1
  {
    hide LastUpTo;
    var p := Parent(d, i);
    assert Follows(d, p + 1) && Follows(d, i);
  }

  // ---------------------------------------------------------------- the walk

  /** A node without child and sibling ends its parent's subtree too. */
  lemma ClimbKeepsEnd(d: seq<nat>, i: nat)
    requires Nested(d) && 0 < i < |d| && NextSibling(d, i).None?
    ensures End(d, Parent(d, i)) == End(d, i)
  {
    hide End, Parent, Nested;
    var p, e := Parent(d, i), End(d, i);
    ParentDepth(d, i);
    EndIs(d, p, e);
  }

  /** Siblings share their parent. */
  lemma SiblingParent(d: seq<nat>, i: nat)
    requires Nested(d) && i < |d| && PrevSibling(d, i).Some?
    ensures var j := PrevSibling(d, i).value; 0 < j < i && d[j] == d[i] && Parent(d, j) == Parent(d, i)
  {
    hide LastUpTo;
    var j := PrevSibling(d, i).value;
    var p := Parent(d, i);
    assert Follows(d, i) && !(j < p);
    LastUpToIs(d, j, d[j] - 1, p);
  }

  /** The root's subtree is everything. */
  lemma RootEnd(d: seq<nat>)
    requires Nested(d)
    ensures End(d, 0) == |d| && NextSibling(d, 0).None?
  {
    hide EndFrom;
    assert End(d, 0) < |d| ==> Follows(d, End(d, 0));
  }

  /** Children link back: the next sibling's previous sibling, and the first child's parent. */
  lemma LinksInverse(d: seq<nat>, i: nat)
    requires Nested(d) && i < |d|
    ensures FirstChild(d, i).Some? ==> Parent(d, i + 1) == i && PrevSibling(d, i + 1).None?
    ensures NextSibling(d, i).Some? ==> PrevSibling(d, NextSibling(d, i).value) == Some(i)
    ensures PrevSibling(d, i).Some? ==> NextSibling(d, PrevSibling(d, i).value) == Some(i)
  {
    hide End, LastUpTo;
    if FirstChild(d, i).Some? {
      assert Follows(d, i + 1);
      LastUpToIs(d, i + 1, d[i + 1] - 1, i);
      LastUpToIs(d, i + 1, d[i + 1], i);
    }
    if NextSibling(d, i).Some? {
      LastUpToIs(d, End(d, i), d[i], i);
    }
    if PrevSibling(d, i).Some? {
      EndIs(d, PrevSibling(d, i).value, i);
    }
  }

  // ---------------------------------------------------------------- adding and removing a leaf

  /** A leaf of depth `c` fits at position `e`. */
  ghost predicate LeafFits(d: seq<nat>, e: nat, c: nat) {
    && 0 < e <= |d| && 1 <= c <= d[e - 1] + 1
    && (e < |d| ==> d[e] <= c)
  }

  lemma LeafNested(d: seq<nat>, e: nat, c: nat)
    requires Nested(d) && LeafFits(d, e, c)
    ensures Nested(Inserted(d, e, c))
  {
    var r := Inserted(d, e, c);
    forall i | 1 <= i < |r| ensures Follows(r, i) {
      if i < e {
        assert Follows(d, i) && r[i] == d[i] && r[i - 1] == d[i - 1];
      } else if i == e {
        assert r[i] == c && r[i - 1] == d[i - 1];
      } else if i == e + 1 {
        assert Follows(d, e) && r[i] == d[e] && r[i - 1] == c;
      } else {
        assert Follows(d, i - 1) && r[i] == d[i - 1] && r[i - 1] == d[i - 2];
      }
    }
  }

  /** Taking out a node without children leaves a tree that it fits back into. */
  lemma LeafRemoved(d: seq<nat>, e: nat)
    requires Nested(d) && 0 < e < |d| && FirstChild(d, e).None?
    ensures Nested(Removed(d, e)) && LeafFits(Removed(d, e), e, d[e]) && Inserted(Removed(d, e), e, d[e]) == d
  {
    var r := Removed(d, e);
    assert Follows(d, e) && (e + 1 < |d| ==> Follows(d, e + 1));
    forall i | 1 <= i < |r| ensures Follows(r, i) {
      if i < e {
        assert Follows(d, i);
      } else {
        assert r[i] == d[i + 1] && Follows(d, i + 1);
      }
    }
  }

  /** New position of node `i` once a leaf stands at `e`. */
  function Shift(e: nat, i: nat): nat { if i < e then i else i + 1 }

  /** Old nodes keep their depth at their new position. */
  lemma InsertedAt(d: seq<nat>, e: nat, c: nat)
    requires e <= |d|
    ensures var r := Inserted(d, e, c);
            r[e] == c && forall k {:trigger r[k]} :: 0 <= k < |r| && k != e ==> r[k] == d[if k < e then k else k - 1]
  {
  }

  lemma LeafEnd(d: seq<nat>, e: nat, c: nat, i: nat)
    requires LeafFits(d, e, c) && i < |d|
    ensures End(Inserted(d, e, c), Shift(e, i)) ==
            if i < e <= End(d, i) && c <= d[i] then e
            else if i < e && End(d, i) < e then End(d, i) else End(d, i) + 1
  {
    hide Inserted, End;
    var r := Inserted(d, e, c);
    var x := End(d, i);
    var y := if i < e <= x && c <= d[i] then e else if i < e && x < e then x else x + 1;
    InsertedAt(d, e, c);
    assert r[Shift(e, i)] == d[i];
    if y != e && x < |d| {
      assert r[Shift(e, x)] == d[x];
    }
    EndIs(r, Shift(e, i), y);
  }

  lemma LeafLast(d: seq<nat>, e: nat, c: nat, i: nat, b: nat)
    requires LeafFits(d, e, c) && 0 < i < |d| && d[0] <= b && (b == d[i] || b + 1 == d[i])
    ensures Inserted(d, e, c)[0] == d[0]
    ensures LastUpTo(Inserted(d, e, c), Shift(e, i), b) ==
            if i == e && c <= b then e else Shift(e, LastUpTo(d, i, b))
  {
    hide Inserted, LastUpTo;
    var r := Inserted(d, e, c);
    assert r[0] == d[0] by {
      InsertedAt(d, e, c);
    }
    var x := LastUpTo(d, i, b);
    var y := if i == e && c <= b then e else Shift(e, x);
    InsertedAt(d, e, c);
    if x < e && i > e {
      assert d[e] > b;
    }
    LastUpToIs(r, Shift(e, i), b, y);
  }

  function ShiftOption(e: nat, o: Option<nat>): Option<nat> {
    match o case None => None case Some(i) => Some(Shift(e, i))
  }

  /** How a leaf changes the relatives of node `i`: it may become its first child or a neighbouring sibling. */
  lemma LeafFirst(d: seq<nat>, e: nat, c: nat, i: nat)
    requires LeafFits(d, e, c) && i < |d|
    ensures FirstChild(Inserted(d, e, c), Shift(e, i)) ==
            if i == e - 1 && c == d[i] + 1 then Some(e) else ShiftOption(e, FirstChild(d, i))
  {
    hide Inserted;
    InsertedAt(d, e, c);
    assert i + 1 < |d| ==> Inserted(d, e, c)[Shift(e, i + 1)] == d[i + 1];
  }

  lemma LeafNext(d: seq<nat>, e: nat, c: nat, i: nat)
    requires LeafFits(d, e, c) && i < |d|
    ensures NextSibling(Inserted(d, e, c), Shift(e, i)) ==
            if i < e <= End(d, i) && c == d[i] then Some(e) else ShiftOption(e, NextSibling(d, i))
  {
    hide Inserted, End;
    LeafEnd(d, e, c, i);
    InsertedAt(d, e, c);
    assert End(d, i) < |d| ==> Inserted(d, e, c)[Shift(e, End(d, i))] == d[End(d, i)];
  }

  lemma LeafPrev(d: seq<nat>, e: nat, c: nat, i: nat)
    requires Nested(d) && LeafFits(d, e, c) && i < |d|
    ensures Nested(Inserted(d, e, c))
    ensures PrevSibling(Inserted(d, e, c), Shift(e, i)) ==
            if i == e && d[i] == c then Some(e) else ShiftOption(e, PrevSibling(d, i))
  {
    hide Inserted, LastUpTo;
    LeafNested(d, e, c);
    InsertedAt(d, e, c);
    if i > 0 {
      LeafLast(d, e, c, i, d[i]);
      assert Inserted(d, e, c)[Shift(e, LastUpTo(d, i, d[i]))] == d[LastUpTo(d, i, d[i])];
    }
  }

  /** The relatives of the leaf itself. */
  lemma LeafSelf(d: seq<nat>, e: nat, c: nat)
    requires Nested(d) && LeafFits(d, e, c)
    ensures var r, q := Inserted(d, e, c), LastUpTo(d, e, c);
            && Nested(r)
            && Parent(r, e) == LastUpTo(d, e, c - 1)
            && FirstChild(r, e) == None
            && NextSibling(r, e) == (if e < |d| && d[e] == c then Some(e + 1) else None)
            && PrevSibling(r, e) == (if d[q] == c then Some(q) else None)
  {
    hide Inserted, LastUpTo, End;
    LeafNested(d, e, c);
    var r := Inserted(d, e, c);
    InsertedAt(d, e, c);
    EndIs(r, e, e + 1);
    LastUpToIs(r, e, c, LastUpTo(d, e, c));
    LastUpToIs(r, e, c - 1, LastUpTo(d, e, c - 1));
  }

  lemma LeafParent(d: seq<nat>, e: nat, c: nat, i: nat)
    requires Nested(d) && LeafFits(d, e, c) && 0 < i < |d|
    ensures Nested(Inserted(d, e, c))
    ensures Parent(Inserted(d, e, c), Shift(e, i)) == Shift(e, Parent(d, i))
  {
    hide Inserted, LastUpTo;
    LeafNested(d, e, c);
    InsertedAt(d, e, c);
    assert Follows(d, i);
    LeafLast(d, e, c, i, d[i] - 1);
  }

  /** Behind the subtree of `p` there is room for a last child of `p`. */
  lemma LastChildSpot(d: seq<nat>, p: nat)
    requires Nested(d) && p < |d|
    ensures var e, c := End(d, p), d[p] + 1;
            && LeafFits(d, e, c) && (e < |d| ==> d[e] < c) && LastUpTo(d, e, c - 1) == p
            && (forall i :: 0 <= i < |d| ==> (i == e - 1 && c == d[i] + 1 <==> i == p && FirstChild(d, p).None?))
            && (FirstChild(d, p).None? ==> d[LastUpTo(d, e, c)] != c)
            && (FirstChild(d, p).None? ==>
                  forall i {:trigger End(d, i)} :: 0 <= i < |d| ==> !(i < e <= End(d, i) && c == d[i]))
  {
    hide End, LastUpTo;
    var e, c := End(d, p), d[p] + 1;
    assert d[e - 1] >= d[p];
    LastUpToIs(d, e, c - 1, p);
    if FirstChild(d, p).None? {
      EndIs(d, p, p + 1);
      LastUpToIs(d, e, c, p);
      assert forall i :: 0 <= i < p && p < End(d, i) ==> d[p] > d[i];
    }
  }

  /** If `q` is the last child of `p` so far, it becomes the new child's previous sibling. */
  lemma LastChildNeighbour(d: seq<nat>, p: nat, q: nat)
    requires Nested(d) && p < q < |d| && d[q] == d[p] + 1 && End(d, q) == End(d, p)
    ensures var e, c := End(d, p), d[p] + 1;
            && LeafFits(d, e, c) && LastUpTo(d, e, c) == q
            && forall i {:trigger End(d, i)} :: 0 <= i < |d| ==> (i < e <= End(d, i) && c == d[i] <==> i == q)
  {
    hide End, LastUpTo;
    var e, c := End(d, p), d[p] + 1;
    LastChildSpot(d, p);
    LastUpToIs(d, e, c, q);
    assert forall i :: 0 <= i < p && p < End(d, i) ==> d[p] > d[i];
    assert forall i :: 0 <= i < q && q < End(d, i) ==> d[q] > d[i];
  }

  /** What the new last child of `p`, behind its last child `q`, changes at node `i`: only that `q` gains a sibling. */
  lemma LastChildPatch(d: seq<nat>, p: nat, q: nat, i: nat)
    requires Nested(d) && p < q < |d| && d[q] == d[p] + 1 && End(d, q) == End(d, p) && FirstChild(d, p).Some? && i < |d|
    ensures var e, c := End(d, p), d[p] + 1;
            && !(i == e - 1 && c == d[i] + 1)
            && !(i == e < |d| && d[i] == c)
            && (i < e <= End(d, i) && c == d[i] <==> i == q)
            && (i == q ==> NextSibling(d, i).None?)
  {
    hide End, LastUpTo;
    LastChildSpot(d, p);
    LastChildNeighbour(d, p, q);
  }

  /** The only node whose next sibling the leaf becomes. */
  lemma LeafBefore(d: seq<nat>, e: nat, c: nat, k: nat)
    requires Nested(d) && LeafFits(d, e, c) && k < |d|
    ensures k < e <= End(d, k) && c == d[k] <==> d[LastUpTo(d, e, c)] == c && k == LastUpTo(d, e, c)
  {
    hide End, LastUpTo;
  }

  /** The relatives that a leaf of depth `c` at `e` had, in the listing without it. */
  lemma LeafRelatives(d: seq<nat>, e: nat, c: nat)
    requires Nested(d) && LeafFits(d, e, c)
    ensures var p, q, follows := LastUpTo(d, e, c - 1), LastUpTo(d, e, c), e < |d| && d[e] == c;
            && (forall k :: 0 <= k < |d| ==> (k == e - 1 && c == d[k] + 1 <==> k == p && p == e - 1))
            && (p == e - 1 ==> FirstChild(d, p) == if follows then Some(e) else None)
            && (forall k {:trigger End(d, k)} :: 0 <= k < |d| ==>
                  (k < e <= End(d, k) && c == d[k] <==> d[q] == c && k == q))
            && (d[q] == c ==> NextSibling(d, q) == if follows then Some(e) else None)
            && (follows ==> PrevSibling(d, e) == if d[q] == c then Some(q) else None)
  {
    hide End, LastUpTo;
    var q := LastUpTo(d, e, c);
    assert e < |d| ==> Follows(d, e);
    if d[q] == c {
      EndIs(d, q, e);
    }
    forall k | 0 <= k < |d|
      ensures k < e <= End(d, k) && c == d[k] <==> d[q] == c && k == q
    {
      LeafBefore(d, e, c, k);
    }
  }

  /** With the first nodes below `i` gone up to `m`, subtrees behind `m` end where they did. */
  lemma SuffixEnd(d: seq<nat>, i: nat, m: nat, r: seq<nat>)
    requires i < m < |d| && r == d[..i + 1] + d[m..]
    ensures |r| == |d| - (m - i - 1) && End(r, i + 1) == End(d, m) - (m - i - 1)
  {
    hide End;
    var e := End(d, m) - (m - i - 1);
    assert forall k :: i < k < |r| ==> r[k] == d[k + (m - i - 1)];
    EndIs(r, i + 1, e);
  }

  // ---------------------------------------------------------------- the same as trees

  datatype Tree = Tree(node: nat, kids: seq<Tree>)

  /** The subtree of node `i`: the node, then the subtrees of its children from the first sibling to the last. */
  function TreeAt(d: seq<nat>, i: nat): Tree
    requires i < |d|
    decreases |d| - i, 1
  {
    Tree(i, Kids(d, i, i + 1))
  }

  function Kids(d: seq<nat>, p: nat, k: nat): seq<Tree>
    requires p < k <= |d|
    decreases |d| - k, 2
  {
    if k < End(d, p) then [TreeAt(d, k)] + Kids(d, p, End(d, k)) else []
  }

  /** Pre-order walk of a tree: a node before its children, child by child. */
  function Walk(t: Tree): seq<nat> {
    [t.node] + WalkAll(t.kids)
  }

  function WalkAll(ts: seq<Tree>): seq<nat> {
    if ts == [] then [] else Walk(ts[0]) + WalkAll(ts[1..])
  }

  function Range(lo: nat, hi: nat): seq<nat>
    requires lo <= hi
  {
    seq(hi - lo, i requires 0 <= i < hi - lo => lo + i)
  }

  /** Positions in the listing are the pre-order walk of the tree that the listing stands for. */
  lemma {:induction false} ListingIsPreorder(d: seq<nat>, i: nat)
    requires Nested(d) && i < |d|
    ensures Walk(TreeAt(d, i)) == Range(i, End(d, i))
    decreases |d| - i, 1
  {
    KidsArePreorder(d, i, i + 1);
    assert [i] + Range(i + 1, End(d, i)) == Range(i, End(d, i));
  }

  lemma {:induction false} KidsArePreorder(d: seq<nat>, p: nat, k: nat)
    requires Nested(d) && p < |d| && p < k <= End(d, p)
    ensures WalkAll(Kids(d, p, k)) == Range(k, End(d, p))
    decreases |d| - k, 2
  {
    var e := End(d, p);
    if k < e {
      assert !(e < End(d, k));
      ListingIsPreorder(d, k);
      KidsArePreorder(d, p, End(d, k));
      assert Range(k, End(d, k)) + Range(End(d, k), e) == Range(k, e);
    }
  }
}
