/**
  The byte encoding of a buddy tree: node i has children 2i + 1 and 2i + 2, and what lies below
  a used or unused node is stale. Facts about reading the encoding and about changing it locally.
 */
module BuddyHeap {
  import opened Powers
  import opened BuddyTree

  datatype Mark = UNUSED | USED | SPLIT | FULL

  predicate Inner(m: Mark) {
    m.SPLIT? || m.FULL?
  }

  predicate Busy(m: Mark) {
    m.USED? || m.FULL?
  }

  function Parent(i: nat): nat
    requires i > 0
  {
    (i + 1) / 2 - 1
  }

  /** The other child of the same parent. */
  function Sibling(i: nat): nat
    requires i > 0
  {
    if i % 2 == 1 then i + 1 else i - 1
  }

  function Depth(i: nat): nat {
    if i == 0 then 0 else 1 + Depth(Parent(i))
  }

  /** The tree encoded at node i. */
  function TreeAt(t: seq<Mark>, i: nat): Tree
    decreases |t| - i
  {
    if i >= |t| then Unused
    else
      match t[i]
      case UNUSED => Unused
      case USED => Used
      case _ => Node(TreeAt(t, 2 * i + 1), TreeAt(t, 2 * i + 2))
  }

  /** All ancestors of node i are split or full. */
  predicate Reachable(t: seq<Mark>, i: nat)
    requires i < |t|
  {
    i == 0 || (Inner(t[Parent(i)]) && Reachable(t, Parent(i)))
  }

  /** Split nodes have children, and are marked full exactly when both children are used up. */
  predicate FlagOk(t: seq<Mark>, i: nat)
    requires i < |t|
  {
    Inner(t[i]) ==> 2 * i + 2 < |t| && (t[i].FULL? <==> Busy(t[2 * i + 1]) && Busy(t[2 * i + 2]))
  }

  ghost predicate Flags(t: seq<Mark>) {
    forall i: nat | i < |t| && Reachable(t, i) :: FlagOk(t, i)
  }

  /** First unit of node i in a pool of height h. */
  function LeftEdge(i: nat, h: nat): nat {
    if i == 0 then 0
    else LeftEdge(Parent(i), h) + if i % 2 == 0 && Depth(i) <= h then Pow2(h - Depth(i)) else 0
  }

  // ---------------------------------------------------------------------------------------------
  // Geometry

  lemma {:induction false} DepthBounds(i: nat)
    ensures Pow2(Depth(i)) - 1 <= i < 2 * Pow2(Depth(i)) - 1
  {
    if i > 0 {
      DepthBounds(Parent(i));
    }
  }

  lemma {:induction false} DepthInPool(i: nat, h: nat)
    requires i < 2 * Pow2(h) - 1
    ensures Depth(i) <= h
    ensures 2 * i + 2 < 2 * Pow2(h) - 1 <==> Depth(i) < h
  {
    DepthBounds(i);
    if Depth(i) > h {
      Pow2Monotone(h + 1, Depth(i));
    } else if Depth(i) < h {
      Pow2Monotone(Depth(i) + 1, h);
    }
  }

  /** First unit of node i at depth d, as _index_offset computes it. */
  function ClosedForm(i: nat, d: nat, h: nat): int
    requires d <= h
  {
    (i + 1 - Pow2(d)) * Pow2(h - d)
  }

  lemma ClosedFormStep(i: nat, d: nat, h: nat)
    requires i > 0 && 0 < d <= h
    ensures ClosedForm(i, d, h) == ClosedForm(Parent(i), d - 1, h) + if i % 2 == 0 then Pow2(h - d) else 0
  {
    var q, w := Parent(i) + 1 - Pow2(d - 1), Pow2(h - d);
    assert Pow2(h - d + 1) == 2 * w;
    ClosedStep(q * (2 * w), q, w, i + 1 - Pow2(d), i % 2 == 0);
  }

  lemma ClosedStep(leftParent: int, q: int, w: int, m: int, even: bool)
    requires leftParent == q * (2 * w)
    requires m == if even then 2 * q + 1 else 2 * q
    ensures m * w == leftParent + if even then w else 0
  {
    assert q * (2 * w) == 2 * (q * w);
    assert (2 * q) * w == 2 * (q * w);
    assert (2 * q + 1) * w == (2 * q) * w + w;
  }

  lemma {:induction false} LeftEdgeClosedForm(i: nat, h: nat)
    requires Depth(i) <= h
    ensures LeftEdge(i, h) == ClosedForm(i, Depth(i), h)
  {
    if i > 0 {
      LeftEdgeClosedForm(Parent(i), h);
      ClosedFormStep(i, Depth(i), h);
      hide ClosedForm;
    } else {
      assert 0 * Pow2(h) == 0;
    }
  }

  /** A node's range lies within its parent's. */
  lemma RangeInParent(i: nat, h: nat)
    requires i > 0 && Depth(i) <= h
    ensures LeftEdge(Parent(i), h) <= LeftEdge(i, h)
    ensures LeftEdge(i, h) + Pow2(h - Depth(i)) <= LeftEdge(Parent(i), h) + Pow2(h - Depth(Parent(i)))
    ensures Pow2(h - Depth(Parent(i))) == 2 * Pow2(h - Depth(i))
  {
  }

  // ---------------------------------------------------------------------------------------------
  // Subtrees

  /** Node i lies in the subtree of node a. */
  predicate Within(a: nat, i: nat) {
    a == i || (i > a && Within(a, Parent(i)))
  }

  /** t and t' agree outside the subtree of i. */
  ghost predicate DiffersWithin(t: seq<Mark>, t': seq<Mark>, i: nat) {
    |t| == |t'| && forall j: nat | j < |t| && t[j] != t'[j] :: Within(i, j)
  }

  lemma {:induction false} WithinChild(a: nat, c: nat, i: nat)
    requires c == 2 * a + 1 || c == 2 * a + 2
    requires Within(c, i)
    ensures Within(a, i)
  {
    if c == i {
      assert Parent(i) == a;
    } else {
      WithinChild(a, c, Parent(i));
    }
  }

  lemma {:induction false} WithinDepth(a: nat, i: nat)
    requires Within(a, i)
    ensures Depth(a) <= Depth(i)
    ensures Depth(a) == Depth(i) ==> a == i
  {
    if a != i {
      WithinDepth(a, Parent(i));
    }
  }

  lemma {:induction false} WithinUnique(a: nat, b: nat, i: nat)
    requires Within(a, i) && Within(b, i) && Depth(a) == Depth(b)
    ensures a == b
  {
    if a == i {
      WithinDepth(b, i);
    } else if b == i {
      WithinDepth(a, i);
    } else {
      WithinUnique(a, b, Parent(i));
    }
  }

  /** The sibling of an ancestor of i has nothing in common with the subtree of i. */
  lemma SiblingApart(a: nat, i: nat)
    requires a > 0 && Within(a, i)
    ensures !Within(Sibling(a), i) && !Within(i, Sibling(a))
  {
    var s := Sibling(a);
    assert Parent(s) == Parent(a) && Depth(s) == Depth(a);
    if Within(s, i) {
      WithinUnique(a, s, i);
    }
    if Within(i, s) {
      WithinDepth(i, s);
      WithinDepth(a, i);
    }
  }

  /** Subtrees apart from the changed one read as before. */
  lemma {:induction false} TreeAtApart(t: seq<Mark>, t': seq<Mark>, a: nat, i: nat)
    requires DiffersWithin(t, t', i) && !Within(a, i) && !Within(i, a)
    ensures TreeAt(t, a) == TreeAt(t', a)
    decreases |t| - a
  {
    if a < |t| && Inner(t[a]) {
      assert t[a] == t'[a];
      forall c: nat | c == 2 * a + 1 || c == 2 * a + 2 ensures TreeAt(t, c) == TreeAt(t', c) {
        if Within(c, i) {
          WithinChild(a, c, i);
        }
        assert Parent(c) == a && Within(a, c);
        TreeAtApart(t, t', c, i);
      }
    }
  }

  /** Whether a split node is marked full does not matter to what is read. */
  lemma {:induction false} TreeAtSameShape(t: seq<Mark>, t': seq<Mark>, i: nat)
    requires |t| == |t'|
    requires forall j: nat | j < |t| :: t[j] == t'[j] || (Inner(t[j]) && Inner(t'[j]))
    ensures TreeAt(t, i) == TreeAt(t', i)
    decreases |t| - i
  {
    if i < |t| && Inner(t[i]) {
      TreeAtSameShape(t, t', 2 * i + 1);
      TreeAtSameShape(t, t', 2 * i + 2);
    }
  }

  lemma {:induction false} ReachableSameShape(t: seq<Mark>, t': seq<Mark>, i: nat)
    requires |t| == |t'| && i < |t|
    requires forall j: nat | j < |t| :: t[j] == t'[j] || (Inner(t[j]) && Inner(t'[j]))
    ensures Reachable(t, i) == Reachable(t', i)
  {
    if i > 0 {
      ReachableSameShape(t, t', Parent(i));
    }
  }

  // ---------------------------------------------------------------------------------------------
  // Replacing a subtree

  /** The whole tree with x in place of what is read at node i. */
  function Plug(t: seq<Mark>, i: nat, x: Tree): Tree {
    if i == 0 then x
    else if i % 2 == 1 then Plug(t, Parent(i), Node(x, TreeAt(t, i + 1)))
    else Plug(t, Parent(i), Node(TreeAt(t, i - 1), x))
  }

  lemma {:induction false} PlugSelf(t: seq<Mark>, i: nat)
    requires i < |t| && Reachable(t, i)
    ensures Plug(t, i, TreeAt(t, i)) == TreeAt(t, 0)
  {
    if i > 0 {
      PlugSelf(t, Parent(i));
    }
  }

  lemma {:induction false} PlugApart(t: seq<Mark>, t': seq<Mark>, a: nat, i: nat, x: Tree)
    requires DiffersWithin(t, t', i) && Within(a, i)
    ensures Plug(t, a, x) == Plug(t', a, x)
    decreases a
  {
    if a > 0 {
      SiblingApart(a, i);
      TreeAtApart(t, t', Sibling(a), i);
      assert Within(Parent(a), i) by {
        WithinChild(Parent(a), a, i);
      }
      if a % 2 == 1 {
        PlugApart(t, t', Parent(a), i, Node(x, TreeAt(t, a + 1)));
      } else {
        PlugApart(t, t', Parent(a), i, Node(TreeAt(t, a - 1), x));
      }
    }
  }

  /** Ancestors of the changed subtree are untouched, so the node stays reachable. */
  lemma {:induction false} ReachableApart(t: seq<Mark>, t': seq<Mark>, a: nat, i: nat)
    requires DiffersWithin(t, t', i) && Within(a, i) && a < |t|
    ensures Reachable(t, a) == Reachable(t', a)
    decreases a
  {
    if a > 0 {
      var p := Parent(a);
      WithinChild(p, a, i);
      WithinUp(i, p, a);
      ReachableApart(t, t', p, i);
    }
  }

  /** A proper ancestor of a node that lies above i does not lie below i. */
  lemma WithinUp(i: nat, p: nat, a: nat)
    requires a > 0 && p == Parent(a) && Within(a, i)
    ensures !Within(i, p)
  {
    WithinDepth(a, i);
    if Within(i, p) {
      WithinDepth(i, p);
    }
  }

  /** After a change below i, the whole tree is the old one with the new subtree plugged in. */
  lemma TreeAfterChange(t: seq<Mark>, t': seq<Mark>, i: nat)
    requires DiffersWithin(t, t', i) && i < |t| && Reachable(t, i)
    ensures Reachable(t', i)
    ensures TreeAt(t', 0) == Plug(t, i, TreeAt(t', i))
  {
    ReachableApart(t, t', i, i);
    PlugSelf(t', i);
    PlugApart(t, t', i, i, TreeAt(t', i));
  }

  // ---------------------------------------------------------------------------------------------
  // Allocation seen from a node

  /** The search has come down to node i and nothing to the left of the way there fits order k. */
  predicate Barren(t: seq<Mark>, i: nat, h: nat, k: nat)
    requires i < |t|
  {
    i == 0 ||
    (&& t[Parent(i)].SPLIT?
     && Depth(i) <= h && k <= h - Depth(i)
     && (i % 2 == 0 ==> AllocIn(TreeAt(t, i - 1), h - Depth(i), k).None?)
     && Barren(t, Parent(i), h, k))
  }

  lemma {:induction false} BarrenReachable(t: seq<Mark>, i: nat, h: nat, k: nat)
    requires i < |t| && Barren(t, i, h, k)
    ensures Reachable(t, i)
  {
    if i > 0 {
      BarrenReachable(t, Parent(i), h, k);
    }
  }

  /** What is found at node i is what the search from the root finds. */
  lemma {:induction false} AllocPlug(t: seq<Mark>, i: nat, h: nat, k: nat, x: Tree, offset: nat, found: Tree)
    requires i < |t| && Barren(t, i, h, k) && Depth(i) <= h && k <= h - Depth(i)
    requires AllocIn(found, h - Depth(i), k) == Some((x, offset))
    ensures k <= h && AllocIn(Plug(t, i, found), h, k) == Some((Plug(t, i, x), LeftEdge(i, h) + offset))
    decreases i
  {
    if i > 0 {
      var p := Parent(i);
      if i % 2 == 1 {
        var s := TreeAt(t, i + 1);
        assert AllocIn(Node(found, s), h - Depth(p), k) == Some((Node(x, s), offset));
        AllocPlug(t, p, h, k, Node(x, s), offset, Node(found, s));
      } else {
        var s := TreeAt(t, i - 1);
        assert AllocIn(Node(s, found), h - Depth(p), k) == Some((Node(s, x), Pow2(h - Depth(i)) + offset));
        AllocPlug(t, p, h, k, Node(s, x), Pow2(h - Depth(i)) + offset, Node(s, found));
      }
    }
  }

  /** There is nothing to be found below a busy node. */
  lemma {:induction false} BusyIsBarren(t: seq<Mark>, i: nat, h: nat, k: nat)
    requires i < |t| && Flags(t) && Reachable(t, i) && Busy(t[i]) && k <= h
    ensures AllocIn(TreeAt(t, i), h, k) == None
    decreases |t| - i
  {
    if t[i].FULL? && k < h {
      assert FlagOk(t, i);
      assert Parent(2 * i + 1) == i && Parent(2 * i + 2) == i;
      BusyIsBarren(t, 2 * i + 1, h - 1, k);
      BusyIsBarren(t, 2 * i + 2, h - 1, k);
    }
  }

  // ---------------------------------------------------------------------------------------------
  // Freeing seen from a node

  /** Like Plug, but two unused halves merge on the way up. */
  function PlugMerging(t: seq<Mark>, i: nat, x: Tree): Tree {
    if i == 0 then x
    else if i % 2 == 1 then PlugMerging(t, Parent(i), Join(x, TreeAt(t, i + 1)))
    else PlugMerging(t, Parent(i), Join(TreeAt(t, i - 1), x))
  }

  lemma {:induction false} PlugMergingUsed(t: seq<Mark>, i: nat, x: Tree)
    requires !x.Unused?
    ensures PlugMerging(t, i, x) == Plug(t, i, x)
  {
    if i > 0 {
      if i % 2 == 1 {
        PlugMergingUsed(t, Parent(i), Node(x, TreeAt(t, i + 1)));
      } else {
        PlugMergingUsed(t, Parent(i), Node(TreeAt(t, i - 1), x));
      }
    }
  }

  /** `offset` lies in the range of node i. */
  predicate InRange(i: nat, h: nat, offset: nat) {
    Depth(i) <= h && LeftEdge(i, h) <= offset < LeftEdge(i, h) + Pow2(h - Depth(i))
  }

  /** What freeing does in one half decides what it does in the whole. */
  lemma FreeInNode(l: Tree, r: Tree, h: nat, offset: int)
    requires h > 0
    ensures FreeIn(Node(l, r), h, offset) ==
      if offset < Pow2(h - 1) then
        match FreeIn(l, h - 1, offset)
        case Some(x) => Some(Join(x, r))
        case None => None
      else
        match FreeIn(r, h - 1, offset - Pow2(h - 1))
        case Some(x) => Some(Join(l, x))
        case None => None
  {
  }

  lemma TreeAtParent(t: seq<Mark>, i: nat)
    requires 0 < i < |t| && Inner(t[Parent(i)])
    ensures TreeAt(t, Parent(i)) == if i % 2 == 1 then Node(TreeAt(t, i), TreeAt(t, i + 1))
                                    else Node(TreeAt(t, i - 1), TreeAt(t, i))
  {
  }

  /** What freeing does at node i decides what it does from the root. */
  lemma {:induction false} FreePlug(t: seq<Mark>, i: nat, h: nat, offset: nat)
    requires i < |t| && Reachable(t, i) && InRange(i, h, offset)
    ensures FreeIn(TreeAt(t, 0), h, offset) ==
      match FreeIn(TreeAt(t, i), h - Depth(i), offset - LeftEdge(i, h))
      case Some(x) => Some(PlugMerging(t, i, x))
      case None => None
    decreases i
  {
    hide FreeIn, TreeAt, Join;
    if i > 0 {
      var p := Parent(i);
      RangeInParent(i, h);
      FreePlug(t, p, h, offset);
      TreeAtParent(t, i);
      if i % 2 == 1 {
        FreeInNode(TreeAt(t, i), TreeAt(t, i + 1), h - Depth(p), offset - LeftEdge(p, h));
      } else {
        FreeInNode(TreeAt(t, i - 1), TreeAt(t, i), h - Depth(p), offset - LeftEdge(p, h));
      }
    }
  }
}
