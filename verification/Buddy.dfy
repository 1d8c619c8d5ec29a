/**
  The buddy allocator of dart_mem.c: the tree lives in an array of marks that allocation and
  freeing rewrite in place.
 */
module Buddy {
  import opened Powers
  import opened BuddyTree
  import opened BuddySize
  import opened BuddyHeap

  const MAX_LEVEL := 30

  function Up(index: int): int
    requires index >= 0
  {
    (index + 1) / 2 - 1
  }

  // ---------------------------------------------------------------------------------------------
  // Repairing the full marks

  /** The marks are right everywhere except perhaps that of the parent of node i. */
  ghost predicate FlagsExcept(t: seq<Mark>, i: nat) {
    && (forall a: nat | a < |t| && Reachable(t, a) && !(i > 0 && a == Parent(i)) :: FlagOk(t, a))
    && (i > 0 ==> 2 * Parent(i) + 2 < |t|)
  }

  ghost predicate SameShape(t: seq<Mark>, t': seq<Mark>) {
    |t| == |t'| && forall j: nat | j < |t| :: t[j] == t'[j] || (Inner(t[j]) && Inner(t'[j]))
  }

  lemma ShapeKept(t: seq<Mark>, t': seq<Mark>, t'': seq<Mark>)
    ensures SameShape(t, t)
    ensures SameShape(t, t') && SameShape(t', t'') ==> SameShape(t, t'')
  {
  }

  /** The index that the code calls the buddy. */
  lemma BuddyIsSibling(t: seq<Mark>, i: nat)
    requires i < |t| && FlagsExcept(t, i)
    ensures var buddy := i - 1 + (i % 2) * 2;
      if i == 0 then buddy < 0 else buddy == Sibling(i) > 0 && buddy < |t|
  {
  }

  lemma RemarkParent(t: seq<Mark>, i: nat, m: Mark)
    requires 0 < i < |t| && FlagsExcept(t, i) && Reachable(t, i) && Inner(m)
    requires m.FULL? <==> Busy(t[i]) && Busy(t[Sibling(i)])
    ensures SameShape(t, t[Parent(i) := m])
    ensures FlagsExcept(t[Parent(i) := m], Parent(i)) && Reachable(t[Parent(i) := m], Parent(i))
    ensures t[Parent(i)].SPLIT? && Parent(i) > 0 ==> t[Parent(Parent(i))].SPLIT?
  {
    var p := Parent(i);
    if p > 0 {
      var g := Parent(p);
      assert Reachable(t, p) && Reachable(t, g) && FlagOk(t, g);
      assert p == 2 * g + 1 || p == 2 * g + 2;
    }
    var t' := t[p := m];
    forall a: nat | a < |t'| && Reachable(t', a) && !(p > 0 && a == Parent(p)) ensures FlagOk(t', a) {
      ReachableSameShape(t, t', a);
      if a == p {
        assert i == 2 * p + 1 || i == 2 * p + 2;
      } else if Inner(t[a]) {
        assert FlagOk(t, a);
        assert 2 * a + 1 != p && 2 * a + 2 != p;
      }
    }
    ReachableSameShape(t, t', p);
  }

  lemma FlagsRepaired(t: seq<Mark>, i: nat)
    requires i < |t| && FlagsExcept(t, i)
    requires i > 0 ==> t[Parent(i)].SPLIT? && !(Busy(t[i]) && Busy(t[Sibling(i)]))
    ensures Flags(t)
  {
    if i > 0 {
      var p := Parent(i);
      assert i == 2 * p + 1 || i == 2 * p + 2;
    }
  }

  /** A change of a reachable leaf into another leaf mark upsets its parent's mark only. */
  lemma LeafChanged(t: seq<Mark>, i: nat, m: Mark)
    requires i < |t| && Flags(t) && Reachable(t, i) && !Inner(m)
    ensures FlagsExcept(t[i := m], i) && Reachable(t[i := m], i)
    ensures DiffersWithin(t, t[i := m], i)
  {
    var t' := t[i := m];
    forall a: nat | a < |t'| && Reachable(t', a) && !(i > 0 && a == Parent(i)) ensures FlagOk(t', a) {
      ReachableShrinks(t, i, m, a);
      if a != i && Inner(t[a]) {
        assert FlagOk(t, a);
        assert Parent(2 * a + 1) == a && Parent(2 * a + 2) == a;
      }
    }
    ReachableApart(t, t', i, i);
    if i > 0 {
      assert Reachable(t, Parent(i)) && FlagOk(t, Parent(i));
    }
  }

  lemma {:induction false} ReachableShrinks(t: seq<Mark>, i: nat, m: Mark, a: nat)
    requires i < |t| && a < |t| && !Inner(m) && Reachable(t[i := m], a)
    ensures Reachable(t, a)
  {
    if a > 0 {
      ReachableShrinks(t, i, m, Parent(a));
    }
  }

  // ---------------------------------------------------------------------------------------------
  // The search of dart_buddy_alloc, one move at a time

  /**
    The search stands at node i, and from the root it finds now what it found when it started.
    Once it has split a node it only goes on downwards, through unused nodes.
   */
  ghost predicate Searching(start: seq<Mark>, t: seq<Mark>, i: nat, h: nat, k: nat) {
    && |t| == |start| && i < |t| && Depth(i) <= h && k <= h - Depth(i)
    && Flags(t) && Barren(t, i, h, k)
    && AllocIn(TreeAt(t, 0), h, k) == AllocIn(TreeAt(start, 0), h, k)
    && (t == start || t[i].UNUSED?)
  }

  ghost predicate NothingHere(t: seq<Mark>, i: nat, h: nat, k: nat) {
    i < |t| && Depth(i) <= h && k <= h - Depth(i) && AllocIn(TreeAt(t, i), h - Depth(i), k).None?
  }

  lemma SearchStarts(t: seq<Mark>, h: nat, k: nat)
    requires |t| > 0 && Flags(t) && k <= h
    ensures Searching(t, t, 0, h, k)
  {
  }

  lemma SearchFacts(start: seq<Mark>, t: seq<Mark>, i: nat, h: nat, k: nat)
    requires Searching(start, t, i, h, k)
    ensures |t| == |start| && i < |t| && Depth(i) <= h && k <= h - Depth(i)
  {
  }

  lemma SearchFails(t: seq<Mark>, h: nat, k: nat)
    requires NothingHere(t, 0, h, k)
    ensures k <= h && AllocIn(TreeAt(t, 0), h, k) == None
  {
  }

  lemma AllocCanonical(t: Tree, h: nat, k: nat)
    requires Canonical(t, h) && k <= h
    ensures AllocIn(t, h, k).Some? ==> Canonical(AllocIn(t, h, k).value.0, h)
  {
    AllocCorrect(t, h, 0, k);
  }

  lemma SearchDescends(start: seq<Mark>, t: seq<Mark>, i: nat, h: nat, k: nat)
    requires Searching(start, t, i, h, k) && k < h - Depth(i) && t[i].SPLIT?
    ensures Searching(start, t, 2 * i + 1, h, k)
  {
    BarrenReachable(t, i, h, k);
    assert FlagOk(t, i);
    assert Parent(2 * i + 1) == i;
  }

  /** The nodes without children are those of full depth, and they are not split. */
  lemma NodeFacts(start: seq<Mark>, t: seq<Mark>, i: nat, h: nat, k: nat)
    requires Searching(start, t, i, h, k) && |t| == 2 * Pow2(h) - 1
    ensures i < |t| && (2 * i + 2 < |t| <==> Depth(i) < h)
    ensures Busy(t[i]) <==> t[i].USED? || t[i].FULL?
    ensures t[i].SPLIT? ==> Depth(i) < h
  {
    DepthInPool(i, h);
    BarrenReachable(t, i, h, k);
    assert FlagOk(t, i);
  }

  function SplitNode(t: seq<Mark>, i: nat): seq<Mark>
    requires 2 * i + 2 < |t|
  {
    t[i := SPLIT][2 * i + 1 := UNUSED][2 * i + 2 := UNUSED]
  }

  lemma SplitChanges(t: seq<Mark>, i: nat)
    requires 2 * i + 2 < |t|
    ensures DiffersWithin(t, SplitNode(t, i), i)
    ensures TreeAt(SplitNode(t, i), i) == Node(Unused, Unused)
  {
    var t' := SplitNode(t, i);
    assert Parent(2 * i + 1) == i && Parent(2 * i + 2) == i;
    assert Within(i, 2 * i + 1) && Within(i, 2 * i + 2);
  }

  lemma SplitFlags(t: seq<Mark>, i: nat)
    requires 2 * i + 2 < |t| && Flags(t) && Reachable(t, i) && t[i].UNUSED?
    ensures Flags(SplitNode(t, i))
  {
    var t' := SplitNode(t, i);
    forall a: nat | a < |t'| && Reachable(t', a) ensures FlagOk(t', a) {
      if a != i && a != 2 * i + 1 && a != 2 * i + 2 {
        SplitReachable(t, i, a);
        SplitFlag(t, i, a);
      }
    }
  }

  lemma SplitFlag(t: seq<Mark>, i: nat, a: nat)
    requires 2 * i + 2 < |t| && t[i].UNUSED? && a < |t| && FlagOk(t, a)
    requires a != i && a != 2 * i + 1 && a != 2 * i + 2
    ensures FlagOk(SplitNode(t, i), a)
  {
    if Inner(t[a]) {
      var t' := SplitNode(t, i);
      forall c: nat | c == 2 * a + 1 || c == 2 * a + 2 ensures Busy(t'[c]) == Busy(t[c]) {
        assert c != 2 * i + 1 && c != 2 * i + 2;
      }
    }
  }

  lemma {:induction false} SplitReachable(t: seq<Mark>, i: nat, a: nat)
    requires 2 * i + 2 < |t| && a < |t| && a != 2 * i + 1 && a != 2 * i + 2
    requires Reachable(SplitNode(t, i), a) && Reachable(t, i)
    ensures Reachable(t, a)
  {
    if a > 0 && a != i {
      assert Parent(a) != i;
      SplitReachable(t, i, Parent(a));
    }
  }

  lemma {:induction false} BarrenApart(t: seq<Mark>, t': seq<Mark>, a: nat, i: nat, h: nat, k: nat)
    requires DiffersWithin(t, t', i) && Within(a, i) && a < |t| && Barren(t, a, h, k)
    ensures Barren(t', a, h, k)
    decreases a
  {
    if a > 0 {
      var p := Parent(a);
      WithinChild(p, a, i);
      WithinUp(i, p, a);
      SiblingApart(a, i);
      TreeAtApart(t, t', Sibling(a), i);
      BarrenApart(t, t', p, i, h, k);
    }
  }

  lemma {:induction false} AllocOfUnused(h: nat, k: nat)
    requires k <= h
    ensures AllocIn(Unused, h, k).Some?
  {
    if k < h {
      AllocOfUnused(h - 1, k);
    }
  }

  /** Splitting an unused node on the way does not change what is found. */
  lemma SplitFindsTheSame(t: seq<Mark>, i: nat, h: nat, k: nat)
    requires 2 * i + 2 < |t| && Barren(t, i, h, k) && Reachable(t, i) && t[i].UNUSED?
    requires Depth(i) < h && k < h - Depth(i)
    ensures AllocIn(TreeAt(SplitNode(t, i), 0), h, k) == AllocIn(TreeAt(t, 0), h, k)
  {
    AllocOfUnused(h - Depth(i), k);
    var (x, offset) := AllocIn(Unused, h - Depth(i), k).value;
    AllocPlug(t, i, h, k, x, offset, Unused);
    AllocPlug(t, i, h, k, x, offset, Node(Unused, Unused));
    PlugSelf(t, i);
    SplitChanges(t, i);
    TreeAfterChange(t, SplitNode(t, i), i);
  }

  lemma SplitKeepsBarren(t: seq<Mark>, i: nat, h: nat, k: nat)
    requires 2 * i + 2 < |t| && Barren(t, i, h, k) && Depth(i) < h && k < h - Depth(i)
    ensures Barren(SplitNode(t, i), 2 * i + 1, h, k)
  {
    SplitChanges(t, i);
    BarrenApart(t, SplitNode(t, i), i, i, h, k);
    assert Parent(2 * i + 1) == i;
  }

  lemma SearchSplits(start: seq<Mark>, t: seq<Mark>, i: nat, h: nat, k: nat)
    requires Searching(start, t, i, h, k) && k < h - Depth(i) && t[i].UNUSED? && 2 * i + 2 < |t|
    ensures Searching(start, SplitNode(t, i), 2 * i + 1, h, k)
  {
    BarrenReachable(t, i, h, k);
    SplitFlags(t, i);
    SplitKeepsBarren(t, i, h, k);
    SplitFindsTheSame(t, i, h, k);
    hide Flags, Barren, Reachable, TreeAt, AllocIn;
    assert Parent(2 * i + 1) == i;
  }

  /** Nothing of order k is found in a node of that height that is in use, nor below a busy node. */
  lemma SearchMisses(start: seq<Mark>, t: seq<Mark>, i: nat, h: nat, k: nat)
    requires Searching(start, t, i, h, k)
    requires (k == h - Depth(i) && !t[i].UNUSED?) || Busy(t[i])
    ensures NothingHere(t, i, h, k) && t == start
  {
    hide Barren, Reachable, Flags, FlagOk;
    BarrenReachable(t, i, h, k);
    if Busy(t[i]) {
      BusyIsBarren(t, i, h - Depth(i), k);
    }
  }

  lemma SearchMovesRight(t: seq<Mark>, i: nat, h: nat, k: nat)
    requires Searching(t, t, i, h, k) && NothingHere(t, i, h, k) && i % 2 == 1 && i + 1 < |t|
    ensures Searching(t, t, i + 1, h, k)
  {
    assert Parent(i + 1) == Parent(i);
  }

  lemma SearchMovesUp(t: seq<Mark>, i: nat, h: nat, k: nat)
    requires Searching(t, t, i, h, k) && NothingHere(t, i, h, k) && i % 2 == 0 && i > 0
    ensures Searching(t, t, Parent(i), h, k) && NothingHere(t, Parent(i), h, k)
  {
    var p := Parent(i);
    assert TreeAt(t, p) == Node(TreeAt(t, i - 1), TreeAt(t, i));
    assert AllocIn(TreeAt(t, i - 1), h - Depth(i), k).None?;
  }

  lemma SearchHits(start: seq<Mark>, t: seq<Mark>, i: nat, h: nat, k: nat)
    requires Searching(start, t, i, h, k) && k == h - Depth(i) && t[i].UNUSED?
    ensures AllocIn(TreeAt(start, 0), h, k) == Some((TreeAt(t[i := USED], 0), LeftEdge(i, h)))
    ensures FlagsExcept(t[i := USED], i) && Reachable(t[i := USED], i)
    ensures i > 0 ==> t[Parent(i)].SPLIT?
  {
    var t' := t[i := USED];
    BarrenReachable(t, i, h, k);
    LeafChanged(t, i, USED);
    AllocPlug(t, i, h, k, Used, 0, Unused);
    PlugSelf(t, i);
    TreeAfterChange(t, t', i);
  }

  // ---------------------------------------------------------------------------------------------
  // Positions and lengths of the search

  /** The size looked for has 2^k units; a size of zero is looked for like one unit. */
  predicate SizeFor(size: nat, k: nat) {
    size == Pow2(k) || (size == 0 && k == 0)
  }

  lemma SizeAt(size: nat, k: nat, d: nat)
    requires SizeFor(size, k)
    ensures Pow2(d) > 0
    ensures size == Pow2(d) <==> size != 0 && k == d
    ensures size < Pow2(d) <==> size == 0 || k < d
    ensures size == 0 ==> k == 0
  {
    Pow2Injective(k, d);
  }

  lemma RangeInPool(i: nat, h: nat)
    requires Depth(i) <= h
    ensures LeftEdge(i, h) + Pow2(h - Depth(i)) <= Pow2(h)
    decreases i
  {
    if i > 0 {
      RangeInParent(i, h);
      RangeInPool(Parent(i), h);
    }
  }

  lemma ChildEdge(i: nat, h: nat)
    requires Depth(i) < h
    ensures Depth(2 * i + 1) == Depth(i) + 1 && LeftEdge(2 * i + 1, h) == LeftEdge(i, h)
    ensures Pow2(h - Depth(i)) == 2 * Pow2(h - Depth(i) - 1)
  {
    assert Parent(2 * i + 1) == i;
  }

  lemma SiblingEdge(i: nat, h: nat)
    requires i % 2 == 1 && Depth(i) <= h
    ensures Depth(i + 1) == Depth(i) && LeftEdge(i + 1, h) == LeftEdge(i, h) + Pow2(h - Depth(i))
  {
    assert Parent(i + 1) == Parent(i);
  }

  lemma ParentEdge(i: nat, h: nat)
    requires i % 2 == 0 && i > 0 && Depth(i) <= h
    ensures LeftEdge(Parent(i), h) + Pow2(h - Depth(Parent(i))) == LeftEdge(i, h) + Pow2(h - Depth(i))
    ensures Depth(Parent(i)) == Depth(i) - 1 && Pow2(h - Depth(i) + 1) == 2 * Pow2(h - Depth(i))
  {
  }

  // ---------------------------------------------------------------------------------------------
  // Freeing

  /** Clearing a node whose sibling is in use (or the root) completes the merge. */
  lemma MergeEnds(t: seq<Mark>, i: nat)
    requires i < |t| && Flags(t) && Reachable(t, i)
    requires i > 0 ==> Sibling(i) < |t| && !t[Sibling(i)].UNUSED?
    ensures TreeAt(t[i := UNUSED], 0) == PlugMerging(t, i, Unused)
    ensures FlagsExcept(t[i := UNUSED], i) && Reachable(t[i := UNUSED], i)
  {
    LeafChanged(t, i, UNUSED);
    TreeAfterChange(t, t[i := UNUSED], i);
    if i > 0 {
      if i % 2 == 1 {
        PlugMergingUsed(t, Parent(i), Node(Unused, TreeAt(t, i + 1)));
      } else {
        PlugMergingUsed(t, Parent(i), Node(TreeAt(t, i - 1), Unused));
      }
    }
  }

  lemma MergeClimbs(t: seq<Mark>, i: nat)
    requires 0 < i < |t| && Reachable(t, i) && Sibling(i) < |t| && t[Sibling(i)].UNUSED?
    ensures Reachable(t, Parent(i)) && PlugMerging(t, Parent(i), Unused) == PlugMerging(t, i, Unused)
  {
  }

  lemma InnerHasChildren(t: seq<Mark>, i: nat)
    requires i < |t| && Flags(t) && Reachable(t, i) && (t[i].SPLIT? || t[i].FULL?)
    ensures 2 * i + 2 < |t| && Reachable(t, 2 * i + 1) && Reachable(t, 2 * i + 2)
  {
    assert FlagOk(t, i);
    assert Parent(2 * i + 1) == i && Parent(2 * i + 2) == i;
  }

  lemma SiblingExists(t: seq<Mark>, i: nat)
    requires 0 < i < |t| && Flags(t) && Reachable(t, i)
    ensures Sibling(i) < |t|
  {
    hide Flags;
    InnerHasChildren(t, Parent(i));
  }

  /** Some live block of the tree covers the unit at `offset`. */
  predicate Covers(t: Tree, h: nat, offset: int) {
    match t
    case Unused => false
    case Used => true
    case Node(l, r) =>
      h > 0 && if offset < Pow2(h - 1) then Covers(l, h - 1, offset) else Covers(r, h - 1, offset - Pow2(h - 1))
  }

  predicate CoveredBy(b: Block, unit: int) {
    b.offset <= unit < b.offset + Pow2(b.order)
  }

  lemma {:induction false} CoversBlocks(t: Tree, h: nat, base: int, unit: int)
    requires Canonical(t, h) && base <= unit < base + Pow2(h)
    ensures Covers(t, h, unit - base) <==> exists b :: b in Blocks(t, h, base) && CoveredBy(b, unit)
  {
    match t
    case Unused =>
    case Used => assert Block(base, h) in Blocks(t, h, base) && CoveredBy(Block(base, h), unit);
    case Node(l, r) =>
      var mid := base + Pow2(h - 1);
      BlocksInRange(l, h - 1, base);
      BlocksInRange(r, h - 1, mid);
      if unit < mid {
        CoversBlocks(l, h - 1, base, unit);
      } else {
        CoversBlocks(r, h - 1, mid, unit);
      }
  }

  lemma CoversInNode(l: Tree, r: Tree, h: nat, offset: int)
    requires h > 0
    ensures Covers(Node(l, r), h, offset) ==
      if offset < Pow2(h - 1) then Covers(l, h - 1, offset) else Covers(r, h - 1, offset - Pow2(h - 1))
  {
  }

  lemma {:induction false} CoversPlug(t: seq<Mark>, i: nat, h: nat, offset: nat)
    requires i < |t| && Reachable(t, i) && InRange(i, h, offset)
    ensures Covers(TreeAt(t, 0), h, offset) == Covers(TreeAt(t, i), h - Depth(i), offset - LeftEdge(i, h))
    decreases i
  {
    hide Covers, TreeAt;
    if i > 0 {
      var p := Parent(i);
      RangeInParent(i, h);
      CoversPlug(t, p, h, offset);
      TreeAtParent(t, i);
      if i % 2 == 1 {
        CoversInNode(TreeAt(t, i), TreeAt(t, i + 1), h - Depth(p), offset - LeftEdge(p, h));
      } else {
        CoversInNode(TreeAt(t, i - 1), TreeAt(t, i), h - Depth(p), offset - LeftEdge(p, h));
      }
    }
  }

  /** Where the way down for `unit` ends. */
  ghost predicate Leaf(t: seq<Mark>, i: nat, h: nat, unit: nat) {
    && i < |t| && Canonical(TreeAt(t, 0), h) && unit < Pow2(h)
    && Reachable(t, i) && !Inner(t[i]) && InRange(i, h, unit)
  }

  lemma LocateStarts(t: seq<Mark>, h: nat, unit: nat)
    requires |t| > 0 && unit < Pow2(h)
    ensures Reachable(t, 0) && InRange(0, h, unit) && Depth(0) == 0 && LeftEdge(0, h) == 0
  {
  }

  /** The ranges of the children are the two halves. */
  lemma ChildRanges(i: nat, h: nat, unit: nat)
    requires Depth(i) < h && InRange(i, h, unit)
    ensures Pow2(h - Depth(i)) == 2 * Pow2(h - Depth(i) - 1)
    ensures Depth(2 * i + 1) == Depth(2 * i + 2) == Depth(i) + 1
    ensures LeftEdge(2 * i + 1, h) == LeftEdge(i, h)
    ensures LeftEdge(2 * i + 2, h) == LeftEdge(i, h) + Pow2(h - Depth(i) - 1)
    ensures InRange(if unit < LeftEdge(i, h) + Pow2(h - Depth(i) - 1) then 2 * i + 1 else 2 * i + 2, h, unit)
  {
    hide Depth, LeftEdge, Pow2;
    ChildEdge(i, h);
    SiblingEdge(2 * i + 1, h);
  }

  lemma StepDown(t: seq<Mark>, i: nat, h: nat, unit: nat)
    requires i < |t| && |t| == 2 * Pow2(h) - 1 && Flags(t) && Reachable(t, i) && (t[i].SPLIT? || t[i].FULL?)
    requires InRange(i, h, unit)
    ensures Depth(i) < h && Pow2(h - Depth(i)) == 2 * Pow2(h - Depth(i) - 1) && 2 * i + 2 < |t|
    ensures Depth(2 * i + 1) == Depth(2 * i + 2) == Depth(i) + 1
    ensures LeftEdge(2 * i + 1, h) == LeftEdge(i, h)
    ensures LeftEdge(2 * i + 2, h) == LeftEdge(i, h) + Pow2(h - Depth(i) - 1)
    ensures InRange(if unit < LeftEdge(i, h) + Pow2(h - Depth(i) - 1) then 2 * i + 1 else 2 * i + 2, h, unit)
    ensures Reachable(t, 2 * i + 1) && Reachable(t, 2 * i + 2)
  {
    hide *;
    InnerHasChildren(t, i);
    DepthInPool(i, h);
    ChildRanges(i, h, unit);
  }

  lemma LocateEnds(t: seq<Mark>, i: nat, h: nat, unit: nat)
    requires i < |t| && Canonical(TreeAt(t, 0), h) && unit < Pow2(h)
    requires Reachable(t, i) && InRange(i, h, unit) && !t[i].SPLIT? && !t[i].FULL?
    ensures Leaf(t, i, h, unit)
  {
  }

  lemma FreeAtStart(t: seq<Mark>, i: nat, h: nat, unit: nat)
    requires Leaf(t, i, h, unit) && t[i].USED? && unit == LeftEdge(i, h)
    ensures FreeMeets(Blocks(TreeAt(t, 0), h, 0), unit, h, 0, Some(PlugMerging(t, i, Unused)))
  {
    FreePlug(t, i, h, unit);
    FreeCorrect(TreeAt(t, 0), h, 0, unit);
  }

  lemma FreeElsewhere(t: seq<Mark>, i: nat, h: nat, unit: nat)
    requires Leaf(t, i, h, unit)
    ensures t[i].USED? <==> exists b :: b in Blocks(TreeAt(t, 0), h, 0) && CoveredBy(b, unit)
    ensures t[i].USED? && unit != LeftEdge(i, h) ==> forall k: nat :: !StartsWith(Blocks(TreeAt(t, 0), h, 0), unit, k)
  {
    CoversPlug(t, i, h, unit);
    CoversBlocks(TreeAt(t, 0), h, 0, unit);
    FreePlug(t, i, h, unit);
    FreeCorrect(TreeAt(t, 0), h, 0, unit);
  }

  // ---------------------------------------------------------------------------------------------
  // The allocator

  datatype FreeResult =
    | Freed
    | OutOfPool   // the offset is beyond the pool
    | NotAStart   // the offset lies inside a live block
    | Aborted     // the offset lies in no live block

  datatype AllocResult =
    | Offset(byte: int)
    | Refused     // -1
    | Overrun     // children were written behind the end of the tree

  datatype NewResult =
    | Created(pool: Pool)
    | NoPool      // null
    | TooHigh     // 2^level is out of the range of int in the shifts that follow

  /** What one round of the search comes to. */
  datatype Outcome =
    | Hit(offset: int)
    | Exhausted
    | OffTheTree
    | Next(index: nat, lev: nat, length: nat)

  /** b is the leftmost free block of its order. */
  ghost predicate LeftmostFree(level: nat, live: set<Block>, b: Block) {
    && Slot(level, 0, b) && IsFree(b, live)
    && forall c | Slot(level, 0, c) && c.order == b.order && c.offset < b.offset :: !IsFree(c, live)
  }

  class Pool {
    const level: nat
    const tree: array<Mark>

    ghost predicate Valid()
      reads this, tree
    {
      && level <= MAX_LEVEL
      && tree.Length == 2 * Pow2(level) - 1
      && Flags(tree[..])
      && Canonical(TreeAt(tree[..], 0), level)
    }

    /** The live blocks, in allocation units. */
    ghost function Live(): set<Block>
      reads this, tree
    {
      Blocks(TreeAt(tree[..], 0), level, 0)
    }

    /** A pool of 2^level allocation units. */
    constructor (level: nat)
      requires level <= MAX_LEVEL
      ensures Valid() && fresh(tree) && this.level == level && Live() == {}
    {
      this.level := level;
      var size := 2 * Pow2(level) - 1;
      tree := new Mark[size](_ => UNUSED);
      new;
      assert tree[0] == UNUSED;
    }

    method MarkParent(i: nat)
      requires i < tree.Length && tree.Length == 2 * Pow2(level) - 1
      requires FlagsExcept(tree[..], i) && Reachable(tree[..], i) && Busy(tree[i])
      requires i > 0 ==> tree[Parent(i)].SPLIT?
      modifies tree
      ensures Flags(tree[..]) && SameShape(old(tree[..]), tree[..])
    {
      hide FlagsExcept, SameShape, Reachable, Flags, Pow2, Sibling;
      var index: nat := i;
      ShapeKept(tree[..], tree[..], tree[..]);
      while true
        invariant index < tree.Length && FlagsExcept(tree[..], index) && Reachable(tree[..], index)
        invariant Busy(tree[index]) && SameShape(old(tree[..]), tree[..])
        invariant index > 0 ==> tree[Parent(index)].SPLIT?
        decreases index
      {
        var buddy := index - 1 + (index % 2) * 2;
        BuddyIsSibling(tree[..], index);
        if buddy > 0 && (tree[buddy].USED? || tree[buddy].FULL?) {
          ghost var before := tree[..];
          RemarkParent(before, index, FULL);
          index := (index + 1) / 2 - 1;
          tree[index] := FULL;
          assert tree[..] == before[index := FULL];
          ShapeKept(old(tree[..]), before, tree[..]);
        } else {
          FlagsRepaired(tree[..], index);
          return;
        }
      }
    }

    /** _index_offset: the first byte of node `index` at depth `lev`, computed in int. */
    function IndexOffset(index: nat, lev: nat): int
      requires lev <= level
    {
      ByteOffset(ClosedForm(index, lev, level))
    }

    method SplitInPlace(index: nat)
      requires 2 * index + 2 < tree.Length
      modifies tree
      ensures tree[..] == SplitNode(old(tree[..]), index)
    {
      tree[index] := SPLIT;
      tree[index * 2 + 1] := UNUSED;
      tree[index * 2 + 2] := UNUSED;
    }

    /**
      Looks below a node that is larger than needed, splitting it first if it is unused. A node
      without children is larger than needed if nothing is.
     */
    method Descend(index: nat, ghost start: seq<Mark>, ghost k: nat) returns (down: bool, off: bool)
      requires tree.Length == 2 * Pow2(level) - 1 && Searching(start, tree[..], index, level, k)
      requires k < level - Depth(index) || k == 0
      modifies tree
      ensures off <==> old(tree[index]).UNUSED? && Depth(index) == level
      ensures off ==> !down && tree[..] == old(tree[..])
      ensures down ==> k < level - Depth(index) && Searching(start, tree[..], 2 * index + 1, level, k)
      ensures !down && !off ==> tree[..] == old(tree[..]) && Busy(tree[index])
    {
      hide *;
      SearchFacts(start, tree[..], index, level, k);
      NodeFacts(start, tree[..], index, level, k);
      down, off := false, false;
      match tree[index] {
        case USED =>
        case FULL =>
        case UNUSED =>
          if 2 * index + 2 >= tree.Length {
            off := true;
          } else {
            SearchSplits(start, tree[..], index, level, k);
            SplitInPlace(index);
            down := true;
          }
        case SPLIT =>
          SearchDescends(start, tree[..], index, level, k);
          down := true;
      }
    }

    /** Uses the node that the search has hit and returns its offset. */
    method Take(index: nat, lev: nat, ghost start: seq<Mark>, ghost k: nat) returns (offset: int)
      requires tree.Length == 2 * Pow2(level) - 1 && Searching(start, tree[..], index, level, k)
      requires k == level - lev && lev == Depth(index) <= level && tree[index].UNUSED?
      modifies tree
      ensures Flags(tree[..]) && offset == ByteOffset(LeftEdge(index, level))
      ensures AllocIn(TreeAt(start, 0), level, k) == Some((TreeAt(tree[..], 0), LeftEdge(index, level)))
    {
      ghost var before := tree[..];
      SearchHits(start, before, index, level, k);
      tree[index] := USED;
      ghost var hit := tree[..];
      assert hit == before[index := USED];
      MarkParent(index);
      TreeAtSameShape(hit, tree[..], 0);
      LeftEdgeClosedForm(index, level);
      offset := IndexOffset(index, lev);
    }

    /**
      The search loop of dart_buddy_alloc for a size of 2^k units. Returns the byte offset of the
      leftmost free block of that order, or refuses and leaves the tree as it was. For a size of
      zero it goes the way of a search for one unit, but beyond the unit found.
     */
    method Search(size: nat, ghost k: nat) returns (r: AllocResult)
      requires tree.Length == 2 * Pow2(level) - 1
      requires Flags(tree[..]) && Canonical(TreeAt(tree[..], 0), level)
      requires SizeFor(size, k) && k <= level
      modifies tree
      ensures !r.Overrun? ==> Flags(tree[..]) && Canonical(TreeAt(tree[..], 0), level)
      ensures match AllocIn(old(TreeAt(tree[..], 0)), level, k)
        case Some((x, unit)) => r == (if size == 0 then Overrun else Offset(ByteOffset(unit)))
                                && (size != 0 ==> TreeAt(tree[..], 0) == x)
        case None => r == Refused && tree[..] == old(tree[..])
    {
      assert Depth(0) == 0;
      hide *;
      ghost var start := tree[..];
      SearchStarts(start, level, k);
      AllocCanonical(TreeAt(start, 0), level, k);
      var length := Pow2(level);
      var index: nat, lev: nat := 0, 0;
      while true
        invariant Searching(start, tree[..], index, level, k)
        invariant lev == Depth(index) <= level && length == Pow2(level - lev)
        decreases Pow2(level) - LeftEdge(index, level), level - lev
      {
        var outcome := Visit(index, lev, length, size, start, k);
        match outcome {
          case Hit(o) =>
            return Offset(o);
          case Exhausted =>
            return Refused;
          case OffTheTree =>
            return Overrun;
          case Next(i, d, n) =>
            index, lev, length := i, d, n;
        }
      }
    }

    /** One round of the search loop at node i. */
    method Visit(i: nat, depth: nat, length: nat, size: nat, ghost start: seq<Mark>, ghost k: nat)
      returns (outcome: Outcome)
      requires tree.Length == 2 * Pow2(level) - 1 && Searching(start, tree[..], i, level, k)
      requires depth == Depth(i) <= level && length == Pow2(level - depth) && SizeFor(size, k)
      modifies tree
      ensures match outcome
        case Hit(offset) =>
          && size != 0 && Flags(tree[..]) && offset == ByteOffset(LeftEdge(i, level))
          && AllocIn(TreeAt(start, 0), level, k) == Some((TreeAt(tree[..], 0), LeftEdge(i, level)))
        case Exhausted =>
          tree[..] == start && AllocIn(TreeAt(start, 0), level, k) == None
        case OffTheTree =>
          size == 0 && AllocIn(TreeAt(start, 0), level, k).Some?
        case Next(index, lev, length') =>
          && Searching(start, tree[..], index, level, k)
          && lev == Depth(index) <= level && length' == Pow2(level - lev)
          && LeftEdge(i, level) <= LeftEdge(index, level) < Pow2(level)
          && (LeftEdge(index, level) == LeftEdge(i, level) ==> lev > depth)
    {
      hide *;
      SearchFacts(start, tree[..], i, level, k);
      SizeAt(size, k, level - depth);
      if size == length && tree[i].UNUSED? {
        var offset := Take(i, depth, start, k);
        return Hit(offset);
      }
      var down, off := false, false;
      if size < length {
        down, off := Descend(i, start, k);
      }
      if off {
        SearchHits(start, tree[..], i, level, k);
        return OffTheTree;
      }
      if down {
        ChildEdge(i, level);
        RangeInPool(2 * i + 1, level);
        return Next(i * 2 + 1, depth + 1, length / 2);
      }
      SearchMisses(start, tree[..], i, level, k);
      var more, index, lev, length' := MoveOn(i, depth, length, start, k);
      if !more {
        return Exhausted;
      }
      RangeInPool(index, level);
      return Next(index, lev, length');
    }

    /** To the next node of the search after a miss: the sibling of a left child, here or further up. */
    method MoveOn(i: nat, depth: nat, size: nat, ghost start: seq<Mark>, ghost k: nat)
      returns (more: bool, index: nat, lev: nat, length: nat)
      requires |start| == 2 * Pow2(level) - 1
      requires Searching(start, start, i, level, k) && NothingHere(start, i, level, k)
      requires depth == Depth(i) <= level && size == Pow2(level - depth)
      ensures !more ==> k <= level && AllocIn(TreeAt(start, 0), level, k) == None
      ensures more ==>
        && Searching(start, start, index, level, k)
        && lev == Depth(index) <= level && length == Pow2(level - lev)
        && LeftEdge(index, level) == LeftEdge(i, level) + Pow2(level - depth)
    {
      if i % 2 == 1 {
        SearchMovesRight(start, i, level, k);
        SiblingEdge(i, level);
        more, index, lev, length := true, i + 1, depth, size;
      } else {
        more, index, lev, length := ClimbRight(i, depth, size, start, k);
      }
    }

    /** Leaves a right child upwards, up to the first left child, and moves on to its sibling. */
    method ClimbRight(i: nat, depth: nat, size: nat, ghost start: seq<Mark>, ghost k: nat)
      returns (found: bool, index: nat, lev: nat, length: nat)
      requires |start| == 2 * Pow2(level) - 1
      requires Searching(start, start, i, level, k) && NothingHere(start, i, level, k) && i % 2 == 0
      requires depth == Depth(i) <= level && size == Pow2(level - depth)
      ensures !found ==> k <= level && AllocIn(TreeAt(start, 0), level, k) == None
      ensures found ==>
        && Searching(start, start, index, level, k)
        && lev == Depth(index) <= level && length == Pow2(level - lev)
        && LeftEdge(index, level) == LeftEdge(i, level) + Pow2(level - depth)
    {
      index, lev, length := i, depth, size;
      hide Searching, NothingHere, Flags, Canonical, AllocIn, TreeAt, SplitNode, Pow2, Depth, LeftEdge;
      while true
        invariant Searching(start, start, index, level, k)
        invariant NothingHere(start, index, level, k) && index % 2 == 0
        invariant lev == Depth(index) <= level && length == Pow2(level - lev)
        invariant LeftEdge(index, level) + Pow2(level - lev) == LeftEdge(i, level) + Pow2(level - depth)
        decreases index
      {
        if index == 0 {
          SearchFails(start, level, k);
          found := false;
          return;
        }
        SearchMovesUp(start, index, level, k);
        ParentEdge(index, level);
        lev, length, index := lev - 1, length * 2, (index + 1) / 2 - 1;
        if index % 2 == 1 {
          SearchFacts(start, start, index, level, k);
          SearchMovesRight(start, index, level, k);
          SiblingEdge(index, level);
          index := index + 1;
          found := true;
          return;
        }
      }
    }

    /** _combine: merges node i, whose block is given up, with unused siblings as far up as they go. */
    method Combine(i: nat)
      requires i < tree.Length && Flags(tree[..]) && Reachable(tree[..], i)
      modifies tree
      ensures Flags(tree[..])
      ensures TreeAt(tree[..], 0) == PlugMerging(old(tree[..]), i, Unused)
    {
      var index: nat := i;
      ghost var t := tree[..];
      while true
        invariant tree[..] == t && index < tree.Length && Reachable(t, index)
        invariant PlugMerging(t, index, Unused) == PlugMerging(t, i, Unused)
        decreases index
      {
        var buddy := index - 1 + (index % 2) * 2;
        if index > 0 {
          SiblingExists(t, index);
        }
        if buddy < 0 || !tree[buddy].UNUSED? {
          MergeEnds(t, index);
          tree[index] := UNUSED;
          ghost var merged := tree[..];
          assert merged == t[index := UNUSED];
          Unfill(index);
          TreeAtSameShape(merged, tree[..], 0);
          return;
        }
        MergeClimbs(t, index);
        index := (index + 1) / 2 - 1;
      }
    }

    /** The ancestors of a node that has just become unused are no longer full. */
    method Unfill(i: nat)
      requires i < tree.Length && FlagsExcept(tree[..], i) && Reachable(tree[..], i) && !Busy(tree[i])
      modifies tree
      ensures Flags(tree[..]) && SameShape(old(tree[..]), tree[..])
    {
      ghost var below: nat := i;
      var index := Up(i);
      while index >= 0 && tree[index].FULL?
        invariant below < tree.Length && index == Up(below)
        invariant FlagsExcept(tree[..], below) && Reachable(tree[..], below) && !Busy(tree[below])
        invariant SameShape(old(tree[..]), tree[..])
        decreases index
      {
        ghost var before := tree[..];
        RemarkParent(before, below, SPLIT);
        tree[index] := SPLIT;
        assert tree[..] == before[index := SPLIT];
        below := index;
        index := Up(index);
      }
      FlagsRepaired(tree[..], below);
    }

    /** The way down in dart_buddy_free. */
    method Locate(unit: nat) returns (index: nat, left: nat)
      requires tree.Length == 2 * Pow2(level) - 1
      requires Flags(tree[..]) && Canonical(TreeAt(tree[..], 0), level) && unit < Pow2(level)
      ensures Leaf(tree[..], index, level, unit) && left == LeftEdge(index, level)
    {
      hide *;
      ghost var t := tree[..];
      var length := Pow2(level);
      index, left := 0, 0;
      LocateStarts(t, level, unit);
      while tree[index].SPLIT? || tree[index].FULL?
        invariant index < tree.Length && Reachable(t, index) && InRange(index, level, unit)
        invariant Depth(index) <= level
        invariant length == Pow2(level - Depth(index)) && left == LeftEdge(index, level)
        decreases tree.Length - index
      {
        StepDown(t, index, level, unit);
        length := length / 2;
        if unit < left + length {
          index := index * 2 + 1;
        } else {
          left := left + length;
          index := index * 2 + 2;
        }
      }
      LocateEnds(t, index, level, unit);
    }

    /**
      dart_buddy_free. The block whose first unit holds the given byte is released, whichever of the
      eight bytes of that unit it is; anything else leaves the pool as it was.
     */
    method Free(offset: nat) returns (r: FreeResult)
      requires Valid()
      modifies tree
      ensures Valid()
      ensures var unit := offset / ALIGN_BYTES;
        match r
        case Freed => exists k: nat :: StartsWith(old(Live()), unit, k) && Live() == old(Live()) - {Block(unit, k)}
        case OutOfPool => unit >= Pow2(level)
        case NotAStart =>
          (exists b :: b in Live() && CoveredBy(b, unit)) && forall k: nat :: !StartsWith(Live(), unit, k)
        case Aborted => unit < Pow2(level) && !exists b :: b in Live() && CoveredBy(b, unit)
      ensures r != Freed ==> tree[..] == old(tree[..])
    {
      ghost var t := tree[..];
      var unit := offset / ALIGN_BYTES;
      if unit >= Pow2(level) {
        return OutOfPool;
      }
      var index, left := Locate(unit);
      FreeElsewhere(t, index, level, unit);
      if tree[index].UNUSED? {
        return Aborted;
      }
      if unit != left {
        return NotAStart;
      }
      FreeAtStart(t, index, level, unit);
      Combine(index);
      return Freed;
    }

    /**
      dart_buddy_alloc, for every request. The leftmost free block of the size looked for, whose byte
      offset is returned; or -1, an unchanged pool, and no free block of that size anywhere. From one
      byte up to 2^34 bytes that size is the least power of two of units that holds the request. If
      the size looked for is zero and a unit is free, the search writes behind the end of the tree,
      and nothing is known afterwards; up to 2^34 bytes that is so for empty requests only.
     */
    method Alloc(bytes: nat) returns (r: AllocResult)
      requires Valid() && bytes < WORD64
      modifies tree
      ensures r.Overrun? <==>
        RoundedSize(Units(bytes)) == 0 && exists b: Block :: b.order == 0 && FreeSlot(level, old(Live()), b)
      ensures bytes == 0 ==> (r.Overrun? <==> exists b: Block :: b.order == 0 && FreeSlot(level, old(Live()), b))
      ensures 0 < bytes <= TWO_34 ==> !r.Overrun?
      ensures !r.Overrun? ==> Valid()
      ensures r.Refused? ==> tree[..] == old(tree[..])
      ensures r.Refused? ==> forall b | Slot(level, 0, b) && Fits(b, bytes) :: !IsFree(b, Live())
      ensures r.Refused? && 0 < bytes <= TWO_34 ==>
        forall b | Slot(level, 0, b) && LeastFor(b, bytes) :: !IsFree(b, Live())
      ensures r.Offset? ==> exists b: Block ::
        && Fits(b, bytes) && LeftmostFree(level, old(Live()), b) && Live() == old(Live()) + {b}
        && r.byte == ByteOffset(b.offset) && (r.byte == b.offset * ALIGN_BYTES <==> b.offset < 0x1000_0000)
        && (level <= 28 ==> r.byte == b.offset * ALIGN_BYTES)
        && (0 < bytes <= TWO_34 ==> LeastFor(b, bytes))
    {
      hide RoundedSize, Slot, AllocIn, Blocks, Canonical, ByteOffset, TreeAt, Flags, Fits, LeastFor;
      SizesInBytes(level, bytes);
      var size := RoundedSize(Units(bytes));
      var length := Pow2(level);
      ghost var k := OrderFor(Units(bytes), level);
      if size > length {
        TooLargeFits(bytes, level);
        return Refused;
      }
      ghost var t := TreeAt(tree[..], 0);
      AllocMeaning(t, level, bytes, k);
      r := Search(size, k);
      if AllocIn(t, level, k).Some? {
        ghost var b := Block(AllocIn(t, level, k).value.1, k);
        assert IsFound(Blocks(t, level, 0), level, bytes, b);
      }
    }
  }

  /** The order that the search is for; zero, if the size looked for is. */
  lemma OrderFor(units: nat, level: nat) returns (k: nat)
    requires units <= TWO_61 && level <= MAX_LEVEL
    ensures RoundedSize(units) <= Pow2(level) ==> k <= level && SizeFor(RoundedSize(units), k)
  {
    hide RoundedSize;
    k := 0;
    RoundedSizeForms(units);
    PoolSize(level);
    if 0 < RoundedSize(units) <= Pow2(level) {
      k :| RoundedSize(units) == Pow2(k);
      Pow2Injective(level, k);
    }
  }

  /** Up to 2^34 bytes every request but the empty one is honoured. */
  lemma SizesInBytes(level: nat, bytes: nat)
    requires bytes < WORD64 && level <= MAX_LEVEL
    ensures 0 < bytes <= TWO_34 ==>
      RoundedSize(Units(bytes)) != 0 && forall b | Slot(level, 0, b) :: Fits(b, bytes) <==> LeastFor(b, bytes)
    ensures bytes == 0 ==> RoundedSize(Units(bytes)) == 0
  {
    hide RoundedSize, Slot, Fits, LeastFor, Honoured;
    RoundedSizeZero(Units(bytes));
    HonouredExactly(Units(bytes), level);
    if 0 < bytes <= TWO_34 {
      forall b | Slot(level, 0, b) ensures Fits(b, bytes) <==> LeastFor(b, bytes) {
        FitsIsLeast(b, bytes, level);
      }
    }
  }

  lemma TooLargeFits(bytes: nat, level: nat)
    requires RoundedSize(Units(bytes)) > Pow2(level)
    ensures forall b | Slot(level, 0, b) :: !Fits(b, bytes)
    ensures RoundedSize(Units(bytes)) != 0
  {
    hide RoundedSize, Slot;
    forall b | Slot(level, 0, b) ensures !Fits(b, bytes) {
      SlotInRange(level, 0, b);
      Pow2Monotone(b.order, level);
    }
  }

  /** A slot of the pool that overlaps no live block. */
  ghost predicate FreeSlot(level: nat, live: set<Block>, b: Block) {
    Slot(level, 0, b) && IsFree(b, live)
  }

  /** No block of the size looked for is free. */
  ghost predicate NothingFits(live: set<Block>, level: nat, bytes: nat) {
    && (forall b | Slot(level, 0, b) && Fits(b, bytes) :: !IsFree(b, live))
    && (RoundedSize(Units(bytes)) == 0 ==> forall b: Block | b.order == 0 :: !FreeSlot(level, live, b))
  }

  /** b is the block to hand out, and its offset is right up to 2^28 units. */
  ghost predicate IsFound(live: set<Block>, level: nat, bytes: nat, b: Block) {
    && LeftmostFree(level, live, b) && FreeSlot(level, live, b)
    && (if RoundedSize(Units(bytes)) == 0 then b.order == 0 else Fits(b, bytes))
    && (ByteOffset(b.offset) == b.offset * ALIGN_BYTES <==> b.offset < 0x1000_0000)
    && (level <= 28 ==> ByteOffset(b.offset) == b.offset * ALIGN_BYTES)
  }

  /** What the search finds in the tree, told in blocks. */
  lemma AllocMeaning(t: Tree, level: nat, bytes: nat, k: nat)
    requires Canonical(t, level) && k <= level <= MAX_LEVEL && SizeFor(RoundedSize(Units(bytes)), k)
    ensures AllocIn(t, level, k).None? ==> NothingFits(Blocks(t, level, 0), level, bytes)
    ensures AllocIn(t, level, k).Some? ==>
      && IsFound(Blocks(t, level, 0), level, bytes, Block(AllocIn(t, level, k).value.1, k))
      && Blocks(AllocIn(t, level, k).value.0, level, 0)
         == Blocks(t, level, 0) + {Block(AllocIn(t, level, k).value.1, k)}
  {
    hide RoundedSize, Slot, AllocIn, Blocks, Canonical, ByteOffset;
    AllocCorrect(t, level, 0, k);
    SameOrder(bytes, k);
    if AllocIn(t, level, k).Some? {
      OffsetInPool(level, Block(AllocIn(t, level, k).value.1, k));
    }
  }

  lemma SameOrder(bytes: nat, k: nat)
    requires SizeFor(RoundedSize(Units(bytes)), k)
    ensures forall b: Block :: Fits(b, bytes) <==> RoundedSize(Units(bytes)) != 0 && b.order == k
    ensures RoundedSize(Units(bytes)) == 0 ==> k == 0
  {
    hide RoundedSize;
    forall b: Block ensures Fits(b, bytes) <==> RoundedSize(Units(bytes)) != 0 && b.order == k {
      Pow2Injective(b.order, k);
    }
  }

  lemma OffsetInPool(level: nat, b: Block)
    requires level <= MAX_LEVEL && Slot(level, 0, b)
    ensures 0 <= b.offset < 0x4000_0000
    ensures ByteOffset(b.offset) == b.offset * ALIGN_BYTES <==> b.offset < 0x1000_0000
    ensures level <= 28 ==> ByteOffset(b.offset) == b.offset * ALIGN_BYTES
  {
    hide Slot, Pow2, ByteOffset;
    SlotInRange(level, 0, b);
    Pow2Words();
    PoolSize(level);
    if level <= 28 {
      Pow2Monotone(level, 28);
    }
    ByteOffsetExactly(b.offset);
  }

  /** The block has the size that a request for some bytes looks for. */
  predicate Fits(b: Block, bytes: nat) {
    Pow2(b.order) == RoundedSize(Units(bytes))
  }

  const TWO_34 := 0x4_0000_0000

  /** The block holds the bytes, and half of it would not. */
  predicate LeastFor(b: Block, bytes: nat) {
    bytes <= Pow2(b.order) * 8 && (b.order > 0 ==> Pow2(b.order - 1) * 8 < bytes)
  }

  /** The same measured in units. */
  lemma LeastInUnits(b: Block, bytes: nat)
    requires bytes > 0
    ensures LeastFor(b, bytes) <==> LeastPow2(Pow2(b.order), Units(bytes))
  {
    assert IsPow2(Pow2(b.order));
    assert b.order > 0 ==> Pow2(b.order) == 2 * Pow2(b.order - 1);
  }

  /** Where a request is honoured, the blocks that fit are the least that hold it. */
  lemma FitsIsLeast(b: Block, bytes: nat, level: nat)
    requires bytes < WORD64 && level <= MAX_LEVEL && Slot(level, 0, b)
    requires Honoured(Units(bytes), level)
    ensures Fits(b, bytes) <==> LeastFor(b, bytes)
  {
    hide RoundedSize, Slot, Honoured, Fits, LeastFor;
    HonouredExactly(Units(bytes), level);
    LeastInUnits(b, bytes);
    FitsInUnits(b, bytes, level);
  }

  lemma FitsInUnits(b: Block, bytes: nat, level: nat)
    requires bytes < WORD64 && level <= MAX_LEVEL && Slot(level, 0, b)
    requires Honoured(Units(bytes), level)
    ensures Fits(b, bytes) <==> LeastPow2(Pow2(b.order), Units(bytes))
  {
    hide RoundedSize, Slot, Pow2;
    var units := Units(bytes);
    SlotInRange(level, 0, b);
    Pow2Monotone(b.order, level);
    if RoundedSize(units) > Pow2(level) {
      TooLargeForSlots(units, level);
    } else {
      var k: nat :| RoundedSize(units) == Pow2(k);
      OneRoundedOrder(units, k);
    }
  }

  /**
    dart_buddy_new, for every size that its assertion lets through. The pool covers the least power
    of two that is not below the size; less than a unit or more than 2^51 bytes is refused.
   */
  method NewPool(size: nat) returns (r: NewResult)
    requires size < WORD64 && Pow2Test(size % WORD32)
    ensures r.NoPool? <==> size < ALIGN_BYTES || size > 0x8_0000_0000_0000
    ensures r.TooHigh? <==> 0x2_0000_0000 < size <= 0x8_0000_0000_0000
    ensures r.Created? ==> fresh(r.pool) && fresh(r.pool.tree) && r.pool.Valid() && r.pool.Live() == {}
    ensures r.Created? ==> LeastPow2(Pow2(r.pool.level) * ALIGN_BYTES, size)
  {
    var n := NumLevel(size);
    NumLevelBounds(size, n);
    hide *;
    var level := (n + WORD32 - 3) % WORD32;
    if level > 48 {
      return NoPool;
    }
    if level > MAX_LEVEL {
      return TooHigh;
    }
    var pool := new Pool(level);
    return Created(pool);
  }

  /** num_level: the number of doublings, at least one, that reach `size`, or 2^32 - 1 beyond 2^63. */
  method NumLevel(size: nat) returns (level: nat)
    requires size < WORD64
    ensures LevelOf(size, level)
  {
    if size > 0x8000_0000_0000_0000 {
      return 0xFFFF_FFFF;
    }
    level := 1;
    var shifter := 2;
    while shifter < size
      invariant level >= 1 && shifter == Pow2(level) && (level > 1 ==> Pow2(level - 1) < size)
      decreases size - shifter
    {
      shifter := shifter * 2;
      level := level + 1;
    }
  }

  /** The least positive exponent whose power of two is not below `size`, or the sentinel. */
  predicate LevelOf(size: nat, level: nat) {
    if size > 0x8000_0000_0000_0000 then level == 0xFFFF_FFFF
    else level >= 1 && size <= Pow2(level) && (level > 1 ==> Pow2(level - 1) < size)
  }

  lemma LevelOrder(size: nat, n: nat, k: nat)
    requires LevelOf(size, n) && size <= 0x8000_0000_0000_0000 && k >= 1
    ensures n <= k <==> size <= Pow2(k)
  {
    if n <= k {
      Pow2Monotone(n, k);
    } else {
      Pow2Monotone(k, n - 1);
    }
  }

  /** Five to seven bytes do not pass the test, so that a pool of one unit covers eight. */
  lemma NotFiveToSeven(size: nat)
    requires Pow2Test(size % WORD32) && size < ALIGN_BYTES
    ensures size <= 4
  {
    hide Pow2Test;
    Pow2TestExact(size);
    if IsPow2(size) {
      var k: nat :| size == Pow2(k);
      assert Pow2(2) == 4 && Pow2(3) == 8;
      Pow2Injective(3, k);
      Pow2Monotone(k, if k <= 2 then 2 else k);
    }
  }

  lemma NumLevelBounds(size: nat, n: nat)
    requires size < WORD64 && Pow2Test(size % WORD32) && LevelOf(size, n)
    ensures n < WORD32 && MAX_LEVEL == 30
    ensures (n + WORD32 - 3) % WORD32 > 48 <==> size < ALIGN_BYTES || size > 0x8_0000_0000_0000
    ensures 30 < (n + WORD32 - 3) % WORD32 <= 48 <==> 0x2_0000_0000 < size <= 0x8_0000_0000_0000
    ensures (n + WORD32 - 3) % WORD32 <= 30 ==> LeastPow2(Pow2((n + WORD32 - 3) % WORD32) * ALIGN_BYTES, size)
  {
    hide Pow2Test, Pow2;
    LevelPowers();
    if size <= 0x8000_0000_0000_0000 {
      LevelOrder(size, n, 2);
      LevelOrder(size, n, 33);
      LevelOrder(size, n, 51);
      LevelOrder(size, n, 63);
      if size < ALIGN_BYTES {
        NotFiveToSeven(size);
      }
      if 3 <= n {
        WrapsOnce(n);
        Pow2Split(n, 3);
        Pow2Split(n, 1);
        assert IsPow2(Pow2(n));
      } else {
        WrapsBelow(n);
      }
    } else {
      WrapsOnce(n);
    }
  }

  lemma WrapsOnce(n: nat)
    requires 3 <= n < WORD32
    ensures (n + WORD32 - 3) % WORD32 == n - 3
  {
  }

  lemma WrapsBelow(n: nat)
    requires n < 3
    ensures (n + WORD32 - 3) % WORD32 > 48
  {
  }

  lemma LevelPowers()
    ensures Pow2(1) == 2 && Pow2(2) == 4 && Pow2(3) == 8
    ensures Pow2(33) == 0x2_0000_0000 && Pow2(51) == 0x8_0000_0000_0000 && Pow2(63) == 0x8000_0000_0000_0000
  {
    Pow2Words();
    SmallPowers();
    EightIsPow2();
    hide Pow2;
    Pow2Split(33, 32);
    Pow2Split(20, 10);
    Pow2Split(21, 20);
    Pow2Split(51, 30);
    Pow2Split(63, 61);
  }

  lemma EightIsPow2()
    ensures Pow2(3) == 8
  {
  }

  lemma TooLargeForSlots(units: nat, level: nat)
    requires units <= TWO_61 && level <= MAX_LEVEL && Honoured(units, level) && RoundedSize(units) > Pow2(level)
    ensures forall b | Slot(level, 0, b) :: !LeastPow2(Pow2(b.order), units)
  {
    hide RoundedSize, Slot;
    PoolSize(level);
    if 0 < units <= TWO_31 {
      RefusedMeansTooLarge(units, level);
    }
    forall b | Slot(level, 0, b) ensures !LeastPow2(Pow2(b.order), units) {
      SlotInRange(level, 0, b);
    }
  }

  lemma OneRoundedOrder(units: nat, k: nat)
    requires LeastPow2(Pow2(k), units)
    ensures forall j: nat | LeastPow2(Pow2(j), units) :: j == k
  {
    forall j: nat | LeastPow2(Pow2(j), units) ensures j == k {
      if j <= k {
        Pow2Monotone(j, k);
      } else {
        Pow2Monotone(k, j);
      }
    }
  }

  // ---------------------------------------------------------------------------------------------
  // What the offset that is returned is good for

  /** Freeing at a unit takes back the block just allocated exactly if the block starts there. */
  lemma FreedExactly(level: nat, before: set<Block>, b: Block, unit: nat, r: FreeResult, after: set<Block>)
    requires Slot(level, 0, b) && IsFree(b, before)
    requires match r
      case Freed => exists k: nat :: StartsWith(before + {b}, unit, k) && after == before + {b} - {Block(unit, k)}
      case OutOfPool => unit >= Pow2(level)
      case NotAStart => forall k: nat :: !StartsWith(before + {b}, unit, k)
      case Aborted => !exists c :: c in before + {b} && CoveredBy(c, unit)
    requires r != Freed ==> after == before + {b}
    ensures unit == b.offset <==> after == before
    ensures unit == b.offset <==> b !in after
  {
    hide Slot;
    SlotInRange(level, 0, b);
    assert Overlap(b, b);
    assert b == Block(b.offset, b.order);
    assert StartsWith(before + {b}, b.offset, b.order) && CoveredBy(b, b.offset);
    if r.Freed? {
      var k: nat :| StartsWith(before + {b}, unit, k) && after == before + {b} - {Block(unit, k)};
      assert unit == b.offset ==> Overlap(b, Block(unit, k));
    }
  }

  /**
    A request whose result is passed on to dart_buddy_free. The pool is as before exactly if the
    block starts below unit 2^28, which it always does up to level 28. Otherwise the block stays
    live, and perhaps another one is released.
   */
  method AllocThenFree(pool: Pool, bytes: nat) returns (r: AllocResult)
    requires pool.Valid() && bytes < WORD64
    modifies pool.tree
    ensures !r.Overrun? ==> pool.Valid()
    ensures r.Offset? ==> exists b: Block ::
      && Fits(b, bytes) && LeftmostFree(pool.level, old(pool.Live()), b)
      && (b.offset < 0x1000_0000 <==> pool.Live() == old(pool.Live()))
      && (b.offset < 0x1000_0000 <==> b !in pool.Live())
    ensures r.Offset? && pool.level <= 28 ==> pool.Live() == old(pool.Live())
  {
    r := pool.Alloc(bytes);
    if r.Offset? {
      ghost var live := pool.Live();
      ghost var b: Block :|
        && Fits(b, bytes) && LeftmostFree(pool.level, old(pool.Live()), b) && live == old(pool.Live()) + {b}
        && r.byte == ByteOffset(b.offset) && (r.byte == b.offset * ALIGN_BYTES <==> b.offset < 0x1000_0000)
        && (pool.level <= 28 ==> r.byte == b.offset * ALIGN_BYTES);
      OffsetInPool(pool.level, b);
      OffsetReturnsExactly(b.offset);
      var freed := pool.Free(AsWord64(r.byte));
      FreedExactly(pool.level, old(pool.Live()), b, AsWord64(r.byte) / ALIGN_BYTES, freed, pool.Live());
    }
  }

  /** The two halves of a range are its slots of the next lower order. */
  lemma Halves(h: nat, base: int, b: Block)
    ensures Slot(h + 1, base, b) && b.order == h <==> b == Block(base, h) || b == Block(base + Pow2(h), h)
  {
    hide Slot, Pow2;
    SlotUnfolds(h + 1, base, b);
    HalfOnly(h, base, b);
    HalfOnly(h, base + Pow2(h), b);
  }

  lemma HalfOnly(h: nat, base: int, b: Block)
    ensures Slot(h, base, b) && b.order == h <==> b == Block(base, h)
  {
    hide Slot, Pow2;
    SlotUnfolds(h, base, b);
    if h > 0 && Slot(h - 1, base, b) {
      SlotInRange(h - 1, base, b);
    }
    if h > 0 && Slot(h - 1, base + Pow2(h - 1), b) {
      SlotInRange(h - 1, base + Pow2(h - 1), b);
    }
  }

  lemma SlotUnfolds(h: nat, base: int, b: Block)
    ensures Slot(h, base, b) <==>
      || b == Block(base, h)
      || (h > 0 && (Slot(h - 1, base, b) || Slot(h - 1, base + Pow2(h - 1), b)))
  {
  }

  /** A request of half of 2^29 units. */
  lemma HalfRequest(bytes: nat)
    requires bytes == 0x8000_0000
    ensures RoundedSize(Units(bytes)) != 0
    ensures forall b: Block :: Fits(b, bytes) <==> b.order == 28
  {
    hide Pow2, NextPow2;
    Pow2Words();
    RoundedSizeExact(0x1000_0000);
    var k: nat :| NextPow2(0x1000_0000) == Pow2(k);
    Pow2Injective(k, 28);
    Pow2Injective(k, 29);
    forall b: Block ensures Fits(b, bytes) <==> b.order == 28 {
      Pow2Injective(b.order, 28);
    }
  }

  /** The leftmost free half. */
  lemma HalfFree(live: set<Block>, half: Block)
    requires || (half == Block(0, 28) && live == {})
             || (half == Block(0x1000_0000, 28) && live == {Block(0, 28)})
    ensures Slot(29, 0, half) && IsFree(half, live)
    ensures forall b: Block | b.order == 28 && LeftmostFree(29, live, b) :: b == half
  {
    Pow2Words();
    hide Pow2, Slot;
    Halves(28, 0, half);
    forall b: Block | b.order == 28 && LeftmostFree(29, live, b) ensures b == half {
      Halves(28, 0, b);
      assert Overlap(Block(0, 28), Block(0, 28));
    }
  }

  /** The next half of a pool of 2^29 units. */
  method AllocHalf(pool: Pool, bytes: nat, ghost half: Block) returns (r: AllocResult)
    requires pool.Valid() && pool.level == 29 && bytes == 0x8000_0000
    requires || (half == Block(0, 28) && pool.Live() == {})
             || (half == Block(0x1000_0000, 28) && pool.Live() == {Block(0, 28)})
    modifies pool.tree
    ensures pool.Valid() && pool.Live() == old(pool.Live()) + {half} && r == Offset(ByteOffset(half.offset))
  {
    hide Slot, IsFree, LeftmostFree, Fits, RoundedSize, ByteOffset, Blocks, TreeAt, Flags, Canonical;
    HalfRequest(bytes);
    HalfFree(pool.Live(), half);
    r := pool.Alloc(bytes);
  }

  /**
    A pool of 2^29 units gives out its two halves. The offset returned for the second one is -2^31,
    and passing it to dart_buddy_free releases nothing.
   */
  method SecondHalf() returns (pool: Pool, first: AllocResult, second: AllocResult, freed: FreeResult)
    ensures pool.Valid() && pool.level == 29
    ensures first == Offset(0) && second == Offset(-0x8000_0000) && freed == OutOfPool
    ensures pool.Live() == {Block(0, 28), Block(0x1000_0000, 28)}
  {
    hide Blocks, TreeAt, Flags, Canonical, Pow2;
    Pow2Words();
    pool := new Pool(29);
    first := AllocHalf(pool, 0x8000_0000, Block(0, 28));
    second := AllocHalf(pool, 0x8000_0000, Block(0x1000_0000, 28));
    freed := pool.Free(AsWord64(second.byte));
  }
}
