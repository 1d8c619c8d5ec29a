/**
  The tree a buddy allocator keeps, without its encoding in bytes: what allocating and freeing
  do to it, and why it is determined by the set of live blocks alone.
 */
module BuddyTree {
  import opened Powers

  datatype Option<+T> = None | Some(value: T)

  /** A node of height h stands for 2^h allocation units. */
  datatype Tree = Unused | Used | Node(left: Tree, right: Tree)

  /** The 2^order units from `offset` on. */
  datatype Block = Block(offset: int, order: nat)

  predicate Overlap(a: Block, b: Block) {
    a.offset < b.offset + Pow2(b.order) && b.offset < a.offset + Pow2(a.order)
  }

  /** No node is split below the unit size, and no split node has two unused halves. */
  predicate Canonical(t: Tree, h: nat) {
    t.Node? ==>
      && h > 0
      && !(t.left.Unused? && t.right.Unused?)
      && Canonical(t.left, h - 1) && Canonical(t.right, h - 1)
  }

  /** The live blocks of a tree of height h whose first unit is `base`. */
  ghost function Blocks(t: Tree, h: nat, base: int): set<Block> {
    match t
    case Unused => {}
    case Used => {Block(base, h)}
    case Node(l, r) => if h == 0 then {} else Blocks(l, h - 1, base) + Blocks(r, h - 1, base + Pow2(h - 1))
  }

  /** b is one of the blocks into which repeated halving can cut the range of height h at `base`. */
  ghost predicate Slot(h: nat, base: int, b: Block) {
    || b == Block(base, h)
    || (h > 0 && (Slot(h - 1, base, b) || Slot(h - 1, base + Pow2(h - 1), b)))
  }

  ghost predicate IsFree(b: Block, live: set<Block>) {
    forall c | c in live :: !Overlap(b, c)
  }

  /** Leftmost first fit: the new tree and the offset of the block within it. */
  function AllocIn(t: Tree, h: nat, k: nat): Option<(Tree, nat)>
    requires k <= h
    decreases h
  {
    if k == h then
      if t.Unused? then Some((Used, 0)) else None
    else
      match t
      case Used => None
      case Unused => AllocBelow(Unused, Unused, h, k)
      case Node(l, r) => AllocBelow(l, r, h, k)
  }

  function AllocBelow(l: Tree, r: Tree, h: nat, k: nat): Option<(Tree, nat)>
    requires k < h
    decreases h, 0
  {
    match AllocIn(l, h - 1, k)
    case Some((l', offset)) => Some((Node(l', r), offset))
    case None =>
      match AllocIn(r, h - 1, k)
      case Some((r', offset)) => Some((Node(l, r'), Pow2(h - 1) + offset))
      case None => None
  }

  function Join(l: Tree, r: Tree): Tree {
    if l.Unused? && r.Unused? then Unused else Node(l, r)
  }

  /** Frees the block that starts at `offset` within the tree; None if no live block starts there. */
  function FreeIn(t: Tree, h: nat, offset: int): Option<Tree>
    decreases h
  {
    match t
    case Unused => None
    case Used => if offset == 0 then Some(Unused) else None
    case Node(l, r) =>
      if h == 0 then None
      else if offset < Pow2(h - 1) then
        match FreeIn(l, h - 1, offset)
        case Some(l') => Some(Join(l', r))
        case None => None
      else
        match FreeIn(r, h - 1, offset - Pow2(h - 1))
        case Some(r') => Some(Join(l, r'))
        case None => None
  }

  // ---------------------------------------------------------------------------------------------
  // Slots and blocks

  lemma {:induction false} SlotInRange(h: nat, base: int, b: Block)
    requires Slot(h, base, b)
    ensures base <= b.offset && b.offset + Pow2(b.order) <= base + Pow2(h) && b.order <= h
  {
    if b != Block(base, h) {
      if Slot(h - 1, base, b) {
        SlotInRange(h - 1, base, b);
      } else {
        SlotInRange(h - 1, base + Pow2(h - 1), b);
      }
    }
  }

  /** Slots are the blocks that lie inside the range and are aligned to their own size. */
  lemma {:induction false} SlotIsAligned(h: nat, base: int, b: Block)
    ensures Slot(h, base, b) <==>
      b.order <= h && exists j: nat :: b.offset == base + j * Pow2(b.order) && (j + 1) * Pow2(b.order) <= Pow2(h)
  {
    if Slot(h, base, b) {
      var j := AlignedSlot(h, base, b);
    }
    if b.order <= h {
      forall j: nat | b.offset == base + j * Pow2(b.order) && (j + 1) * Pow2(b.order) <= Pow2(h)
        ensures Slot(h, base, b)
      {
        SlotAt(h, base, b, j);
      }
    }
  }

  lemma {:induction false} AlignedSlot(h: nat, base: int, b: Block) returns (j: nat)
    requires Slot(h, base, b)
    ensures b.order <= h && b.offset == base + j * Pow2(b.order) && (j + 1) * Pow2(b.order) <= Pow2(h)
  {
    if b == Block(base, h) {
      j := 0;
    } else if Slot(h - 1, base, b) {
      j := AlignedSlot(h - 1, base, b);
    } else {
      var i := AlignedSlot(h - 1, base + Pow2(h - 1), b);
      Pow2Split(h - 1, b.order);
      j := i + Pow2(h - 1 - b.order);
      Distribute(i, Pow2(h - 1 - b.order), Pow2(b.order));
      Distribute(i + 1, Pow2(h - 1 - b.order), Pow2(b.order));
    }
  }

  lemma {:induction false} SlotAt(h: nat, base: int, b: Block, j: nat)
    requires b.order <= h && b.offset == base + j * Pow2(b.order) && (j + 1) * Pow2(b.order) <= Pow2(h)
    ensures Slot(h, base, b)
  {
    var size := Pow2(b.order);
    if b.order == h {
      if j > 0 {
        MulMonotone(1, j, size);
      }
      assert j * size == 0;
    } else {
      var half := Pow2(h - 1 - b.order);
      Pow2Split(h - 1, b.order);
      if j < half {
        MulMonotone(j + 1, half, size);
        SlotAt(h - 1, base, b, j);
      } else {
        Distribute(j - half, half, size);
        Distribute(j - half + 1, half, size);
        SlotAt(h - 1, base + Pow2(h - 1), b, j - half);
      }
    }
  }

  lemma Distribute(a: int, b: int, c: int)
    ensures (a + b) * c == a * c + b * c
  {
  }

  lemma MulMonotone(a: int, b: int, c: nat)
    requires a <= b
    ensures a * c <= b * c
  {
  }

  /** Live blocks are slots of the range. */
  lemma {:induction false} BlocksAreSlots(t: Tree, h: nat, base: int, b: Block)
    requires b in Blocks(t, h, base)
    ensures Slot(h, base, b)
  {
    if t.Node? {
      if b in Blocks(t.left, h - 1, base) {
        BlocksAreSlots(t.left, h - 1, base, b);
      } else {
        BlocksAreSlots(t.right, h - 1, base + Pow2(h - 1), b);
      }
    }
  }

  lemma BlocksInRange(t: Tree, h: nat, base: int)
    ensures forall b | b in Blocks(t, h, base) ::
      base <= b.offset && b.offset + Pow2(b.order) <= base + Pow2(h) && b.order <= h
  {
    forall b | b in Blocks(t, h, base)
      ensures base <= b.offset && b.offset + Pow2(b.order) <= base + Pow2(h) && b.order <= h
    {
      BlocksAreSlots(t, h, base, b);
      SlotInRange(h, base, b);
    }
  }

  lemma {:induction false} BlocksDisjoint(t: Tree, h: nat, base: int, a: Block, b: Block)
    requires a in Blocks(t, h, base) && b in Blocks(t, h, base) && a != b
    ensures !Overlap(a, b)
  {
    if t.Node? {
      var mid := base + Pow2(h - 1);
      BlocksInRange(t.left, h - 1, base);
      BlocksInRange(t.right, h - 1, mid);
      if a in Blocks(t.left, h - 1, base) && b in Blocks(t.left, h - 1, base) {
        BlocksDisjoint(t.left, h - 1, base, a, b);
      } else if a in Blocks(t.right, h - 1, mid) && b in Blocks(t.right, h - 1, mid) {
        BlocksDisjoint(t.right, h - 1, mid, a, b);
      }
    }
  }

  lemma {:induction false} NoBlocksIffUnused(t: Tree, h: nat, base: int)
    requires Canonical(t, h)
    ensures Blocks(t, h, base) == {} <==> t.Unused?
  {
    if t.Node? {
      NoBlocksIffUnused(t.left, h - 1, base);
      NoBlocksIffUnused(t.right, h - 1, base + Pow2(h - 1));
    } else if t.Used? {
      assert Block(base, h) in Blocks(t, h, base);
    }
  }

  /** The canonical tree is a function of the set of live blocks. */
  lemma {:induction false} TreeOfBlocks(t: Tree, t': Tree, h: nat, base: int)
    requires Canonical(t, h) && Canonical(t', h)
    requires Blocks(t, h, base) == Blocks(t', h, base)
    ensures t == t'
  {
    NoBlocksIffUnused(t, h, base);
    NoBlocksIffUnused(t', h, base);
    if t.Used? && t'.Node? {
      WholeBlockNotInNode(t', h, base);
    } else if t.Node? && t'.Used? {
      WholeBlockNotInNode(t, h, base);
    } else if t.Node? && t'.Node? {
      var mid := base + Pow2(h - 1);
      HalvesOfBlocks(t, h, base);
      HalvesOfBlocks(t', h, base);
      TreeOfBlocks(t.left, t'.left, h - 1, base);
      TreeOfBlocks(t.right, t'.right, h - 1, mid);
    }
  }

  lemma WholeBlockNotInNode(t: Tree, h: nat, base: int)
    requires t.Node? && h > 0
    ensures Block(base, h) !in Blocks(t, h, base)
  {
    BlocksInRange(t.left, h - 1, base);
    BlocksInRange(t.right, h - 1, base + Pow2(h - 1));
  }

  lemma HalvesOfBlocks(t: Tree, h: nat, base: int)
    requires t.Node? && h > 0
    ensures Blocks(t.left, h - 1, base) == set b | b in Blocks(t, h, base) && b.offset < base + Pow2(h - 1)
    ensures Blocks(t.right, h - 1, base + Pow2(h - 1)) ==
            set b | b in Blocks(t, h, base) && b.offset >= base + Pow2(h - 1)
  {
    BlocksInRange(t.left, h - 1, base);
    BlocksInRange(t.right, h - 1, base + Pow2(h - 1));
  }

  // ---------------------------------------------------------------------------------------------
  // Allocation

  /** What allocation promises about the live blocks, for the range at `base`. */
  ghost predicate AllocMeets(t: Tree, h: nat, base: int, k: nat, result: Option<(Tree, nat)>) {
    match result
    case None =>
      forall b | Slot(h, base, b) && b.order == k :: !IsFree(b, Blocks(t, h, base))
    case Some((t', offset)) =>
      var b := Block(base + offset, k);
      && Canonical(t', h) && !t'.Unused?
      && Blocks(t', h, base) == Blocks(t, h, base) + {b}
      && Slot(h, base, b) && IsFree(b, Blocks(t, h, base))
      && forall c | Slot(h, base, c) && c.order == k && c.offset < b.offset :: !IsFree(c, Blocks(t, h, base))
  }

  /** A slot in one half is free exactly when it is free within that half. */
  lemma FreeInHalf(l: Tree, r: Tree, h: nat, base: int, b: Block)
    requires h > 0
    ensures Slot(h - 1, base, b) ==>
      (IsFree(b, Blocks(Node(l, r), h, base)) <==> IsFree(b, Blocks(l, h - 1, base)))
    ensures Slot(h - 1, base + Pow2(h - 1), b) ==>
      (IsFree(b, Blocks(Node(l, r), h, base)) <==> IsFree(b, Blocks(r, h - 1, base + Pow2(h - 1))))
  {
    var mid := base + Pow2(h - 1);
    BlocksInRange(l, h - 1, base);
    BlocksInRange(r, h - 1, mid);
    if Slot(h - 1, base, b) {
      SlotInRange(h - 1, base, b);
    }
    if Slot(h - 1, mid, b) {
      SlotInRange(h - 1, mid, b);
    }
  }

  lemma {:induction false} AllocCorrect(t: Tree, h: nat, base: int, k: nat)
    requires Canonical(t, h) && k <= h
    ensures AllocMeets(t, h, base, k, AllocIn(t, h, k))
    decreases h, 1
  {
    if k == h {
      if t.Unused? {
        forall c | Slot(h, base, c) ensures c.offset >= base {
          SlotInRange(h, base, c);
        }
      } else {
        NoBlocksIffUnused(t, h, base);
        var live :| live in Blocks(t, h, base);
        BlocksInRange(t, h, base);
        forall b | Slot(h, base, b) && b.order == k ensures !IsFree(b, Blocks(t, h, base)) {
          SlotInRange(h, base, b);
          assert Overlap(b, live);
        }
      }
    } else {
      match t
      case Used =>
        forall b | Slot(h, base, b) && b.order == k ensures !IsFree(b, Blocks(t, h, base)) {
          SlotInRange(h, base, b);
          assert Overlap(b, Block(base, h));
        }
      case Unused =>
        AllocBelowCorrect(Unused, Unused, h, base, k);
        assert Blocks(Node(Unused, Unused), h, base) == Blocks(t, h, base);
      case Node(l, r) =>
        AllocBelowCorrect(l, r, h, base, k);
    }
  }

  lemma {:induction false} AllocBelowCorrect(l: Tree, r: Tree, h: nat, base: int, k: nat)
    requires k < h && Canonical(l, h - 1) && Canonical(r, h - 1)
    ensures AllocMeets(Node(l, r), h, base, k, AllocBelow(l, r, h, k))
    decreases h, 0
  {
    AllocCorrect(l, h - 1, base, k);
    match AllocIn(l, h - 1, k)
    case Some((l', offset)) => AllocLeft(l, r, h, base, k, l', offset);
    case None =>
      AllocCorrect(r, h - 1, base + Pow2(h - 1), k);
      match AllocIn(r, h - 1, k)
      case Some((r', offset)) => AllocRight(l, r, h, base, k, r', offset);
      case None =>
        forall b | Slot(h, base, b) && b.order == k ensures !IsFree(b, Blocks(Node(l, r), h, base)) {
          FreeInHalf(l, r, h, base, b);
        }
  }

  lemma AllocLeft(l: Tree, r: Tree, h: nat, base: int, k: nat, l': Tree, offset: nat)
    requires k < h && Canonical(l, h - 1) && Canonical(r, h - 1)
    requires AllocMeets(l, h - 1, base, k, Some((l', offset)))
    ensures AllocMeets(Node(l, r), h, base, k, Some((Node(l', r), offset)))
  {
    hide IsFree, Overlap;
    var b, live := Block(base + offset, k), Blocks(Node(l, r), h, base);
    FreeInHalf(l, r, h, base, b);
    SlotInRange(h - 1, base, b);
    assert Blocks(Node(l', r), h, base) == live + {b};
    forall c | Slot(h, base, c) && c.order == k && c.offset < b.offset ensures !IsFree(c, live) {
      FreeInHalf(l, r, h, base, c);
      if Slot(h - 1, base + Pow2(h - 1), c) {
        SlotInRange(h - 1, base + Pow2(h - 1), c);
      }
    }
  }

  lemma AllocRight(l: Tree, r: Tree, h: nat, base: int, k: nat, r': Tree, offset: nat)
    requires k < h && Canonical(l, h - 1) && Canonical(r, h - 1)
    requires AllocMeets(l, h - 1, base, k, None)
    requires AllocMeets(r, h - 1, base + Pow2(h - 1), k, Some((r', offset)))
    ensures AllocMeets(Node(l, r), h, base, k, Some((Node(l, r'), Pow2(h - 1) + offset)))
  {
    hide IsFree, Overlap;
    var b, live := Block(base + Pow2(h - 1) + offset, k), Blocks(Node(l, r), h, base);
    FreeInHalf(l, r, h, base, b);
    assert Blocks(Node(l, r'), h, base) == live + {b};
    forall c | Slot(h, base, c) && c.order == k && c.offset < b.offset ensures !IsFree(c, live) {
      FreeInHalf(l, r, h, base, c);
    }
  }

  // ---------------------------------------------------------------------------------------------
  // Freeing

  predicate StartsWith(live: set<Block>, offset: int, k: nat) {
    Block(offset, k) in live
  }

  ghost predicate FreeMeets(live: set<Block>, at: int, h: nat, base: int, result: Option<Tree>) {
    match result
    case Some(t') =>
      exists k: nat :: StartsWith(live, at, k) && Canonical(t', h) && Blocks(t', h, base) == live - {Block(at, k)}
    case None =>
      forall k: nat :: !StartsWith(live, at, k)
  }

  lemma FreeLeft(l: Tree, r: Tree, h: nat, base: int, at: int, result: Option<Tree>)
    requires h > 0 && Canonical(l, h - 1) && Canonical(r, h - 1) && at < base + Pow2(h - 1)
    requires FreeMeets(Blocks(l, h - 1, base), at, h - 1, base, result)
    ensures FreeMeets(Blocks(Node(l, r), h, base), at, h, base,
                      if result.Some? then Some(Join(result.value, r)) else None)
  {
    var mid, live, below := base + Pow2(h - 1), Blocks(Node(l, r), h, base), Blocks(l, h - 1, base);
    BlocksInRange(r, h - 1, mid);
    forall k: nat ensures StartsWith(live, at, k) <==> StartsWith(below, at, k) {
    }
    if result.Some? {
      var k: nat :| StartsWith(below, at, k) && Blocks(result.value, h - 1, base) == below - {Block(at, k)};
      assert StartsWith(live, at, k);
      assert Blocks(Join(result.value, r), h, base) == live - {Block(at, k)};
    }
  }

  lemma FreeRight(l: Tree, r: Tree, h: nat, base: int, at: int, result: Option<Tree>)
    requires h > 0 && Canonical(l, h - 1) && Canonical(r, h - 1) && at >= base + Pow2(h - 1)
    requires FreeMeets(Blocks(r, h - 1, base + Pow2(h - 1)), at, h - 1, base + Pow2(h - 1), result)
    ensures FreeMeets(Blocks(Node(l, r), h, base), at, h, base,
                      if result.Some? then Some(Join(l, result.value)) else None)
  {
    var mid, live := base + Pow2(h - 1), Blocks(Node(l, r), h, base);
    var above := Blocks(r, h - 1, mid);
    BlocksInRange(l, h - 1, base);
    forall k: nat ensures StartsWith(live, at, k) <==> StartsWith(above, at, k) {
    }
    if result.Some? {
      var k: nat :| StartsWith(above, at, k) && Blocks(result.value, h - 1, mid) == above - {Block(at, k)};
      assert StartsWith(live, at, k);
      assert Blocks(Join(l, result.value), h, base) == live - {Block(at, k)};
    }
  }

  /** Freeing succeeds exactly at the start of a live block, and removes just that block. */
  lemma {:induction false} FreeCorrect(t: Tree, h: nat, base: int, offset: int)
    requires Canonical(t, h)
    ensures FreeMeets(Blocks(t, h, base), base + offset, h, base, FreeIn(t, h, offset))
    decreases h
  {
    var at := base + offset;
    match t
    case Unused =>
    case Used =>
      if offset == 0 {
        assert StartsWith(Blocks(t, h, base), at, h);
        assert Blocks(Unused, h, base) == Blocks(t, h, base) - {Block(at, h)};
      }
    case Node(l, r) =>
      var half := Pow2(h - 1);
      if offset < half {
        FreeCorrect(l, h - 1, base, offset);
        FreeLeft(l, r, h, base, at, FreeIn(l, h - 1, offset));
      } else {
        FreeCorrect(r, h - 1, base + half, offset - half);
        assert base + half + (offset - half) == at;
        FreeRight(l, r, h, base, at, FreeIn(r, h - 1, offset - half));
      }
  }

  // ---------------------------------------------------------------------------------------------
  // Laws

  /** Freeing what was just allocated restores the tree. */
  lemma AllocThenFree(t: Tree, h: nat, k: nat)
    requires Canonical(t, h) && k <= h && AllocIn(t, h, k).Some?
    ensures FreeIn(AllocIn(t, h, k).value.0, h, AllocIn(t, h, k).value.1) == Some(t)
  {
    var (t', offset) := AllocIn(t, h, k).value;
    AllocCorrect(t, h, 0, k);
    var b := Block(offset, k);
    FreeBlock(t', h, b);
    var t'' := FreeIn(t', h, offset).value;
    assert Overlap(b, b);
    assert Blocks(t'', h, 0) == Blocks(t, h, 0);
    TreeOfBlocks(t, t'', h, 0);
  }

  /** Freeing two live blocks in either order gives the same tree. */
  lemma FreesCommute(t: Tree, h: nat, a: Block, b: Block)
    requires Canonical(t, h) && a in Blocks(t, h, 0) && b in Blocks(t, h, 0) && a != b
    ensures FreeIn(t, h, a.offset).Some? && FreeIn(t, h, b.offset).Some?
    ensures FreeIn(FreeIn(t, h, a.offset).value, h, b.offset).Some?
    ensures FreeIn(FreeIn(t, h, a.offset).value, h, b.offset) == FreeIn(FreeIn(t, h, b.offset).value, h, a.offset)
  {
    FreeBlock(t, h, a);
    FreeBlock(t, h, b);
    var ta, tb := FreeIn(t, h, a.offset).value, FreeIn(t, h, b.offset).value;
    FreeBlock(ta, h, b);
    FreeBlock(tb, h, a);
    var tab, tba := FreeIn(ta, h, b.offset).value, FreeIn(tb, h, a.offset).value;
    assert Blocks(tab, h, 0) == Blocks(tba, h, 0);
    TreeOfBlocks(tab, tba, h, 0);
  }

  lemma FreeBlock(t: Tree, h: nat, b: Block)
    requires Canonical(t, h) && b in Blocks(t, h, 0)
    ensures FreeIn(t, h, b.offset).Some?
    ensures Canonical(FreeIn(t, h, b.offset).value, h)
    ensures Blocks(FreeIn(t, h, b.offset).value, h, 0) == Blocks(t, h, 0) - {b}
  {
    FreeCorrect(t, h, 0, b.offset);
    assert StartsWith(Blocks(t, h, 0), 0 + b.offset, b.order);
    var t' := FreeIn(t, h, b.offset).value;
    var k: nat :| StartsWith(Blocks(t, h, 0), 0 + b.offset, k)
      && Blocks(t', h, 0) == Blocks(t, h, 0) - {Block(0 + b.offset, k)};
    if Block(b.offset, k) != b {
      BlocksDisjoint(t, h, 0, Block(b.offset, k), b);
    }
  }

  /** Frees the blocks in the given order. */
  function FreeAll(t: Tree, h: nat, order: seq<Block>): Option<Tree>
    decreases |order|
  {
    if order == [] then Some(t)
    else
      match FreeIn(t, h, order[0].offset)
      case Some(t') => FreeAll(t', h, order[1..])
      case None => None
  }

  /** Freeing every live block, in whatever order, leaves one unused root. */
  lemma {:induction false} FreeAllAnyOrder(t: Tree, h: nat, order: seq<Block>)
    requires Canonical(t, h)
    requires forall i, j | 0 <= i < j < |order| :: order[i] != order[j]
    requires forall b :: b in order <==> b in Blocks(t, h, 0)
    ensures FreeAll(t, h, order) == Some(Unused)
    decreases |order|
  {
    if order == [] {
      assert Blocks(t, h, 0) == {};
      NoBlocksIffUnused(t, h, 0);
    } else {
      var b := order[0];
      assert b in order;
      FreeBlock(t, h, b);
      var t' := FreeIn(t, h, b.offset).value;
      forall c ensures c in order[1..] <==> c in Blocks(t', h, 0) {
        assert c in order <==> c == b || c in order[1..];
      }
      FreeAllAnyOrder(t', h, order[1..]);
    }
  }
}
