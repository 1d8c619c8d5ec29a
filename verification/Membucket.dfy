/**
  The free-list allocator of the shared-memory runtime: a sorted linked list of free ranges, an
  unordered linked list of ranges handed out, first fit, and a melting pass after every release.
 */
module Membucket {
  import opened LinkedList
  import opened MemoryRanges

  method RemoveListEntry(list: Node<Entry>, prev: Node?<Entry>, toRemove: Node<Entry>,
                         ghost spine: seq<Node<Entry>>, ghost k: nat)
    returns (result: Node?<Entry>, ghost rest: seq<Node<Entry>>)
    requires IsList(list, spine) && k < |spine| && toRemove == spine[k]
    requires if k == 0 then prev == null else prev == spine[k - 1]
    modifies spine`next
    ensures IsList(result, rest) && OnlyFrom(rest, spine)
    ensures Values(rest) == Without(old(Values(spine)), k)
  {
    rest := Dropped(spine, k);
    ValuesDropped(spine, k);
    DroppedFrom(spine, k);
    hide IsList, Values, OnlyFrom, Dropped, Without;
    result := Unlink(list, prev, toRemove, spine, k);
  }

  method PushFront(list: Node?<Entry>, e: Entry, ghost spine: seq<Node<Entry>>) returns (newAlloc: Node<Entry>)
    requires IsList(list, spine)
    ensures fresh(newAlloc) && IsList(newAlloc, [newAlloc] + spine)
    ensures newAlloc.data == e
  {
    newAlloc := new Node(e, list);
    EmptySegment(newAlloc);
    assert IsList(list, spine);
    assert newAlloc.next == list;
    hide Segment;
    SegmentAppend(newAlloc, [], newAlloc, list);
    assert [] + [newAlloc] == [newAlloc];
    SegmentConcat(newAlloc, [newAlloc], list, spine, null);
  }

  /** The search loop of the insertion. */
  method FindPlace(list: Node?<Entry>, pos: nat, ghost spine: seq<Node<Entry>>)
    returns (prev: Node?<Entry>, current: Node?<Entry>, ghost k: nat)
    requires IsList(list, spine)
    ensures At(list, spine, prev, current, k) && k == Place(Values(spine), pos)
  {
    hide At, Values, Place, IsList;
    current, prev, k := list, null, 0;
    AtStart(list, spine);
    while current != null
      invariant At(list, spine, prev, current, k) && k <= |spine|
      invariant forall i :: 0 <= i < k ==> spine[i].data.pos <= pos
      decreases |spine| - k
    {
      AtNext(list, spine, prev, current, k);
      if pos < current.data.pos {
        break;
      }
      prev := current;
      current := current.next;
      k := k + 1;
    }
    if current == null {
      AtEnd(list, spine, prev, k);
    }
    PlaceIs(Values(spine), pos, k);
  }

  method InsertSorted(list: Node?<Entry>, e: Entry, ghost spine: seq<Node<Entry>>)
    returns (result: Node<Entry>, ghost newAlloc: Node<Entry>, ghost inserted: seq<Node<Entry>>)
    requires IsList(list, spine)
    modifies spine`next
    ensures fresh(newAlloc) && OnlyFrom(inserted, spine + [newAlloc])
    ensures IsList(result, inserted) && Values(inserted) == Inserted(old(Values(spine)), e)
  {
    hide Segment, Place, Values, At, OnlyFrom;
    var added := new Node(e, null);
    newAlloc := added;
    var prev, current;
    ghost var k;
    prev, current, k := FindPlace(list, e.pos, spine);
    ValuesInserted(spine, added, k);
    InsertedFrom(spine, added, k);
    inserted := Spliced(spine, added, k);
    result := LinkIn(list, prev, current, added, spine, k);
  }

  lemma {:induction false} PlaceIs(l: seq<Entry>, pos: nat, k: nat)
    requires k <= |l|
    requires forall i :: 0 <= i < k ==> l[i].pos <= pos
    requires k < |l| ==> pos < l[k].pos
    ensures Place(l, pos) == k
  {
    if k > 0 {
      PlaceIs(l[1..], pos, k - 1);
    }
  }

  ghost predicate MeltState(list: Node?<Entry>, spine: seq<Node<Entry>>, k: nat, goal: seq<Entry>)
    reads spine
  {
    && 0 < k <= |spine| && IsList(list, spine)
    && goal == Values(spine)[..k - 1] + Melted(Values(spine)[k - 1..])
  }

  lemma MeltSkips(list: Node?<Entry>, spine: seq<Node<Entry>>, k: nat, goal: seq<Entry>)
    requires MeltState(list, spine, k, goal) && k < |spine|
    requires spine[k - 1].data.End() != spine[k].data.pos
    ensures MeltState(list, spine, k + 1, goal)
  {
    var l := Values(spine);
    hide Values, Segment;
    var t := l[k - 1..];
    assert t[1..] == l[k..];
    assert Melted(t) == [l[k - 1]] + Melted(l[k..]);
    assert l[..k] == l[..k - 1] + [l[k - 1]];
  }

  lemma JoinFirst(l: seq<Entry>)
    requires |l| >= 2 && l[0].End() == l[1].pos
    ensures Melted(l) == Melted([Entry(l[0].pos, l[0].size + l[1].size)] + l[2..])
  {
  }

  /** What melting entries k - 1 and k does to the list of entries. */
  lemma MeltJoins(l: seq<Entry>, m: seq<Entry>, k: nat)
    requires 0 < k < |l| && |m| == |l| - 1 && l[k - 1].End() == l[k].pos
    requires forall i :: 0 <= i < k - 1 ==> m[i] == l[i]
    requires m[k - 1] == Entry(l[k - 1].pos, l[k - 1].size + l[k].size)
    requires forall i :: k <= i < |m| ==> m[i] == l[i + 1]
    ensures m[..k - 1] + Melted(m[k - 1..]) == l[..k - 1] + Melted(l[k - 1..])
  {
    assert m[..k - 1] == l[..k - 1];
    var t := l[k - 1..];
    JoinFirst(t);
    hide Melted;
    assert m[k - 1..] == [Entry(t[0].pos, t[0].size + t[1].size)] + t[2..];
  }

  /** The body of the melting branch. */
  method MeltPair(list: Node<Entry>, prev: Node<Entry>, current: Node<Entry>,
                  ghost spine: seq<Node<Entry>>, ghost k: nat, ghost goal: seq<Entry>)
    returns (ghost rest: seq<Node<Entry>>)
    requires MeltState(list, spine, k, goal) && k < |spine| && prev == spine[k - 1] && current == spine[k]
    requires prev.data.pos + prev.data.size == current.data.pos
    modifies prev
    ensures MeltState(list, rest, k, goal) && |rest| == |spine| - 1 && rest[k - 1] == prev
    ensures OnlyFrom(rest, spine)
  {
    hide Segment, Melted;
    ghost var l := Values(spine);
    AroundPair(list, spine, k);
    rest := Dropped(spine, k);
    prev.data := Entry(prev.data.pos, prev.data.size + current.data.size);
    prev.next := current.next;
    WithoutSecond(list, spine, current.next, k);
    MeltJoins(l, Values(rest), k);
  }

  /** The list before and after nodes k - 1 and k. */
  lemma AroundPair(list: Node<Entry>, spine: seq<Node<Entry>>, k: nat)
    requires IsList(list, spine) && 0 < k < |spine|
    ensures Segment(list, spine[..k - 1], spine[k - 1]) && Segment(spine[k].next, spine[k + 1..], null)
    ensures spine[k - 1] !in spine[..k - 1] && spine[k - 1] !in spine[k..]
  {
    hide Segment;
    SegmentSplit(list, spine, null, k);
    SegmentSplit(list, spine, null, k - 1);
    OnlyAt(list, spine, k - 1);
  }

  /** Node k - 1 has been linked to what follows node k. */
  lemma WithoutSecond(list: Node<Entry>, spine: seq<Node<Entry>>, next: Node?<Entry>, k: nat)
    requires 0 < k < |spine| && Segment(list, spine[..k - 1], spine[k - 1]) && spine[k - 1].next == next
    requires Segment(next, spine[k + 1..], null)
    ensures IsList(list, Dropped(spine, k))
  {
    hide Segment;
    SegmentAppend(list, spine[..k - 1], spine[k - 1], next);
    assert spine[..k - 1] + [spine[k - 1]] == spine[..k];
    SegmentConcat(list, spine[..k], next, spine[k + 1..], null);
  }

  lemma MeltStart(list: Node<Entry>, spine: seq<Node<Entry>>)
    requires IsList(list, spine)
    ensures MeltState(list, spine, 1, Melted(Values(spine)))
    ensures list.next == null ==> Melted(Values(spine)) == Values(spine)
  {
    assert Segment(list.next, spine[1..], null);
  }

  method Melt(list: Node?<Entry>, ghost spine: seq<Node<Entry>>)
    returns (result: Node?<Entry>, ghost melted: seq<Node<Entry>>)
    requires IsList(list, spine)
    modifies spine
    ensures result == list && IsList(list, melted) && OnlyFrom(melted, spine)
    ensures Values(melted) == Melted(old(Values(spine)))
  {
    result := list;
    melted := spine;
    if list == null || list.next == null {
      if list != null {
        MeltStart(list, spine);
      }
      return;
    }
    MeltStart(list, spine);
    var current, prev := list.next, list;
    ghost var k, goal := 1, Melted(Values(spine));
    assert spine[0] == list;
    hide Segment, Melted, Values;
    while current != null
      invariant MeltState(list, melted, k, goal) && prev == melted[k - 1] && current == prev.next
      invariant OnlyFrom(melted, spine)
      decreases |melted| - k
    {
      NextNode(list, melted, k);
      assert melted[k - 1] in melted;
      if prev.data.pos + prev.data.size == current.data.pos {
        melted := MeltPair(list, prev, current, melted, k, goal);
        current := prev.next;
      } else {
        MeltSkips(list, melted, k, goal);
        prev := current;
        current := current.next;
        k := k + 1;
      }
    }
    NextNode(list, melted, k);
    MeltEnd(list, melted, goal);
  }

  lemma MeltEnd(list: Node?<Entry>, spine: seq<Node<Entry>>, goal: seq<Entry>)
    requires MeltState(list, spine, |spine|, goal)
    ensures goal == Values(spine)
  {
    var l := Values(spine);
    assert l == l[..|l| - 1] + l[|l| - 1..];
  }

  lemma {:induction false} FitIs(l: seq<Entry>, n: nat, k: nat)
    requires k <= |l|
    requires forall i :: 0 <= i < k ==> l[i].size < n
    requires k < |l| ==> l[k].size >= n
    ensures FirstFit(l, n) == k
  {
    if k > 0 {
      FitIs(l[1..], n, k - 1);
    }
  }

  /** The search loop of the allocation. */
  method FindFit(list: Node?<Entry>, n: nat, ghost spine: seq<Node<Entry>>)
    returns (prev: Node?<Entry>, current: Node?<Entry>, ghost k: nat)
    requires IsList(list, spine)
    ensures At(list, spine, prev, current, k) && k == FirstFit(Values(spine), n)
    ensures if k < |spine| then current == spine[k] else current == null
  {
    hide At, Values, FirstFit, IsList;
    current, prev, k := list, null, 0;
    AtStart(list, spine);
    while current != null
      invariant At(list, spine, prev, current, k) && k <= |spine|
      invariant forall i :: 0 <= i < k ==> spine[i].data.size < n
      decreases |spine| - k
    {
      AtNext(list, spine, prev, current, k);
      if current.data.size >= n {
        break;
      }
      prev := current;
      current := current.next;
      k := k + 1;
    }
    if current == null {
      AtEnd(list, spine, prev, k);
    }
    FitIs(Values(spine), n, k);
  }

  /** The first node in a list that starts at an address, if any. */
  function FirstAt(l: seq<Entry>, pos: nat): (k: nat)
    ensures k <= |l|
    ensures forall i :: 0 <= i < k ==> l[i].pos != pos
    ensures k < |l| ==> l[k].pos == pos
  {
    if l == [] || l[0].pos == pos then 0 else 1 + FirstAt(l[1..], pos)
  }

  lemma {:induction false} FirstAtIs(l: seq<Entry>, pos: nat, k: nat)
    requires k <= |l|
    requires forall i :: 0 <= i < k ==> l[i].pos != pos
    requires k < |l| ==> l[k].pos == pos
    ensures FirstAt(l, pos) == k
  {
    if k > 0 {
      FirstAtIs(l[1..], pos, k - 1);
    }
  }

  /** The search loop of the release. */
  method FindAt(list: Node?<Entry>, pos: nat, ghost spine: seq<Node<Entry>>)
    returns (prev: Node?<Entry>, current: Node?<Entry>, ghost k: nat)
    requires IsList(list, spine)
    ensures At(list, spine, prev, current, k) && k == FirstAt(Values(spine), pos)
    ensures if k < |spine| then current == spine[k] else current == null
  {
    hide At, Values, FirstAt, IsList;
    current, prev, k := list, null, 0;
    AtStart(list, spine);
    while current != null
      invariant At(list, spine, prev, current, k) && k <= |spine|
      invariant forall i :: 0 <= i < k ==> spine[i].data.pos != pos
      decreases |spine| - k
    {
      AtNext(list, spine, prev, current, k);
      if current.data.pos == pos {
        break;
      }
      prev := current;
      current := current.next;
      k := k + 1;
    }
    if current == null {
      AtEnd(list, spine, prev, k);
    }
    FirstAtIs(Values(spine), pos, k);
  }

  /** The first n bytes of a node are handed out. */
  method Shrink(list: Node?<Entry>, current: Node<Entry>, n: nat, ghost spine: seq<Node<Entry>>, ghost k: nat)
    requires IsList(list, spine) && k < |spine| && current == spine[k] && n < current.data.size
    modifies current`data
    ensures Values(spine) == Taken(old(Values(spine)), k, n)
  {
    hide Values;
    OnlyAt(list, spine, k);
    current.data := Entry(current.data.pos + n, current.data.size - n);
  }

  class Bucket {
    var free: Node?<Entry>
    var handedOut: Node?<Entry>
    var size: nat
    ghost const lo: nat
    ghost var freeSpine: seq<Node<Entry>>
    ghost var usedSpine: seq<Node<Entry>>

    ghost function Free(): seq<Entry>
      reads this, freeSpine
    {
      Values(freeSpine)
    }

    ghost function Used(): seq<Entry>
      reads this, usedSpine
    {
      Values(usedSpine)
    }

    ghost function Nodes(): set<Node<Entry>>
      reads this
    {
      set n | n in freeSpine + usedSpine
    }

    ghost predicate WellLinked()
      reads this, freeSpine, usedSpine
    {
      && IsList(free, freeSpine) && IsList(handedOut, usedSpine)
      && Foreign(freeSpine, usedSpine)
    }

    ghost predicate Valid()
      reads this, freeSpine, usedSpine
    {
      WellLinked() && Tiles(lo, size, Free(), Used())
    }

    constructor (pos: nat, size: nat)
      ensures WellLinked() && lo == pos && this.size == size && (Valid() <==> size > 0)
      ensures Free() == [Entry(pos, size)] && Used() == []
      ensures fresh(Nodes())
    {
      var n := new Node(Entry(pos, size), null);
      free, handedOut, this.size, lo := n, null, size, pos;
      freeSpine, usedSpine := [n], [];
      new;
      EmptySegment<Entry>(null);
      assert freeSpine[1..] == [];
      assert Free() == [Entry(pos, size)] && Used() == [];
      if size > 0 {
        WholeTiles(pos, size);
      } else {
        assert Free()[0] in Free();
      }
    }

    /** Pushes an entry to the front of the list of ranges handed out. */
    method AddToUsed(e: Entry)
      requires WellLinked()
      modifies this`handedOut, this`usedSpine
      ensures WellLinked() && Used() == [e] + old(Used())
      ensures fresh(Nodes() - old(Nodes()))
    {
      var n := PushFront(handedOut, e, usedSpine);
      handedOut, usedSpine := n, [n] + usedSpine;
    }

    method RemoveFromFree(prev: Node?<Entry>, current: Node<Entry>, ghost k: nat)
      requires WellLinked() && k < |freeSpine| && current == freeSpine[k]
      requires if k == 0 then prev == null else prev == freeSpine[k - 1]
      modifies this`free, this`freeSpine, Nodes()
      ensures WellLinked() && Used() == old(Used()) && Free() == Without(old(Free()), k)
      ensures Nodes() <= old(Nodes())
    {
      hide IsList, Values, Without;
      ListHead(free, freeSpine);
      ghost var rest;
      free, rest := RemoveListEntry(free, prev, current, freeSpine, k);
      StillForeign(freeSpine, usedSpine, rest);
      freeSpine := rest;
    }

    /** Takes n bytes from the k-th free range, which goes when nothing is left of it. */
    method TakeFrom(prev: Node?<Entry>, current: Node<Entry>, n: nat, ghost k: nat)
      requires WellLinked() && k < |freeSpine| && current == freeSpine[k] && n <= current.data.size
      requires if k == 0 then prev == null else prev == freeSpine[k - 1]
      modifies this`free, this`freeSpine, Nodes()
      ensures WellLinked() && Used() == old(Used()) && Free() == Taken(old(Free()), k, n)
      ensures Nodes() <= old(Nodes())
    {
      hide IsList, Values, Without;
      if current.data.size == n {
        RemoveFromFree(prev, current, k);
      } else {
        Shrink(free, current, n, freeSpine, k);
      }
    }

    /** Where the first fit is: current, whose predecessor is prev, or null. */
    ghost predicate Fit(prev: Node?<Entry>, current: Node?<Entry>, k: nat, n: nat)
      reads this, Nodes()
    {
      && k == FirstFit(Free(), n)
      && (if k < |freeSpine| then current == freeSpine[k] else current == null)
      && (if k == 0 then prev == null else prev == freeSpine[k - 1])
    }

    method Search(n: nat) returns (prev: Node?<Entry>, current: Node?<Entry>, ghost k: nat)
      requires WellLinked()
      ensures k <= |freeSpine| == |Free()| && Fit(prev, current, k, n)
      ensures k < |freeSpine| ==> current.data.pos == Free()[k].pos
    {
      hide IsList, Values, FirstFit, Foreign;
      prev, current, k := FindFit(free, n, freeSpine);
    }

    /** Moves n bytes from the free range found to the ranges handed out. */
    method HandOut(prev: Node?<Entry>, current: Node<Entry>, n: nat, ghost k: nat)
      requires WellLinked() && k < |freeSpine| && Fit(prev, current, k, n)
      modifies this`free, this`freeSpine, this`handedOut, this`usedSpine, Nodes()
      ensures WellLinked() && fresh(Nodes() - old(Nodes()))
      ensures Free() == Taken(old(Free()), k, n)
      ensures Used() == [Entry(old(Free())[k].pos, n)] + old(Used())
    {
      hide IsList, Values, FirstFit, Foreign, Taken;
      AddToUsed(Entry(current.data.pos, n));
      TakeFrom(prev, current, n, k);
    }

    /**
      Hands out the first n bytes of the first free range that is long enough, or 0 for the null
      address and changes nothing if there is none. In a bucket in order and for n > 0, that is the
      lowest run of n unused bytes, and the bucket stays in order.
     */
    method Alloc(n: nat) returns (p: nat)
      requires WellLinked()
      modifies this, Nodes()
      ensures WellLinked() && size == old(size) && fresh(Nodes() - old(Nodes()))
      ensures var f, u := old(Free()), old(Used());
        var k := FirstFit(f, n);
        if k == |f| then p == 0 && Free() == f && Used() == u
        else p == f[k].pos && Free() == Taken(f, k, n) && Used() == [Entry(p, n)] + u
      ensures old(Valid()) && n > 0 ==> Valid()
      ensures old(Valid()) && n > 0 && (exists q :: Available(lo, size, old(Used()), q, n)) ==>
                && Used() == [Entry(p, n)] + old(Used())
                && Available(lo, size, old(Used()), p, n)
                && forall q :: Available(lo, size, old(Used()), q, n) ==> p <= q
      ensures old(Valid()) && n > 0 && (forall q :: !Available(lo, size, old(Used()), q, n)) ==>
                p == 0 && Used() == old(Used()) && Free() == old(Free())
    {
      hide Tiles, Available, FirstFit, Free, Used, WellLinked, Taken;
      ghost var f, u := Free(), Used();
      if Valid() && n > 0 {
        FirstFitIsLowest(lo, size, f, u, n);
        if FirstFit(f, n) < |f| {
          TakenTiles(lo, size, f, u, FirstFit(f, n), n);
        }
      }
      var prev, current;
      ghost var k;
      prev, current, k := Search(n);
      if current == null {
        return 0;
      }
      p := current.data.pos;
      HandOut(prev, current, n, k);
    }

    /**
      Releases the range handed out last of those at pos, or reports 1 and changes nothing if there
      is none. A bucket in order stays in order.
     */
    method Release(pos: nat) returns (status: int)
      requires WellLinked()
      modifies this, Nodes()
      ensures WellLinked() && size == old(size) && fresh(Nodes() - old(Nodes()))
      ensures old(Valid()) ==> Valid()
      ensures var f, u := old(Free()), old(Used());
        var k := FirstAt(u, pos);
        if k == |u| then status == 1 && Used() == u && Free() == f
        else status == 0 && Used() == Without(u, k) && Free() == Released(f, u[k])
    {
      hide Tiles, FirstAt, Free, Used, WellLinked, Without, Inserted, Melted, Released;
      ghost var f, u := Free(), Used();
      if Valid() && FirstAt(u, pos) < |u| {
        ReleasedTiles(lo, size, f, u, FirstAt(u, pos));
      }
      var prev, current;
      ghost var k;
      prev, current, k := SearchUsed(pos);
      if current == null {
        return 1;
      }
      TakeBack(prev, current, k);
      return 0;
    }

    /** Where the range handed out at pos is: current, whose predecessor is prev, or null. */
    ghost predicate Held(prev: Node?<Entry>, current: Node?<Entry>, k: nat, pos: nat)
      reads this, Nodes()
    {
      && k == FirstAt(Used(), pos)
      && (if k < |usedSpine| then current == usedSpine[k] else current == null)
      && (if k == 0 then prev == null else prev == usedSpine[k - 1])
    }

    method SearchUsed(pos: nat) returns (prev: Node?<Entry>, current: Node?<Entry>, ghost k: nat)
      requires WellLinked()
      ensures k <= |usedSpine| == |Used()| && Held(prev, current, k, pos)
      ensures k < |usedSpine| ==> current.data.pos == pos && Used()[k] == current.data
    {
      hide IsList, Values, FirstAt, Foreign;
      prev, current, k := FindAt(handedOut, pos, usedSpine);
    }

    /** Moves the range found back to the free list, which is melted. */
    method TakeBack(prev: Node?<Entry>, current: Node<Entry>, ghost k: nat)
      requires WellLinked() && k < |usedSpine| && current == usedSpine[k]
      requires if k == 0 then prev == null else prev == usedSpine[k - 1]
      modifies this`free, this`freeSpine, this`handedOut, this`usedSpine, Nodes()
      ensures WellLinked() && fresh(Nodes() - old(Nodes()))
      ensures Free() == Released(old(Free()), old(Used())[k]) && Used() == Without(old(Used()), k)
    {
      hide IsList, Values, Foreign, Without, Inserted, Melted;
      var e := Entry(current.data.pos, current.data.size);
      RemoveFromUsed(prev, current, k);
      AddToFree(e);
      MeltFree();
    }

    method RemoveFromUsed(prev: Node?<Entry>, current: Node<Entry>, ghost k: nat)
      requires WellLinked() && k < |usedSpine| && current == usedSpine[k]
      requires if k == 0 then prev == null else prev == usedSpine[k - 1]
      modifies this`handedOut, this`usedSpine, Nodes()
      ensures WellLinked() && Free() == old(Free()) && Used() == Without(old(Used()), k)
      ensures Nodes() <= old(Nodes())
    {
      hide IsList, Values, Without;
      ListHead(handedOut, usedSpine);
      ghost var rest;
      handedOut, rest := RemoveListEntry(handedOut, prev, current, usedSpine, k);
      StillForeign(usedSpine, freeSpine, rest);
      usedSpine := rest;
    }

    method AddToFree(e: Entry)
      requires WellLinked()
      modifies this`free, this`freeSpine, Nodes()
      ensures WellLinked() && Used() == old(Used()) && Free() == Inserted(old(Free()), e)
      ensures fresh(Nodes() - old(Nodes()))
    {
      hide IsList, Values, Inserted;
      ghost var n, inserted;
      free, n, inserted := InsertSorted(free, e, freeSpine);
      StillForeign(freeSpine + [n], usedSpine, inserted);
      freeSpine := inserted;
    }

    method MeltFree()
      requires WellLinked()
      modifies this`free, this`freeSpine, Nodes()
      ensures WellLinked() && Used() == old(Used()) && Free() == Melted(old(Free()))
      ensures Nodes() <= old(Nodes())
    {
      hide IsList, Values, Melted;
      ghost var melted;
      free, melted := Melt(free, freeSpine);
      StillForeign(freeSpine, usedSpine, melted);
      freeSpine := melted;
    }
  }
}
