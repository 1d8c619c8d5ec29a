/**
  Index spaces of any number of dimensions: linear indices of points in row-major and in
  column-major order and the way back, with offsets that are computed once per resize.
 */
module Cartesian {
  import opened Division

  /** The number of points of a box. */
  function Volume(e: seq<nat>): nat {
    if e == [] then 1 else e[0] * Volume(e[1..])
  }

  predicate InBox(e: seq<nat>, p: seq<int>) {
    |p| == |e| && forall i :: 0 <= i < |e| ==> 0 <= p[i] < e[i]
  }

  /** The position of a point when the last coordinate runs fastest. */
  function RowIndex(e: seq<nat>, p: seq<int>): int
    requires |p| == |e|
  {
    if e == [] then 0 else Volume(e[1..]) * p[0] + RowIndex(e[1..], p[1..])
  }

  function RowCoords(e: seq<nat>, index: int): (p: seq<int>)
    requires Volume(e) > 0
    ensures |p| == |e|
  {
    if e == [] then []
    else
      PositiveParts(e);
      [index / Volume(e[1..])] + RowCoords(e[1..], index % Volume(e[1..]))
  }

  lemma PositiveParts(e: seq<nat>)
    requires e != [] && Volume(e) > 0
    ensures e[0] > 0 && Volume(e[1..]) > 0
  {
  }

  // ---------- Row-major order ----------

  lemma DigitBound(d: nat, v: nat, q: int, r: int)
    requires 0 <= q < d && 0 <= r < v
    ensures 0 <= v * q + r < d * v
  {
    assert v * (d - q) == d * v - v * q;
    Multiple(v, d - q);
    assert v * q >= 0;
  }

  lemma QuotientBound(d: nat, v: nat, x: int)
    requires v > 0 && 0 <= x < d * v
    ensures 0 <= x / v < d
  {
    var q := x / v;
    assert x == v * q + x % v;
    assert v * (q - d) == v * q - d * v;
    Multiple(v, q - d + 1);
    Multiple(v, q);
    assert v * (q - d + 1) == v * (q - d) + v;
  }

  /** Indices of points of the box are below its volume, and the coordinates come back. */
  lemma {:induction false} RowIndexThenCoords(e: seq<nat>, p: seq<int>)
    requires InBox(e, p)
    ensures 0 <= RowIndex(e, p) < Volume(e)
    ensures RowCoords(e, RowIndex(e, p)) == p
  {
    if e != [] {
      var v, r := Volume(e[1..]), RowIndex(e[1..], p[1..]);
      RowIndexThenCoords(e[1..], p[1..]);
      DigitBound(e[0], v, p[0], r);
      ModUnique(v * p[0] + r, v, p[0], r);
      assert p == [p[0]] + p[1..];
    }
  }

  lemma RowCoordsHead(e: seq<nat>, index: int)
    requires e != [] && Volume(e) > 0
    ensures var p, v := RowCoords(e, index), Volume(e[1..]);
      && v > 0 && Volume(e) == e[0] * v
      && p[0] == index / v && p[1..] == RowCoords(e[1..], index % v)
      && RowIndex(e, p) == v * p[0] + RowIndex(e[1..], p[1..])
  {
    PositiveParts(e);
  }

  /** Coordinates of indices below the volume are in the box, and the index comes back. */
  lemma {:induction false} RowCoordsThenIndex(e: seq<nat>, index: int)
    requires 0 <= index < Volume(e)
    ensures InBox(e, RowCoords(e, index))
    ensures RowIndex(e, RowCoords(e, index)) == index
  {
    if e != [] {
      RowCoordsHead(e, index);
      hide RowCoords, RowIndex, Volume, InBox;
      var v := Volume(e[1..]);
      QuotientBound(e[0], v, index);
      RowCoordsThenIndex(e[1..], index % v);
      BoxCons(e, RowCoords(e, index));
    }
  }

  lemma BoxCons(e: seq<nat>, p: seq<int>)
    requires e != [] && |p| == |e| && 0 <= p[0] < e[0] && InBox(e[1..], p[1..])
    ensures InBox(e, p)
  {
    forall i | 0 < i < |e| ensures 0 <= p[i] < e[i] {
      assert 0 <= p[1..][i - 1] < e[1..][i - 1];
    }
  }

  predicate LexLess(p: seq<int>, q: seq<int>)
    requires |p| == |q|
  {
    p != [] && (p[0] < q[0] || (p[0] == q[0] && LexLess(p[1..], q[1..])))
  }

  /** Row-major order is the lexicographic order of points. */
  lemma {:induction false} RowOrderIsLexicographic(e: seq<nat>, p: seq<int>, q: seq<int>)
    requires InBox(e, p) && InBox(e, q)
    ensures RowIndex(e, p) < RowIndex(e, q) <==> LexLess(p, q)
  {
    if e != [] {
      var v := Volume(e[1..]);
      RowIndexThenCoords(e[1..], p[1..]);
      RowIndexThenCoords(e[1..], q[1..]);
      RowOrderIsLexicographic(e[1..], p[1..], q[1..]);
      DigitsOrdered(v, p[0], RowIndex(e[1..], p[1..]), q[0], RowIndex(e[1..], q[1..]));
    }
  }

  lemma DigitsOrdered(v: nat, q: int, r: int, q': int, r': int)
    requires 0 <= r < v && 0 <= r' < v
    ensures v * q + r < v * q' + r' <==> q < q' || (q == q' && r < r')
  {
    assert v * (q' - q) == v * q' - v * q;
    Multiple(v, q' - q);
  }

  // ---------- Column-major order ----------

  /** The position of a point when the first coordinate runs fastest. */
  function ColIndex(e: seq<nat>, p: seq<int>): int
    requires |p| == |e|
  {
    var n := |e| - 1;
    if e == [] then 0 else ColIndex(e[..n], p[..n]) + Volume(e[..n]) * p[n]
  }

  function Reverse<T>(s: seq<T>): (r: seq<T>)
    ensures |r| == |s|
    ensures forall i :: 0 <= i < |s| ==> r[i] == s[|s| - 1 - i]
  {
    if s == [] then [] else [s[|s| - 1]] + Reverse(s[..|s| - 1])
  }

  lemma ReverseTwice<T>(s: seq<T>)
    ensures Reverse(Reverse(s)) == s
  {
  }

  lemma {:induction false} VolumeAppend(e: seq<nat>, d: nat)
    ensures Volume(e + [d]) == Volume(e) * d
  {
    if e == [] {
      assert e + [d] == [d] && [d][1..] == [];
    } else {
      VolumeAppend(e[1..], d);
      assert (e + [d])[1..] == e[1..] + [d];
      assert e[0] * (Volume(e[1..]) * d) == (e[0] * Volume(e[1..])) * d;
    }
  }

  lemma {:induction false} VolumeReverse(e: seq<nat>)
    ensures Volume(Reverse(e)) == Volume(e)
  {
    if e != [] {
      var n := |e| - 1;
      VolumeReverse(e[..n]);
      VolumeAppend(e[..n], e[n]);
      assert e == e[..n] + [e[n]];
      assert Reverse(e)[1..] == Reverse(e[..n]);
    }
  }

  /** Column-major is row-major with the dimensions in reverse. */
  lemma {:induction false} ColIsReversedRow(e: seq<nat>, p: seq<int>)
    requires |p| == |e|
    ensures ColIndex(e, p) == RowIndex(Reverse(e), Reverse(p))
  {
    if e != [] {
      var n := |e| - 1;
      ColIsReversedRow(e[..n], p[..n]);
      VolumeReverse(e[..n]);
      assert Reverse(e)[1..] == Reverse(e[..n]) && Reverse(p)[1..] == Reverse(p[..n]);
    }
  }

  function ColCoords(e: seq<nat>, index: int): (p: seq<int>)
    requires Volume(e) > 0
    ensures |p| == |e|
  {
    var n := |e| - 1;
    if e == [] then []
    else
      PositivePrefix(e);
      ColCoords(e[..n], index % Volume(e[..n])) + [index / Volume(e[..n])]
  }

  lemma PositivePrefix(e: seq<nat>)
    requires e != [] && Volume(e) > 0
    ensures Volume(e[..|e| - 1]) > 0
  {
    VolumeAppend(e[..|e| - 1], e[|e| - 1]);
    assert e == e[..|e| - 1] + [e[|e| - 1]];
  }

  lemma {:induction false} ColCoordsReversed(e: seq<nat>, index: int)
    requires Volume(e) > 0
    ensures Volume(Reverse(e)) > 0
    ensures ColCoords(e, index) == Reverse(RowCoords(Reverse(e), index))
  {
    VolumeReverse(e);
    if e != [] {
      var n := |e| - 1;
      PositivePrefix(e);
      VolumeReverse(e[..n]);
      var v := Volume(e[..n]);
      ColCoordsReversed(e[..n], index % v);
      assert Reverse(e)[1..] == Reverse(e[..n]);
      ReverseCons(index / v, RowCoords(Reverse(e[..n]), index % v));
    }
  }

  lemma ReverseCons<T>(x: T, s: seq<T>)
    ensures Reverse([x] + s) == Reverse(s) + [x]
  {
  }

  lemma ReversedInBox(e: seq<nat>, p: seq<int>)
    requires InBox(e, p)
    ensures InBox(Reverse(e), Reverse(p))
  {
    hide Reverse;
    forall i | 0 <= i < |e| ensures 0 <= Reverse(p)[i] < Reverse(e)[i] {
      var j := |e| - 1 - i;
      assert Reverse(p)[i] == p[j] && Reverse(e)[i] == e[j];
    }
  }

  lemma InBoxReversed(e: seq<nat>, p: seq<int>)
    requires |p| == |e|
    ensures InBox(Reverse(e), Reverse(p)) <==> InBox(e, p)
  {
    ReverseTwice(e);
    ReverseTwice(p);
    hide Reverse, InBox;
    if InBox(e, p) {
      ReversedInBox(e, p);
    }
    if InBox(Reverse(e), Reverse(p)) {
      ReversedInBox(Reverse(e), Reverse(p));
    }
  }

  lemma ColIndexThenCoords(e: seq<nat>, p: seq<int>)
    requires InBox(e, p)
    ensures 0 <= ColIndex(e, p) < Volume(e)
    ensures ColCoords(e, ColIndex(e, p)) == p
  {
    InBoxReversed(e, p);
    ColIsReversedRow(e, p);
    VolumeReverse(e);
    RowIndexThenCoords(Reverse(e), Reverse(p));
    ColCoordsReversed(e, ColIndex(e, p));
    ReverseTwice(p);
  }

  lemma ColCoordsThenIndex(e: seq<nat>, index: int)
    requires 0 <= index < Volume(e)
    ensures InBox(e, ColCoords(e, index))
    ensures ColIndex(e, ColCoords(e, index)) == index
  {
    VolumeReverse(e);
    ColCoordsReversed(e, index);
    var r := RowCoords(Reverse(e), index);
    RowCoordsThenIndex(Reverse(e), index);
    ReverseTwice(r);
    InBoxReversed(e, ColCoords(e, index));
    ColIsReversedRow(e, ColCoords(e, index));
  }

  /** Column-major order is the lexicographic order of points read backwards. */
  lemma ColOrderIsReverseLexicographic(e: seq<nat>, p: seq<int>, q: seq<int>)
    requires InBox(e, p) && InBox(e, q)
    ensures ColIndex(e, p) < ColIndex(e, q) <==> LexLess(Reverse(p), Reverse(q))
  {
    InBoxReversed(e, p);
    InBoxReversed(e, q);
    ColIsReversedRow(e, p);
    ColIsReversedRow(e, q);
    RowOrderIsLexicographic(Reverse(e), Reverse(p), Reverse(q));
  }

  // ---------- Both orders ----------

  datatype Arrangement = RowMajor | ColMajor

  function Index(order: Arrangement, e: seq<nat>, p: seq<int>): int
    requires |p| == |e|
  {
    if order.RowMajor? then RowIndex(e, p) else ColIndex(e, p)
  }

  function Coords(order: Arrangement, e: seq<nat>, index: int): (p: seq<int>)
    requires Volume(e) > 0
    ensures |p| == |e|
  {
    if order.RowMajor? then RowCoords(e, index) else ColCoords(e, index)
  }

  /** In either order, indices and points of the box are in one-to-one correspondence. */
  lemma IndexAndCoordsInverse(order: Arrangement, e: seq<nat>, p: seq<int>, index: int)
    ensures InBox(e, p) ==> 0 <= Index(order, e, p) < Volume(e) && Coords(order, e, Index(order, e, p)) == p
    ensures 0 <= index < Volume(e) ==>
              InBox(e, Coords(order, e, index)) && Index(order, e, Coords(order, e, index)) == index
  {
    if InBox(e, p) {
      RowIndexThenCoords(e, p);
      ColIndexThenCoords(e, p);
    }
    if 0 <= index < Volume(e) {
      RowCoordsThenIndex(e, index);
      ColCoordsThenIndex(e, index);
    }
  }

  // ---------- Views ----------

  datatype View = View(offsets: seq<int>, extents: seq<nat>)

  function Moved(p: seq<int>, delta: seq<int>): (r: seq<int>)
    requires |p| == |delta|
    ensures |r| == |p| && forall i :: 0 <= i < |p| ==> r[i] == p[i] + delta[i]
  {
    if p == [] then [] else [p[0] + delta[0]] + Moved(p[1..], delta[1..])
  }

  predicate InView(v: View, p: seq<int>) {
    |p| == |v.offsets| == |v.extents| &&
    forall i :: 0 <= i < |p| ==> v.offsets[i] <= p[i] < v.offsets[i] + v.extents[i]
  }

  function ViewCoords(order: Arrangement, v: View, index: int): seq<int>
    requires |v.offsets| == |v.extents| && Volume(v.extents) > 0
  {
    Moved(Coords(order, v.extents, index), v.offsets)
  }

  /** The position of a point of the view among the points of the view. */
  function ViewIndex(order: Arrangement, v: View, p: seq<int>): int
    requires |p| == |v.offsets| == |v.extents|
  {
    Index(order, v.extents, Moved(p, Negated(v.offsets)))
  }

  lemma MoveBack(p: seq<int>, offsets: seq<int>, back: seq<int>)
    requires |p| == |offsets| == |back| && forall i :: 0 <= i < |p| ==> back[i] == -offsets[i]
    ensures Moved(Moved(p, offsets), back) == p && Moved(Moved(p, back), offsets) == p
  {
    hide Moved;
    var there, back' := Moved(p, offsets), Moved(p, back);
    var a, b := Moved(there, back), Moved(back', offsets);
    forall i | 0 <= i < |p| ensures a[i] == p[i] && b[i] == p[i] {
      assert there[i] == p[i] + offsets[i] && back'[i] == p[i] + back[i];
    }
    assert a == p && b == p;
  }

  function Negated(p: seq<int>): (r: seq<int>)
    ensures |r| == |p| && forall i :: 0 <= i < |p| ==> r[i] == -p[i]
  {
    if p == [] then [] else [-p[0]] + Negated(p[1..])
  }

  /** Counting through a view visits every point of its box exactly once. */
  lemma ViewIsEnumerated(order: Arrangement, v: View, p: seq<int>, index: int)
    requires |v.offsets| == |v.extents|
    ensures 0 <= index < Volume(v.extents) ==>
              InView(v, ViewCoords(order, v, index)) && ViewIndex(order, v, ViewCoords(order, v, index)) == index
    ensures InView(v, p) ==>
              0 <= ViewIndex(order, v, p) < Volume(v.extents) && ViewCoords(order, v, ViewIndex(order, v, p)) == p
  {
    var back := Negated(v.offsets);
    hide Moved, Volume, Coords, Index, Negated;
    if 0 <= index < Volume(v.extents) {
      var c := Coords(order, v.extents, index);
      IndexAndCoordsInverse(order, v.extents, c, index);
      MoveBack(c, v.offsets, back);
    }
    if InView(v, p) {
      var c := Moved(p, back);
      IndexAndCoordsInverse(order, v.extents, c, 0);
      MoveBack(p, v.offsets, back);
    }
  }

  // ---------- The index space ----------

  lemma VolumePrefix(e: seq<nat>, i: nat)
    requires i < |e|
    ensures Volume(e[..i + 1]) == Volume(e[..i]) * e[i]
  {
    VolumeAppend(e[..i], e[i]);
    assert e[..i + 1] == e[..i] + [e[i]];
  }

  lemma VolumeSuffix(e: seq<nat>, i: nat)
    requires i < |e|
    ensures Volume(e[i..]) == Volume(e[i + 1..]) * e[i]
  {
    assert e[i..][1..] == e[i + 1..];
  }

  lemma {:induction false} PositiveSuffix(e: seq<nat>, i: nat)
    requires i <= |e| && Volume(e) > 0
    ensures Volume(e[i..]) > 0
  {
    if i > 0 {
      PositiveParts(e);
      PositiveSuffix(e[1..], i - 1);
      assert e[1..][i - 1..] == e[i..];
    } else {
      assert e[0..] == e;
    }
  }

  lemma {:induction false} PositiveFirst(e: seq<nat>, i: nat)
    requires i <= |e| && Volume(e) > 0
    ensures Volume(e[..i]) > 0
    decreases |e| - i
  {
    if i < |e| {
      PositiveFirst(e, i + 1);
      VolumePrefix(e, i);
    } else {
      assert e[..i] == e;
    }
  }

  lemma RowIndexStep(e: seq<nat>, p: seq<int>, i: nat)
    requires |p| == |e| && i < |e|
    ensures RowIndex(e[i..], p[i..]) == Volume(e[i + 1..]) * p[i] + RowIndex(e[i + 1..], p[i + 1..])
  {
    assert e[i..][1..] == e[i + 1..] && p[i..][1..] == p[i + 1..];
  }

  lemma ColIndexStep(e: seq<nat>, p: seq<int>, i: nat)
    requires |p| == |e| && i < |e|
    ensures ColIndex(e[..i + 1], p[..i + 1]) == ColIndex(e[..i], p[..i]) + Volume(e[..i]) * p[i]
  {
    assert e[..i + 1][..i] == e[..i] && p[..i + 1][..i] == p[..i];
  }

  lemma RowCoordsStep(e: seq<nat>, i: nat, index: int)
    requires i < |e| && Volume(e[i..]) > 0
    ensures Volume(e[i + 1..]) > 0
    ensures RowCoords(e[i..], index)
      == [index / Volume(e[i + 1..])] + RowCoords(e[i + 1..], index % Volume(e[i + 1..]))
  {
    PositiveParts(e[i..]);
    assert e[i..][1..] == e[i + 1..];
  }

  lemma ColCoordsStep(e: seq<nat>, i: nat, index: int)
    requires i < |e| && Volume(e[..i + 1]) > 0
    ensures Volume(e[..i]) > 0
    ensures ColCoords(e[..i + 1], index)
      == ColCoords(e[..i], index % Volume(e[..i])) + [index / Volume(e[..i])]
  {
    PositivePrefix(e[..i + 1]);
    assert e[..i + 1][..i] == e[..i];
  }

  /** The offsets of a box in one order: products of the extents that run faster. */
  ghost predicate AreOffsets(order: Arrangement, e: seq<nat>, offset: seq<nat>) {
    |offset| == |e| &&
    forall i :: 0 <= i < |e| ==> offset[i] == FasterVolume(order, e, i)
  }

  ghost function FasterVolume(order: Arrangement, e: seq<nat>, i: nat): nat
    requires i < |e|
  {
    if order.RowMajor? then Volume(e[i + 1..]) else Volume(e[..i])
  }

  /** The loop that computes offsets, from the fastest dimension on. */
  method FillOffsets(order: Arrangement, e: array<nat>, offset: array<nat>)
    requires e != offset && 0 < e.Length == offset.Length
    modifies offset
    ensures AreOffsets(order, e[..], offset[..])
  {
    ghost var s := e[..];
    var n := e.Length;
    hide Volume;
    NoVolume();
    if order.RowMajor? {
      offset[n - 1] := 1;
      assert s[n..] == [];
      var i := n - 2;
      while i >= 0
        invariant -1 <= i <= n - 2 && e[..] == s
        invariant forall k :: i < k < n ==> offset[k] == FasterVolume(order, s, k)
      {
        VolumeSuffix(s, i + 1);
        assert offset[i + 1] == FasterVolume(order, s, i + 1);
        offset[i] := offset[i + 1] * e[i + 1];
        i := i - 1;
      }
    } else {
      offset[0] := 1;
      assert s[..0] == [];
      for i := 1 to n
        invariant e[..] == s
        invariant forall k :: 0 <= k < i ==> offset[k] == FasterVolume(order, s, k)
      {
        VolumePrefix(s, i - 1);
        assert offset[i - 1] == FasterVolume(order, s, i - 1);
        offset[i] := offset[i - 1] * e[i - 1];
      }
    }
  }

  lemma NoVolume()
    ensures Volume([]) == 1
  {
  }

  /** The division loop in row-major order, from the slowest dimension on. */
  method DivideRow(ghost e: seq<nat>, offset: array<nat>, index0: int) returns (pos: array<int>)
    requires Volume(e) > 0 && e != [] && AreOffsets(RowMajor, e, offset[..])
    ensures fresh(pos) && pos[..] == RowCoords(e, index0)
  {
    var n := offset.Length;
    var index := index0;
    pos := new int[n];
    ghost var goal := RowCoords(e, index0);
    hide Volume, RowCoords;
    assert e[0..] == e;
    for i := 0 to n
      invariant Volume(e[i..]) > 0 && offset[..] == old(offset[..])
      invariant goal == pos[..i] + RowCoords(e[i..], index)
    {
      RowCoordsStep(e, i, index);
      assert offset[i] == FasterVolume(RowMajor, e, i);
      pos[i] := index / offset[i];
      index := index % offset[i];
      assert pos[..i + 1] == pos[..i] + [pos[i]];
    }
    assert e[n..] == [];
    assert pos[..n] == pos[..];
  }

  /** The division loop in column-major order, from the slowest dimension on. */
  method DivideCol(ghost e: seq<nat>, offset: array<nat>, index0: int) returns (pos: array<int>)
    requires Volume(e) > 0 && e != [] && AreOffsets(ColMajor, e, offset[..])
    ensures fresh(pos) && pos[..] == ColCoords(e, index0)
  {
    var n := offset.Length;
    var index := index0;
    pos := new int[n];
    ghost var goal := ColCoords(e, index0);
    hide Volume, ColCoords;
    assert e[..n] == e;
    assert pos[n..] == [];
    for i := n downto 0
      invariant Volume(e[..i]) > 0 && offset[..] == old(offset[..])
      invariant goal == ColCoords(e[..i], index) + pos[i..]
    {
      ghost var tail := pos[i + 1..];
      ColCoordsStep(e, i, index);
      assert offset[i] == FasterVolume(ColMajor, e, i);
      pos[i] := index / offset[i];
      index := index % offset[i];
      assert pos[i + 1..] == tail;
      Reassociate(ColCoords(e[..i], index), pos[i], tail, pos[i..]);
    }
    assert e[..0] == [];
    assert pos[0..] == pos[..];
  }

  lemma Reassociate(head: seq<int>, x: int, tail: seq<int>, rest: seq<int>)
    requires rest != [] && rest[0] == x && rest[1..] == tail
    ensures head + [x] + tail == head + rest
  {
    assert rest == [x] + tail;
  }

  method Divide(order: Arrangement, ghost e: seq<nat>, offset: array<nat>, index: int) returns (pos: array<int>)
    requires Volume(e) > 0 && e != [] && AreOffsets(order, e, offset[..])
    ensures fresh(pos) && pos[..] == Coords(order, e, index)
  {
    if order.RowMajor? {
      pos := DivideRow(e, offset, index);
    } else {
      pos := DivideCol(e, offset, index);
    }
  }

  class IndexSpace {
    /** The order of the class, used where none is requested. */
    const arrangement: Arrangement
    const extents: array<nat>
    const offsetRow: array<nat>
    const offsetCol: array<nat>
    var size: nat

    /** The dimensions are fixed, at least one. */
    ghost predicate Shaped() {
      && 0 < extents.Length == offsetRow.Length == offsetCol.Length
      && extents != offsetRow && extents != offsetCol && offsetRow != offsetCol
    }

    ghost predicate Valid()
      reads this, extents, offsetRow, offsetCol
    {
      && Shaped() && size == Volume(extents[..])
      && AreOffsets(RowMajor, extents[..], offsetRow[..])
      && AreOffsets(ColMajor, extents[..], offsetCol[..])
    }

    constructor (arrangement: Arrangement, e: seq<nat>)
      requires e != []
      ensures Valid() && extents[..] == e && fresh(extents) && fresh(offsetRow) && fresh(offsetCol)
      ensures this.arrangement == arrangement
    {
      this.arrangement := arrangement;
      extents := new nat[|e|](i requires 0 <= i < |e| => e[i]);
      offsetRow := new nat[|e|];
      offsetCol := new nat[|e|];
      new;
      Resize(e);
    }

    method Resize(e: seq<nat>)
      requires Shaped() && |e| == extents.Length
      modifies this, extents, offsetRow, offsetCol
      ensures Valid() && extents[..] == e
    {
      size := 1;
      hide Volume;
      NoVolume();
      assert e[..0] == [];
      for i := 0 to extents.Length
        invariant size == Volume(e[..i])
        invariant forall k :: 0 <= k < i ==> extents[k] == e[k]
      {
        extents[i] := e[i];
        size := size * extents[i];
        VolumePrefix(e, i);
      }
      assert e[..|e|] == e && extents[..] == e;
      FillOffsets(RowMajor, extents, offsetRow);
      FillOffsets(ColMajor, extents, offsetCol);
    }

    method ResizeDimension(dim: nat, extent: nat)
      requires Valid() && dim < extents.Length
      modifies this, extents, offsetRow, offsetCol
      ensures Valid() && extents[..] == old(extents[..])[dim := extent]
    {
      extents[dim] := extent;
      Resize(extents[..]);
    }

    /** The linear index of a point of the box. */
    method At(order: Arrangement, point: seq<int>) returns (offs: int)
      requires Valid() && size > 0 && InBox(extents[..], point)
      ensures offs == Index(order, extents[..], point)
    {
      ghost var e := extents[..];
      offs := 0;
      hide Volume, RowIndex, ColIndex;
      AtStart(e, point);
      for i := 0 to extents.Length
        invariant order.RowMajor? ==> offs + RowIndex(e[i..], point[i..]) == RowIndex(e, point)
        invariant order.ColMajor? ==> offs == ColIndex(e[..i], point[..i])
      {
        RowIndexStep(e, point, i);
        ColIndexStep(e, point, i);
        var offsetDim := if order.RowMajor? then offsetRow[i] else offsetCol[i];
        assert offsetDim == FasterVolume(order, e, i);
        offs := offs + offsetDim * point[i];
      }
      AtEnd(e, point);
    }

    /**
      The linear index of a point given relative to a view. The order requested is not passed on to
      the conversion of the moved point: the index is the one in the order of the class.
     */
    method AtView(order: Arrangement, point: seq<int>, view: View) returns (offs: int)
      requires Valid() && size > 0 && |point| == |view.offsets|
      requires InBox(extents[..], Moved(point, view.offsets))
      ensures offs == Index(arrangement, extents[..], Moved(point, view.offsets))
    {
      var coords := [];
      hide Moved, Index, InBox;
      for d := 0 to |point|
        invariant |coords| == d && forall k :: 0 <= k < d ==> coords[k] == point[k] + view.offsets[k]
      {
        coords := coords + [point[d] + view.offsets[d]];
      }
      assert coords == Moved(point, view.offsets);
      offs := At(arrangement, coords);
    }

    /** The point at a linear index. */
    method CoordsAt(order: Arrangement, index: int) returns (pos: array<int>)
      requires Valid() && 0 <= index < size
      ensures fresh(pos) && InBox(extents[..], pos[..]) && Index(order, extents[..], pos[..]) == index
    {
      if order.RowMajor? {
        pos := Divide(order, extents[..], offsetRow, index);
      } else {
        pos := Divide(order, extents[..], offsetCol, index);
      }
      IndexAndCoordsInverse(order, extents[..], pos[..], index);
    }
  }

  lemma AtStart(e: seq<nat>, p: seq<int>)
    requires |p| == |e|
    ensures RowIndex(e[0..], p[0..]) == RowIndex(e, p) && ColIndex(e[..0], p[..0]) == 0
  {
    assert e[0..] == e && p[0..] == p;
  }

  lemma AtEnd(e: seq<nat>, p: seq<int>)
    requires |p| == |e|
    ensures RowIndex(e[|e|..], p[|e|..]) == 0 && ColIndex(e[..|e|], p[..|e|]) == ColIndex(e, p)
  {
    assert e[..|e|] == e && p[..|e|] == p;
  }

  /** The point at a linear index among the points of a view, whatever the space it is a view of. */
  method CoordsInView(order: Arrangement, view: View, index: int) returns (pos: array<int>)
    requires |view.offsets| == |view.extents| > 0 && 0 <= index < Volume(view.extents)
    ensures fresh(pos) && InView(view, pos[..]) && ViewIndex(order, view, pos[..]) == index
  {
    var extents := new nat[|view.extents|](i requires 0 <= i < |view.extents| => view.extents[i]);
    var offset := new nat[|view.extents|];
    assert extents[..] == view.extents;
    FillOffsets(order, extents, offset);
    pos := Divide(order, view.extents, offset, index);
    ghost var c := pos[..];
    for i := 0 to pos.Length
      invariant forall k :: 0 <= k < i ==> pos[k] == c[k] + view.offsets[k]
      invariant forall k :: i <= k < pos.Length ==> pos[k] == c[k]
    {
      pos[i] := pos[i] + view.offsets[i];
    }
    assert pos[..] == ViewCoords(order, view, index);
    ViewIsEnumerated(order, view, pos[..], index);
  }

  // ---------- Which order a view is indexed in ----------

  predicate AtMostOneWide(e: seq<nat>) {
    forall i, j :: 0 <= i < j < |e| ==> e[i] <= 1 || e[j] <= 1
  }

  function Total(p: seq<int>): int {
    if p == [] then 0 else p[0] + Total(p[1..])
  }

  lemma {:induction false} TotalAppend(p: seq<int>, x: int)
    ensures Total(p + [x]) == Total(p) + x
  {
    if p == [] {
      assert p + [x] == [x] && [x][1..] == [];
    } else {
      TotalAppend(p[1..], x);
      assert (p + [x])[1..] == p[1..] + [x];
    }
  }

  lemma {:induction false} VolumeOfOnes(e: seq<nat>)
    requires forall i :: 0 <= i < |e| ==> e[i] == 1
    ensures Volume(e) == 1
  {
    if e != [] {
      VolumeOfOnes(e[1..]);
    }
  }

  lemma {:induction false} NarrowRow(e: seq<nat>, p: seq<int>)
    requires InBox(e, p) && AtMostOneWide(e)
    ensures RowIndex(e, p) == Total(p)
  {
    if e != [] {
      assert AtMostOneWide(e[1..]) by {
        assert forall i :: 0 <= i < |e[1..]| ==> e[1..][i] == e[i + 1];
      }
      NarrowRow(e[1..], p[1..]);
      if e[0] > 1 {
        forall i | 0 <= i < |e[1..]| ensures e[1..][i] == 1 {
          assert e[1..][i] == e[i + 1];
        }
        VolumeOfOnes(e[1..]);
      } else {
        assert p[0] == 0;
      }
    }
  }

  lemma {:induction false} NarrowCol(e: seq<nat>, p: seq<int>)
    requires InBox(e, p) && AtMostOneWide(e)
    ensures ColIndex(e, p) == Total(p)
  {
    if e != [] {
      var n := |e| - 1;
      NarrowCol(e[..n], p[..n]);
      TotalAppend(p[..n], p[n]);
      assert p == p[..n] + [p[n]];
      if e[n] > 1 {
        VolumeOfOnes(e[..n]);
      } else {
        assert p[n] == 0;
      }
    }
  }

  function Unit(n: nat, a: nat): (p: seq<int>)
    ensures |p| == n && forall i :: 0 <= i < n ==> p[i] == if i == a then 1 else 0
  {
    seq(n, i => if i == a then 1 else 0)
  }

  lemma {:induction false} RowOfUnit(e: seq<nat>, a: nat)
    requires a < |e|
    ensures RowIndex(e, Unit(|e|, a)) == Volume(e[a + 1..])
  {
    var p := Unit(|e|, a);
    if a == 0 {
      RowOfZeros(e[1..], p[1..]);
    } else {
      RowOfUnit(e[1..], a - 1);
      assert p[1..] == Unit(|e[1..]|, a - 1);
      assert e[1..][a..] == e[a + 1..];
    }
  }

  lemma {:induction false} RowOfZeros(e: seq<nat>, p: seq<int>)
    requires |p| == |e| && forall i :: 0 <= i < |p| ==> p[i] == 0
    ensures RowIndex(e, p) == 0
  {
    if e != [] {
      RowOfZeros(e[1..], p[1..]);
    }
  }

  lemma {:induction false} ColOfUnit(e: seq<nat>, a: nat)
    requires a < |e|
    ensures ColIndex(e, Unit(|e|, a)) == Volume(e[..a])
  {
    var n, p := |e| - 1, Unit(|e|, a);
    if a == n {
      ColOfZeros(e[..n], p[..n]);
    } else {
      ColOfUnit(e[..n], a);
      assert p[..n] == Unit(n, a);
      assert e[..n][..a] == e[..a];
    }
  }

  lemma {:induction false} ColOfZeros(e: seq<nat>, p: seq<int>)
    requires |p| == |e| && forall i :: 0 <= i < |p| ==> p[i] == 0
    ensures ColIndex(e, p) == 0
  {
    if e != [] {
      ColOfZeros(e[..|e| - 1], p[..|e| - 1]);
    }
  }

  lemma {:induction false} WideVolume(e: seq<nat>, j: nat)
    requires Volume(e) > 0 && j < |e| && e[j] > 1
    ensures Volume(e) > 1
  {
    PositiveParts(e);
    if j > 0 {
      WideVolume(e[1..], j - 1);
    }
    Multiple(Volume(e[1..]), e[0] - 1);
    assert Volume(e[1..]) * (e[0] - 1) == e[0] * Volume(e[1..]) - Volume(e[1..]);
  }

  lemma {:induction false} PositiveExtents(e: seq<nat>, i: nat)
    requires Volume(e) > 0 && i < |e|
    ensures e[i] > 0
  {
    PositiveParts(e);
    if i > 0 {
      PositiveExtents(e[1..], i - 1);
    }
  }

  /** With two wide dimensions the two orders disagree about the unit vector of the first of them. */
  lemma OrdersDisagree(e: seq<nat>) returns (p: seq<int>)
    requires Volume(e) > 0 && !AtMostOneWide(e)
    ensures InBox(e, p) && RowIndex(e, p) != ColIndex(e, p)
  {
    var j0, j :| 0 <= j0 < j < |e| && e[j0] > 1 && e[j] > 1;
    var a := FirstWide(e, j0);
    p := Unit(|e|, a);
    forall i | 0 <= i < |e| ensures 0 <= p[i] < e[i] {
      PositiveExtents(e, i);
    }
    forall i | 0 <= i < a ensures e[..a][i] == 1 {
      PositiveExtents(e, i);
    }
    RowOfUnit(e, a);
    ColOfUnit(e, a);
    VolumeOfOnes(e[..a]);
    PositiveSuffix(e, a + 1);
    WideVolume(e[a + 1..], j - a - 1);
  }

  lemma {:induction false} FirstWide(e: seq<nat>, j: nat) returns (a: nat)
    requires j < |e| && e[j] > 1
    ensures a <= j && e[a] > 1 && forall i :: 0 <= i < a ==> e[i] <= 1
  {
    if e[0] > 1 {
      a := 0;
    } else {
      a := FirstWide(e[1..], j - 1);
      assert forall i :: 0 < i < |e| ==> e[i] == e[1..][i - 1];
      a := a + 1;
    }
  }

  /**
    Whatever the offsets of the view, indexing points relative to it answers in the order requested
    at every point exactly when that is the order of the class, or when at most one dimension is
    wider than one.
   */
  lemma ViewOrderIsHonoured(own: Arrangement, order: Arrangement, e: seq<nat>, offsets: seq<int>)
    requires Volume(e) > 0 && |offsets| == |e|
    ensures (forall p :: |p| == |e| && InBox(e, Moved(p, offsets)) ==>
               Index(own, e, Moved(p, offsets)) == Index(order, e, Moved(p, offsets)))
      <==> own == order || AtMostOneWide(e)
  {
    hide AtMostOneWide, InBox, Volume, Index, Moved;
    if AtMostOneWide(e) {
      forall q | |q| == |e| && InBox(e, q) ensures Index(own, e, q) == Index(order, e, q) {
        NarrowIndex(own, order, e, q);
      }
    } else if own != order {
      var p := ViewDisagrees(own, order, e, offsets);
    }
  }

  lemma NarrowIndex(own: Arrangement, order: Arrangement, e: seq<nat>, q: seq<int>)
    requires InBox(e, q) && AtMostOneWide(e)
    ensures Index(own, e, q) == Index(order, e, q)
  {
    NarrowRow(e, q);
    NarrowCol(e, q);
  }

  lemma ViewDisagrees(own: Arrangement, order: Arrangement, e: seq<nat>, offsets: seq<int>)
    returns (p: seq<int>)
    requires Volume(e) > 0 && |offsets| == |e| && own != order && !AtMostOneWide(e)
    ensures |p| == |e| && InBox(e, Moved(p, offsets))
    ensures Index(own, e, Moved(p, offsets)) != Index(order, e, Moved(p, offsets))
  {
    hide AtMostOneWide, Volume, RowIndex, ColIndex;
    var q := OrdersDisagree(e);
    var back := Negated(offsets);
    p := Moved(q, back);
    MoveBack(q, offsets, back);
  }

  /** In a row-major space of two by three, the column-major index of (0, 1) is not returned. */
  method ViewDropsTheOrder() returns (offs: int, requested: int)
    ensures offs == 1 && requested == 2
  {
    var space := new IndexSpace(RowMajor, [2, 3]);
    var view := View([0, 0], [2, 3]);
    assert Moved([0, 1], [0, 0]) == [0, 1];
    SmallSpace();
    offs := space.AtView(ColMajor, [0, 1], view);
    requested := space.At(ColMajor, [0, 1]);
  }

  lemma SmallSpace()
    ensures Volume([2, 3]) == 6 && RowIndex([2, 3], [0, 1]) == 1 && ColIndex([2, 3], [0, 1]) == 2
  {
    assert Volume([3]) == 3 && Volume([2]) == 2;
    var e: seq<nat>, p: seq<int> := [2, 3], [0, 1];
    assert e[1..] == [3] && e[..1] == [2] && p[1..] == [1] && p[..1] == [0];
    assert RowIndex([3], [1]) == 1 && ColIndex([2], [0]) == 0;
  }
}
