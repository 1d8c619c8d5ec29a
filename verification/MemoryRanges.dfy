/**
  Lists of memory ranges: what the free list and the used list of a first-fit allocator say
  about the addresses they cover, and what allocating, inserting in order and melting do to them.
 */
module MemoryRanges {

  datatype Entry = Entry(pos: nat, size: nat) {
    function End(): nat { pos + size }

    predicate Holds(a: int) { pos <= a < End() }

    predicate Apart(that: Entry) { End() <= that.pos || that.End() <= pos }
  }

  ghost predicate Covers(l: seq<Entry>, a: int) {
    exists e :: e in l && e.Holds(a)
  }

  predicate Positive(l: seq<Entry>) {
    forall e :: e in l ==> e.size > 0
  }

  /** In ascending order, not overlapping. */
  predicate Ordered(l: seq<Entry>) {
    forall i, j :: 0 <= i < j < |l| ==> l[i].End() <= l[j].pos
  }

  /** In ascending order, with a gap between any two entries. */
  predicate Separated(l: seq<Entry>) {
    forall i, j :: 0 <= i < j < |l| ==> l[i].End() < l[j].pos
  }

  predicate PairwiseApart(l: seq<Entry>) {
    forall i, j :: 0 <= i < j < |l| ==> l[i].Apart(l[j])
  }

  predicate AllApart(l: seq<Entry>, m: seq<Entry>) {
    forall e, f :: e in l && f in m ==> e.Apart(f)
  }

  function Bytes(l: seq<Entry>): nat {
    if l == [] then 0 else l[0].size + Bytes(l[1..])
  }

  /**
    The invariant of a bucket over the n bytes from lo: the free and the used entries cut
    that range into pieces, and no two free pieces touch.
   */
  ghost predicate Tiles(lo: nat, n: nat, free: seq<Entry>, used: seq<Entry>) {
    && Positive(free) && Positive(used)
    && Separated(free) && PairwiseApart(used) && AllApart(free, used)
    && (forall a :: lo <= a < lo + n <==> Covers(free, a) || Covers(used, a))
    && Bytes(free) + Bytes(used) == n
  }

  /** The address is in the bucket and not handed out. */
  ghost predicate Unused(lo: nat, size: nat, used: seq<Entry>, a: int) {
    lo <= a < lo + size && !Covers(used, a)
  }

  /** Every one of the n addresses from p is unused. */
  ghost predicate Available(lo: nat, size: nat, used: seq<Entry>, p: int, n: nat) {
    forall a :: p <= a < p + n ==> Unused(lo, size, used, a)
  }

  // ---------- Counting bytes ----------

  lemma {:induction false} BytesConcat(l: seq<Entry>, m: seq<Entry>)
    ensures Bytes(l + m) == Bytes(l) + Bytes(m)
  {
    if l == [] {
      assert l + m == m;
    } else {
      BytesConcat(l[1..], m);
      assert (l + m)[1..] == l[1..] + m;
    }
  }

  lemma BytesSplit(l: seq<Entry>, k: nat)
    requires k < |l|
    ensures Bytes(l) == Bytes(l[..k]) + l[k].size + Bytes(l[k + 1..])
  {
    BytesConcat(l[..k], l[k..]);
    assert l == l[..k] + l[k..];
    assert l[k..][1..] == l[k + 1..];
  }

  function Without(l: seq<Entry>, k: nat): seq<Entry>
    requires k < |l|
  {
    l[..k] + l[k + 1..]
  }

  lemma BytesWithout(l: seq<Entry>, k: nat)
    requires k < |l|
    ensures Bytes(Without(l, k)) == Bytes(l) - l[k].size
  {
    BytesSplit(l, k);
    BytesConcat(l[..k], l[k + 1..]);
  }

  lemma CoversWithout(l: seq<Entry>, k: nat, a: int)
    requires k < |l|
    ensures Covers(l, a) <==> Covers(Without(l, k), a) || l[k].Holds(a)
  {
    var m := Without(l, k);
    forall e | e in l && e.Holds(a) ensures Covers(m, a) || l[k].Holds(a) {
      var i :| 0 <= i < |l| && l[i] == e;
      assert if i < k then m[i] == e else i == k || m[i - 1] == e;
    }
    forall e | e in m ensures e in l {
    }
  }

  /** Two entries that are apart hold no address in common; positive ones are then distinct. */
  lemma ApartHolds(e: Entry, f: Entry)
    ensures e.Apart(f) ==> forall a :: !(e.Holds(a) && f.Holds(a))
    ensures e.size > 0 && f.size > 0 && !e.Apart(f) ==> exists a :: e.Holds(a) && f.Holds(a)
  {
    if e.size > 0 && f.size > 0 && !e.Apart(f) {
      var a := if e.pos < f.pos then f.pos else e.pos;
      assert e.Holds(a) && f.Holds(a);
    }
  }

  lemma AddedCovers(m: seq<Entry>, l: seq<Entry>, e: Entry, a: int)
    requires forall f :: f in m <==> f in l || f == e
    ensures Covers(m, a) <==> Covers(l, a) || e.Holds(a)
  {
    assert e in m;
  }

  // ---------- First fit ----------

  /** The index of the first entry of at least n bytes, or the length of the list. */
  function FirstFit(free: seq<Entry>, n: nat): (k: nat)
    ensures k <= |free|
    ensures forall i :: 0 <= i < k ==> free[i].size < n
    ensures k < |free| ==> free[k].size >= n
  {
    if free == [] || free[0].size >= n then 0 else 1 + FirstFit(free[1..], n)
  }

  /** The free list after the first n bytes of entry k were handed out. */
  function Taken(free: seq<Entry>, k: nat, n: nat): seq<Entry>
    requires k < |free| && n <= free[k].size
  {
    if free[k].size == n then Without(free, k)
    else free[k := Entry(free[k].pos + n, free[k].size - n)]
  }

  lemma TakenCovers(free: seq<Entry>, k: nat, n: nat, a: int)
    requires k < |free| && n <= free[k].size && Separated(free)
    ensures Covers(Taken(free, k, n), a) <==> Covers(free, a) && !Entry(free[k].pos, n).Holds(a)
  {
    var t, e := Taken(free, k, n), Entry(free[k].pos, n);
    forall i | 0 <= i < |free| && free[i].Holds(a) ensures e.Holds(a) ==> i == k {
    }
    if free[k].size == n {
      CoversWithout(free, k, a);
    } else {
      assert t[k] in t;
      forall i | 0 <= i < |free| && free[i].Holds(a) && !e.Holds(a) ensures Covers(t, a) {
        assert t[i].Holds(a) && t[i] in t;
      }
      forall f | f in t && f.Holds(a) ensures Covers(free, a) && !e.Holds(a) {
        var i :| 0 <= i < |t| && t[i] == f;
        assert free[i] in free && free[i].Holds(a);
      }
    }
  }

  lemma TakenBytes(free: seq<Entry>, k: nat, n: nat)
    requires k < |free| && n <= free[k].size
    ensures Bytes(Taken(free, k, n)) == Bytes(free) - n
  {
    if free[k].size == n {
      BytesWithout(free, k);
    } else {
      var t := Taken(free, k, n);
      BytesSplit(free, k);
      BytesSplit(t, k);
      assert t[..k] == free[..k] && t[k + 1..] == free[k + 1..];
    }
  }

  predicate Within(e: Entry, f: Entry) { f.pos <= e.pos && e.End() <= f.End() }

  lemma WithinApart(e: Entry, f: Entry, l: seq<Entry>)
    requires Within(e, f) && forall g :: g in l ==> f.Apart(g)
    ensures forall g :: g in l ==> e.Apart(g)
  {
    forall g | g in l ensures e.Apart(g) {
      assert f.Apart(g);
    }
  }

  lemma TakenElement(free: seq<Entry>, k: nat, n: nat, f: Entry) returns (origin: Entry)
    requires Positive(free) && Separated(free)
    requires k < |free| && n <= free[k].size
    requires f in Taken(free, k, n)
    ensures origin in free && Within(f, origin) && f.size > 0
    ensures f.Apart(Entry(free[k].pos, n))
  {
    var t := Taken(free, k, n);
    var i :| 0 <= i < |t| && t[i] == f;
    var j := if |t| == |free| || i < k then i else i + 1;
    origin := free[j];
    if j < k {
      assert free[j].End() < free[k].pos;
    } else if j > k {
      assert free[k].End() < free[j].pos;
    }
  }

  lemma TakenSeparated(free: seq<Entry>, k: nat, n: nat)
    requires Separated(free) && k < |free| && n <= free[k].size
    ensures Separated(Taken(free, k, n))
  {
  }

  lemma TakenTiles(lo: nat, size: nat, free: seq<Entry>, used: seq<Entry>, k: nat, n: nat)
    requires Tiles(lo, size, free, used)
    requires k < |free| && 0 < n <= free[k].size
    ensures Tiles(lo, size, Taken(free, k, n), [Entry(free[k].pos, n)] + used)
  {
    var t, e := Taken(free, k, n), Entry(free[k].pos, n);
    var m := [e] + used;
    TakenBytes(free, k, n);
    TakenSeparated(free, k, n);
    BytesConcat([e], used);
    assert Bytes([e]) == n;
    forall f | f in t ensures f.size > 0 && e.Apart(f) && (forall g :: g in used ==> f.Apart(g)) {
      var origin := TakenElement(free, k, n, f);
      WithinApart(f, origin, used);
    }
    hide Taken;
    assert free[k] in free;
    WithinApart(e, free[k], used);
    forall a ensures lo <= a < lo + size <==> Covers(t, a) || Covers(m, a) {
      TakenCovers(free, k, n, a);
      AddedCovers(m, used, e, a);
      assert e.Holds(a) ==> free[k].Holds(a);
    }
  }

  /** A run of free addresses lies within one free entry, because no two free entries touch. */
  lemma RunInOneEntry(free: seq<Entry>, p: int, n: nat) returns (k: nat)
    requires Separated(free) && n > 0
    requires forall a :: p <= a < p + n ==> Covers(free, a)
    ensures k < |free| && free[k].pos <= p && p + n <= free[k].End()
  {
    assert Covers(free, p);
    k :| k < |free| && free[k].Holds(p);
    forall e | e in free ensures !e.Holds(free[k].End()) {
      var i :| 0 <= i < |free| && free[i] == e;
    }
    assert !Covers(free, free[k].End());
  }

  lemma FreeIsTheRest(lo: nat, size: nat, free: seq<Entry>, used: seq<Entry>, a: int)
    requires Tiles(lo, size, free, used)
    ensures Covers(free, a) <==> Unused(lo, size, used, a)
  {
    if Covers(free, a) && Covers(used, a) {
      var e :| e in free && e.Holds(a);
      var f :| f in used && f.Holds(a);
      ApartHolds(e, f);
      assert false;
    }
  }

  /** First fit finds the lowest run of free addresses that is long enough, if there is one. */
  lemma FirstFitIsLowest(lo: nat, size: nat, free: seq<Entry>, used: seq<Entry>, n: nat)
    requires Tiles(lo, size, free, used) && n > 0
    ensures var k := FirstFit(free, n); k < |free| ==> Available(lo, size, used, free[k].pos, n)
    ensures var k := FirstFit(free, n);
      forall p :: Available(lo, size, used, p, n) ==> k < |free| && free[k].pos <= p
  {
    hide FirstFit;
    var k := FirstFit(free, n);
    forall a ensures Covers(free, a) <==> Unused(lo, size, used, a) {
      FreeIsTheRest(lo, size, free, used, a);
    }
    if k < |free| {
      forall a | free[k].pos <= a < free[k].pos + n ensures Unused(lo, size, used, a) {
        assert free[k] in free && free[k].Holds(a);
        assert Covers(free, a);
      }
    }
    forall p | Available(lo, size, used, p, n) ensures k < |free| && free[k].pos <= p {
      forall a | p <= a < p + n ensures Covers(free, a) {
        assert Unused(lo, size, used, a);
      }
      var i := RunInOneEntry(free, p, n);
      assert k <= i;
      assert k < i ==> free[k].End() < free[i].pos;
    }
  }

  // ---------- Inserting and melting ----------

  /** The index at which an entry at pos goes: before the first entry that starts above it. */
  function Place(l: seq<Entry>, pos: nat): (k: nat)
    ensures k <= |l|
    ensures forall i :: 0 <= i < k ==> l[i].pos <= pos
    ensures k < |l| ==> pos < l[k].pos
  {
    if l == [] || pos < l[0].pos then 0 else 1 + Place(l[1..], pos)
  }

  function Inserted(l: seq<Entry>, e: Entry): seq<Entry> {
    var k := Place(l, e.pos);
    l[..k] + [e] + l[k..]
  }

  lemma InsertedElements(l: seq<Entry>, e: Entry)
    ensures forall f :: f in Inserted(l, e) <==> f in l || f == e
    ensures Bytes(Inserted(l, e)) == Bytes(l) + e.size
  {
    var k := Place(l, e.pos);
    assert l == l[..k] + l[k..];
    BytesConcat(l[..k], l[k..]);
    BytesConcat(l[..k] + [e], l[k..]);
    BytesConcat(l[..k], [e]);
    assert Bytes([e]) == e.size;
  }

  /** The entries before the place end below the new one, those behind it start above. */
  lemma PlaceDivides(l: seq<Entry>, e: Entry)
    requires Positive(l) && Ordered(l) && (forall f :: f in l ==> f.Apart(e)) && e.size > 0
    ensures forall i :: 0 <= i < Place(l, e.pos) ==> l[i].End() <= e.pos
    ensures forall i :: Place(l, e.pos) <= i < |l| ==> e.End() <= l[i].pos
  {
    var k := Place(l, e.pos);
    forall i | 0 <= i < |l| ensures if i < k then l[i].End() <= e.pos else e.End() <= l[i].pos {
      assert l[i] in l;
      if i > k {
        assert l[k].pos <= l[k].End() <= l[i].pos;
      }
    }
  }

  lemma InsertedOrdered(l: seq<Entry>, e: Entry)
    requires Positive(l) && Ordered(l) && (forall f :: f in l ==> f.Apart(e)) && e.size > 0
    ensures Ordered(Inserted(l, e))
  {
    hide Place;
    PlaceDivides(l, e);
    var k, m := Place(l, e.pos), Inserted(l, e);
    forall i, j | 0 <= i < j < |m| ensures m[i].End() <= m[j].pos {
      assert i != k ==> m[i] == l[if i < k then i else i - 1];
      assert j != k ==> m[j] == l[if j < k then j else j - 1];
    }
  }

  /** Touching neighbours merged from the left. */
  function Melted(l: seq<Entry>): seq<Entry>
    decreases |l|
  {
    if |l| < 2 then l
    else if l[0].End() == l[1].pos then Melted([Entry(l[0].pos, l[0].size + l[1].size)] + l[2..])
    else [l[0]] + Melted(l[1..])
  }

  /** The free list after e was handed back. */
  function Released(free: seq<Entry>, e: Entry): seq<Entry> { Melted(Inserted(free, e)) }

  lemma HeadCovers(e: Entry, rest: seq<Entry>, a: int)
    ensures Covers([e] + rest, a) <==> e.Holds(a) || Covers(rest, a)
    ensures Bytes([e] + rest) == e.size + Bytes(rest)
  {
    AddedCovers([e] + rest, rest, e, a);
    assert ([e] + rest)[1..] == rest;
  }

  /** The first two entries, which touch, as one. */
  function Joined(l: seq<Entry>): seq<Entry>
    requires |l| >= 2
  {
    [Entry(l[0].pos, l[0].size + l[1].size)] + l[2..]
  }

  lemma JoinCovers(l: seq<Entry>, a: int)
    requires |l| >= 2 && l[0].End() == l[1].pos
    ensures |Joined(l)| == |l| - 1
    ensures (Covers(Joined(l), a) <==> Covers(l, a)) && Bytes(Joined(l)) == Bytes(l)
  {
    hide Covers, Bytes;
    HeadCovers(l[0], l[1..], a);
    HeadCovers(l[1], l[2..], a);
    HeadCovers(Joined(l)[0], l[2..], a);
    assert l == [l[0]] + l[1..] && l[1..] == [l[1]] + l[2..];
  }

  lemma KeepCovers(l: seq<Entry>, a: int)
    requires |l| >= 2 && l[0].End() != l[1].pos
    requires (Covers(Melted(l[1..]), a) <==> Covers(l[1..], a)) && Bytes(Melted(l[1..])) == Bytes(l[1..])
    ensures (Covers(Melted(l), a) <==> Covers(l, a)) && Bytes(Melted(l)) == Bytes(l)
  {
    hide Covers, Bytes;
    HeadCovers(l[0], l[1..], a);
    HeadCovers(l[0], Melted(l[1..]), a);
    assert l == [l[0]] + l[1..];
  }

  lemma {:induction false} MeltedCovers(l: seq<Entry>, a: int)
    ensures Covers(Melted(l), a) <==> Covers(l, a)
    ensures Bytes(Melted(l)) == Bytes(l)
    decreases |l|
  {
    hide Covers, Bytes;
    if |l| >= 2 {
      if l[0].End() == l[1].pos {
        JoinCovers(l, a);
        MeltedCovers(Joined(l), a);
      } else {
        MeltedCovers(l[1..], a);
        KeepCovers(l, a);
      }
    }
  }

  lemma {:induction false} MeltedSeparated(l: seq<Entry>)
    requires Positive(l) && Ordered(l)
    ensures Positive(Melted(l)) && Separated(Melted(l))
    ensures |l| > 0 ==> |Melted(l)| > 0 && Melted(l)[0].pos == l[0].pos
    decreases |l|
  {
    if |l| >= 2 {
      if l[0].End() == l[1].pos {
        MeltedSeparated([Entry(l[0].pos, l[0].size + l[1].size)] + l[2..]);
      } else {
        var t := Melted(l[1..]);
        MeltedSeparated(l[1..]);
        assert forall i :: 0 < i < |t| ==> t[0].End() < t[i].pos;
        assert t[0].pos == l[1].pos;
      }
    }
  }

  lemma ReleasedTiles(lo: nat, size: nat, free: seq<Entry>, used: seq<Entry>, k: nat)
    requires Tiles(lo, size, free, used) && k < |used|
    ensures Tiles(lo, size, Released(free, used[k]), Without(used, k))
  {
    hide Without, Inserted, Melted, Place;
    var e, rest := used[k], Without(used, k);
    var m := Inserted(free, e);
    WithoutFacts(used, k);
    forall a ensures Covers(used, a) <==> Covers(rest, a) || e.Holds(a) {
      CoversWithout(used, k, a);
    }
    BytesWithout(used, k);
    InsertedElements(free, e);
    InsertedOrdered(free, e);
    MeltedSeparated(m);
    forall a ensures lo <= a < lo + size <==> Covers(Melted(m), a) || Covers(rest, a) {
      MeltedCovers(m, a);
      AddedCovers(m, free, e, a);
    }
    MeltedCovers(m, 0);
    MeltedApart(m, rest);
  }

  lemma WithoutFacts(used: seq<Entry>, k: nat)
    requires PairwiseApart(used) && Positive(used) && k < |used|
    ensures PairwiseApart(Without(used, k)) && Positive(Without(used, k))
    ensures forall f :: f in Without(used, k) ==> f in used && f.Apart(used[k])
  {
    var e, rest := used[k], Without(used, k);
    forall f | f in rest ensures f in used && f.Apart(e) {
      var i :| 0 <= i < |rest| && rest[i] == f;
      assert f == used[if i < k then i else i + 1];
    }
  }

  lemma MeltedApart(l: seq<Entry>, m: seq<Entry>)
    requires Positive(l) && Ordered(l) && Positive(m) && AllApart(l, m)
    ensures AllApart(Melted(l), m)
  {
    MeltedSeparated(l);
    forall e, f | e in Melted(l) && f in m ensures e.Apart(f) {
      ApartHolds(e, f);
      if !e.Apart(f) {
        var a :| e.Holds(a) && f.Holds(a);
        assert Covers(Melted(l), a);
        MeltedCovers(l, a);
        var g :| g in l && g.Holds(a);
        ApartHolds(g, f);
        assert false;
      }
    }
  }

  // ---------- The free list is a function of the addresses ----------

  lemma FirstCovered(l: seq<Entry>, a: int)
    requires Positive(l) && Separated(l) && |l| > 0
    ensures Covers(l, l[0].pos) && !Covers(l, l[0].End())
    ensures Covers(l, a) ==> l[0].pos <= a
    ensures Covers(l, a) && a < l[0].End() ==> l[0].Holds(a)
    ensures Covers(l[1..], a) <==> Covers(l, a) && !l[0].Holds(a)
  {
    assert l[0] in l && l[0].Holds(l[0].pos);
    assert l == [l[0]] + l[1..];
    forall e | e in l[1..] ensures l[0].End() < e.pos {
      var i :| 0 <= i < |l[1..]| && l[1..][i] == e;
      assert l[i + 1] == e;
    }
  }

  /** Two separated lists that cover the same addresses are the same list. */
  lemma {:induction false} SeparatedUnique(l: seq<Entry>, m: seq<Entry>)
    requires Positive(l) && Separated(l) && Positive(m) && Separated(m)
    requires forall a :: Covers(l, a) <==> Covers(m, a)
    ensures l == m
  {
    if l != [] && m != [] {
      FirstCovered(l, m[0].pos);
      FirstCovered(m, l[0].pos);
      FirstCovered(l, m[0].End());
      FirstCovered(m, l[0].End());
      assert l[0].pos == m[0].pos;
      assert Covers(l, l[0].End()) == Covers(m, l[0].End());
      assert l[0] in l && m[0] in m;
      assert l[0] == m[0];
      forall a ensures Covers(l[1..], a) <==> Covers(m[1..], a) {
        FirstCovered(l, a);
        FirstCovered(m, a);
      }
      SeparatedUnique(l[1..], m[1..]);
    } else if l != [] {
      FirstCovered(l, 0);
    } else if m != [] {
      FirstCovered(m, 0);
    }
  }

  /** The free list depends on which entries are used and on nothing else in the history. */
  lemma FreeListIsDetermined(lo: nat, size: nat, f: seq<Entry>, g: seq<Entry>, a: seq<Entry>, b: seq<Entry>)
    requires Tiles(lo, size, f, a) && Tiles(lo, size, g, b)
    requires forall e :: e in a <==> e in b
    ensures f == g
  {
    forall x ensures Covers(f, x) <==> Covers(g, x) {
      FreeIsTheRest(lo, size, f, a, x);
      FreeIsTheRest(lo, size, g, b, x);
    }
    SeparatedUnique(f, g);
  }

  /** The bucket as it is created, and as it is again whenever nothing is used. */
  lemma WholeTiles(lo: nat, size: nat)
    requires size > 0
    ensures Tiles(lo, size, [Entry(lo, size)], [])
  {
    var e := Entry(lo, size);
    forall a ensures Covers([e], a) <==> lo <= a < lo + size {
      assert e in [e];
    }
  }

  lemma AllReleased(lo: nat, size: nat, free: seq<Entry>)
    requires size > 0 && Tiles(lo, size, free, [])
    ensures free == [Entry(lo, size)]
  {
    WholeTiles(lo, size);
    FreeListIsDetermined(lo, size, free, [Entry(lo, size)], [], []);
  }

  lemma {:induction false} NothingMelts(l: seq<Entry>)
    requires forall i :: 0 <= i < |l| - 1 ==> l[i].End() != l[i + 1].pos
    ensures Melted(l) == l
  {
    if |l| >= 2 {
      forall i | 0 <= i < |l[1..]| - 1 ensures l[1..][i].End() != l[1..][i + 1].pos {
        assert l[i + 1].End() != l[i + 2].pos;
      }
      NothingMelts(l[1..]);
    }
  }

  /** An empty range that is released stays behind the entry it was taken from. */
  lemma EmptyStays(free: seq<Entry>, k: nat)
    requires Positive(free) && Separated(free) && k < |free|
    ensures Released(free, Entry(free[k].pos, 0)) == free[..k + 1] + [Entry(free[k].pos, 0)] + free[k + 1..]
  {
    var e := Entry(free[k].pos, 0);
    assert free[k] in free;
    PlaceAfter(free, k);
    var l := free[..k + 1] + [e] + free[k + 1..];
    assert Inserted(free, e) == l;
    hide Place, Inserted;
    forall i | 0 <= i < |l| - 1 ensures l[i].End() != l[i + 1].pos {
      assert i < k ==> l[i] == free[i] && l[i + 1] == free[i + 1];
      assert i > k + 1 ==> l[i] == free[i - 1] && l[i + 1] == free[i];
    }
    NothingMelts(l);
  }

  lemma PlaceAfter(free: seq<Entry>, k: nat)
    requires Positive(free) && Separated(free) && k < |free|
    ensures Place(free, free[k].pos) == k + 1
  {
    hide Place;
    assert free[k] in free;
    forall i | 0 <= i < |free| ensures free[i].pos <= free[k].pos <==> i <= k {
      assert free[i] in free;
    }
    var p := Place(free, free[k].pos);
    assert p < |free| ==> p > k;
    assert k + 1 < |free| ==> free[k + 1].pos > free[k].pos;
  }

  /**
    Releasing what was just handed out restores the free list, unless it was nothing: an empty range
    is handed out as well, and when it is released it stays in the free list.
   */
  lemma AllocThenFree(lo: nat, size: nat, free: seq<Entry>, used: seq<Entry>, k: nat, n: nat)
    requires Tiles(lo, size, free, used)
    requires k < |free| && n <= free[k].size
    ensures Released(Taken(free, k, n), Entry(free[k].pos, n)) == free <==> n > 0
  {
    hide Taken, Released, Tiles;
    if n > 0 {
      RestoresFree(lo, size, free, used, k, n);
    } else {
      TilesFacts(lo, size, free, used);
      NothingTaken(free, k);
      EmptyStays(free, k);
    }
  }

  lemma TilesFacts(lo: nat, size: nat, free: seq<Entry>, used: seq<Entry>)
    requires Tiles(lo, size, free, used)
    ensures Positive(free) && Separated(free)
  {
  }

  lemma NothingTaken(free: seq<Entry>, k: nat)
    requires Positive(free) && k < |free|
    ensures Taken(free, k, 0) == free
  {
    assert free[k] in free;
  }

  lemma RestoresFree(lo: nat, size: nat, free: seq<Entry>, used: seq<Entry>, k: nat, n: nat)
    requires Tiles(lo, size, free, used)
    requires k < |free| && 0 < n <= free[k].size
    ensures Released(Taken(free, k, n), Entry(free[k].pos, n)) == free
  {
    hide Taken, Released, Tiles;
    var m := [Entry(free[k].pos, n)] + used;
    TakenTiles(lo, size, free, used, k, n);
    ReleasedTiles(lo, size, Taken(free, k, n), m, 0);
    assert Without(m, 0) == used;
    FreeListIsDetermined(lo, size, Released(Taken(free, k, n), m[0]), free, used, used);
  }

  lemma WithoutTwice(l: seq<Entry>, i: nat, j: nat)
    requires i < j < |l|
    ensures Without(l, i)[j - 1] == l[j] && Without(l, j)[i] == l[i]
    ensures Without(Without(l, i), j - 1) == Without(Without(l, j), i)
  {
  }

  lemma TwoReleases(lo: nat, size: nat, free: seq<Entry>, used: seq<Entry>, i: nat, j: nat,
                    e: Entry, f: Entry, rest: seq<Entry>)
    requires Tiles(lo, size, free, used) && i < |used| && j < |used| - 1
    requires e == used[i] && f == Without(used, i)[j] && rest == Without(Without(used, i), j)
    ensures Tiles(lo, size, Released(Released(free, e), f), rest)
  {
    assert |Without(used, i)| == |used| - 1;
    hide Tiles, Melted, Inserted, Without;
    ReleasedTiles(lo, size, free, used, i);
    ReleasedTiles(lo, size, Released(free, used[i]), Without(used, i), j);
  }

  /** Two releases leave the same free list in either order. */
  lemma ReleasesCommute(lo: nat, size: nat, free: seq<Entry>, used: seq<Entry>, i: nat, j: nat)
    requires Tiles(lo, size, free, used) && i < j < |used|
    ensures Released(Released(free, used[i]), used[j]) == Released(Released(free, used[j]), used[i])
  {
    var e, f, rest := used[i], used[j], Without(Without(used, i), j - 1);
    WithoutTwice(used, i, j);
    hide *;
    TwoReleases(lo, size, free, used, i, j - 1, e, f, rest);
    TwoReleases(lo, size, free, used, j, i, f, e, rest);
    FreeListIsDetermined(lo, size, Released(Released(free, e), f), Released(Released(free, f), e), rest, rest);
  }
}
