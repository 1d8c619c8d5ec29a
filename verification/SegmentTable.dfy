/**
  The segment table of a team: a hash table with chained buckets, two free lists from which
  elements are handed out again with their identifier, and two counters for identifiers that have
  not been handed out yet.
 */
module SegmentTable {
  import opened SegmentIds

  type uint16 = x: int | 0 <= x < 0x1_0000

  /** The fields of a segment record besides its identifier; addresses and windows are handles. */
  datatype Info = Info(size: nat, disp: int, baseptr: int, selfbaseptr: int, shmwin: int, win: int,
                       flags: uint16, isDynamic: bool, syncNeeded: bool)

  /** A record as `calloc` returns it. */
  const EMPTY := Info(0, 0, 0, 0, 0, 0, 0, false, false)

  /** An element of the table. */
  class Element {
    const segid: int
    var info: Info

    constructor (segid: int)
      ensures this.segid == segid && info == EMPTY
    {
      this.segid, info := segid, EMPTY;
    }
  }

  datatype Kind = LocalAlloc | Alloc | Register

  function FreeListFor(kind: Kind): nat { if kind.Register? then REG_FREE else MEM_FREE }

  function IdsOf(l: seq<Element>): (ids: seq<int>)
    ensures |ids| == |l| && forall j :: 0 <= j < |l| ==> ids[j] == l[j].segid
  {
    seq(|l|, j requires 0 <= j < |l| => l[j].segid)
  }

  function AllIds(lists: seq<seq<Element>>): (ids: seq<seq<int>>)
    ensures |ids| == |lists| && forall i :: 0 <= i < |lists| ==> ids[i] == IdsOf(lists[i])
  {
    seq(|lists|, i requires 0 <= i < |lists| => IdsOf(lists[i]))
  }

  function Put(lists: seq<seq<Element>>, m: nat, e: Element): seq<seq<Element>>
    requires m < |lists|
  {
    lists[m := [e] + lists[m]]
  }

  function Drop(lists: seq<seq<Element>>, l: nat, k: nat): seq<seq<Element>>
    requires l < |lists| && k < |lists[l]|
  {
    lists[l := lists[l][..k] + lists[l][k + 1..]]
  }

  lemma PutIds(lists: seq<seq<Element>>, m: nat, e: Element)
    requires m < |lists|
    ensures AllIds(Put(lists, m, e)) == Pushed(AllIds(lists), m, e.segid)
  {
    assert IdsOf([e] + lists[m]) == [e.segid] + IdsOf(lists[m]);
  }

  lemma DropIds(lists: seq<seq<Element>>, l: nat, k: nat)
    requires l < |lists| && k < |lists[l]|
    ensures AllIds(Drop(lists, l, k)) == Removed(AllIds(lists), l, k)
  {
    var s := lists[l];
    assert IdsOf(s[..k] + s[k + 1..]) == IdsOf(s)[..k] + IdsOf(s)[k + 1..];
  }

  // ---------- Elements ----------

  /** No element is on two lists or twice on one. */
  ghost predicate NoSharing(lists: seq<seq<Element>>) {
    forall i, j, i', j' :: 0 <= i < |lists| && 0 <= j < |lists[i]| && 0 <= i' < |lists| && 0 <= j' < |lists[i']| ==>
      lists[i][j] == lists[i'][j'] ==> i == i' && j == j'
  }

  ghost function ElementsOf(lists: seq<seq<Element>>): set<Element> {
    set i, j | 0 <= i < |lists| && 0 <= j < |lists[i]| :: lists[i][j]
  }

  lemma PutElements(lists: seq<seq<Element>>, m: nat, e: Element)
    requires m < |lists| && NoSharing(lists) && e !in ElementsOf(lists)
    ensures NoSharing(Put(lists, m, e)) && ElementsOf(Put(lists, m, e)) == ElementsOf(lists) + {e}
  {
    var after := Put(lists, m, e);
    forall i, j | 0 <= i < |lists| && 0 <= j < |lists[i]| ensures lists[i][j] in ElementsOf(after) {
      assert if i == m then after[m][j + 1] == lists[m][j] else after[i][j] == lists[i][j];
    }
    assert after[m][0] == e;
  }

  lemma DropElements(lists: seq<seq<Element>>, l: nat, k: nat)
    requires l < |lists| && k < |lists[l]| && NoSharing(lists)
    ensures NoSharing(Drop(lists, l, k))
    ensures ElementsOf(Drop(lists, l, k)) == ElementsOf(lists) - {lists[l][k]}
  {
    var after, e := Drop(lists, l, k), lists[l][k];
    forall i, j | 0 <= i < |after| && 0 <= j < |after[i]|
      ensures Origin(i, j, l, k) < |lists[i]| && after[i][j] == lists[i][Origin(i, j, l, k)]
    {
    }
    forall i, j | 0 <= i < |lists| && 0 <= j < |lists[i]| && lists[i][j] != e
      ensures lists[i][j] in ElementsOf(after)
    {
      var j' := if i == l && j > k then j - 1 else j;
      assert after[i][j'] == lists[i][j];
    }
    assert NoSharing(after);
    forall x | x in ElementsOf(after) ensures x in ElementsOf(lists) && x != e {
      var i, j :| 0 <= i < |after| && 0 <= j < |after[i]| && after[i][j] == x;
      assert lists[i][Origin(i, j, l, k)] == x;
    }
  }

  /** Where the j-th element of list i was before the k-th of list l went. */
  function Origin(i: nat, j: nat, l: nat, k: nat): nat {
    if i == l && j >= k then j + 1 else j
  }

  // ---------- The table ----------

  /** The index of the first element with an identifier, or the length of the list. */
  function IndexOf(l: seq<Element>, segid: int): (k: nat)
    ensures k <= |l| && (forall j :: 0 <= j < k ==> l[j].segid != segid)
    ensures k < |l| ==> l[k].segid == segid
  {
    if l == [] || l[0].segid == segid then 0 else 1 + IndexOf(l[1..], segid)
  }

  lemma IndexOfIsLive(lists: seq<seq<Element>>, segid: int)
    requires |lists| == LISTS
    ensures Live(AllIds(lists), segid) <==> IndexOf(lists[Hash(segid)], segid) < |lists[Hash(segid)]|
  {
    var l := lists[Hash(segid)];
    var k := IndexOf(l, segid);
    if k < |l| {
      assert IdsOf(l)[k] == segid;
    }
  }

  lemma OnlyElement(lists: seq<seq<Element>>, memid: int, regid: int, segid: int, k: nat)
    requires |lists| == LISTS && Consistent(AllIds(lists), memid, regid) && segid != LOCAL
    requires var l := lists[Hash(segid)]; k < |l| && l[k].segid == segid
    ensures forall e :: e in lists[Hash(segid)] && e.segid == segid ==> e == lists[Hash(segid)][k]
  {
    var l := lists[Hash(segid)];
    var ids := AllIds(lists);
    assert ids[Hash(segid)] == IdsOf(l) && segid in IdsOf(l);
    assert Belongs(Hash(segid), segid, memid, regid);
    assert Occurrences(ids, segid) == 1;
    forall e | e in l && e.segid == segid ensures e == l[k] {
      var j :| 0 <= j < |l| && l[j] == e;
      OnceOnly(IdsOf(l), j, k);
    }
  }

  lemma OnceOnly(s: seq<int>, j: nat, k: nat)
    requires j < |s| && k < |s| && s[j] == s[k] && multiset(s)[s[k]] <= 1
    ensures j == k
  {
    if j < k {
      CountedTwice(s, j, k);
    } else if k < j {
      CountedTwice(s, k, j);
    }
  }

  lemma CountedTwice(s: seq<int>, a: nat, b: nat)
    requires a < b < |s| && s[a] == s[b]
    ensures multiset(s)[s[a]] >= 2
  {
    assert s == s[..a] + [s[a]] + s[a + 1..b] + [s[b]] + s[b + 1..];
    assert multiset(s)
      == multiset(s[..a]) + multiset{s[a]} + multiset(s[a + 1..b]) + multiset{s[b]} + multiset(s[b + 1..]);
  }

  /** Moving an element between its bucket and its free list keeps the table in order. */
  lemma MovesElement(lists: seq<seq<Element>>, memid: int, regid: int, l: nat, k: nat, m: nat)
    requires |lists| == LISTS && Consistent(AllIds(lists), memid, regid) && NoSharing(lists)
    requires l < LISTS && k < |lists[l]| && m < LISTS
    requires var id := lists[l][k].segid;
      || (id != LOCAL && l == Hash(id) && m == FreeList(id))
      || ((l == MEM_FREE || l == REG_FREE) && m == Hash(id))
    ensures var e, after := lists[l][k], Put(Drop(lists, l, k), m, lists[l][k]);
      && e.segid != LOCAL && l != m
      && Consistent(AllIds(after), memid, regid) && Used(e.segid, memid, regid)
      && (l >= HASH_SIZE ==> (e.segid > 0 <==> l == MEM_FREE))
      && NoSharing(after) && ElementsOf(after) == ElementsOf(lists)
      && (Live(AllIds(lists), e.segid) <==> l == Hash(e.segid))
      && (Live(AllIds(after), e.segid) <==> m == Hash(e.segid))
      && forall id :: id != e.segid ==> (Live(AllIds(after), id) <==> Live(AllIds(lists), id))
  {
    var e := lists[l][k];
    var ids := AllIds(lists);
    assert ids[l][k] == e.segid && e.segid in ids[l];
    assert Belongs(l, e.segid, memid, regid);
    assert e in ElementsOf(lists);
    DropIds(lists, l, k);
    PutIds(Drop(lists, l, k), m, e);
    DropElements(lists, l, k);
    PutElements(Drop(lists, l, k), m, e);
    hide NoSharing, ElementsOf, Put, Drop, AllIds, Consistent;
    Moves(ids, memid, regid, l, k, m);
  }

  // ---------- From identifiers to elements ----------

  /** The first element of a chain with an identifier, or null. */
  function FirstOf(l: seq<Element>, segid: int): (e: Element?)
    ensures e != null ==> e in l && e.segid == segid
  {
    if IndexOf(l, segid) < |l| then l[IndexOf(l, segid)] else null
  }

  /** The element that a search finds, or null. */
  function Named(lists: seq<seq<Element>>, segid: int): (e: Element?)
    requires |lists| == LISTS
  {
    FirstOf(lists[Hash(segid)], segid)
  }

  /** The element of every live segment. */
  ghost function SegmentsOf(lists: seq<seq<Element>>): map<int, Element>
    requires |lists| == LISTS
  {
    map id | INT16_MIN < id < INT16_MAX && Named(lists, id) != null :: Named(lists, id)
  }

  lemma LiveSegments(lists: seq<seq<Element>>, memid: int, regid: int)
    requires |lists| == LISTS && Consistent(AllIds(lists), memid, regid)
    ensures forall id :: Live(AllIds(lists), id) <==> id in SegmentsOf(lists)
  {
    forall id ensures Live(AllIds(lists), id) <==> id in SegmentsOf(lists) {
      IndexOfIsLive(lists, id);
      if Live(AllIds(lists), id) {
        assert Belongs(Hash(id), id, memid, regid);
      }
    }
  }

  /** A map with one more entry. */
  lemma SegmentsWith(before: seq<seq<Element>>, after: seq<seq<Element>>, id: int, e: Element)
    requires |before| == |after| == LISTS && INT16_MIN < id < INT16_MAX
    requires forall other :: Named(after, other) == if other == id then e else Named(before, other)
    ensures SegmentsOf(after) == SegmentsOf(before)[id := e]
  {
    hide Named;
  }

  /** A map with one entry less. */
  lemma SegmentsWithout(before: seq<seq<Element>>, after: seq<seq<Element>>, id: int)
    requires |before| == |after| == LISTS && Named(after, id) == null
    requires forall other :: other != id ==> Named(after, other) == Named(before, other)
    ensures SegmentsOf(after) == SegmentsOf(before) - {id}
  {
    hide Named;
  }

  lemma SegmentsSame(before: seq<seq<Element>>, after: seq<seq<Element>>)
    requires |before| == |after| == LISTS
    requires forall id :: Named(after, id) == Named(before, id)
    ensures SegmentsOf(after) == SegmentsOf(before)
  {
    hide Named;
  }

  lemma FirstStep(l: seq<Element>, id: int)
    requires l != []
    ensures FirstOf(l, id) == if l[0].segid == id then l[0] else FirstOf(l[1..], id)
  {
  }

  lemma NamedAfterPut(lists: seq<seq<Element>>, m: nat, e: Element, id: int)
    requires |lists| == LISTS && m < LISTS && (m == Hash(e.segid) || m >= HASH_SIZE)
    ensures Named(Put(lists, m, e), id) == if m < HASH_SIZE && id == e.segid then e else Named(lists, id)
  {
    FirstStep([e] + lists[m], id);
    assert ([e] + lists[m])[1..] == lists[m];
    hide FirstOf;
  }

  lemma PutSegments(lists: seq<seq<Element>>, m: nat, e: Element)
    requires |lists| == LISTS && m < LISTS && (m == Hash(e.segid) || m >= HASH_SIZE)
    requires INT16_MIN < e.segid < INT16_MAX
    ensures |Put(lists, m, e)| == LISTS
    ensures SegmentsOf(Put(lists, m, e)) == if m < HASH_SIZE then SegmentsOf(lists)[e.segid := e] else SegmentsOf(lists)
  {
    var after := Put(lists, m, e);
    assert |after| == LISTS;
    hide *;
    forall id ensures Named(after, id) == if m < HASH_SIZE && id == e.segid then e else Named(lists, id) {
      NamedAfterPut(lists, m, e, id);
    }
    if m < HASH_SIZE {
      SegmentsWith(lists, after, e.segid, e);
    } else {
      SegmentsSame(lists, after);
    }
  }

  /** Taking out another element changes nothing for an identifier. */
  lemma {:induction false} DropFirst(l: seq<Element>, k: nat, id: int)
    requires k < |l| && l[k].segid != id
    ensures FirstOf(l[..k] + l[k + 1..], id) == FirstOf(l, id)
  {
    hide *;
    var after := l[..k] + l[k + 1..];
    FirstStep(l, id);
    if k == 0 {
      assert after == l[1..];
    } else {
      FirstStep(after, id);
      assert after[1..] == l[1..][..k - 1] + l[1..][k..];
      DropFirst(l[1..], k - 1, id);
    }
  }

  lemma NamedAfterDrop(lists: seq<seq<Element>>, l: nat, k: nat, id: int)
    requires |lists| == LISTS && l < LISTS && k < |lists[l]| && (l >= HASH_SIZE || id != lists[l][k].segid)
    ensures Named(Drop(lists, l, k), id) == Named(lists, id)
  {
    if Hash(id) == l {
      DropFirst(lists[l], k, id);
    }
    hide FirstOf;
  }

  lemma DropSegments(lists: seq<seq<Element>>, l: nat, k: nat)
    requires |lists| == LISTS && l < LISTS && k < |lists[l]|
    ensures |Drop(lists, l, k)| == LISTS
    ensures l >= HASH_SIZE ==> SegmentsOf(Drop(lists, l, k)) == SegmentsOf(lists)
    ensures Named(Drop(lists, l, k), lists[l][k].segid) == null ==>
              SegmentsOf(Drop(lists, l, k)) == SegmentsOf(lists) - {lists[l][k].segid}
  {
    var after, id := Drop(lists, l, k), lists[l][k].segid;
    assert |after| == LISTS;
    hide *;
    forall other | l >= HASH_SIZE || other != id ensures Named(after, other) == Named(lists, other) {
      NamedAfterDrop(lists, l, k, other);
    }
    if l >= HASH_SIZE {
      SegmentsSame(lists, after);
    }
    if Named(after, id) == null {
      SegmentsWithout(lists, after, id);
    }
  }

  lemma NotNamed(lists: seq<seq<Element>>, id: int)
    requires |lists| == LISTS && INT16_MIN < id < INT16_MAX && id !in SegmentsOf(lists)
    ensures Named(lists, id) == null
  {
  }

  /** Moving an element puts its identifier into the map, or takes it out. */
  lemma MovesSegment(lists: seq<seq<Element>>, memid: int, regid: int, l: nat, k: nat, m: nat)
    requires |lists| == LISTS && Consistent(AllIds(lists), memid, regid) && NoSharing(lists)
    requires l < LISTS && k < |lists[l]| && m < LISTS
    requires var id := lists[l][k].segid;
      || (id != LOCAL && l == Hash(id) && m == FreeList(id))
      || ((l == MEM_FREE || l == REG_FREE) && m == Hash(id))
    ensures var e, after := lists[l][k], Put(Drop(lists, l, k), m, lists[l][k]);
      && (e.segid in SegmentsOf(lists) <==> l < HASH_SIZE)
      && (l < HASH_SIZE ==> SegmentsOf(lists)[e.segid] == e && SegmentsOf(after) == SegmentsOf(lists) - {e.segid})
      && (m < HASH_SIZE ==> SegmentsOf(after) == SegmentsOf(lists)[e.segid := e])
  {
    var e, between := lists[l][k], Drop(lists, l, k);
    var after := Put(between, m, e);
    hide *;
    MovesElement(lists, memid, regid, l, k, m);
    LiveSegments(lists, memid, regid);
    LiveSegments(after, memid, regid);
    UsedInRange(memid, regid, e.segid, AllIds(lists));
    HashInRange(e.segid);
    DropSegments(lists, l, k);
    PutSegments(between, m, e);
    if m >= HASH_SIZE {
      NotNamed(between, e.segid);
    }
    if l < HASH_SIZE {
      SegmentIsOnList(lists, e.segid);
      OnlyElement(lists, memid, regid, e.segid, k);
    }
  }

  lemma UsedInRange(memid: int, regid: int, id: int, ids: seq<seq<int>>)
    requires Consistent(ids, memid, regid) && Used(id, memid, regid)
    ensures INT16_MIN < id < INT16_MAX
  {
  }

  lemma HashInRange(id: int)
    ensures Hash(id) < HASH_SIZE && HASH_SIZE <= FreeList(id) < LISTS && HASH_SIZE <= MEM_FREE && HASH_SIZE <= REG_FREE
  {
  }

  lemma SegmentIsOnList(lists: seq<seq<Element>>, id: int)
    requires |lists| == LISTS && id in SegmentsOf(lists)
    ensures SegmentsOf(lists)[id] == Named(lists, id)
    ensures SegmentsOf(lists)[id].segid == id && SegmentsOf(lists)[id] in lists[Hash(id)]
  {
  }

  /** The table in order: identifiers and counters fit, and the lists hold each element once. */
  ghost predicate Ordered(lists: seq<seq<Element>>, memid: int, regid: int, created: set<Element>) {
    && |lists| == LISTS && Consistent(AllIds(lists), memid, regid)
    && NoSharing(lists) && ElementsOf(lists) == created
  }

  lemma EmptyTable(lists: seq<seq<Element>>)
    requires |lists| == LISTS && forall i :: 0 <= i < LISTS ==> lists[i] == []
    ensures Ordered(lists, 1, -1, {}) && SegmentsOf(lists) == map[]
  {
    assert AllIds(lists) == seq(LISTS, i => []);
    NothingUsed();
    forall id ensures Named(lists, id) == null {
    }
    hide Named, Consistent;
  }

  /** No identifier of a sign is left exactly when every one names a segment. */
  lemma Exhausted(lists: seq<seq<Element>>, memid: int, regid: int, created: set<Element>)
    requires Ordered(lists, memid, regid, created)
    ensures 1 <= memid <= INT16_MAX && INT16_MIN <= regid <= -1
    ensures lists[MEM_FREE] == [] && memid == INT16_MAX <==> forall id :: 1 <= id <= 32766 ==> id in SegmentsOf(lists)
    ensures lists[REG_FREE] == [] && regid == INT16_MIN <==> forall id :: -32767 <= id <= -1 ==> id in SegmentsOf(lists)
  {
    var ids := AllIds(lists);
    assert ids[MEM_FREE] == [] <==> lists[MEM_FREE] == [];
    assert ids[REG_FREE] == [] <==> lists[REG_FREE] == [];
    LiveSegments(lists, memid, regid);
    hide Live, SegmentsOf, AllIds, Belongs, Occurrences;
    ExhaustedExactly(ids, memid, regid);
  }

  /** A new element with the next identifier, or with the local one, is put into its bucket. */
  lemma IntroducesElement(lists: seq<seq<Element>>, memid: int, regid: int, e: Element, created: set<Element>)
    requires Ordered(lists, memid, regid, created) && e !in created
    requires (e.segid == memid < INT16_MAX) || (e.segid == regid > INT16_MIN) || e.segid == LOCAL
    ensures var id, after := e.segid, Put(lists, Hash(e.segid), e);
      && Ordered(after, if id > 0 then memid + 1 else memid, if id < 0 then regid - 1 else regid, created + {e})
      && SegmentsOf(after) == SegmentsOf(lists)[id := e]
      && (id != LOCAL ==> id !in SegmentsOf(lists)) && INT16_MIN < id < INT16_MAX
  {
    assert 1 <= memid <= INT16_MAX && INT16_MIN <= regid <= -1;
    PutIds(lists, Hash(e.segid), e);
    PutElements(lists, Hash(e.segid), e);
    PutSegments(lists, Hash(e.segid), e);
    LiveSegments(lists, memid, regid);
    hide AllIds, NoSharing, ElementsOf, SegmentsOf, Put, Consistent;
    Introduces(AllIds(lists), memid, regid, e.segid);
  }

  /** All elements of all lists, in order. */
  ghost function Flat(lists: seq<seq<Element>>): seq<Element> {
    if lists == [] then [] else Flat(lists[..|lists| - 1]) + lists[|lists| - 1]
  }

  lemma FlatStep(lists: seq<seq<Element>>, i: nat)
    requires i < |lists|
    ensures Flat(lists[..i + 1]) == Flat(lists[..i]) + lists[i]
  {
    assert lists[..i + 1][..i] == lists[..i];
  }

  lemma {:induction false} FlatElements(lists: seq<seq<Element>>)
    requires NoSharing(lists)
    ensures forall e :: e in Flat(lists) <==> e in ElementsOf(lists)
    ensures forall i, j :: 0 <= i < j < |Flat(lists)| ==> Flat(lists)[i] != Flat(lists)[j]
  {
    if lists != [] {
      var n := |lists| - 1;
      var before, last := lists[..n], lists[n];
      FlatElements(before);
      forall e ensures e in ElementsOf(lists) <==> e in ElementsOf(before) || e in last {
        if e in ElementsOf(before) {
          var i, j :| 0 <= i < |before| && 0 <= j < |before[i]| && before[i][j] == e;
          assert lists[i][j] == e;
        }
        if e in last {
          var j :| 0 <= j < |last| && last[j] == e;
          assert lists[n][j] == e;
        }
        if e in ElementsOf(lists) {
          var i, j :| 0 <= i < |lists| && 0 <= j < |lists[i]| && lists[i][j] == e;
          assert i < n ==> before[i][j] == e;
        }
      }
      forall e | e in last ensures e !in ElementsOf(before) {
        var j :| 0 <= j < |last| && last[j] == e;
        assert lists[n][j] == e;
        forall i, j' | 0 <= i < |before| && 0 <= j' < |before[i]| ensures before[i][j'] != e {
          assert lists[i][j'] == before[i][j'];
        }
      }
      var f, g := Flat(before), Flat(lists);
      forall i, j | 0 <= i < j < |g| ensures g[i] != g[j] {
        if j < |f| {
          assert g[i] == f[i] && g[j] == f[j];
        } else {
          assert g[j] == lists[n][j - |f|];
          if i < |f| {
            assert f[i] in f && g[j] in last;
          } else {
            assert g[i] == lists[n][i - |f|];
          }
        }
      }
    }
  }

  class Table {
    /** The buckets and, behind them, the two free lists. */
    const lists: array<seq<Element>>
    var memid: int
    var registermemid: int
    /** Every element created for this table. */
    ghost var created: set<Element>

    ghost predicate Valid()
      reads this, lists
    {
      lists.Length == LISTS && Ordered(lists[..], memid, registermemid, created)
    }

    /** The table as a finite map: the element of every live segment. */
    ghost function Segments(): map<int, Element>
      requires lists.Length == LISTS
      reads lists
    {
      SegmentsOf(lists[..])
    }

    constructor ()
      ensures Valid() && fresh(lists) && created == {} && Segments() == map[]
      ensures lists[MEM_FREE] == lists[REG_FREE] == []
    {
      lists := new seq<Element>[LISTS](_ => []);
      memid, registermemid, created := 1, -1, {};
      new;
      EmptyTable(lists[..]);
      hide Ordered, SegmentsOf;
    }

    /** The element of a live segment, or null. */
    method GetSegment(segid: int) returns (elem: Element?)
      requires Valid()
      ensures elem == if segid in Segments() then Segments()[segid] else null
      ensures elem != null ==> elem.segid == segid && elem in created
      ensures elem != null && segid != LOCAL ==> forall e :: e in lists[Hash(segid)] && e.segid == segid ==> e == elem
    {
      var l := lists[Hash(segid)];
      var k := Find(l, segid);
      IndexOfIsLive(lists[..], segid);
      LiveSegments(lists[..], memid, registermemid);
      if k == |l| {
        return null;
      }
      elem := l[k];
      OnList(segid, k);
      hide Ordered, SegmentsOf, Put, Drop, Hash, FreeList, IndexOf;
      if segid != LOCAL {
        OnlyElement(lists[..], memid, registermemid, segid, k);
      }
    }

    lemma OnList(segid: int, k: nat)
      requires Valid() && k < |lists[Hash(segid)]|
      ensures lists[Hash(segid)][k] in created
    {
      assert lists[..][Hash(segid)] == lists[Hash(segid)];
    }

    method GetFlags(segid: int) returns (ok: bool, flags: uint16)
      requires Valid()
      ensures ok <==> segid in Segments()
      ensures ok ==> flags == Segments()[segid].info.flags
    {
      var segment := GetSegment(segid);
      hide Ordered, SegmentsOf, Put, Drop, Hash, FreeList, IndexOf;
      if segment == null {
        return false, 0;
      }
      ok, flags := true, segment.info.flags;
    }

    /** Writes the flags of a live segment and nothing else. */
    method SetFlags(segid: int, flags: uint16) returns (ok: bool)
      requires Valid()
      modifies created
      ensures Valid() && (ok <==> segid in Segments())
      ensures forall e :: e in created ==>
                e.info == if ok && e == Segments()[segid] then old(e.info).(flags := flags) else old(e.info)
    {
      var segment := GetSegment(segid);
      hide Ordered, SegmentsOf, Put, Drop, Hash, FreeList, IndexOf;
      ok := segment != null;
      if ok {
        segment.info := segment.info.(flags := flags);
      }
    }

    /** Puts an element at the front of its bucket. */
    method RegisterSegment(elem: Element)
      requires lists.Length == LISTS
      modifies lists
      ensures lists[..] == Put(old(lists[..]), Hash(elem.segid), elem)
      ensures forall i :: 0 <= i < LISTS && i != Hash(elem.segid) ==> lists[i] == old(lists[i])
    {
      var slot := Hash(elem.segid);
      lists[slot] := [elem] + lists[slot];
    }

    /**
      A new segment. For the two kinds with identifiers it is the first element of the free list
      if there is one, as it was when it was freed; otherwise it is a new element with the next
      identifier. Null means that no identifier is left, and then nothing has changed.
     */
    method AllocSegment(kind: Kind) returns (elem: Element?)
      requires Valid()
      modifies this`memid, this`registermemid, this`created, lists
      ensures Valid()
      ensures elem == null <==>
                || (kind.Alloc? && forall id :: 1 <= id <= 32766 ==> id in old(Segments()))
                || (kind.Register? && forall id :: -32767 <= id <= -1 ==> id in old(Segments()))
      ensures elem == null ==>
                lists[..] == old(lists[..]) && created == old(created)
                && memid == old(memid) && registermemid == old(registermemid)
      ensures elem != null ==>
                && created == old(created) + {elem}
                && (match kind
                    case LocalAlloc => elem.segid == LOCAL
                    case Alloc => 1 <= elem.segid <= 32766
                    case Register => -32767 <= elem.segid <= -1)
                && (elem.segid != LOCAL ==> elem.segid !in old(Segments()))
                && Segments() == old(Segments())[elem.segid := elem]
      ensures lists[MEM_FREE] == if kind.Alloc? then Rest(old(lists[MEM_FREE])) else old(lists[MEM_FREE])
      ensures lists[REG_FREE] == if kind.Register? then Rest(old(lists[REG_FREE])) else old(lists[REG_FREE])
      ensures elem != null ==>
                if kind.LocalAlloc? || old(lists[FreeListFor(kind)]) == [] then fresh(elem)
                else elem == old(lists[FreeListFor(kind)])[0] && elem in old(created)
      ensures elem != null && (kind.LocalAlloc? || old(lists[FreeListFor(kind)]) == []) ==>
                && elem.info.size == elem.info.disp == elem.info.baseptr == elem.info.selfbaseptr == 0
                && elem.info.shmwin == elem.info.win == elem.info.flags == 0
                && !elem.info.isDynamic && !elem.info.syncNeeded
      ensures elem != null ==> (elem.info == EMPTY <==>
                || kind.LocalAlloc?
                || old(lists[FreeListFor(kind)]) == []
                || old(lists[FreeListFor(kind)][0].info) == EMPTY)
    {
      hide Ordered, SegmentsOf;
      Exhausted(lists[..], memid, registermemid, created);
      match kind
      case LocalAlloc =>
        elem := Introduce(LOCAL);
      case Alloc =>
        if lists[MEM_FREE] != [] {
          elem := Recycle(MEM_FREE);
        } else if memid == INT16_MAX || memid <= 0 {
          return null;
        } else {
          memid := memid + 1;
          elem := Introduce(memid - 1);
        }
      case Register =>
        if lists[REG_FREE] != [] {
          elem := Recycle(REG_FREE);
        } else if registermemid == INT16_MIN || registermemid >= 0 {
          return null;
        } else {
          registermemid := registermemid - 1;
          elem := Introduce(registermemid + 1);
        }
    }

    /** The element at the head of a free list goes back to its bucket. */
    method Recycle(l: nat) returns (elem: Element)
      requires Valid() && (l == MEM_FREE || l == REG_FREE) && lists[l] != []
      modifies lists
      ensures Valid() && elem in created
      ensures old(lists[l]) != [] && elem == old(lists[l])[0]
      ensures if l == MEM_FREE then 1 <= elem.segid <= 32766 else -32767 <= elem.segid <= -1
      ensures elem.segid !in old(Segments()) && Segments() == old(Segments())[elem.segid := elem]
      ensures lists[l] == old(lists[l])[1..]
      ensures forall i :: HASH_SIZE <= i < LISTS && i != l ==> lists[i] == old(lists[i])
    {
      hide Ordered, SegmentsOf, Put, Drop, Hash;
      ghost var was := lists[..];
      RecyclesElement(was, memid, registermemid, l, created);
      HashInRange(lists[l][0].segid);
      elem := lists[l][0];
      lists[l] := lists[l][1..];
      DroppedFirst(was, l, lists[..]);
      RegisterSegment(elem);
    }

    /** A new element with an identifier that has just been counted, or with the local one. */
    method Introduce(segid: int) returns (elem: Element)
      requires lists.Length == LISTS
      requires Ordered(lists[..], if segid > 0 then memid - 1 else memid,
                 if segid < 0 then registermemid + 1 else registermemid, created)
      requires (segid > 0 && segid == memid - 1) || (segid < 0 && segid == registermemid + 1) || segid == LOCAL
      requires memid <= INT16_MAX && registermemid >= INT16_MIN
      modifies lists, this`created
      ensures Valid() && fresh(elem) && elem.info == EMPTY && created == old(created) + {elem}
      ensures elem.segid == segid && (segid != LOCAL ==> segid !in old(Segments()))
      ensures INT16_MIN < segid < INT16_MAX && Segments() == old(Segments())[segid := elem]
      ensures forall i :: HASH_SIZE <= i < LISTS ==> lists[i] == old(lists[i])
    {
      hide Ordered, SegmentsOf, Put, Hash;
      elem := new Element(segid);
      ghost var was := lists[..];
      HashInRange(segid);
      IntroducesElement(was, if segid > 0 then memid - 1 else memid,
        if segid < 0 then registermemid + 1 else registermemid, elem, created);
      RegisterSegment(elem);
      created := created + {elem};
    }

    /**
      Takes the segment with an identifier out of its bucket and puts its element, as it is, on the
      free list of its sign. The local segment is not freed in this way.
     */
    method FreeSegment(segid: int) returns (found: bool)
      requires Valid() && (segid == LOCAL ==> LOCAL !in Segments())
      modifies lists
      ensures Valid() && (found <==> segid in old(Segments()))
      ensures Segments() == old(Segments()) - {segid}
      ensures !found ==> lists[..] == old(lists[..])
      ensures forall i :: HASH_SIZE <= i < LISTS ==>
                lists[i] == if found && i == FreeList(segid) then [old(Segments())[segid]] + old(lists[i])
                            else old(lists[i])
    {
      hide Ordered, SegmentsOf, Put, Drop, Hash, FreeList, IndexOf;
      ghost var was := lists[..];
      FreesElement(was, memid, registermemid, segid, created);
      HashInRange(segid);
      var slot := Hash(segid);
      var k := Find(lists[slot], segid);
      found := k < |lists[slot]|;
      if found {
        var elem := lists[slot][k];
        lists[slot] := lists[slot][..k] + lists[slot][k + 1..];
        lists[FreeList(segid)] := [elem] + lists[FreeList(segid)];
        Moved(was, slot, k, FreeList(segid), lists[..]);
      }
    }

    /** Clears every list; `released` names the elements in the order in which they are freed. */
    method Fini() returns (ghost released: seq<Element>)
      requires Valid()
      modifies lists
      ensures lists.Length == LISTS && forall i :: 0 <= i < LISTS ==> lists[i] == []
      ensures forall e :: e in released <==> e in created
      ensures forall i, j :: 0 <= i < j < |released| ==> released[i] != released[j]
    {
      released := [];
      for i := 0 to LISTS
        invariant forall j :: 0 <= j < i ==> lists[j] == []
        invariant forall j :: i <= j < LISTS ==> lists[j] == old(lists[j])
        invariant released == Flat(old(lists[..])[..i])
      {
        FlatStep(old(lists[..]), i);
        released := released + lists[i];
        lists[i] := [];
      }
      assert old(lists[..])[..LISTS] == old(lists[..]);
      FlatElements(old(lists[..]));
    }
  }

  /** From its bucket to the free list. */
  lemma FreesElement(lists: seq<seq<Element>>, memid: int, regid: int, id: int, created: set<Element>)
    requires Ordered(lists, memid, regid, created) && (id == LOCAL ==> id !in SegmentsOf(lists))
    ensures var k := IndexOf(lists[Hash(id)], id);
      if k == |lists[Hash(id)]| then id !in SegmentsOf(lists) else
        var e := lists[Hash(id)][k];
        var after := Put(Drop(lists, Hash(id), k), FreeList(id), e);
        && e.segid == id && id in SegmentsOf(lists) && SegmentsOf(lists)[id] == e
        && Ordered(after, memid, regid, created)
        && SegmentsOf(after) == SegmentsOf(lists) - {id}
  {
    var k := IndexOf(lists[Hash(id)], id);
    IndexOfIsLive(lists, id);
    LiveSegments(lists, memid, regid);
    HashInRange(id);
    hide NoSharing, ElementsOf, Put, Drop, AllIds, Consistent, SegmentsOf, Hash, Live, IndexOf;
    if k < |lists[Hash(id)]| {
      MovesElement(lists, memid, regid, Hash(id), k, FreeList(id));
      MovesSegment(lists, memid, regid, Hash(id), k, FreeList(id));
    }
  }

  lemma DroppedFirst(lists: seq<seq<Element>>, l: nat, after: seq<seq<Element>>)
    requires l < |lists| && lists[l] != [] && after == lists[l := lists[l][1..]]
    ensures after == Drop(lists, l, 0)
  {
    assert lists[l][..0] + lists[l][1..] == lists[l][1..];
  }

  lemma Moved(lists: seq<seq<Element>>, l: nat, k: nat, m: nat, after: seq<seq<Element>>)
    requires l < |lists| && m < |lists| && l != m && k < |lists[l]|
    requires after == lists[l := lists[l][..k] + lists[l][k + 1..]][m := [lists[l][k]] + lists[m]]
    ensures after == Put(Drop(lists, l, k), m, lists[l][k])
  {
  }

  /** A free list without its first element, if it has one. */
  function Rest(l: seq<Element>): seq<Element> {
    if l == [] then [] else l[1..]
  }

  /** Back from the head of a free list to its bucket. */
  lemma RecyclesElement(lists: seq<seq<Element>>, memid: int, regid: int, l: nat, created: set<Element>)
    requires Ordered(lists, memid, regid, created) && (l == MEM_FREE || l == REG_FREE) && lists[l] != []
    ensures var e := lists[l][0]; var after := Put(Drop(lists, l, 0), Hash(e.segid), e);
      && Ordered(after, memid, regid, created) && e in created
      && (if l == MEM_FREE then 1 <= e.segid <= 32766 else -32767 <= e.segid <= -1)
      && e.segid !in SegmentsOf(lists) && SegmentsOf(after) == SegmentsOf(lists)[e.segid := e]
  {
    var e := lists[l][0];
    assert e in ElementsOf(lists);
    HashInRange(e.segid);
    hide NoSharing, ElementsOf, Put, Drop, AllIds, Consistent, SegmentsOf, Hash, Live;
    MovesElement(lists, memid, regid, l, 0, Hash(e.segid));
    MovesSegment(lists, memid, regid, l, 0, Hash(e.segid));
    UsedInRange(memid, regid, e.segid, AllIds(lists));
  }

  lemma SameFreeList(kind: Kind, id: int)
    requires !kind.LocalAlloc? && (if kind.Alloc? then 1 <= id else id <= -1)
    ensures HASH_SIZE <= FreeList(id) == FreeListFor(kind) < LISTS && id != LOCAL
    ensures FreeListFor(kind) == if kind.Alloc? then MEM_FREE else REG_FREE
    ensures EMPTY.flags == 0
  {
  }

  /** A segment is allocated, its flags are set, and it is freed: its element heads the free list. */
  method UsedAndFreed(t: Table, kind: Kind, flags: uint16) returns (elem: Element?)
    requires t.Valid() && !kind.LocalAlloc?
    modifies t`memid, t`registermemid, t`created, t.lists, t.created
    ensures t.Valid() && t.Segments() == old(t.Segments())
    ensures elem == null <==> forall id :: (if kind.Alloc? then 1 <= id <= 32766 else -32767 <= id <= -1) ==>
              id in old(t.Segments())
    ensures elem != null ==>
      && (if kind.Alloc? then 1 <= elem.segid <= 32766 else -32767 <= elem.segid <= -1)
      && elem.segid !in t.Segments() && elem.info.flags == flags
      && t.lists[FreeListFor(kind)] != [] && t.lists[FreeListFor(kind)][0] == elem
    ensures fresh(t.created - old(t.created))
  {
    hide Ordered, SegmentsOf, FreeList, FreeListFor, Hash, Rest;
    elem := t.AllocSegment(kind);
    if elem != null {
      SameFreeList(kind, elem.segid);
      var ok := t.SetFlags(elem.segid, flags);
      var found := t.FreeSegment(elem.segid);
    }
  }

  /**
    A segment is allocated, its flags are set, it is freed, and another one of the same kind is
    allocated: in every table, and for all flags, the second one comes back with the flags of the
    first. With flags other than zero it is not empty.
   */
  method RecycledSegment(t: Table, kind: Kind, flags: uint16) returns (elem: Element?)
    requires t.Valid() && !kind.LocalAlloc?
    modifies t`memid, t`registermemid, t`created, t.lists, t.created
    ensures t.Valid()
    ensures elem == null <==> forall id :: (if kind.Alloc? then 1 <= id <= 32766 else -32767 <= id <= -1) ==>
              id in old(t.Segments())
    ensures elem != null ==> elem.info.flags == flags && t.Segments() == old(t.Segments())[elem.segid := elem]
    ensures elem != null && flags != 0 ==> elem.info != EMPTY
  {
    hide Ordered, SegmentsOf, FreeList, FreeListFor, Hash, Rest;
    elem := UsedAndFreed(t, kind, flags);
    if elem != null {
      SameFreeList(kind, elem.segid);
      elem := t.AllocSegment(kind);
    }
  }

  /** The search loop over a chain. */
  method Find(l: seq<Element>, segid: int) returns (k: nat)
    ensures k == IndexOf(l, segid)
  {
    k := 0;
    while k < |l| && l[k].segid != segid
      invariant k <= |l| && k + IndexOf(l[k..], segid) == IndexOf(l, segid)
    {
      k := k + 1;
    }
  }
}
