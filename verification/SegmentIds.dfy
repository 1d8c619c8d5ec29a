/**
  Segment identifiers of a team: which identifiers are in which bucket of the hash table or on
  which free list, and what handing them out and taking them back does to that.
 */
module SegmentIds {

  const HASH_SIZE := 256
  const INT16_MAX := 32767
  const INT16_MIN := -32768

  /** The lists of identifiers: the buckets, then the two free lists. */
  const MEM_FREE := HASH_SIZE
  const REG_FREE := HASH_SIZE + 1
  const LISTS := HASH_SIZE + 2

  const LOCAL := 0

  function Hash(id: int): (slot: nat)
    ensures slot < HASH_SIZE
    ensures (if id < 0 then id + slot else id - slot) % 256 == 0
  {
    (if id < 0 then -id else id) % HASH_SIZE
  }

  function FreeList(id: int): nat { if id > 0 then MEM_FREE else REG_FREE }

  predicate Used(id: int, memid: int, regid: int) {
    regid < id < memid && id != LOCAL
  }

  /** How often an identifier occurs in the two lists where it may be. */
  function Occurrences(ids: seq<seq<int>>, id: int): nat
    requires |ids| == LISTS
  {
    multiset(ids[Hash(id)])[id] + multiset(ids[FreeList(id)])[id]
  }

  /** Whether an identifier may be on a list. */
  predicate Belongs(l: nat, id: int, memid: int, regid: int) {
    if l == MEM_FREE then 0 < id < memid
    else if l == REG_FREE then regid < id < 0
    else Hash(id) == l && (id == LOCAL || Used(id, memid, regid))
  }

  /** The identifiers used so far are those between the counters, each of them on one list, once. */
  ghost predicate Consistent(ids: seq<seq<int>>, memid: int, regid: int) {
    && |ids| == LISTS && 1 <= memid <= INT16_MAX && INT16_MIN <= regid <= -1
    && (forall l, id :: 0 <= l < LISTS && id in ids[l] ==> Belongs(l, id, memid, regid))
    && (forall id :: Used(id, memid, regid) ==> Occurrences(ids, id) == 1)
  }

  predicate Live(ids: seq<seq<int>>, id: int)
    requires |ids| == LISTS
  {
    id in ids[Hash(id)]
  }

  function Pushed(ids: seq<seq<int>>, l: nat, id: int): seq<seq<int>>
    requires l < |ids|
  {
    ids[l := [id] + ids[l]]
  }

  function Removed(ids: seq<seq<int>>, l: nat, k: nat): seq<seq<int>>
    requires l < |ids| && k < |ids[l]|
  {
    ids[l := ids[l][..k] + ids[l][k + 1..]]
  }

  lemma InList(s: seq<int>, id: int)
    ensures id in s <==> multiset(s)[id] > 0
  {
  }

  lemma PushedCounts(ids: seq<seq<int>>, l: nat, id: int, i: nat, other: int)
    requires l < |ids| && i < |ids|
    ensures multiset(Pushed(ids, l, id)[i])[other]
      == multiset(ids[i])[other] + (if i == l && other == id then 1 else 0)
  {
    assert multiset([id] + ids[l]) == multiset([id]) + multiset(ids[l]);
  }

  lemma RemovedCounts(ids: seq<seq<int>>, l: nat, k: nat, i: nat, other: int)
    requires l < |ids| && k < |ids[l]| && i < |ids|
    ensures multiset(Removed(ids, l, k)[i])[other]
      == multiset(ids[i])[other] - (if i == l && other == ids[l][k] then 1 else 0)
  {
    var s := ids[l];
    assert s == s[..k] + [s[k]] + s[k + 1..];
    assert multiset(s) == multiset(s[..k]) + multiset{s[k]} + multiset(s[k + 1..]);
    assert multiset(s[..k] + s[k + 1..]) == multiset(s[..k]) + multiset(s[k + 1..]);
  }

  lemma OccurrencesPushed(ids: seq<seq<int>>, l: nat, id: int, other: int)
    requires |ids| == LISTS && (l == Hash(id) || l == FreeList(id))
    ensures Occurrences(Pushed(ids, l, id), other) == Occurrences(ids, other) + (if other == id then 1 else 0)
  {
    PushedCounts(ids, l, id, Hash(other), other);
    PushedCounts(ids, l, id, FreeList(other), other);
  }

  lemma OccurrencesRemoved(ids: seq<seq<int>>, l: nat, k: nat, other: int)
    requires |ids| == LISTS && l < LISTS && k < |ids[l]|
    requires l == Hash(ids[l][k]) || l == FreeList(ids[l][k])
    ensures Occurrences(Removed(ids, l, k), other)
      == Occurrences(ids, other) - (if other == ids[l][k] then 1 else 0)
  {
    RemovedCounts(ids, l, k, Hash(other), other);
    RemovedCounts(ids, l, k, FreeList(other), other);
  }

  lemma PushedMembers(ids: seq<seq<int>>, l: nat, id: int, i: nat, other: int)
    requires l < |ids| && i < |ids|
    ensures other in Pushed(ids, l, id)[i] <==> other in ids[i] || (i == l && other == id)
  {
  }

  lemma RemovedMembers(ids: seq<seq<int>>, l: nat, k: nat, i: nat, other: int)
    requires l < |ids| && k < |ids[l]| && i < |ids|
    ensures other in Removed(ids, l, k)[i] ==> other in ids[i]
    ensures other in ids[i] && (i != l || other != ids[l][k]) ==> other in Removed(ids, l, k)[i]
  {
    RemovedCounts(ids, l, k, i, other);
    InList(ids[i], other);
    InList(Removed(ids, l, k)[i], other);
  }

  /** An identifier that has been used and is on one of its lists is not on the other. */
  lemma OnOneList(ids: seq<seq<int>>, memid: int, regid: int, id: int)
    requires Consistent(ids, memid, regid) && Used(id, memid, regid)
    ensures Live(ids, id) <==> id !in ids[FreeList(id)]
  {
    InList(ids[Hash(id)], id);
    InList(ids[FreeList(id)], id);
  }

  /** An identifier moves from one of its two lists to the other. */
  lemma Moves(ids: seq<seq<int>>, memid: int, regid: int, l: nat, k: nat, m: nat)
    requires Consistent(ids, memid, regid) && l < LISTS && m < LISTS && k < |ids[l]|
    requires var id := ids[l][k];
      id != LOCAL && ((l == Hash(id) && m == FreeList(id)) || (l == FreeList(id) && m == Hash(id)))
    ensures var id, after := ids[l][k], Pushed(Removed(ids, l, k), m, ids[l][k]);
      && Consistent(after, memid, regid) && Used(id, memid, regid)
      && (Live(ids, id) <==> l == Hash(id)) && (Live(after, id) <==> m == Hash(id))
      && forall other :: other != id ==> (Live(after, other) <==> Live(ids, other))
  {
    var id := ids[l][k];
    var between := Removed(ids, l, k);
    var after := Pushed(between, m, id);
    assert id in ids[l];
    assert Belongs(l, id, memid, regid);
    forall i, other | 0 <= i < LISTS && other in after[i] ensures Belongs(i, other, memid, regid) {
      PushedMembers(between, m, id, i, other);
      RemovedMembers(ids, l, k, i, other);
      assert other in ids[i] ==> Belongs(i, other, memid, regid);
    }
    forall other ensures Occurrences(after, other) == Occurrences(ids, other) {
      OccurrencesRemoved(ids, l, k, other);
      OccurrencesPushed(between, m, id, other);
    }
    hide Occurrences, Belongs;
    assert Consistent(after, memid, regid);
    OnOneList(ids, memid, regid, id);
    OnOneList(after, memid, regid, id);
    PushedMembers(between, m, id, m, id);
    forall other | other != id ensures Live(after, other) <==> Live(ids, other) {
      PushedMembers(between, m, id, Hash(other), other);
      RemovedMembers(ids, l, k, Hash(other), other);
    }
  }

  /** The next identifier of either sign is put into its bucket. */
  lemma Introduces(ids: seq<seq<int>>, memid: int, regid: int, id: int)
    requires Consistent(ids, memid, regid)
    requires (id == memid < INT16_MAX) || (id == regid > INT16_MIN) || id == LOCAL
    ensures var after := Pushed(ids, Hash(id), id);
      && Consistent(after, if id > 0 then memid + 1 else memid, if id < 0 then regid - 1 else regid)
      && (id != LOCAL ==> !Live(ids, id)) && Live(after, id)
      && forall other :: other != id ==> (Live(after, other) <==> Live(ids, other))
  {
    var after := Pushed(ids, Hash(id), id);
    var memid' := if id > 0 then memid + 1 else memid;
    var regid' := if id < 0 then regid - 1 else regid;
    forall i, other | 0 <= i < LISTS && other in after[i] ensures Belongs(i, other, memid', regid') {
      PushedMembers(ids, Hash(id), id, i, other);
      assert other in ids[i] ==> Belongs(i, other, memid, regid);
    }
    if id != LOCAL {
      assert !Belongs(Hash(id), id, memid, regid) && !Belongs(FreeList(id), id, memid, regid);
      InList(ids[Hash(id)], id);
      InList(ids[FreeList(id)], id);
      assert Occurrences(ids, id) == 0;
    }
    forall other | Used(other, memid', regid') ensures Occurrences(after, other) == 1 {
      OccurrencesPushed(ids, Hash(id), id, other);
      assert other != id ==> Used(other, memid, regid);
    }
    forall other ensures Live(after, other) <==> (other == id || Live(ids, other)) {
      PushedMembers(ids, Hash(id), id, Hash(other), other);
    }
  }

  lemma LiveIsUsed(ids: seq<seq<int>>, memid: int, regid: int, id: int)
    requires Consistent(ids, memid, regid) && Live(ids, id) && id != LOCAL
    ensures Used(id, memid, regid) && id !in ids[FreeList(id)]
  {
    assert Belongs(Hash(id), id, memid, regid);
    OnOneList(ids, memid, regid, id);
  }

  /** No identifier of a sign is left exactly when all of them belong to live segments. */
  lemma ExhaustedExactly(ids: seq<seq<int>>, memid: int, regid: int)
    requires Consistent(ids, memid, regid)
    ensures ids[MEM_FREE] == [] && memid == INT16_MAX <==> forall id :: 1 <= id <= 32766 ==> Live(ids, id)
    ensures ids[REG_FREE] == [] && regid == INT16_MIN <==> forall id :: -32767 <= id <= -1 ==> Live(ids, id)
  {
    forall id | Used(id, memid, regid) ensures Live(ids, id) <==> id !in ids[FreeList(id)] {
      OnOneList(ids, memid, regid, id);
    }
    FreeListIsEmpty(ids, memid, regid, MEM_FREE);
    FreeListIsEmpty(ids, memid, regid, REG_FREE);
    if Live(ids, 32766) {
      LiveIsUsed(ids, memid, regid, 32766);
    }
    if Live(ids, -32767) {
      LiveIsUsed(ids, memid, regid, -32767);
    }
  }

  /** An identifier on a free list is in range and not live. */
  lemma FreeListIsEmpty(ids: seq<seq<int>>, memid: int, regid: int, l: nat)
    requires Consistent(ids, memid, regid) && (l == MEM_FREE || l == REG_FREE)
    ensures ids[l] != [] ==>
              exists id :: !Live(ids, id) && (if l == MEM_FREE then 1 <= id <= 32766 else -32767 <= id <= -1)
  {
    if ids[l] != [] {
      var id := ids[l][0];
      assert id in ids[l];
      assert Belongs(l, id, memid, regid);
      OnOneList(ids, memid, regid, id);
    }
  }

  lemma NothingUsed()
    ensures Consistent(seq(LISTS, i => []), 1, -1)
  {
  }
}
