/**
  Groups of units as two arrays that translate between global and local ids, and the local ids
  that the master of a new team sends to its members.
 */
module Groups {

  const MAXSIZE_GROUP := 256

  /** Global ids are members where g2l is not negative. */
  function Members(g2l: seq<int>): (m: set<int>)
    ensures forall i :: i in m <==> 0 <= i < |g2l| && g2l[i] >= 0
  {
    set i | 0 <= i < |g2l| && g2l[i] >= 0
  }

  /** How many members have a global id below i. */
  function Rank(g2l: seq<int>, i: nat): (r: nat)
    requires i <= |g2l|
    ensures r <= i
  {
    if i == 0 then 0 else Rank(g2l, i - 1) + (if g2l[i - 1] >= 0 then 1 else 0)
  }

  lemma {:induction false} RankMonotone(g2l: seq<int>, i: nat, j: nat)
    requires i <= j <= |g2l|
    ensures Rank(g2l, i) <= Rank(g2l, j)
    ensures i < j && g2l[i] >= 0 ==> Rank(g2l, i) < Rank(g2l, j)
  {
    if i < j {
      RankMonotone(g2l, i, j - 1);
    }
  }

  lemma {:induction false} RankOfSame(g: seq<int>, h: seq<int>, i: nat)
    requires |g| == |h| && i <= |g| && forall k :: 0 <= k < i ==> (g[k] >= 0 <==> h[k] >= 0)
    ensures Rank(g, i) == Rank(h, i)
  {
    if i > 0 {
      RankOfSame(g, h, i - 1);
    }
  }

  lemma {:induction false} RankCounts(g2l: seq<int>, i: nat)
    requires i <= |g2l|
    ensures Rank(g2l, i) == |Members(g2l[..i])|
  {
    if i == 0 {
      assert Members(g2l[..0]) == {};
    } else {
      RankCounts(g2l, i - 1);
      if g2l[i - 1] >= 0 {
        assert Members(g2l[..i]) == Members(g2l[..i - 1]) + {i - 1};
      } else {
        assert Members(g2l[..i]) == Members(g2l[..i - 1]);
      }
    }
  }

  /** Both translations agree with the ascending order of the members. */
  ghost predicate Numbered(g2l: seq<int>, l2g: seq<int>, nmem: nat) {
    && |g2l| == |l2g| == MAXSIZE_GROUP && nmem == |Members(g2l)| && nmem <= MAXSIZE_GROUP
    && (forall i :: i in Members(g2l) ==> g2l[i] == Rank(g2l, i) && Rank(g2l, i) < nmem && l2g[Rank(g2l, i)] == i)
    && (forall n :: 0 <= n < nmem ==> l2g[n] in Members(g2l) && g2l[l2g[n]] == n)
  }

  /** Local ids ascend with global ids, and the two translations are inverse. */
  lemma Ascending(g2l: seq<int>, l2g: seq<int>, nmem: nat, m: nat, n: nat)
    requires Numbered(g2l, l2g, nmem) && m < nmem && n < nmem
    ensures l2g[m] in Members(g2l)
    ensures m < n <==> l2g[m] < l2g[n]
    ensures g2l[l2g[m]] == m && l2g[g2l[l2g[m]]] == l2g[m]
  {
    var i, j := l2g[m], l2g[n];
    if i <= j {
      RankMonotone(g2l, i, j);
    } else {
      RankMonotone(g2l, j, i);
    }
  }

  class Group {
    const g2l: array<int>
    const l2g: array<int>
    var nmem: nat

    ghost predicate Shaped() {
      g2l.Length == MAXSIZE_GROUP == l2g.Length && g2l != l2g
    }

    ghost predicate Valid()
      reads this, g2l, l2g
    {
      Shaped() && Numbered(g2l[..], l2g[..], nmem)
    }

    ghost function Units(): set<int>
      reads g2l
    {
      Members(g2l[..])
    }

    constructor ()
      ensures Valid() && Units() == {} && fresh(g2l) && fresh(l2g)
    {
      g2l := new int[MAXSIZE_GROUP](_ => -1);
      l2g := new int[MAXSIZE_GROUP](_ => -1);
      nmem := 0;
      new;
      assert Members(g2l[..]) == {};
    }

    method Create()
      requires Shaped()
      modifies this, g2l, l2g
      ensures Valid() && Units() == {}
    {
      nmem := 0;
      for i := 0 to MAXSIZE_GROUP
        invariant nmem == 0 && forall k :: 0 <= k < i ==> g2l[k] == l2g[k] == -1
      {
        g2l[i] := -1;
        l2g[i] := -1;
      }
      assert Members(g2l[..]) == {};
    }

    /** Renumbers the group from its members alone. */
    method Rebuild()
      requires Shaped()
      modifies this, g2l, l2g
      ensures Valid() && Units() == old(Units())
    {
      hide Rank, Members, Renumbered, Numbered;
      var n := 0;
      ghost var was := g2l[..];
      RenumberStart(was, l2g[..]);
      for i := 0 to MAXSIZE_GROUP
        invariant Renumbered(was, g2l[..], l2g[..], i, n)
      {
        ghost var g, l := g2l[..], l2g[..];
        RenumberStep(was, g, l, i, n);
        if g2l[i] >= 0 {
          l2g[n] := i;
          g2l[i] := n;
          assert g2l[..] == g[i := n] && l2g[..] == l[n := i];
          n := n + 1;
        }
      }
      nmem := n;
      RebuiltIsNumbered(was, g2l[..], l2g[..], n);
    }
  }

  /** The members below i have been numbered. */
  ghost predicate Renumbered(was: seq<int>, g2l: seq<int>, l2g: seq<int>, i: nat, n: nat) {
    && |was| == |g2l| == |l2g| == MAXSIZE_GROUP && i <= MAXSIZE_GROUP && n == Rank(was, i) <= i
    && (forall k :: i <= k < MAXSIZE_GROUP ==> g2l[k] == was[k])
    && (forall k :: 0 <= k < i ==> g2l[k] == if was[k] >= 0 then Rank(was, k) else was[k])
    && (forall k :: 0 <= k < i && was[k] >= 0 ==> l2g[Rank(was, k)] == k)
    && (forall m :: 0 <= m < n ==> IsNth(was, l2g[m], m, i))
  }

  ghost predicate IsNth(was: seq<int>, k: int, m: nat, i: nat)
    requires i <= |was|
  {
    0 <= k < i && was[k] >= 0 && Rank(was, k) == m
  }

  lemma RenumberStart(was: seq<int>, l2g: seq<int>)
    requires |was| == |l2g| == MAXSIZE_GROUP
    ensures Renumbered(was, was, l2g, 0, 0)
  {
  }

  lemma RenumberStep(was: seq<int>, g2l: seq<int>, l2g: seq<int>, i: nat, n: nat)
    requires Renumbered(was, g2l, l2g, i, n) && i < MAXSIZE_GROUP
    ensures n < MAXSIZE_GROUP
    ensures if g2l[i] >= 0 then Renumbered(was, g2l[i := n], l2g[n := i], i + 1, n + 1)
            else Renumbered(was, g2l, l2g, i + 1, n)
  {
    assert Rank(was, i + 1) == Rank(was, i) + (if was[i] >= 0 then 1 else 0);
    if g2l[i] >= 0 {
      var l := l2g[n := i];
      forall k | 0 <= k < i + 1 && was[k] >= 0 ensures l[Rank(was, k)] == k {
        RankMonotone(was, k, i);
      }
      forall m | 0 <= m < n + 1 ensures IsNth(was, l[m], m, i + 1) {
        assert m < n ==> IsNth(was, l2g[m], m, i);
      }
    } else {
      forall m | 0 <= m < n ensures IsNth(was, l2g[m], m, i + 1) {
        assert IsNth(was, l2g[m], m, i);
      }
    }
  }

  lemma RebuiltIsNumbered(was: seq<int>, g2l: seq<int>, l2g: seq<int>, n: nat)
    requires Renumbered(was, g2l, l2g, MAXSIZE_GROUP, n)
    ensures Numbered(g2l, l2g, n) && Members(g2l) == Members(was)
  {
    forall i | 0 <= i <= |was| ensures Rank(g2l, i) == Rank(was, i) {
      RankOfSame(g2l, was, i);
    }
    assert Members(g2l) == Members(was);
    RankCounts(was, MAXSIZE_GROUP);
    assert was[..MAXSIZE_GROUP] == was;
    forall i | i in Members(g2l) ensures Rank(g2l, i) < n {
      RankMonotone(was, i, MAXSIZE_GROUP);
    }
    forall m | 0 <= m < n ensures l2g[m] in Members(g2l) && g2l[l2g[m]] == m {
      assert IsNth(was, l2g[m], m, MAXSIZE_GROUP);
    }
  }

  // ---------- Set operations ----------

  /**
    An operand that is the target counts as empty, because the target is cleared while the operands
    are still being read. The result is the union all the same exactly if the other operand has every
    member of the target.
   */
  method Union(g1: Group, g2: Group, gout: Group)
    requires g1.Shaped() && g2.Shaped() && gout.Shaped() && Separate(g1, gout) && Separate(g2, gout)
    modifies gout, gout.g2l, gout.l2g
    ensures gout.Valid()
    ensures gout.Units() == (if g1 == gout then {} else old(g1.Units())) + (if g2 == gout then {} else old(g2.Units()))
    ensures gout.Units() == old(g1.Units() + g2.Units()) <==>
            && (g1 == gout ==> old(g1.Units()) <= if g2 == gout then {} else old(g2.Units()))
            && (g2 == gout ==> old(g2.Units()) <= if g1 == gout then {} else old(g1.Units()))
  {
    ghost var a, b := g1.Units(), g2.Units();
    for i := 0 to MAXSIZE_GROUP
      invariant forall k :: i <= k < MAXSIZE_GROUP ==> gout.g2l[k] == old(gout.g2l[k])
      invariant forall k :: 0 <= k < i ==> (gout.g2l[k] >= 0 <==>
        (g1 != gout && old(g1.g2l[k]) >= 0) || (g2 != gout && old(g2.g2l[k]) >= 0))
    {
      gout.g2l[i] := -1;
      if g1.g2l[i] >= 0 || g2.g2l[i] >= 0 {
        gout.g2l[i] := 1;
      }
    }
    gout.Rebuild();
    WithoutOperand(a, b, g1 == gout, g2 == gout);
  }

  /** The common members, except that nothing is left if the target is one of the two groups. */
  method Intersect(g1: Group, g2: Group, gout: Group)
    requires g1.Shaped() && g2.Shaped() && gout.Shaped() && Separate(g1, gout) && Separate(g2, gout)
    modifies gout, gout.g2l, gout.l2g
    ensures gout.Valid()
    ensures gout.Units() == if g1 == gout || g2 == gout then {} else old(g1.Units()) * old(g2.Units())
    ensures gout.Units() == old(g1.Units() * g2.Units()) <==>
            (g1 == gout || g2 == gout ==> old(g1.Units()) !! old(g2.Units()))
  {
    for i := 0 to MAXSIZE_GROUP
      invariant forall k :: i <= k < MAXSIZE_GROUP ==> gout.g2l[k] == old(gout.g2l[k])
      invariant forall k :: 0 <= k < i ==> (gout.g2l[k] >= 0 <==>
        g1 != gout && old(g1.g2l[k]) >= 0 && g2 != gout && old(g2.g2l[k]) >= 0)
    {
      gout.g2l[i] := -1;
      if g1.g2l[i] >= 0 && g2.g2l[i] >= 0 {
        gout.g2l[i] := 1;
      }
    }
    gout.Rebuild();
  }

  /** Two group objects are the same or share no array. */
  ghost predicate Separate(g: Group, h: Group) {
    g == h || (g.g2l != h.g2l && g.g2l != h.l2g && g.l2g != h.g2l && g.l2g != h.l2g)
  }

  /** Leaving out an operand of a union loses nothing exactly if the rest contains it. */
  lemma WithoutOperand(a: set<int>, b: set<int>, noA: bool, noB: bool)
    ensures
      var a', b' := if noA then {} else a, if noB then {} else b;
      a' + b' == a + b <==> (noA ==> a <= b') && (noB ==> b <= a')
  {
    var a', b' := if noA then {} else a, if noB then {} else b;
    if a' + b' == a + b {
      forall x | x in a + b ensures x in a' + b' {
      }
    }
  }

  /** Adding one group to another in place: {3} and {5} give {5}. */
  method UnionInPlace() returns (ghost expected: set<int>, g: Group)
    ensures expected == {3, 5} && g.Valid() && g.Units() == {5}
  {
    hide Members, Numbered;
    g := new Group();
    var h := new Group();
    AddMember(g, 3);
    AddMember(h, 5);
    expected := g.Units() + h.Units();
    Union(g, h, g);
  }

  /** The union of a group with itself, in place: {3} becomes empty. */
  method UnionWithItself() returns (ghost expected: set<int>, g: Group)
    ensures expected == {3} && g.Valid() && g.Units() == {}
  {
    hide Members, Numbered;
    g := new Group();
    AddMember(g, 3);
    expected := g.Units() + g.Units();
    Union(g, g, g);
  }

  /** Narrowing a group in place: {3} within {3, 5} becomes empty. */
  method IntersectInPlace() returns (ghost expected: set<int>, g: Group)
    ensures expected == {3} && g.Valid() && g.Units() == {}
  {
    hide Members, Numbered;
    g := new Group();
    var h := new Group();
    AddMember(g, 3);
    AddMember(h, 3);
    AddMember(h, 5);
    expected := g.Units() * h.Units();
    Intersect(g, h, g);
  }

  method AddMember(g: Group, unit: nat)
    requires g.Shaped() && unit < MAXSIZE_GROUP
    modifies g, g.g2l, g.l2g
    ensures g.Valid() && g.Units() == old(g.Units()) + {unit}
  {
    g.g2l[unit] := 1;
    g.Rebuild();
  }

  method DelMember(g: Group, unit: nat)
    requires g.Shaped() && unit < MAXSIZE_GROUP
    modifies g, g.g2l, g.l2g
    ensures g.Valid() && g.Units() == old(g.Units()) - {unit}
  {
    g.g2l[unit] := -1;
    g.Rebuild();
  }

  // ---------- Splitting ----------

  /** Where part i begins when the first r parts have d + 1 elements and the others d. */
  function Begin(d: nat, r: nat, i: nat): nat {
    d * i + (if i < r then i else r)
  }

  /** The local id at which part i begins. */
  function Start(nmem: nat, parts: nat, i: nat): nat
    requires parts > 0
  {
    Begin(nmem / parts, nmem % parts, i)
  }

  lemma BeginSteps(d: nat, r: nat, parts: nat, i: nat)
    requires i < parts && r < parts
    ensures Begin(d, r, i + 1) == Begin(d, r, i) + d + (if i < r then 1 else 0)
    ensures Begin(d, r, i + 1) <= Begin(d, r, parts)
  {
    Grows(d, i + 1, parts);
    assert d * (i + 1) == d * i + d;
  }

  lemma Grows(d: nat, i: nat, j: nat)
    requires i <= j
    ensures d * i <= d * j
  {
  }

  /** The parts are consecutive, cover everything, and differ in size by at most one. */
  lemma StartsSplit(nmem: nat, parts: nat, i: nat)
    requires parts > 0 && i < parts
    ensures Start(nmem, parts, 0) == 0 && Start(nmem, parts, parts) == nmem
    ensures Start(nmem, parts, i + 1) - Start(nmem, parts, i) == nmem / parts + (if i < nmem % parts then 1 else 0)
    ensures Start(nmem, parts, i) <= Start(nmem, parts, i + 1) <= nmem
  {
    var d, r := nmem / parts, nmem % parts;
    assert d * parts + r == nmem;
    BeginSteps(d, r, parts, i);
    assert Begin(d, r, parts) == nmem && Begin(d, r, 0) == 0;
    hide Begin;
  }

  lemma {:induction false} StartsAscend(nmem: nat, parts: nat, i: nat, j: nat)
    requires parts > 0 && i <= j <= parts
    ensures Start(nmem, parts, i) <= Start(nmem, parts, j)
  {
    hide Start;
    if i < j {
      StartsAscend(nmem, parts, i, j - 1);
      StartsSplit(nmem, parts, j - 1);
    }
  }

  /** Every local id is in the stretch of some part. */
  lemma {:induction false} StretchOf(nmem: nat, parts: nat, upTo: nat, n: nat) returns (i: nat)
    requires parts > 0 && upTo <= parts && n < Start(nmem, parts, upTo)
    ensures i < upTo && Start(nmem, parts, i) <= n < Start(nmem, parts, i + 1)
  {
    hide Start;
    StartsSplit(nmem, parts, 0);
    i := upTo - 1;
    if n < Start(nmem, parts, i) {
      i := StretchOf(nmem, parts, upTo - 1, n);
    }
  }

  /** The members with local ids from m to n. */
  ghost function Slice(l2g: seq<int>, m: nat, n: nat): set<int>
    requires m <= n <= |l2g|
  {
    set j | m <= j < n :: l2g[j]
  }

  ghost predicate Distinct(groups: seq<Group>) {
    forall i, j :: 0 <= i < |groups| && 0 <= j < |groups| && i != j ==>
      groups[i] != groups[j] && Separate(groups[i], groups[j])
  }

  /** One part: the members with local ids from j0 on, as many as size says. */
  method FillPart(g: Group, part: Group, j0: nat, size: nat) returns (j: nat)
    requires g.Valid() && part.Shaped() && g != part && Separate(g, part) && j0 + size <= g.nmem
    modifies part, part.g2l, part.l2g
    ensures g.Valid() && part.Valid() && j == j0 + size && part.Units() == Slice(g.l2g[..], j0, j)
  {
    part.Create();
    j := j0;
    var k := 0;
    ghost var l := g.l2g[..];
    assert Slice(l, j0, j0) == {};
    hide Members, Slice;
    while k < size && j < g.nmem
      invariant k <= size && j == j0 + k && g.Valid() && g.l2g[..] == l
      invariant part.Units() == Slice(l, j0, j)
    {
      assert l[j] in Members(g.g2l[..]);
      SliceStep(l, j0, j);
      MarkMember(part, g.l2g[j], g);
      k := k + 1;
      j := j + 1;
    }
    part.Rebuild();
  }

  lemma SliceStep(l: seq<int>, m: nat, n: nat)
    requires m <= n < |l|
    ensures Slice(l, m, n + 1) == Slice(l, m, n) + {l[n]}
  {
  }

  method MarkMember(part: Group, unit: int, ghost g: Group)
    requires part.Shaped() && g != part && Separate(g, part) && g.Valid() && 0 <= unit < MAXSIZE_GROUP
    modifies part.g2l
    ensures part.Units() == old(part.Units()) + {unit} && g.Valid()
  {
    part.g2l[unit] := 1;
  }

  /** Part i of a split holds the members whose local ids are in its stretch. */
  ghost predicate IsPart(g: Group, part: Group, parts: nat, i: nat)
    requires parts > 0
    reads g, g.l2g, part, part.g2l, part.l2g
  {
    var m, n := Start(g.nmem, parts, i), Start(g.nmem, parts, i + 1);
    m <= n <= g.l2g.Length && part.Valid() && part.Units() == Slice(g.l2g[..], m, n)
  }

  lemma MemberInSlice(g2l: seq<int>, l2g: seq<int>, nmem: nat, x: int, m: nat, n: nat)
    requires Numbered(g2l, l2g, nmem) && m <= n <= nmem
    ensures x in Slice(l2g, m, n) <==> x in Members(g2l) && m <= g2l[x] < n
  {
  }

  /** The next local id names a member that the slice does not have yet. */
  lemma SliceGrows(g2l: seq<int>, l2g: seq<int>, nmem: nat, m: nat, n: nat)
    requires Numbered(g2l, l2g, nmem) && m <= n <= nmem
    ensures n <= |l2g| && Slice(l2g, m, m) == {}
    ensures n < nmem ==> Slice(l2g, m, n + 1) == Slice(l2g, m, n) + {l2g[n]} && l2g[n] !in Slice(l2g, m, n)
  {
    if n < nmem {
      assert g2l[l2g[n]] == n;
      MemberInSlice(g2l, l2g, nmem, l2g[n], m, n);
      SliceStep(l2g, m, n);
    }
  }

  /** As many members as local ids. */
  lemma {:induction false} SliceSize(g2l: seq<int>, l2g: seq<int>, nmem: nat, m: nat, n: nat)
    requires Numbered(g2l, l2g, nmem) && m <= n <= nmem
    ensures n <= |l2g| && |Slice(l2g, m, n)| == n - m
  {
    hide *;
    SliceGrows(g2l, l2g, nmem, m, n);
    if m < n {
      SliceGrows(g2l, l2g, nmem, m, n - 1);
      SliceSize(g2l, l2g, nmem, m, n - 1);
    }
  }

  /** The members of all the groups. */
  ghost function AllUnits(groups: seq<Group>): (units: set<int>)
    reads set p | p in groups :: p.g2l
    ensures forall x :: x in units <==> exists i :: 0 <= i < |groups| && x in groups[i].Units()
  {
    set i, x | 0 <= i < |groups| && x in groups[i].Units() :: x
  }

  lemma PartSize(g: Group, part: Group, parts: nat, i: nat)
    requires g.Valid() && i < parts && IsPart(g, part, parts, i)
    ensures |part.Units()| == g.nmem / parts + (if i < g.nmem % parts then 1 else 0)
  {
    StartsSplit(g.nmem, parts, i);
    SliceSize(g.g2l[..], g.l2g[..], g.nmem, Start(g.nmem, parts, i), Start(g.nmem, parts, i + 1));
  }

  /** A unit is in a part exactly if it is in the group with a local id of the stretch. */
  lemma PartMember(g: Group, part: Group, parts: nat, i: nat, x: int)
    requires g.Valid() && i < parts && IsPart(g, part, parts, i)
    ensures x in part.Units() <==>
            x in g.Units() && Start(g.nmem, parts, i) <= g.g2l[x] < Start(g.nmem, parts, i + 1)
  {
    StartsSplit(g.nmem, parts, i);
    MemberInSlice(g.g2l[..], g.l2g[..], g.nmem, x, Start(g.nmem, parts, i), Start(g.nmem, parts, i + 1));
  }

  lemma PartsDisjoint(g: Group, p: Group, q: Group, parts: nat, i: nat, j: nat)
    requires g.Valid() && i < j < parts && IsPart(g, p, parts, i) && IsPart(g, q, parts, j)
    ensures p.Units() !! q.Units()
  {
    hide *;
    StartsAscend(g.nmem, parts, i + 1, j);
    forall x | x in p.Units() ensures x !in q.Units() {
      PartMember(g, p, parts, i, x);
      PartMember(g, q, parts, j, x);
    }
  }

  lemma PartsCover(g: Group, gsplit: seq<Group>)
    requires g.Valid() && gsplit != []
    requires forall i :: 0 <= i < |gsplit| ==> IsPart(g, gsplit[i], |gsplit|, i)
    ensures AllUnits(gsplit) == g.Units()
  {
    var n := |gsplit|;
    forall x | x in AllUnits(gsplit) ensures x in g.Units() {
      var i :| 0 <= i < n && x in gsplit[i].Units();
      PartMember(g, gsplit[i], n, i, x);
    }
    forall x | x in g.Units() ensures x in AllUnits(gsplit) {
      StartsSplit(g.nmem, n, 0);
      var i := StretchOf(g.nmem, n, n, g.g2l[x]);
      PartMember(g, gsplit[i], n, i, x);
    }
  }

  /** What a split promises about the units of its parts. */
  lemma PartsPartition(g: Group, gsplit: seq<Group>)
    requires g.Valid() && gsplit != []
    requires forall i :: 0 <= i < |gsplit| ==> IsPart(g, gsplit[i], |gsplit|, i)
    ensures AllUnits(gsplit) == g.Units()
    ensures forall i, j :: 0 <= i < j < |gsplit| ==> gsplit[i].Units() !! gsplit[j].Units()
    ensures forall i :: 0 <= i < |gsplit| ==>
              |gsplit[i].Units()| == g.nmem / |gsplit| + (if i < g.nmem % |gsplit| then 1 else 0)
  {
    hide *;
    PartsCover(g, gsplit);
    forall i, j | 0 <= i < j < |gsplit| ensures gsplit[i].Units() !! gsplit[j].Units() {
      PartsDisjoint(g, gsplit[i], gsplit[j], |gsplit|, i, j);
    }
    forall i | 0 <= i < |gsplit|
      ensures |gsplit[i].Units()| == g.nmem / |gsplit| + (if i < g.nmem % |gsplit| then 1 else 0)
    {
      PartSize(g, gsplit[i], |gsplit|, i);
    }
  }

  method MakePart(g: Group, part: Group, bsize: nat, j0: nat, ghost parts: nat, ghost i: nat) returns (j: nat)
    requires g.Valid() && part.Shaped() && g != part && Separate(g, part)
    requires i < parts && j0 == Start(g.nmem, parts, i) && j0 + bsize == Start(g.nmem, parts, i + 1) <= g.nmem
    modifies part, part.g2l, part.l2g
    ensures g.Valid() && IsPart(g, part, parts, i) && j == j0 + bsize
  {
    assert g.nmem <= g.l2g.Length;
    hide Start, Numbered, Slice, Members;
    j := FillPart(g, part, j0, bsize);
  }

  /**
    The parts are disjoint, together they have the members of the group, the first of them have one
    member more than the others, and the members of a part come after those of the part before.
   */
  method Split(g: Group, gsplit: seq<Group>)
    requires g.Valid() && gsplit != [] && Distinct([g] + gsplit)
    requires forall i :: 0 <= i < |gsplit| ==> gsplit[i].Shaped()
    modifies set p | p in gsplit
    modifies set p | p in gsplit :: p.g2l
    modifies set p | p in gsplit :: p.l2g
    ensures g.Valid() && g.nmem == old(g.nmem) && g.l2g[..] == old(g.l2g[..])
    ensures forall i :: 0 <= i < |gsplit| ==> IsPart(g, gsplit[i], |gsplit|, i)
    ensures AllUnits(gsplit) == g.Units()
    ensures forall i, j :: 0 <= i < j < |gsplit| ==> gsplit[i].Units() !! gsplit[j].Units()
    ensures forall i :: 0 <= i < |gsplit| ==>
              |gsplit[i].Units()| == g.nmem / |gsplit| + (if i < g.nmem % |gsplit| then 1 else 0)
  {
    hide *;
    var n := |gsplit|;
    var bdiv, brem := g.nmem / n, g.nmem % n;
    var j := 0;
    StartsSplit(g.nmem, n, 0);
    DistinctTail(g, gsplit);
    for i := 0 to n
      invariant j == Start(g.nmem, n, i) && g.Valid()
      invariant g.nmem == old(g.nmem) && g.l2g[..] == old(g.l2g[..])
      invariant forall k :: 0 <= k < i ==> IsPart(g, gsplit[k], n, k)
    {
      StartsSplit(g.nmem, n, i);
      var bsize := if i < brem then bdiv + 1 else bdiv;
      j := MakePart(g, gsplit[i], bsize, j, n, i);
    }
    PartsPartition(g, gsplit);
  }

  lemma DistinctTail(g: Group, gsplit: seq<Group>)
    requires Distinct([g] + gsplit)
    ensures forall i :: 0 <= i < |gsplit| ==> g != gsplit[i] && Separate(g, gsplit[i])
    ensures forall i :: 0 <= i < |gsplit| ==>
              && g.g2l != gsplit[i].g2l && g.g2l != gsplit[i].l2g
              && g.l2g != gsplit[i].g2l && g.l2g != gsplit[i].l2g
    ensures forall i, j :: 0 <= i < |gsplit| && 0 <= j < |gsplit| && i != j ==>
              && gsplit[i] != gsplit[j] && gsplit[i].g2l != gsplit[j].g2l && gsplit[i].g2l != gsplit[j].l2g
              && gsplit[i].l2g != gsplit[j].g2l && gsplit[i].l2g != gsplit[j].l2g
  {
    var s := [g] + gsplit;
    forall i | 0 <= i < |gsplit| ensures g != gsplit[i] && Separate(g, gsplit[i]) {
      assert s[0] == g && s[i + 1] == gsplit[i];
    }
    forall i, j | 0 <= i < |gsplit| && 0 <= j < |gsplit| && i != j
      ensures gsplit[i] != gsplit[j] && Separate(gsplit[i], gsplit[j])
    {
      assert s[i + 1] == gsplit[i] && s[j + 1] == gsplit[j];
    }
  }

  // ---------- The ids of a new team ----------

  /**
    The ids in the new team, as its master sends them out: 0 for itself and 1, 2, ... for the other
    members in ascending order. They are the members' local ids in the group of the team.
   */
  method NewTeamIds(group: Group, globalSize: nat, master: nat) returns (newId: array<int>)
    requires group.Valid() && globalSize <= MAXSIZE_GROUP
    requires master in group.Units() && forall i :: i in group.Units() ==> master <= i < globalSize
    ensures fresh(newId) && newId.Length == globalSize
    ensures forall i :: 0 <= i < globalSize ==>
              newId[i] == if i in group.Units() then group.g2l[i] else -1
  {
    newId := new int[globalSize](_ => -1);
    ghost var g := group.g2l[..];
    SendIds(group, master, newId);
    newId[master] := 0;
    NumberedIsRank(g, group.l2g[..], group.nmem);
    assert Rank(g, master) == 0;
  }

  /** The sending loop: 1, 2, ... for the members except the master. */
  method SendIds(group: Group, master: nat, newId: array<int>)
    requires group.Shaped() && newId.Length <= MAXSIZE_GROUP && newId != group.g2l
    requires master < newId.Length && group.g2l[master] >= 0
    requires forall k :: 0 <= k < master ==> group.g2l[k] < 0
    requires forall k :: 0 <= k < newId.Length ==> newId[k] == -1
    modifies newId
    ensures Rank(group.g2l[..], master) == 0
    ensures forall k :: 0 <= k < newId.Length && k != master ==>
              newId[k] == if group.g2l[k] >= 0 then Rank(group.g2l[..], k) else -1
  {
    ghost var g := group.g2l[..];
    var id := 1;
    SendStart(g, master, newId[..]);
    hide *;
    for i := 0 to newId.Length
      invariant group.g2l[..] == g && SentUpTo(newId[..], g, master, i, id)
    {
      ghost var ids := newId[..];
      SendStep(ids, g, master, i, id);
      if group.g2l[i] >= 0 && i != master {
        newId[i] := id;
        assert newId[..] == ids[i := id];
        id := id + 1;
      }
    }
    SendEnd(newId[..], g, master, newId.Length, id);
  }

  /** The members below i, except the master, have been sent their ids, and id is the next one. */
  ghost predicate SentUpTo(ids: seq<int>, g: seq<int>, master: nat, i: nat, id: nat) {
    && |ids| <= |g| && i <= |ids| && master < |g| && g[master] >= 0
    && (forall k :: 0 <= k < master ==> g[k] < 0)
    && id == (if i <= master then 1 else Rank(g, i))
    && (forall k :: 0 <= k < |ids| ==> ids[k] == if k < i && g[k] >= 0 && k != master then Rank(g, k) else -1)
  }

  lemma SendStart(g: seq<int>, master: nat, ids: seq<int>)
    requires |ids| <= |g| && master < |g| && g[master] >= 0 && forall k :: 0 <= k < master ==> g[k] < 0
    requires forall k :: 0 <= k < |ids| ==> ids[k] == -1
    ensures SentUpTo(ids, g, master, 0, 1)
  {
  }

  lemma SendStep(ids: seq<int>, g: seq<int>, master: nat, i: nat, id: nat)
    requires SentUpTo(ids, g, master, i, id) && i < |ids|
    ensures if g[i] >= 0 && i != master then SentUpTo(ids[i := id], g, master, i + 1, id + 1)
            else SentUpTo(ids, g, master, i + 1, id)
  {
    RankStep(g, i);
    NoneBelow(g, master);
  }

  lemma SendEnd(ids: seq<int>, g: seq<int>, master: nat, i: nat, id: nat)
    requires SentUpTo(ids, g, master, i, id) && i == |ids|
    ensures Rank(g, master) == 0
    ensures forall k :: 0 <= k < |ids| && k != master ==> ids[k] == if g[k] >= 0 then Rank(g, k) else -1
  {
    NoneBelow(g, master);
  }

  lemma NumberedIsRank(g2l: seq<int>, l2g: seq<int>, nmem: nat)
    requires Numbered(g2l, l2g, nmem)
    ensures forall i :: 0 <= i < |g2l| && g2l[i] >= 0 ==> i in Members(g2l) && g2l[i] == Rank(g2l, i)
    ensures forall i :: i in Members(g2l) ==> 0 <= i < |g2l| && g2l[i] >= 0
  {
  }

  lemma RankStep(g: seq<int>, i: nat)
    requires i < |g|
    ensures Rank(g, i + 1) == Rank(g, i) + (if g[i] >= 0 then 1 else 0)
  {
  }

  lemma {:induction false} NoneBelow(g: seq<int>, i: nat)
    requires i <= |g| && forall k :: 0 <= k < i ==> g[k] < 0
    ensures Rank(g, i) == 0
  {
    if i > 0 {
      NoneBelow(g, i - 1);
    }
  }
}
