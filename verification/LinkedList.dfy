/** Singly linked lists: which nodes a list visits, and what assignments to `next` do to that. */
module LinkedList {

  class Node<T> {
    var data: T
    var next: Node?<T>

    constructor (data: T, next: Node?<T>)
      ensures this.data == data && this.next == next
    {
      this.data, this.next := data, next;
    }
  }

  /** Following next from head visits exactly the nodes of the spine and ends at tail. */
  ghost predicate Segment<T>(head: Node?<T>, spine: seq<Node<T>>, tail: Node?<T>)
    reads spine`next
  {
    if spine == [] then head == tail
    else head == spine[0] && Segment(spine[0].next, spine[1..], tail)
  }

  ghost predicate IsList<T>(head: Node?<T>, spine: seq<Node<T>>)
    reads spine`next
  {
    Segment(head, spine, null)
  }

  ghost function Values<T>(spine: seq<Node<T>>): (l: seq<T>)
    reads spine`data
    ensures |l| == |spine| && forall i :: 0 <= i < |l| ==> l[i] == spine[i].data
  {
    if spine == [] then [] else [spine[0].data] + Values(spine[1..])
  }

  lemma ListHead<T>(head: Node?<T>, spine: seq<Node<T>>)
    requires IsList(head, spine)
    ensures if spine == [] then head == null else head == spine[0]
  {
  }

  lemma {:induction false} SegmentSplit<T>(head: Node?<T>, spine: seq<Node<T>>, tail: Node?<T>, k: nat)
    requires Segment(head, spine, tail) && k < |spine|
    ensures Segment(head, spine[..k], spine[k]) && Segment(spine[k], spine[k..], tail)
    ensures Segment(spine[k].next, spine[k + 1..], tail)
  {
    if k > 0 {
      SegmentSplit(spine[0].next, spine[1..], tail, k - 1);
      assert spine[1..][..k - 1] == spine[..k][1..];
      assert spine[1..][k - 1..] == spine[k..] && spine[1..][k..] == spine[k + 1..];
    } else {
      assert spine[0..] == spine;
    }
  }

  lemma {:induction false} SegmentConcat<T>(
      head: Node?<T>, s: seq<Node<T>>, middle: Node?<T>, t: seq<Node<T>>, tail: Node?<T>)
    requires Segment(head, s, middle) && Segment(middle, t, tail)
    ensures Segment(head, s + t, tail)
  {
    if s == [] {
      assert s + t == t;
    } else {
      SegmentConcat(s[0].next, s[1..], middle, t, tail);
      assert (s + t)[1..] == s[1..] + t;
    }
  }

  lemma SegmentAppend<T>(head: Node?<T>, s: seq<Node<T>>, n: Node<T>, tail: Node?<T>)
    requires Segment(head, s, n) && n.next == tail
    ensures Segment(head, s + [n], tail)
  {
    assert [n][1..] == [];
    SegmentConcat(head, s, n, [n], tail);
  }

  lemma EmptySegment<T>(n: Node?<T>)
    ensures Segment(n, [], n)
  {
  }

  /** A list that ends determines its nodes, so no node occurs in it twice. */
  lemma {:induction false} ListUnique<T>(head: Node?<T>, s: seq<Node<T>>, t: seq<Node<T>>)
    requires IsList(head, s) && IsList(head, t)
    ensures s == t
  {
    if s != [] {
      ListUnique(s[0].next, s[1..], t[1..]);
    }
  }

  lemma NoRepeat<T>(head: Node?<T>, spine: seq<Node<T>>, i: nat, j: nat)
    requires IsList(head, spine) && i < |spine| && j < |spine| && i != j
    ensures spine[i] != spine[j]
  {
    if spine[i] == spine[j] {
      SegmentSplit(head, spine, null, i);
      SegmentSplit(head, spine, null, j);
      ListUnique(spine[i], spine[i..], spine[j..]);
      assert false;
    }
  }

  lemma OnlyAt<T>(head: Node?<T>, spine: seq<Node<T>>, k: nat)
    requires IsList(head, spine) && k < |spine|
    ensures spine[k] !in spine[..k] && spine[k] !in spine[k + 1..]
  {
    forall i | 0 <= i < |spine| && i != k ensures spine[i] != spine[k] {
      NoRepeat(head, spine, i, k);
    }
  }

  lemma NextNode<T>(list: Node?<T>, spine: seq<Node<T>>, k: nat)
    requires IsList(list, spine) && 0 < k <= |spine|
    ensures if k < |spine| then spine[k - 1].next == spine[k] else spine[k - 1].next == null
  {
    SegmentSplit(list, spine, null, k - 1);
  }

  /** A walk over a list has passed k nodes, prev the last of them, and is at current. */
  ghost predicate At<T>(list: Node?<T>, spine: seq<Node<T>>, prev: Node?<T>, current: Node?<T>, k: nat)
    reads spine`next
  {
    && k <= |spine| && Segment(list, spine[..k], current) && IsList(current, spine[k..])
    && (if k == 0 then prev == null else prev == spine[k - 1])
  }

  lemma AtStart<T>(list: Node?<T>, spine: seq<Node<T>>)
    requires IsList(list, spine)
    ensures At(list, spine, null, list, 0)
  {
    assert spine[..0] == [] && spine[0..] == spine;
  }

  lemma AtNext<T>(list: Node?<T>, spine: seq<Node<T>>, prev: Node?<T>, current: Node<T>, k: nat)
    requires At(list, spine, prev, current, k)
    ensures k < |spine| && current == spine[k]
    ensures At(list, spine, current, current.next, k + 1)
  {
    assert current == spine[k..][0];
    assert spine[k..][1..] == spine[k + 1..];
    assert IsList(current.next, spine[k + 1..]);
    hide Segment;
    SegmentAppend(list, spine[..k], current, current.next);
    assert spine[..k] + [current] == spine[..k + 1];
  }

  lemma AtEnd<T>(list: Node?<T>, spine: seq<Node<T>>, prev: Node?<T>, k: nat)
    requires At(list, spine, prev, null, k)
    ensures k == |spine|
  {
    assert Segment(null, spine[k..], null);
  }

  ghost predicate Foreign<T>(s: seq<Node<T>>, t: seq<Node<T>>) {
    forall i, j :: 0 <= i < |s| && 0 <= j < |t| ==> s[i] != t[j]
  }

  ghost predicate OnlyFrom<T>(s: seq<Node<T>>, t: seq<Node<T>>) {
    forall i :: 0 <= i < |s| ==> s[i] in t
  }

  lemma StillForeign<T>(s: seq<Node<T>>, t: seq<Node<T>>, u: seq<Node<T>>)
    requires Foreign(s, t) && OnlyFrom(u, s)
    ensures Foreign(u, t) && Foreign(t, u)
  {
  }

  ghost function Dropped<T>(spine: seq<Node<T>>, k: nat): seq<Node<T>>
    requires k < |spine|
  {
    spine[..k] + spine[k + 1..]
  }

  lemma DroppedFrom<T>(spine: seq<Node<T>>, k: nat)
    requires k < |spine|
    ensures OnlyFrom(Dropped(spine, k), spine)
  {
  }

  /** The assignments of the removal. */
  method Unlink<T>(list: Node<T>, prev: Node?<T>, toRemove: Node<T>, ghost spine: seq<Node<T>>, ghost k: nat)
    returns (result: Node?<T>)
    requires IsList(list, spine) && k < |spine| && toRemove == spine[k]
    requires if k == 0 then prev == null else prev == spine[k - 1]
    modifies spine`next
    ensures IsList(result, Dropped(spine, k))
  {
    ListHead(list, spine);
    hide Segment;
    SegmentSplit(list, spine, null, k);
    if prev == null {
      result := list.next;
      assert Dropped(spine, k) == spine[k + 1..];
    } else {
      SegmentSplit(list, spine, null, k - 1);
      OnlyAt(list, spine, k - 1);
      result := list;
      prev.next := toRemove.next;
      SegmentAppend(list, spine[..k - 1], prev, toRemove.next);
      assert spine[..k - 1] + [prev] == spine[..k];
      SegmentConcat(list, spine[..k], toRemove.next, spine[k + 1..], null);
    }
  }

  function Spliced<T>(s: seq<T>, x: T, k: nat): seq<T>
    requires k <= |s|
  {
    s[..k] + [x] + s[k..]
  }

  lemma SplicedAt<T>(s: seq<T>, x: T, k: nat, i: nat)
    requires k <= |s| && i <= |s|
    ensures Spliced(s, x, k)[i] == if i < k then s[i] else if i == k then x else s[i - 1]
  {
  }

  lemma InsertedFrom<T>(spine: seq<Node<T>>, n: Node<T>, k: nat)
    requires k <= |spine|
    ensures OnlyFrom(spine[..k] + [n] + spine[k..], spine + [n])
  {
    var d := spine[..k] + [n] + spine[k..];
    forall i | 0 <= i < |d| ensures d[i] in spine + [n] {
      assert d[i] == if i < k then spine[i] else if i == k then n else spine[i - 1];
    }
  }

  /** The assignments of the insertion. */
  method LinkIn<T>(list: Node?<T>, prev: Node?<T>, current: Node?<T>, added: Node<T>,
                   ghost spine: seq<Node<T>>, ghost k: nat)
    returns (result: Node<T>)
    requires IsList(list, spine) && At(list, spine, prev, current, k) && added !in spine
    modifies spine`next, added`next
    ensures IsList(result, spine[..k] + [added] + spine[k..])
  {
    hide Segment;
    if k > 0 {
      SegmentSplit(list, spine, null, k - 1);
      OnlyAt(list, spine, k - 1);
      assert spine[..k - 1] + [prev] == spine[..k];
    }
    added.next := current;
    if prev != null {
      prev.next := added;
      result := list;
      SegmentAppend(list, spine[..k - 1], prev, added);
    } else {
      result := added;
      EmptySegment(added);
      assert spine[..k] == [];
    }
    SegmentAppend(result, spine[..k], added, current);
    SegmentConcat(result, spine[..k] + [added], current, spine[k..], null);
  }

  lemma ValuesDropped<T>(spine: seq<Node<T>>, k: nat)
    requires k < |spine|
    ensures Values(Dropped(spine, k)) == Values(spine)[..k] + Values(spine)[k + 1..]
  {
    hide Values;
    var d, l := Dropped(spine, k), Values(spine);
    var e, w := Values(d), l[..k] + l[k + 1..];
    assert |e| == |w|;
    forall i | 0 <= i < |e| ensures e[i] == w[i] {
      assert d[i] == if i < k then spine[i] else spine[i + 1];
    }
  }

  lemma ValuesInserted<T>(spine: seq<Node<T>>, n: Node<T>, k: nat)
    requires k <= |spine|
    ensures Values(Spliced(spine, n, k)) == Spliced(Values(spine), n.data, k)
  {
    var x, y := Values(Spliced(spine, n, k)), Spliced(Values(spine), n.data, k);
    assert |x| == |y| == |spine| + 1;
    hide Values, Spliced;
    forall i | 0 <= i < |x| ensures x[i] == y[i] {
      SplicedAt(spine, n, k, i);
      SplicedAt(Values(spine), n.data, k, i);
    }
  }
}
