// Circular doubly linked lists whose links lie in an array.
module Rings {

  import opened Sequences

  datatype Link = Link(prev: int, next: int)

  function Before(i: nat, n: nat): nat
    requires i < n
  {
    if i == 0 then n - 1 else i - 1
  }

  function After(i: nat, n: nat): nat
    requires i < n
  {
    if i + 1 == n then 0 else i + 1
  }

  ghost predicate LinkedAt(l: seq<Link>, r: seq<nat>, i: nat)
    requires i < |r|
  {
    r[i] < |l| && l[r[i]] == Link(r[Before(i, |r|)], r[After(i, |r|)])
  }

  // The links of the members lead through r and back to its start, both ways.
  ghost predicate IsRing(l: seq<Link>, r: seq<nat>) {
    NoRepeats(r) && forall i :: 0 <= i < |r| ==> LinkedAt(l, r, i)
  }

  function SetNext(l: seq<Link>, i: int, v: int): (r: seq<Link>)
    requires 0 <= i < |l|
    ensures |r| == |l|
  {
    l[i := l[i].(next := v)]
  }

  function SetPrev(l: seq<Link>, i: int, v: int): (r: seq<Link>)
    requires 0 <= i < |l|
    ensures |r| == |l|
  {
    l[i := l[i].(prev := v)]
  }

  // The neighbours of e are linked to each other.
  function Unlinked(l: seq<Link>, e: nat): seq<Link>
    requires e < |l| && 0 <= l[e].prev < |l| && 0 <= l[e].next < |l|
  {
    SetPrev(SetNext(l, l[e].prev, l[e].next), l[e].next, l[e].prev)
  }

  // e is put between p and n.
  function Spliced(l: seq<Link>, e: nat, p: nat, n: nat): seq<Link>
    requires e < |l| && p < |l| && n < |l|
  {
    SetPrev(SetNext(l[e := Link(p, n)], p, e), n, e)
  }

  function RemoveAt(r: seq<nat>, k: nat): seq<nat>
    requires k < |r|
  {
    r[..k] + r[k + 1..]
  }

  function Rotated(r: seq<nat>, k: nat): seq<nat>
    requires k <= |r|
  {
    r[k..] + r[..k]
  }

  // Where the links of a member lead.
  lemma LinksOf(l: seq<Link>, r: seq<nat>, k: nat)
    requires IsRing(l, r) && k < |r|
    ensures r[k] < |l| && l[r[k]].prev == r[Before(k, |r|)] && l[r[k]].next == r[After(k, |r|)]
    ensures 0 <= l[r[k]].prev < |l| && 0 <= l[r[k]].next < |l|
  {
    assert LinkedAt(l, r, k) && LinkedAt(l, r, Before(k, |r|)) && LinkedAt(l, r, After(k, |r|));
  }

  // A ring depends on its members' links alone.
  lemma RingStays(l: seq<Link>, m: seq<Link>, r: seq<nat>)
    requires IsRing(l, r) && |l| <= |m| && forall i :: 0 <= i < |r| && r[i] < |l| ==> m[r[i]] == l[r[i]]
    ensures IsRing(m, r)
  {
    forall i | 0 <= i < |r| ensures LinkedAt(m, r, i) {
      assert LinkedAt(l, r, i);
    }
  }

  lemma RotatedMembers(r: seq<nat>, k: nat)
    requires k <= |r|
    ensures forall e: nat :: e in Rotated(r, k) <==> e in r
    ensures |Rotated(r, k)| == |r| && forall i :: 0 <= i < |r| ==> Rotated(r, k)[i] == r[if i + k < |r| then i + k else i + k - |r|]
  {
    forall e: nat ensures e in Rotated(r, k) <==> e in r {
      if e in r {
        var i :| 0 <= i < |r| && r[i] == e;
        assert Rotated(r, k)[if i >= k then i - k else i + |r| - k] == e;
      }
    }
  }

  // A ring may be entered anywhere.
  lemma RingRotated(l: seq<Link>, r: seq<nat>, k: nat)
    requires IsRing(l, r) && k <= |r|
    ensures IsRing(l, Rotated(r, k))
  {
    RotatedMembers(r, k);
    var n := |r|;
    forall i | 0 <= i < n ensures LinkedAt(l, Rotated(r, k), i) {
      assert LinkedAt(l, r, if i + k < n then i + k else i + k - n);
    }
  }

  lemma RemovedMembers(r: seq<nat>, k: nat)
    requires NoRepeats(r) && k < |r|
    ensures NoRepeats(RemoveAt(r, k)) && forall e: nat :: e in RemoveAt(r, k) <==> e in r && e != r[k]
    ensures |RemoveAt(r, k)| == |r| - 1
  {
    var m := RemoveAt(r, k);
    forall e: nat ensures e in m <==> e in r && e != r[k] {
      if e in r && e != r[k] {
        var i :| 0 <= i < |r| && r[i] == e;
        assert m[if i < k then i else i - 1] == e;
      }
    }
  }

  lemma UnlinkedAt(l: seq<Link>, r: seq<nat>, k: nat, i: nat)
    requires IsRing(l, r) && k < |r| && i < |r| && i != k
    requires r[k] < |l| && 0 <= l[r[k]].prev < |l| && 0 <= l[r[k]].next < |l|
    ensures LinkedAt(Unlinked(l, r[k]), RemoveAt(r, k), if i < k then i else i - 1)
  {
    LinksOf(l, r, k);
    LinksOf(l, r, i);
    SamePlace(r, i, Before(k, |r|));
    SamePlace(r, i, After(k, |r|));
    SamePlace(r, i, k);
  }

  lemma SamePlace(r: seq<nat>, i: nat, j: nat)
    requires NoRepeats(r) && i < |r| && j < |r|
    ensures r[i] == r[j] <==> i == j
  {
  }

  // Taking a member out leaves the ring of the others.
  lemma RingUnlinked(l: seq<Link>, r: seq<nat>, k: nat)
    requires IsRing(l, r) && k < |r|
    requires r[k] < |l| && 0 <= l[r[k]].prev < |l| && 0 <= l[r[k]].next < |l|
    ensures IsRing(Unlinked(l, r[k]), RemoveAt(r, k))
  {
    RemovedMembers(r, k);
    forall i | 0 <= i < |r| - 1 ensures LinkedAt(Unlinked(l, r[k]), RemoveAt(r, k), i) {
      UnlinkedAt(l, r, k, if i < k then i else i + 1);
    }
  }

  // A new member between the last and the first.
  lemma RingSpliced(l: seq<Link>, r: seq<nat>, e: nat)
    requires IsRing(l, r) && r != [] && e !in r && e < |l| && r[|r| - 1] < |l| && r[0] < |l|
    ensures IsRing(Spliced(l, e, r[|r| - 1], r[0]), r + [e])
  {
    var n := |r|;
    var m, s := Spliced(l, e, r[n - 1], r[0]), r + [e];
    forall i | 0 <= i < n ensures LinkedAt(m, s, i) {
      assert LinkedAt(l, r, i);
      SamePlace(r, i, 0);
      SamePlace(r, i, n - 1);
    }
    assert LinkedAt(m, s, n);
  }

  // A new member before the first one becomes the first.
  lemma RingPushed(l: seq<Link>, r: seq<nat>, e: nat)
    requires IsRing(l, r) && r != [] && e !in r && e < |l|
    ensures r[0] < |l| && l[r[0]].prev == r[|r| - 1] < |l| && IsRing(Spliced(l, e, r[|r| - 1], r[0]), [e] + r)
  {
    LinksOf(l, r, 0);
    RingSpliced(l, r, e);
    RingRotated(Spliced(l, e, r[|r| - 1], r[0]), r + [e], |r|);
    assert Rotated(r + [e], |r|) == [e] + r;
  }

  // A new member right behind the first one.
  lemma RingFollowed(l: seq<Link>, r: seq<nat>, e: nat)
    requires IsRing(l, r) && r != [] && e !in r && e < |l|
    ensures r[0] < |l| && 0 <= l[r[0]].next < |l| && IsRing(Spliced(l, e, r[0], l[r[0]].next), [r[0], e] + r[1..])
  {
    LinksOf(l, r, 0);
    var s, n := Rotated(r, 1), |r|;
    RingRotated(l, r, 1);
    RotatedMembers(r, 1);
    LinksOf(l, s, n - 1);
    RingSpliced(l, s, e);
    RingRotated(Spliced(l, e, s[n - 1], s[0]), s + [e], n - 1);
    assert Rotated(s + [e], n - 1) == [r[0], e] + r[1..];
  }
}
