// The bytewise order and internal keys as bytes, with the separators that index
// entries are made of (leveldb/util/comparator.cc, leveldb/db/dbformat.cc).
module Comparators {
  import opened InternalKeys
  import opened Codings

  // ----- Bytewise order -----

  // Slice::compare(a, b) < 0.
  predicate BytewiseLess(a: Bytes, b: Bytes) {
    b != [] && (a == [] || a[0] < b[0] || (a[0] == b[0] && BytewiseLess(a[1..], b[1..])))
  }

  lemma {:induction false} BytewiseTransitive(a: Bytes, b: Bytes, c: Bytes)
    requires BytewiseLess(a, b) && BytewiseLess(b, c)
    ensures BytewiseLess(a, c)
  {
    if a != [] && a[0] == b[0] == c[0] {
      BytewiseTransitive(a[1..], b[1..], c[1..]);
    }
  }

  lemma {:induction false} BytewiseTotal(a: Bytes, b: Bytes)
    ensures a == b || BytewiseLess(a, b) || BytewiseLess(b, a)
    ensures !(BytewiseLess(a, b) && BytewiseLess(b, a))
    ensures !BytewiseLess(a, a)
  {
    if a != [] && b != [] && a[0] == b[0] {
      BytewiseTotal(a[1..], b[1..]);
      assert a == [a[0]] + a[1..] && b == [b[0]] + b[1..];
    }
    if a != [] {
      BytewiseTotal(a[1..], a[1..]);
    }
  }

  // Behind an equal prefix the first difference decides.
  lemma {:induction false} DecidedAt(a: Bytes, b: Bytes, i: nat)
    requires i < |a| && i < |b| && a[..i] == b[..i] && a[i] < b[i]
    ensures BytewiseLess(a, b)
  {
    if i > 0 {
      assert a[..i][0] == b[..i][0];
      assert a[1..][..i - 1] == a[..i][1..] == b[..i][1..] == b[1..][..i - 1];
      DecidedAt(a[1..], b[1..], i - 1);
    }
  }

  // Shortened at the first difference, where there is room for a byte between; a string
  // that the other starts with, or that starts with it, is left alone.
  ghost predicate IsShortened(start: Bytes, limit: Bytes, r: Bytes) {
    && (forall i :: 0 <= i < |start| && i < |limit| && start[..i] == limit[..i] && start[i] != limit[i] ==>
          var from: int, to: int := start[i], limit[i];
          r == if from + 1 < to then start[..i] + [from + 1] else start)
    && (start <= limit || limit <= start ==> r == start)
  }

  // FindShortestSeparator, on the string it shortens.
  method FindShortestSeparator(start: Bytes, limit: Bytes) returns (r: Bytes)
    ensures r == start || (BytewiseLess(start, r) && BytewiseLess(r, limit) && |r| <= |start|)
    ensures IsShortened(start, limit, r)
  {
    var minLength := if |start| < |limit| then |start| else |limit|;
    var diffIndex := 0;
    while diffIndex < minLength && start[diffIndex] == limit[diffIndex]
      invariant diffIndex <= minLength && start[..diffIndex] == limit[..diffIndex]
    {
      diffIndex := diffIndex + 1;
    }
    r := start;
    FirstDifference(start, limit, diffIndex);
    if diffIndex < minLength {
      var diffByte := start[diffIndex];
      if diffByte < 0xff && diffByte + 1 < limit[diffIndex] {
        r := start[diffIndex := diffByte + 1][..diffIndex + 1];
        assert r[..diffIndex] == start[..diffIndex];
        DecidedAt(start, r, diffIndex);
        DecidedAt(r, limit, diffIndex);
      }
    }
  }

  lemma SamePrefix(a: Bytes, b: Bytes, n: nat)
    requires n <= |a| && n <= |b| && a[..n] == b[..n]
    ensures forall i :: 0 <= i < n ==> a[i] == b[i]
  {
    assert forall i :: 0 <= i < n ==> a[..n][i] == b[..n][i];
  }

  lemma FirstDifference(a: Bytes, b: Bytes, d: nat)
    requires d <= |a| && d <= |b| && a[..d] == b[..d] && (d == |a| || d == |b| || a[d] != b[d])
    ensures forall i :: 0 <= i < |a| && i < |b| && a[..i] == b[..i] && a[i] != b[i] ==> i == d
    ensures a <= b || b <= a ==> d == |a| || d == |b|
  {
    forall i | 0 <= i < |a| && i < |b| && a[..i] == b[..i] && a[i] != b[i] ensures i == d {
      SamePrefix(a, b, i);
      SamePrefix(a, b, d);
    }
  }

  // Cut off at the first byte that is not 0xff, which is raised by one.
  ghost predicate IsRaised(key: Bytes, r: Bytes) {
    && (forall i :: 0 <= i < |key| && key[i] != 0xff && (forall j :: 0 <= j < i ==> key[j] == 0xff) ==> r == key[..i] + [key[i] + 1])
    && ((forall i :: 0 <= i < |key| ==> key[i] == 0xff) ==> r == key)
  }

  // FindShortSuccessor.
  method FindShortSuccessor(key: Bytes) returns (r: Bytes)
    ensures r == key || (BytewiseLess(key, r) && |r| <= |key|)
    ensures r == key ==> forall i :: 0 <= i < |key| ==> key[i] == 0xff
    ensures IsRaised(key, r)
  {
    var i := 0;
    while i < |key|
      invariant i <= |key| && forall j :: 0 <= j < i ==> key[j] == 0xff
    {
      if key[i] != 0xff {
        r := key[i := key[i] + 1][..i + 1];
        assert r[..i] == key[..i];
        DecidedAt(key, r, i);
        BytewiseTotal(key, r);
        return;
      }
      i := i + 1;
    }
    r := key;
  }

  // ----- Internal keys -----

  // A user key and an eight-byte trailer: a sequence number over a value type.
  function InternalKey(user: Bytes, sn: nat, kind: nat): Bytes {
    user + EncodeFixed(sn * 256 + kind, 8)
  }

  const VALUE_TYPE_FOR_SEEK: nat := 1

  // ExtractUserKey; what is too short to have a trailer counts as a user key only.
  function UserPart(key: Bytes): Bytes {
    if |key| >= 8 then key[..|key| - 8] else key
  }

  function Trailer(key: Bytes): nat {
    if |key| >= 8 then DecodeFixed(key[|key| - 8..]) else 0
  }

  // InternalKeyComparator::Compare(a, b) < 0.
  predicate InternalLess(a: Bytes, b: Bytes) {
    || BytewiseLess(UserPart(a), UserPart(b))
    || (UserPart(a) == UserPart(b) && Trailer(a) > Trailer(b))
  }

  lemma InternalTransitive(a: Bytes, b: Bytes, c: Bytes)
    requires InternalLess(a, b) && InternalLess(b, c)
    ensures InternalLess(a, c)
  {
    if BytewiseLess(UserPart(a), UserPart(b)) && BytewiseLess(UserPart(b), UserPart(c)) {
      BytewiseTransitive(UserPart(a), UserPart(b), UserPart(c));
    }
  }

  lemma InternalTotal(a: Bytes, b: Bytes)
    requires |a| >= 8 && |b| >= 8
    ensures a == b || InternalLess(a, b) || InternalLess(b, a)
    ensures !(InternalLess(a, b) && InternalLess(b, a))
  {
    BytewiseTotal(UserPart(a), UserPart(b));
    if UserPart(a) == UserPart(b) && Trailer(a) == Trailer(b) {
      FixedRoundTripBack(a[|a| - 8..]);
      FixedRoundTripBack(b[|b| - 8..]);
      assert a == UserPart(a) + a[|a| - 8..] && b == UserPart(b) + b[|b| - 8..];
    }
  }

  lemma InternalKeyParts(user: Bytes, sn: nat, kind: nat)
    requires sn <= MAX_SEQUENCE && kind < 256
    ensures var k := InternalKey(user, sn, kind); |k| >= 8 && UserPart(k) == user && Trailer(k) == sn * 256 + kind
  {
    var v := sn * 256 + kind;
    FixedWidths();
    FixedRoundTrip(v, 8);
    var k := InternalKey(user, sn, kind);
    assert k[|k| - 8..] == EncodeFixed(v, 8);
  }

  // A separator is the block's last key itself or has a user key of its own, strictly
  // between those of the blocks it separates.
  ghost predicate IsSeparator(last: Bytes, r: Bytes, next: Bytes) {
    r == last || (BytewiseLess(UserPart(last), UserPart(r)) && BytewiseLess(UserPart(r), UserPart(next)))
  }

  // A user key that is shorter than the key's own, with the trailer that sorts first; else
  // the key itself.
  function InSeekForm(key: Bytes, user: Bytes): Bytes {
    if |user| < |UserPart(key)| then InternalKey(user, MAX_SEQUENCE, VALUE_TYPE_FOR_SEEK) else key
  }

  method FindShortestInternalSeparator(start: Bytes, limit: Bytes) returns (r: Bytes)
    requires |start| >= 8 && |limit| >= 8
    ensures |r| >= 8 && IsSeparator(start, r, limit)
    ensures exists tmp :: IsShortened(UserPart(start), UserPart(limit), tmp) && r == InSeekForm(start, tmp)
  {
    var userStart, userLimit := UserPart(start), UserPart(limit);
    var tmp := FindShortestSeparator(userStart, userLimit);
    r := start;
    if |tmp| < |userStart| && BytewiseLess(userStart, tmp) {
      BytewiseTotal(userStart, tmp);
      InternalKeyParts(tmp, MAX_SEQUENCE, VALUE_TYPE_FOR_SEEK);
      r := tmp + EncodeFixed(MAX_SEQUENCE * 256 + VALUE_TYPE_FOR_SEEK, 8);
    }
  }

  method FindShortInternalSuccessor(key: Bytes) returns (r: Bytes)
    requires |key| >= 8
    ensures |r| >= 8 && (r == key || BytewiseLess(UserPart(key), UserPart(r)))
    ensures exists tmp :: IsRaised(UserPart(key), tmp) && r == InSeekForm(key, tmp)
  {
    var userKey := UserPart(key);
    var tmp := FindShortSuccessor(userKey);
    r := key;
    if |tmp| < |userKey| && BytewiseLess(userKey, tmp) {
      InternalKeyParts(tmp, MAX_SEQUENCE, VALUE_TYPE_FOR_SEEK);
      r := tmp + EncodeFixed(MAX_SEQUENCE * 256 + VALUE_TYPE_FOR_SEEK, 8);
    }
  }

  // As the comparator sees it: at or after the last key, before the next.
  lemma SeparatorIsBetween(last: Bytes, r: Bytes, next: Bytes)
    requires IsSeparator(last, r, next) && InternalLess(last, next)
    ensures (r == last || InternalLess(last, r)) && InternalLess(r, next)
  {
  }
}
