// What varints and length-prefixed slices look like among other bytes, whatever reads
// them (leveldb/util/coding.cc).
module Texts {
  import opened Powers
  import opened Wrappers
  import opened Codings

  // ----- Numbers -----

  // s[p..e] is a varint: every byte but the last is marked.
  predicate IsVarintIn(s: Bytes, p: nat, e: nat, groups: nat) {
    p < e <= |s| && e - p <= groups && s[e - 1] < 128 && forall i :: p <= i < e - 1 ==> s[i] >= 128
  }

  // Seven bits a byte, the low ones first.
  function ValueIn(s: Bytes, p: nat, e: nat): nat
    requires p <= e <= |s|
    decreases e - p
  {
    if p == e then 0 else s[p] % 128 + 128 * ValueIn(s, p + 1, e)
  }

  // As wide a number as `groups` bytes can tell, cut to the width of a word.
  predicate IsNumberIn(s: Bytes, p: nat, e: nat, groups: nat, width: nat, v: nat)
    requires width > 0
  {
    IsVarintIn(s, p, e, groups) && v == ValueIn(s, p, e) % width
  }

  predicate IsWord32In(s: Bytes, p: nat, e: nat, v: nat) {
    IsNumberIn(s, p, e, GROUPS_32, TWO_32, v)
  }

  predicate IsWord64In(s: Bytes, p: nat, e: nat, v: nat) {
    IsNumberIn(s, p, e, GROUPS_64, TWO_64, v)
  }

  // Where reading ends.
  function EndOf<T>(s: Bytes, d: Option<Decoded<T>>): int {
    if d.Some? then |s| - |d.value.rest| else 0
  }

  lemma {:induction false} VarintAt(s: Bytes, p: nat, groups: nat)
    requires p <= |s|
    ensures var d := GetVarint(s[p..], groups);
      && (d.Some? ==> p < EndOf(s, d) <= |s| && d.value.rest == s[EndOf(s, d)..]
                      && IsVarintIn(s, p, EndOf(s, d), groups) && d.value.value == ValueIn(s, p, EndOf(s, d)))
      && forall e: nat :: IsVarintIn(s, p, e, groups) ==> d.Some? && e == EndOf(s, d)
    decreases groups
  {
    if groups > 0 && p < |s| {
      assert s[p..][1..] == s[p + 1..];
      VarintAt(s, p + 1, groups - 1);
      if s[p] < 128 {
        assert IsVarintIn(s, p, p + 1, groups);
        assert ValueIn(s, p, p + 1) == s[p] + 128 * ValueIn(s, p + 1, p + 1);
      } else {
        forall e: nat | IsVarintIn(s, p, e, groups) ensures IsVarintIn(s, p + 1, e, groups - 1) {
        }
      }
    }
  }

  // A number is read exactly where there is one.
  lemma WordAt(s: Bytes, p: nat)
    requires p <= |s|
    ensures var d := GetVarint32(s[p..]);
      && (d.Some? ==> p < EndOf(s, d) <= |s| && d.value.rest == s[EndOf(s, d)..] && IsWord32In(s, p, EndOf(s, d), d.value.value))
      && forall e: nat, v: nat :: IsWord32In(s, p, e, v) ==> d.Some? && e == EndOf(s, d) && v == d.value.value
    ensures var d := GetVarint64(s[p..]);
      && (d.Some? ==> p < EndOf(s, d) <= |s| && d.value.rest == s[EndOf(s, d)..] && IsWord64In(s, p, EndOf(s, d), d.value.value))
      && forall e: nat, v: nat :: IsWord64In(s, p, e, v) ==> d.Some? && e == EndOf(s, d) && v == d.value.value
  {
    hide IsVarintIn, ValueIn, GetVarint;
    VarintAt(s, p, GROUPS_32);
    VarintAt(s, p, GROUPS_64);
  }

  // ----- Slices -----

  // Its length, and that many bytes.
  predicate IsSliceIn(s: Bytes, p: nat, e: nat, data: Bytes) {
    e <= |s| && exists k :: p <= k <= e && IsWord32In(s, p, k, |data|) && s[k..e] == data
  }

  // A slice is read exactly where there is one.
  lemma SliceAt(s: Bytes, p: nat)
    requires p <= |s|
    ensures var d := GetSlice(s[p..]);
      && (d.Some? ==> p < EndOf(s, d) <= |s| && d.value.rest == s[EndOf(s, d)..] && IsSliceIn(s, p, EndOf(s, d), d.value.value))
      && forall e: nat, data :: IsSliceIn(s, p, e, data) ==> d.Some? && e == EndOf(s, d) && data == d.value.value
  {
    hide GetVarint32, GetVarint64, IsWord32In, IsWord64In;
    WordAt(s, p);
    var n, d := GetVarint32(s[p..]), GetSlice(s[p..]);
    if n.Some? {
      var k := EndOf(s, n);
      if d.Some? {
        assert s[k..][..n.value.value] == s[k..k + n.value.value] && s[k..][n.value.value..] == s[k + n.value.value..];
        assert IsWord32In(s, p, k, |d.value.value|);
      }
      forall e: nat, data | IsSliceIn(s, p, e, data) ensures d.Some? && e == EndOf(s, d) && data == d.value.value {
        assert |data| == n.value.value && s[k..e] == data;
        assert s[k..][..|data|] == s[k..e] && s[k..][|data|..] == s[e..];
      }
    }
  }
}
