// Fixed-width and varint codecs (leveldb/util/coding.cc).
module Codings {
  import opened Powers
  import opened Wrappers
  import opened InternalKeys

  type Byte = x: int | 0 <= x < 256
  type Bytes = seq<Byte>

  // A 32-bit unsigned value.
  type Word = x: int | 0 <= x < 0x1_0000_0000

  // A decoded value and the input that is left.
  datatype Decoded<+T> = Decoded(value: T, rest: Bytes)

  // ----- Fixed width, little endian -----

  function EncodeFixed(v: nat, n: nat): (r: Bytes)
    ensures |r| == n
  {
    if n == 0 then [] else [v % 256] + EncodeFixed(v / 256, n - 1)
  }

  function DecodeFixed(s: Bytes): nat {
    if s == [] then 0 else s[0] + 256 * DecodeFixed(s[1..])
  }

  lemma {:induction false} FixedRoundTrip(v: nat, n: nat)
    requires v < Pow(256, n)
    ensures DecodeFixed(EncodeFixed(v, n)) == v
  {
    if n > 0 {
      FixedRoundTrip(v / 256, n - 1);
      assert EncodeFixed(v, n)[1..] == EncodeFixed(v / 256, n - 1);
    }
  }

  lemma {:induction false} FixedRoundTripBack(s: Bytes)
    ensures DecodeFixed(s) < Pow(256, |s|) && EncodeFixed(DecodeFixed(s), |s|) == s
  {
    if s != [] {
      FixedRoundTripBack(s[1..]);
      assert s == [s[0]] + s[1..];
      assert DecodeFixed(s) / 256 == DecodeFixed(s[1..]) && DecodeFixed(s) % 256 == s[0];
    }
  }

  lemma FixedWidths()
    ensures Pow(256, 4) == TWO_32 && Pow(256, 8) == TWO_64
  {
    assert Pow(256, 2) == 256 * Pow(256, 1) == 65536;
    assert Pow(256, 4) == 256 * (256 * Pow(256, 2));
    assert Pow(256, 6) == 256 * (256 * Pow(256, 4));
    assert Pow(256, 8) == 256 * (256 * Pow(256, 6));
  }

  // ----- Varints: seven bits a byte, low group first -----

  function EncodeVarint(v: nat): (r: Bytes)
    ensures |r| > 0
  {
    if v < 128 then [v] else [v % 128 + 128] + EncodeVarint(v / 128)
  }

  // At most `groups` bytes are looked at.
  function GetVarint(input: Bytes, groups: nat): Option<Decoded<nat>> {
    if groups == 0 || input == [] then None
    else if input[0] < 128 then Some(Decoded(input[0], input[1..]))
    else match GetVarint(input[1..], groups - 1)
      case None => None
      case Some(d) => Some(Decoded(input[0] % 128 + 128 * d.value, d.rest))
  }

  lemma {:induction false} VarintRoundTrip(v: nat, rest: Bytes, groups: nat)
    requires groups > 0 && v < Pow(128, groups)
    ensures GetVarint(EncodeVarint(v) + rest, groups) == Some(Decoded(v, rest))
  {
    var all := EncodeVarint(v) + rest;
    if v < 128 {
      assert all[1..] == rest;
    } else {
      assert all[1..] == EncodeVarint(v / 128) + rest;
      VarintRoundTrip(v / 128, rest, groups - 1);
    }
  }

  const GROUPS_32 := 5
  const GROUPS_64 := 10

  lemma VarintWidths()
    ensures TWO_32 <= Pow(128, GROUPS_32) && TWO_64 <= Pow(128, GROUPS_64)
  {
    assert Pow(128, 2) == 128 * Pow(128, 1) == 16384;
    assert Pow(128, 4) == 128 * (128 * Pow(128, 2));
    assert Pow(128, 6) == 128 * (128 * Pow(128, 4));
    assert Pow(128, 8) == 128 * (128 * Pow(128, 6));
    assert Pow(128, 10) == 128 * (128 * Pow(128, 8));
  }

  // EncodeVarint32 is unrolled; a byte keeps the low eight bits of what is stored.
  method EncodeVarint32(v: nat) returns (r: Bytes)
    requires v < TWO_32
    ensures r == EncodeVarint(v)
  {
    // v >> 7, v >> 14, v >> 21 and v >> 28
    var v7 := v / 128;
    var v14 := v7 / 128;
    var v21 := v14 / 128;
    var v28 := v21 / 128;
    EncodeStep(v);
    EncodeStep(v7);
    EncodeStep(v14);
    EncodeStep(v21);
    EncodeStep(v28);
    hide EncodeVarint;
    if v < 0x80 {
      r := [v];
    } else if v < 0x4000 {
      r := [v % 128 + 128, v7];
    } else if v < 0x20_0000 {
      r := [v % 128 + 128, v7 % 128 + 128, v14];
    } else if v < 0x1000_0000 {
      r := [v % 128 + 128, v7 % 128 + 128, v14 % 128 + 128, v21];
    } else {
      r := [v % 128 + 128, v7 % 128 + 128, v14 % 128 + 128, v21 % 128 + 128, v28];
    }
  }

  lemma EncodeStep(v: nat)
    ensures EncodeVarint(v) == if v < 128 then [v] else [v % 128 + 128] + EncodeVarint(v / 128)
  {
  }

  method EncodeVarint64(value: nat) returns (r: Bytes)
    ensures r == EncodeVarint(value)
  {
    var v := value;
    r := [];
    while v >= 128
      invariant r + EncodeVarint(v) == EncodeVarint(value)
      decreases v
    {
      r := r + [v % 128 + 128];
      v := v / 128;
    }
    r := r + [v];
  }

  // GetVarint32Ptr and GetVarint64Ptr: the loop shifts each group into place. A
  // last group that overflows the result's width loses its high bits there.
  method ReadVarint(input: Bytes, groups: nat, width: nat) returns (r: Option<Decoded<nat>>)
    requires width > 0
    ensures r == WrapVarint(GetVarint(input, groups), width)
  {
    var result: nat, shift: nat, p: nat, count: nat := 0, 1, 0, 0;
    ghost var whole := GetVarint(input, groups);
    while count < groups && p < |input|
      invariant count <= groups && p <= |input| && p == count && shift > 0
      invariant whole == Placed(GetVarint(input[p..], groups - count), result, shift)
    {
      PlaceOne(input, p, groups - count, result, shift);
      var byte := input[p];
      p := p + 1;
      if byte >= 128 {
        result := result + byte % 128 * shift;
      } else {
        result := result + byte * shift;
        return Some(Decoded(result % width, input[p..]));
      }
      shift := shift * 128;
      count := count + 1;
    }
    r := None;
  }

  function WrapVarint(d: Option<Decoded<nat>>, width: nat): Option<Decoded<nat>>
    requires width > 0
  {
    match d case None => None case Some(x) => Some(Decoded(x.value % width, x.rest))
  }

  // A value whose lower groups, worth `low`, were read before it.
  function Placed(d: Option<Decoded<nat>>, low: nat, shift: nat): Option<Decoded<nat>> {
    match d case None => None case Some(x) => Some(Decoded(low + x.value * shift, x.rest))
  }

  lemma PlaceOne(input: Bytes, p: nat, groups: nat, low: nat, shift: nat)
    requires p < |input| && groups > 0
    ensures input[p] < 128 ==>
      Placed(GetVarint(input[p..], groups), low, shift) == Some(Decoded(low + input[p] * shift, input[p + 1..]))
    ensures input[p] >= 128 ==>
      Placed(GetVarint(input[p..], groups), low, shift) ==
        Placed(GetVarint(input[p + 1..], groups - 1), low + input[p] % 128 * shift, shift * 128)
  {
    assert input[p..][1..] == input[p + 1..];
    if input[p] >= 128 {
      var d := GetVarint(input[p + 1..], groups - 1);
      if d.Some? {
        Regroup(input[p] % 128, d.value.value, shift);
      }
    }
  }

  lemma Regroup(a: nat, b: nat, shift: nat)
    ensures (a + 128 * b) * shift == a * shift + b * (shift * 128)
  {
  }

  // ----- Length-prefixed slices -----

  // The length is stored as a uint32.
  function EncodeSlice(s: Bytes): Bytes {
    EncodeVarint(|s| % TWO_32) + s
  }

  function GetVarint32(input: Bytes): Option<Decoded<nat>> {
    WrapVarint(GetVarint(input, GROUPS_32), TWO_32)
  }

  function GetVarint64(input: Bytes): Option<Decoded<nat>> {
    WrapVarint(GetVarint(input, GROUPS_64), TWO_64)
  }

  function GetSlice(input: Bytes): Option<Decoded<Bytes>> {
    match GetVarint32(input)
    case None => None
    case Some(d) => if |d.rest| >= d.value then Some(Decoded(d.rest[..d.value], d.rest[d.value..])) else None
  }

  lemma Varint32RoundTrip(v: nat, rest: Bytes)
    requires v < TWO_32
    ensures GetVarint32(EncodeVarint(v) + rest) == Some(Decoded(v, rest))
  {
    hide Pow, GetVarint, EncodeVarint;
    VarintWidths();
    VarintRoundTrip(v, rest, GROUPS_32);
  }

  lemma Varint64RoundTrip(v: nat, rest: Bytes)
    requires v < TWO_64
    ensures GetVarint64(EncodeVarint(v) + rest) == Some(Decoded(v, rest))
  {
    hide Pow, GetVarint, EncodeVarint;
    VarintWidths();
    VarintRoundTrip(v, rest, GROUPS_64);
  }

  lemma SliceRoundTrip(s: Bytes, rest: Bytes)
    requires |s| < TWO_32
    ensures GetSlice(EncodeSlice(s) + rest) == Some(Decoded(s, rest))
  {
    assert EncodeSlice(s) + rest == EncodeVarint(|s|) + (s + rest);
    Varint32RoundTrip(|s|, s + rest);
    assert (s + rest)[..|s|] == s && (s + rest)[|s|..] == rest;
  }

  // What is left of the input is shorter than the input.
  lemma {:induction false} GetShrinks(input: Bytes, groups: nat)
    ensures GetVarint(input, groups).Some? ==> |GetVarint(input, groups).value.rest| < |input|
  {
    if groups > 0 && input != [] && input[0] >= 128 {
      GetShrinks(input[1..], groups - 1);
    }
  }

  lemma SliceShrinks(input: Bytes)
    ensures GetSlice(input).Some? ==> |GetSlice(input).value.rest| < |input|
  {
    GetShrinks(input, GROUPS_32);
  }
}
