// The prefix-compressed block with its restart array: the builder and the iterator
// (leveldb/table/block_builder.cc, leveldb/table/block.cc). Keys and values are bytes,
// and the comparator is any transitive order.
module Blocks {
  import opened Powers
  import opened Wrappers
  import opened InternalKeys
  import opened Codings

  datatype Pair = Pair(key: Bytes, value: Bytes)

  // ----- Pieces laid end to end -----

  function Joined(pieces: seq<Bytes>): Bytes {
    if pieces == [] then [] else Joined(pieces[..|pieces| - 1]) + pieces[|pieces| - 1]
  }

  // Where piece i begins.
  function Start(pieces: seq<Bytes>, i: nat): nat
    requires i <= |pieces|
  {
    if i == 0 then 0 else Start(pieces, i - 1) + |pieces[i - 1]|
  }

  lemma {:induction false} StartPrefix(pieces: seq<Bytes>, more: seq<Bytes>, i: nat)
    requires i <= |pieces|
    ensures Start(pieces + more, i) == Start(pieces, i)
  {
    if i > 0 {
      StartPrefix(pieces, more, i - 1);
    }
  }

  lemma {:induction false} StartMonotone(pieces: seq<Bytes>, a: nat, b: nat)
    requires a <= b <= |pieces|
    ensures Start(pieces, a) <= Start(pieces, b)
    ensures a < b ==> Start(pieces, a) + |pieces[a]| <= Start(pieces, b)
  {
    if a < b {
      StartMonotone(pieces, a, b - 1);
    }
  }

  lemma {:induction false} JoinedLength(pieces: seq<Bytes>)
    ensures |Joined(pieces)| == Start(pieces, |pieces|)
  {
    if pieces != [] {
      var front := pieces[..|pieces| - 1];
      JoinedLength(front);
      StartPrefix(front, [pieces[|pieces| - 1]], |front|);
      assert pieces == front + [pieces[|pieces| - 1]];
    }
  }

  // From piece i on, what is joined begins with piece i.
  lemma {:induction false} PieceAt(pieces: seq<Bytes>, i: nat)
    requires i < |pieces|
    ensures Start(pieces, i + 1) == Start(pieces, i) + |pieces[i]| <= |Joined(pieces)|
    ensures pieces[i] <= Joined(pieces)[Start(pieces, i)..]
  {
    var n := |pieces| - 1;
    var front := pieces[..n];
    assert pieces == front + [pieces[n]];
    JoinedLength(front);
    StartPrefix(front, [pieces[n]], n);
    if i < n {
      PieceAt(front, i);
      StartPrefix(front, [pieces[n]], i);
      StartPrefix(front, [pieces[n]], i + 1);
      StillAt(Joined(front), pieces[n], Start(front, i), front[i]);
    } else {
      assert Joined(pieces)[Start(pieces, i)..] == pieces[n];
    }
  }

  lemma StillAt(s: Bytes, more: Bytes, at: nat, piece: Bytes)
    requires at + |piece| <= |s| && piece <= s[at..]
    ensures piece <= (s + more)[at..]
  {
    assert (s + more)[at..] == s[at..] + more;
  }

  // ----- Entries -----

  datatype Header = Header(shared: nat, nonShared: nat, valueLength: nat, rest: Bytes)

  function EncodeEntry(shared: nat, key: Bytes, value: Bytes): Bytes
    requires shared <= |key|
  {
    EncodeVarint(shared) + (EncodeVarint(|key| - shared) + (EncodeVarint(|value|) + (key[shared..] + value)))
  }

  // DecodeEntry; None is its NULL.
  function DecodeEntry(s: Bytes): (h: Option<Header>)
    ensures h.Some? ==> |h.value.rest| + 3 <= |s| && h.value.nonShared + h.value.valueLength <= |h.value.rest|
  {
    if |s| < 3 then None
    else
      var h := if s[0] < 128 && s[1] < 128 && s[2] < 128 then Some(Header(s[0], s[1], s[2], s[3..])) else DecodeLengths(s);
      if h.None? || |h.value.rest| < h.value.nonShared + h.value.valueLength then None else h
  }

  function DecodeLengths(s: Bytes): (h: Option<Header>)
    ensures h.Some? ==> |h.value.rest| + 3 <= |s|
  {
    GetShrinks(s, GROUPS_32);
    match GetVarint32(s)
    case None => None
    case Some(a) =>
      GetShrinks(a.rest, GROUPS_32);
      match GetVarint32(a.rest)
      case None => None
      case Some(b) =>
        GetShrinks(b.rest, GROUPS_32);
        match GetVarint32(b.rest)
        case None => None
        case Some(c) => Some(Header(a.value, b.value, c.value, c.rest))
  }

  // The short way and the long way read the same.
  lemma EntryRoundTrip(shared: nat, key: Bytes, value: Bytes, rest: Bytes)
    requires shared <= |key| < TWO_32 && |value| < TWO_32
    ensures DecodeEntry(EncodeEntry(shared, key, value) + rest) ==
            Some(Header(shared, |key| - shared, |value|, key[shared..] + value + rest))
  {
    hide EncodeVarint, DecodeEntry, DecodeLengths;
    var a, b, c := EncodeVarint(shared), EncodeVarint(|key| - shared), EncodeVarint(|value|);
    var tail := key[shared..] + value + rest;
    assert EncodeEntry(shared, key, value) + rest == a + (b + (c + tail));
    if shared < 128 && |key| - shared < 128 && |value| < 128 {
      ShortLengths(shared, |key| - shared, |value|, tail);
    } else {
      LongLengths(shared, |key| - shared, |value|, tail);
    }
  }

  lemma ShortLengths(shared: nat, nonShared: nat, valueLength: nat, tail: Bytes)
    requires shared < 128 && nonShared < 128 && valueLength < 128 && nonShared + valueLength <= |tail|
    ensures DecodeEntry(EncodeVarint(shared) + (EncodeVarint(nonShared) + (EncodeVarint(valueLength) + tail))) ==
            Some(Header(shared, nonShared, valueLength, tail))
  {
    var s := [shared] + ([nonShared] + ([valueLength] + tail));
    assert s[3..] == tail;
  }

  lemma LongLengths(shared: nat, nonShared: nat, valueLength: nat, tail: Bytes)
    requires shared < TWO_32 && nonShared < TWO_32 && valueLength < TWO_32 && nonShared + valueLength <= |tail|
    requires shared >= 128 || nonShared >= 128 || valueLength >= 128
    ensures DecodeEntry(EncodeVarint(shared) + (EncodeVarint(nonShared) + (EncodeVarint(valueLength) + tail))) ==
            Some(Header(shared, nonShared, valueLength, tail))
  {
    var a, b, c := EncodeVarint(shared), EncodeVarint(nonShared), EncodeVarint(valueLength);
    EncodeStep(shared);
    EncodeStep(nonShared);
    EncodeStep(valueLength);
    hide EncodeVarint, GetVarint32;
    LongFirst(a, b, c, tail);
    Varint32RoundTrip(shared, b + (c + tail));
    Varint32RoundTrip(nonShared, c + tail);
    Varint32RoundTrip(valueLength, tail);
  }

  // One long length shows in the first three bytes.
  lemma LongFirst(a: Bytes, b: Bytes, c: Bytes, tail: Bytes)
    requires |a| > 0 && |b| > 0 && |c| > 0
    requires (a[0] < 128 ==> |a| == 1) && (b[0] < 128 ==> |b| == 1)
    requires a[0] >= 128 || b[0] >= 128 || c[0] >= 128
    ensures var s := a + (b + (c + tail)); |s| >= 3 && (s[0] >= 128 || s[1] >= 128 || s[2] >= 128)
  {
  }

  // ----- What a block holds -----

  // shareds[i] bytes of key i are those of the key before it.
  ghost predicate IsShared(pairs: seq<Pair>, shareds: seq<nat>) {
    && |shareds| == |pairs|
    && forall i :: 0 <= i < |pairs| ==> SharesPrefix(KeyBefore(pairs, i), pairs[i].key, shareds[i])
  }

  function KeyBefore(pairs: seq<Pair>, i: nat): Bytes
    requires i <= |pairs|
  {
    if i == 0 then [] else pairs[i - 1].key
  }

  ghost predicate SharesPrefix(last: Bytes, key: Bytes, shared: nat) {
    shared <= |last| && shared <= |key| && last[..shared] == key[..shared]
  }

  ghost function Pieces(pairs: seq<Pair>, shareds: seq<nat>): (r: seq<Bytes>)
    requires IsShared(pairs, shareds)
    ensures |r| == |pairs|
  {
    seq(|pairs|, i requires 0 <= i < |pairs| =>
      assert SharesPrefix(KeyBefore(pairs, i), pairs[i].key, shareds[i]);
      EncodeEntry(shareds[i], pairs[i].key, pairs[i].value))
  }

  ghost function Offset(pairs: seq<Pair>, shareds: seq<nat>, i: nat): nat
    requires IsShared(pairs, shareds) && i <= |pairs|
  {
    Start(Pieces(pairs, shareds), i)
  }

  // The entries whose keys are stored whole, ascending from the first; every other
  // restart point is that of an entry.
  ghost predicate AreRestarts(pairs: seq<Pair>, shareds: seq<nat>, starts: seq<nat>) {
    && IsShared(pairs, shareds) && starts != [] && starts[0] == 0
    && (forall k :: 0 <= k < |starts| ==> starts[k] <= |pairs|)
    && (forall k :: 0 <= k < |starts| && starts[k] < |pairs| ==> shareds[starts[k]] == 0)
    && (forall k :: 0 < k < |starts| ==> starts[k - 1] < starts[k] < |pairs|)
  }

  function RestartPoint(data: Bytes, restarts: nat, k: nat): nat
    requires restarts + 4 * k + 4 <= |data|
  {
    DecodeFixed(data[restarts + 4 * k..restarts + 4 * k + 4])
  }

  // data, with its restart array at `restarts`, is a block of these pairs.
  ghost predicate IsBlock(data: Bytes, restarts: nat, num: nat, pairs: seq<Pair>, shareds: seq<nat>, starts: seq<nat>) {
    && IsShared(pairs, shareds) && AreRestarts(pairs, shareds, starts) && num == |starts|
    && restarts + 4 * num <= |data| && restarts < TWO_32
    && data[..restarts] == Joined(Pieces(pairs, shareds))
    && forall k :: 0 <= k < num ==> RestartPoint(data, restarts, k) == Offset(pairs, shareds, starts[k])
  }

  // ----- Reading on from an offset -----

  datatype Parsed = End | Corrupt | Parsed(key: Bytes, valueStart: nat, valueLength: nat)

  function ParseAt(data: Bytes, restarts: nat, p: nat, key: Bytes): (r: Parsed)
    requires restarts <= |data|
    ensures r.Parsed? ==> p + 3 <= r.valueStart + r.valueLength <= restarts
  {
    if p >= restarts then End
    else
      match DecodeEntry(data[p..restarts])
      case None => Corrupt
      case Some(h) =>
        if |key| < h.shared then Corrupt
        else Parsed(key[..h.shared] + h.rest[..h.nonShared], restarts - |h.rest| + h.nonShared, h.valueLength)
  }

  // Where piece i begins the next pair is read, whatever the key before shares with it.
  lemma ParseEntry(data: Bytes, restarts: nat, num: nat, pairs: seq<Pair>, shareds: seq<nat>, starts: seq<nat>, i: nat, key: Bytes)
    requires IsBlock(data, restarts, num, pairs, shareds, starts) && i < |pairs|
    requires SharesPrefix(key, pairs[i].key, shareds[i])
    ensures restarts == Offset(pairs, shareds, |pairs|)
    ensures var r := ParseAt(data, restarts, Offset(pairs, shareds, i), key);
      r.Parsed? && r.key == pairs[i].key && r.valueStart + r.valueLength == Offset(pairs, shareds, i + 1) &&
      data[r.valueStart..r.valueStart + r.valueLength] == pairs[i].value
  {
    hide DecodeEntry, EncodeEntry, Start, Joined, RestartPoint, AreRestarts, IsShared;
    SharedSize(pairs, shareds);
    PieceIs(pairs, shareds, i);
    var pieces := Pieces(pairs, shareds);
    var piece, p := pieces[i], Offset(pairs, shareds, i);
    JoinedLength(pieces);
    PieceAt(pieces, i);
    var input := data[p..restarts];
    assert input == data[..restarts][p..];
    var rest := input[|piece|..];
    assert input == piece + rest;
    EntryLength(shareds[i], pairs[i].key, pairs[i].value);
    KeyFits(pairs, shareds, i);
    EntryRoundTrip(shareds[i], pairs[i].key, pairs[i].value, rest);
    ValueBehind(data, restarts, p, piece, pairs[i], shareds[i], rest);
  }

  lemma OffsetNext(pairs: seq<Pair>, shareds: seq<nat>, i: nat)
    requires IsShared(pairs, shareds) && i < |pairs|
    ensures SharesPrefix(KeyBefore(pairs, i), pairs[i].key, shareds[i])
    ensures Offset(pairs, shareds, i + 1) == Offset(pairs, shareds, i) + |EncodeEntry(shareds[i], pairs[i].key, pairs[i].value)|
  {
    hide EncodeEntry;
  }

  lemma PieceIs(pairs: seq<Pair>, shareds: seq<nat>, i: nat)
    requires IsShared(pairs, shareds) && i < |pairs|
    ensures |Pieces(pairs, shareds)| == |pairs| && shareds[i] <= |pairs[i].key|
    ensures Pieces(pairs, shareds)[i] == EncodeEntry(shareds[i], pairs[i].key, pairs[i].value)
    ensures Offset(pairs, shareds, i + 1) == Offset(pairs, shareds, i) + |Pieces(pairs, shareds)[i]|
  {
    hide EncodeEntry;
  }

  lemma SharedSize(pairs: seq<Pair>, shareds: seq<nat>)
    requires IsShared(pairs, shareds)
    ensures |shareds| == |pairs|
  {
  }

  // A key is no longer than what has been written up to it.
  lemma {:induction false} KeyFits(pairs: seq<Pair>, shareds: seq<nat>, i: nat)
    requires IsShared(pairs, shareds) && i < |pairs|
    ensures |pairs[i].key| <= Offset(pairs, shareds, i + 1)
  {
    hide EncodeEntry, Offset, Pieces, IsShared;
    SharedSize(pairs, shareds);
    OffsetNext(pairs, shareds, i);
    EntryLength(shareds[i], pairs[i].key, pairs[i].value);
    if i > 0 {
      KeyFits(pairs, shareds, i - 1);
    }
  }

  lemma SliceOfSlice(data: Bytes, p: nat, q: nat, i: nat, j: nat)
    requires p <= q <= |data| && i <= j <= q - p
    ensures data[p..q][i..j] == data[p + i..p + j]
  {
    assert forall k :: 0 <= k < j - i ==> data[p..q][i..j][k] == data[p + i + k] == data[p + i..p + j][k];
  }

  // The value is the tail of its piece.
  lemma ValueBehind(data: Bytes, restarts: nat, p: nat, piece: Bytes, pair: Pair, shared: nat, rest: Bytes)
    requires p <= restarts <= |data| && data[p..restarts] == piece + rest && shared <= |pair.key|
    requires |pair.value| <= |piece| && piece[|piece| - |pair.value|..] == pair.value
    ensures var end := p + |piece|;
      restarts - |pair.key[shared..] + pair.value + rest| + (|pair.key| - shared) == end - |pair.value| &&
      data[end - |pair.value|..end] == pair.value
    ensures (pair.key[shared..] + pair.value + rest)[..|pair.key| - shared] == pair.key[shared..]
  {
    var end := p + |piece|;
    SliceOfSlice(data, p, restarts, |piece| - |pair.value|, |piece|);
    assert (piece + rest)[|piece| - |pair.value|..|piece|] == piece[|piece| - |pair.value|..];
  }

  lemma EntryLength(shared: nat, key: Bytes, value: Bytes)
    requires shared <= |key|
    ensures |EncodeEntry(shared, key, value)| >= 3 + |key| - shared + |value|
    ensures EncodeEntry(shared, key, value)[|EncodeEntry(shared, key, value)| - |value|..] == value
  {
  }

  // ----- The iterator -----

  function HeaderAt(data: Bytes, restarts: nat, p: nat): Option<Header>
    requires restarts <= |data|
  {
    if p > restarts then None else DecodeEntry(data[p..restarts])
  }

  // First pair from i on whose key is not below target.
  function FirstNotBelow(less: (Bytes, Bytes) -> bool, pairs: seq<Pair>, target: Bytes, i: nat): (p: nat)
    requires i <= |pairs|
    ensures i <= p <= |pairs|
    ensures forall j :: i <= j < p ==> less(pairs[j].key, target)
    ensures p < |pairs| ==> !less(pairs[p].key, target)
    decreases |pairs| - i
  {
    if i == |pairs| || !less(pairs[i].key, target) then i else FirstNotBelow(less, pairs, target, i + 1)
  }

  ghost predicate IsOrder(less: (Bytes, Bytes) -> bool) {
    forall a, b, c :: less(a, b) && less(b, c) ==> less(a, c)
  }

  ghost predicate KeysAscend(less: (Bytes, Bytes) -> bool, pairs: seq<Pair>) {
    forall i, j :: 0 <= i < j < |pairs| ==> less(pairs[i].key, pairs[j].key)
  }

  lemma {:induction false} SkipBelow(less: (Bytes, Bytes) -> bool, pairs: seq<Pair>, target: Bytes, i: nat)
    requires i <= |pairs| && forall j :: 0 <= j < i ==> less(pairs[j].key, target)
    ensures FirstNotBelow(less, pairs, target, 0) == FirstNotBelow(less, pairs, target, i)
  {
    if i > 0 {
      SkipBelow(less, pairs, target, i - 1);
    }
  }

  // Any bytes can be iterated over; what the iterator shows is promised for those of a
  // block of known pairs.
  class BlockIter {
    const less: (Bytes, Bytes) -> bool
    const data: Bytes
    const restarts: nat
    const numRestarts: nat
    ghost const pairs: seq<Pair>
    ghost const shareds: seq<nat>
    ghost const starts: seq<nat>
    var current: nat
    var restartIndex: nat
    var key: Bytes
    var valueStart: nat
    var valueLength: nat
    var corrupt: bool

    constructor (less: (Bytes, Bytes) -> bool, data: Bytes, restarts: nat, numRestarts: nat,
                 ghost pairs: seq<Pair>, ghost shareds: seq<nat>, ghost starts: seq<nat>)
      requires numRestarts > 0 && restarts + 4 * numRestarts <= |data|
      ensures this.less == less && this.data == data && this.restarts == restarts && this.numRestarts == numRestarts
      ensures this.pairs == pairs && this.shareds == shareds && this.starts == starts
      ensures Sound() && !Valid() && !corrupt
    {
      this.less, this.data, this.restarts, this.numRestarts := less, data, restarts, numRestarts;
      this.pairs, this.shareds, this.starts := pairs, shareds, starts;
      current, restartIndex, key, valueStart, valueLength, corrupt := restarts, numRestarts, [], restarts, 0, false;
    }

    ghost predicate Sound()
      reads this
    {
      && HasArray()
      && (Valid() ==> restartIndex < numRestarts && valueStart + valueLength <= restarts)
    }

    ghost predicate HasArray() {
      numRestarts > 0 && restarts + 4 * numRestarts <= |data|
    }

    ghost predicate Built() {
      IsBlock(data, restarts, numRestarts, pairs, shareds, starts)
    }

    predicate Valid()
      reads `current
    {
      current < restarts
    }

    function NextEntryOffset(): nat
      reads `valueStart, `valueLength
    {
      valueStart + valueLength
    }

    function Value(): Bytes
      requires valueStart + valueLength <= |data|
      reads `valueStart, `valueLength
    {
      data[valueStart..valueStart + valueLength]
    }

    // The iterator is about to parse pair i.
    ghost predicate Before(i: nat)
      requires Built()
      reads `restartIndex, `key, `valueStart, `valueLength
    {
      && i <= |pairs| && NextEntryOffset() == Offset(pairs, shareds, i)
      && restartIndex < numRestarts && starts[restartIndex] <= i
      && (i < |pairs| ==> SharesPrefix(key, pairs[i].key, shareds[i]))
    }

    // The iterator stands at pair i; |pairs| is "not valid".
    ghost predicate At(i: nat)
      requires Built()
      reads this
    {
      if i < |pairs| then
        && current == Offset(pairs, shareds, i) < restarts && key == pairs[i].key
        && NextEntryOffset() == Offset(pairs, shareds, i + 1) <= |data| && Value() == pairs[i].value
        && restartIndex < numRestarts && starts[restartIndex] <= i
        && (restartIndex + 1 < numRestarts ==> i <= starts[restartIndex + 1])
      else
        i == |pairs| && !Valid()
    }

    lemma Shows(i: nat)
      requires Sound() && Built() && At(i)
      ensures i <= |pairs| && Valid() == (i < |pairs|)
      ensures Valid() ==> valueStart + valueLength <= |data| && Pair(key, Value()) == pairs[i]
    {
    }

    method GetRestartPoint(index: nat) returns (p: nat)
      requires HasArray() && index < numRestarts
      ensures p == RestartPoint(data, restarts, index)
    {
      p := DecodeFixed(data[restarts + 4 * index..restarts + 4 * index + 4]);
    }

    method CorruptionError()
      requires HasArray()
      modifies this
      ensures Sound() && !Valid() && corrupt
    {
      current, restartIndex, corrupt, key := restarts, numRestarts, true, [];
      valueStart, valueLength := restarts, 0;
    }

    method ParseNextKey(ghost i: nat) returns (more: bool)
      requires HasArray() && restartIndex < numRestarts
      modifies this
      ensures Sound() && more == Valid()
      ensures more ==> old(NextEntryOffset()) < NextEntryOffset()
      ensures Built() && old(Before(i)) ==> At(i) && more == (i < |pairs|) && corrupt == old(corrupt)
    {
      hide IsBlock, BlockIter.Before, DecodeEntry, RestartPoint, Offset, IsShared;
      BuiltLengths();
      ghost var before := Built() && Before(i);
      if before {
        ParsesTo(i);
      }
      current := NextEntryOffset();
      if current >= restarts {
        current, restartIndex := restarts, numRestarts;
        return false;
      }
      var p := HeaderAt(data, restarts, current);
      if p.None? || |key| < p.value.shared {
        CorruptionError();
        return false;
      }
      var h := p.value;
      key := key[..h.shared] + h.rest[..h.nonShared];
      valueStart, valueLength := restarts - |h.rest| + h.nonShared, h.valueLength;
      FollowRestarts(i);
      more := true;
    }

    lemma ParsesTo(i: nat)
      requires Built() && Before(i)
      ensures i == |pairs| ==> NextEntryOffset() == restarts
      ensures i <= |pairs| && |starts| == numRestarts && starts[restartIndex] <= i
      ensures i < |pairs| ==> NextEntryOffset() == Offset(pairs, shareds, i) < restarts
      ensures i < |pairs| ==>
        var d := HeaderAt(data, restarts, NextEntryOffset());
        d.Some? && d.value.shared <= |key| && key[..d.value.shared] + d.value.rest[..d.value.nonShared] == pairs[i].key &&
        var v := restarts - |d.value.rest| + d.value.nonShared;
        v + d.value.valueLength == Offset(pairs, shareds, i + 1) <= restarts &&
        data[v..v + d.value.valueLength] == pairs[i].value
    {
      hide DecodeEntry, RestartPoint, AreRestarts, Offset, IsShared;
      BlockEnds();
      if i < |pairs| {
        OffsetOrder(pairs, shareds, i, |pairs|);
        OffsetOrder(pairs, shareds, i + 1, |pairs|);
        ParseEntry(data, restarts, numRestarts, pairs, shareds, starts, i, key);
      }
    }

    lemma BlockEnds()
      requires Built()
      ensures restarts == Offset(pairs, shareds, |pairs|)
    {
      hide AreRestarts, RestartPoint;
      JoinedLength(Pieces(pairs, shareds));
    }

    lemma RestartOrder(k: nat, i: nat)
      requires Built() && k < numRestarts && i <= |pairs|
      ensures RestartPoint(data, restarts, k) < Offset(pairs, shareds, i) <==> starts[k] < i
      ensures starts[k] < i < |pairs| ==> StartsBy(k, i)
    {
      hide RestartPoint, Offset, IsShared;
      if starts[k] < i {
        OffsetOrder(pairs, shareds, starts[k], i);
      } else {
        OffsetOrder(pairs, shareds, i, starts[k]);
      }
    }

    ghost predicate BeginsAt(i: nat, p: nat) {
      Built() && i < |pairs| && p == Offset(pairs, shareds, i)
    }

    // Restart point r is no later than pair i.
    ghost predicate StartsBy(r: nat, i: nat) {
      Built() && i < |pairs| && r < numRestarts && starts[r] <= i
    }

    lemma RestartAgainst(k: nat, i: nat, p: nat)
      requires HasArray() && BeginsAt(i, p) && k < numRestarts
      ensures RestartPoint(data, restarts, k) < p ==> StartsBy(k, i) && StartsBefore(k, i)
      ensures RestartPoint(data, restarts, k) >= p ==> i <= starts[k]
    {
      RestartOrder(k, i);
    }

    // Up to the last restart point before the pair.
    method FollowRestarts(ghost i: nat)
      requires HasArray() && restartIndex < numRestarts
      modifies `restartIndex
      ensures restartIndex < numRestarts
      ensures BeginsAt(i, current) && StartsBy(old(restartIndex), i) ==>
                StartsBy(restartIndex, i) && (restartIndex + 1 < numRestarts ==> i <= starts[restartIndex + 1])
    {
      hide BlockIter.Built, BlockIter.HasArray, BlockIter.StartsBy, BlockIter.BeginsAt, RestartPoint, Offset, IsShared;
      ghost var known := BeginsAt(i, current) && StartsBy(restartIndex, i);
      while restartIndex + 1 < numRestarts
        invariant restartIndex < numRestarts
        invariant known ==> StartsBy(restartIndex, i)
      {
        var p := GetRestartPoint(restartIndex + 1);
        if known {
          RestartAgainst(restartIndex + 1, i, current);
        }
        if p >= current {
          break;
        }
        restartIndex := restartIndex + 1;
      }
    }

    lemma BuiltLengths()
      ensures Built() ==> |starts| == numRestarts && IsShared(pairs, shareds)
    {
    }

    method Next(ghost i: nat)
      requires Sound() && Valid()
      modifies this
      ensures Sound()
      ensures Built() && old(At(i)) ==> At(i + 1) && corrupt == old(corrupt)
    {
      hide IsBlock, BlockIter.Before, BlockIter.At, BlockIter.Built;
      if Built() && At(i) {
        ReadyForNext(i);
      }
      var _ := ParseNextKey(i + 1);
    }

    lemma ReadyForNext(i: nat)
      requires Sound() && Valid() && Built() && At(i)
      ensures i < |pairs| && Before(i + 1)
    {
      hide Offset;
      if i + 1 < |pairs| {
        assert SharesPrefix(KeyBefore(pairs, i + 1), pairs[i + 1].key, shareds[i + 1]);
      }
    }

    method SeekToRestartPoint(index: nat)
      requires HasArray() && index < numRestarts
      modifies `key, `restartIndex, `valueStart, `valueLength
      ensures restartIndex == index && key == []
      ensures Built() ==> index < |starts| && Before(starts[index])
    {
      key := [];
      restartIndex := index;
      valueStart := GetRestartPoint(index);
      valueLength := 0;
    }

    ghost predicate StartsBefore(r: nat, i: nat) {
      Built() && i < |pairs| && r < numRestarts && starts[r] < i
    }

    // Back to the last restart point before the pair, then on to the pair before it.
    method Prev(ghost i: nat)
      requires Sound() && Valid()
      modifies this
      ensures Sound()
      ensures Built() && old(At(i)) ==> At(if i == 0 then |pairs| else i - 1) && corrupt == old(corrupt)
    {
      hide BlockIter.Built, BlockIter.Before, BlockIter.At, BlockIter.StartsBefore, BlockIter.BeginsAt, RestartPoint, Offset, IsShared;
      ghost var known := Built() && At(i);
      if known {
        StandsAt(i);
      }
      var original := current;
      var p := GetRestartPoint(restartIndex);
      while p >= original
        invariant restartIndex < numRestarts && p == RestartPoint(data, restarts, restartIndex)
        invariant corrupt == old(corrupt)
        decreases restartIndex
      {
        if restartIndex == 0 {
          current, restartIndex := restarts, numRestarts;
          if known {
            FirstPair(i, original);
          }
          return;
        }
        restartIndex := restartIndex - 1;
        p := GetRestartPoint(restartIndex);
      }
      if known {
        RestartAgainst(restartIndex, i, original);
        NotFirst(restartIndex, i);
      }
      SeekToRestartPoint(restartIndex);
      ParseUpTo(original, known, i);
    }

    lemma StandsAt(i: nat)
      requires Built() && At(i) && Valid()
      ensures i < |pairs| && BeginsAt(i, current)
    {
    }

    lemma NotFirst(r: nat, i: nat)
      requires StartsBefore(r, i)
      ensures i > 0
    {
    }

    // The first restart point is the first pair.
    lemma FirstPair(i: nat, p: nat)
      requires HasArray() && BeginsAt(i, p) && RestartPoint(data, restarts, 0) >= p && !Valid()
      ensures i == 0 && Built() && At(|pairs|)
    {
      RestartAgainst(0, i, p);
    }

    // Parses on until the end of the entry reaches original.
    method ParseUpTo(original: nat, ghost known: bool, ghost i: nat)
      requires HasArray() && restartIndex < numRestarts
      requires known ==> BeginsAt(i, original) && StartsBefore(restartIndex, i) && Before(starts[restartIndex])
      modifies this
      ensures Sound()
      ensures known ==> Built() && i > 0 && At(i - 1) && corrupt == old(corrupt)
    {
      hide BlockIter.Before, BlockIter.At, BlockIter.BeginsAt, RestartPoint, Offset, IsShared, IsBlock;
      BuiltLengths();
      ghost var j: nat := if known then starts[restartIndex] else 0;
      var more := ParseNextKey(j);
      while more && NextEntryOffset() < original
        invariant Sound() && more == Valid()
        invariant known ==> more && j < i && At(j) && corrupt == old(corrupt)
        decreases more, restarts - NextEntryOffset()
      {
        if known {
          EndsBefore(j, i, original);
          ReadyForNext(j);
        }
        j := j + 1;
        more := ParseNextKey(j);
      }
      if known {
        EndsBefore(j, i, original);
      }
    }

    // The end of entry j reaches entry i exactly when j is the one before.
    lemma EndsBefore(j: nat, i: nat, p: nat)
      requires BeginsAt(i, p) && At(j) && Valid() && j < i
      ensures NextEntryOffset() < p <==> j + 1 < i
    {
      hide IsShared, Offset;
      OffsetOrder(pairs, shareds, j + 1, i);
    }

    method SeekToFirst()
      requires HasArray()
      modifies this
      ensures Sound()
      ensures Built() ==> At(0) && corrupt == old(corrupt)
    {
      hide IsBlock, BlockIter.Before, BlockIter.At;
      SeekToRestartPoint(0);
      FirstStart();
      var _ := ParseNextKey(0);
    }

    lemma FirstStart()
      ensures Built() ==> |starts| == numRestarts > 0 && starts[0] == 0
      ensures Built() ==> starts[numRestarts - 1] < |pairs| || pairs == []
    {
    }

    method SeekToLast()
      requires HasArray()
      modifies this
      ensures Sound()
      ensures Built() ==> At(if pairs == [] then 0 else |pairs| - 1) && corrupt == old(corrupt)
    {
      hide IsBlock, BlockIter.Before, BlockIter.At, RestartPoint, Offset, IsShared, BlockIter.Built;
      FirstStart();
      SeekToRestartPoint(numRestarts - 1);
      ghost var j: nat := if Built() then starts[restartIndex] else 0;
      var more := ParseNextKey(j);
      while more && NextEntryOffset() < restarts
        invariant Sound() && more == Valid()
        invariant Built() ==> j <= |pairs| && At(j) && more == (j < |pairs|) && (more || pairs == []) && corrupt == old(corrupt)
        decreases more, restarts - NextEntryOffset()
      {
        if Built() {
          EndsLast(j);
          ReadyForNext(j);
        }
        j := j + 1;
        more := ParseNextKey(j);
      }
      if Built() && more {
        EndsLast(j);
      }
    }

    lemma EndsLast(j: nat)
      requires Built() && At(j) && Valid()
      ensures j < |pairs| && (NextEntryOffset() < restarts <==> j + 1 < |pairs|)
    {
      hide IsShared, Offset;
      BlockEnds();
      OffsetOrder(pairs, shareds, j + 1, |pairs|);
    }

    // The key stored whole at a restart point; None is a bad entry.
    method RestartKey(index: nat) returns (k: Option<Bytes>)
      requires HasArray() && index < numRestarts
      ensures Built() && index < |starts| && starts[index] < |pairs| ==> k == Some(pairs[starts[index]].key)
    {
      if Built() && index < |starts| && starts[index] < |pairs| {
        WholeKey(index);
      }
      hide IsBlock, RestartPoint, Offset, IsShared;
      var p := GetRestartPoint(index);
      var h := HeaderAt(data, restarts, p);
      if h.None? || h.value.shared != 0 {
        return None;
      }
      return Some(h.value.rest[..h.value.nonShared]);
    }

    // Binary search among the restart points for the last whose key is below target,
    // then pair by pair.
    method Seek(target: Bytes)
      requires HasArray()
      modifies this
      ensures Sound()
      ensures Built() && IsOrder(less) && KeysAscend(less, pairs) ==>
                At(FirstNotBelow(less, pairs, target, 0)) && corrupt == old(corrupt)
    {
      hide IsBlock, BlockIter.Before, BlockIter.At, RestartPoint, Offset, IsShared, BlockIter.Built;
      ghost var known := Built() && IsOrder(less) && KeysAscend(less, pairs);
      var left, right := 0, numRestarts - 1;
      FirstStart();
      while left < right
        invariant 0 <= left <= right < numRestarts && corrupt == old(corrupt)
        invariant known ==> BelowBefore(left, target)
        decreases right - left
      {
        var mid := (left + right + 1) / 2;
        var midKey := RestartKey(mid);
        if known {
          RestartIsPair(mid);
        }
        if midKey.None? {
          CorruptionError();
          return;
        }
        if less(midKey.value, target) {
          if known {
            AllBelow(mid, target);
          }
          left := mid;
        } else {
          right := mid - 1;
        }
      }
      SeekToRestartPoint(left);
      ScanTo(target, known);
    }

    ghost predicate BelowBefore(r: nat, target: Bytes) {
      Built() && r < |starts| && starts[r] <= |pairs| && forall j :: 0 <= j < starts[r] ==> less(pairs[j].key, target)
    }

    lemma RestartIsPair(r: nat)
      requires Built() && 0 < r < numRestarts
      ensures r < |starts| && starts[r] < |pairs|
    {
    }

    lemma AllBelow(r: nat, target: Bytes)
      requires Built() && IsOrder(less) && KeysAscend(less, pairs) && r < |starts| && starts[r] < |pairs|
      requires less(pairs[starts[r]].key, target)
      ensures BelowBefore(r, target)
    {
    }

    lemma WholeKey(r: nat)
      requires Built() && r < |starts| && starts[r] < |pairs| && HasArray()
      ensures var h := HeaderAt(data, restarts, RestartPoint(data, restarts, r));
        h.Some? && h.value.shared == 0 && h.value.rest[..h.value.nonShared] == pairs[starts[r]].key
    {
      hide DecodeEntry, RestartPoint, IsShared;
      ParseEntry(data, restarts, numRestarts, pairs, shareds, starts, starts[r], []);
      BlockEnds();
      OffsetOrder(pairs, shareds, starts[r], |pairs|);
    }

    // Pair by pair to the first whose key is not below target.
    method ScanTo(target: Bytes, ghost known: bool)
      requires HasArray() && restartIndex < numRestarts
      requires known ==> BelowBefore(restartIndex, target) && Before(starts[restartIndex])
      modifies this
      ensures Sound()
      ensures known ==> Built() && At(FirstNotBelow(less, pairs, target, 0)) && corrupt == old(corrupt)
    {
      hide IsBlock, BlockIter.Before, RestartPoint, Offset, IsShared;
      ghost var j: nat := if known then starts[restartIndex] else 0;
      while true
        invariant restartIndex < numRestarts
        invariant known ==> Built() && j <= |pairs| && Before(j) && corrupt == old(corrupt)
        invariant known ==> forall i :: 0 <= i < j ==> less(pairs[i].key, target)
        decreases restarts - NextEntryOffset()
      {
        var more := ParseNextKey(j);
        if known {
          SkipBelow(less, pairs, target, j);
        }
        if !more {
          return;
        }
        if !less(key, target) {
          return;
        }
        if known {
          ReadyForNext(j);
        }
        j := j + 1;
      }
    }
  }

  lemma OffsetOrder(pairs: seq<Pair>, shareds: seq<nat>, a: nat, b: nat)
    requires IsShared(pairs, shareds) && a <= b <= |pairs|
    ensures a == b || Offset(pairs, shareds, a) < Offset(pairs, shareds, b)
  {
    hide EncodeEntry, Start;
    StartMonotone(Pieces(pairs, shareds), a, b);
    if a < b {
      OffsetNext(pairs, shareds, a);
      EntryLength(shareds[a], pairs[a].key, pairs[a].value);
    }
  }

  // ----- The builder -----

  // No more bytes could be shared.
  ghost predicate LongestShared(last: Bytes, key: Bytes, n: nat) {
    SharesPrefix(last, key, n) && (n < |last| && n < |key| ==> last[n] != key[n])
  }

  lemma AppendPair(pairs: seq<Pair>, shareds: seq<nat>, pair: Pair, shared: nat)
    requires IsShared(pairs, shareds) && SharesPrefix(KeyBefore(pairs, |pairs|), pair.key, shared)
    ensures |shareds| == |pairs| && IsShared(pairs + [pair], shareds + [shared])
    ensures Pieces(pairs + [pair], shareds + [shared]) == Pieces(pairs, shareds) + [EncodeEntry(shared, pair.key, pair.value)]
    ensures Joined(Pieces(pairs + [pair], shareds + [shared])) ==
            Joined(Pieces(pairs, shareds)) + EncodeEntry(shared, pair.key, pair.value)
  {
    hide EncodeEntry;
    var pairs', shareds' := pairs + [pair], shareds + [shared];
    forall i | 0 <= i < |pairs'| ensures SharesPrefix(KeyBefore(pairs', i), pairs'[i].key, shareds'[i]) {
      assert KeyBefore(pairs', i) == KeyBefore(pairs, i);
    }
    PiecesAppend(pairs, shareds, pair, shared);
  }

  lemma PiecesAppend(pairs: seq<Pair>, shareds: seq<nat>, pair: Pair, shared: nat)
    requires IsShared(pairs, shareds) && shared <= |pair.key| && IsShared(pairs + [pair], shareds + [shared])
    ensures Pieces(pairs + [pair], shareds + [shared]) == Pieces(pairs, shareds) + [EncodeEntry(shared, pair.key, pair.value)]
  {
    hide EncodeEntry;
  }

  function NextStarts(starts: seq<nat>, restart: bool, n: nat): seq<nat> {
    if restart then starts + [n] else starts
  }

  // A restart after the last pair keeps the restart points in order.
  lemma RestartsAppend(pairs: seq<Pair>, shareds: seq<nat>, starts: seq<nat>, pair: Pair, shared: nat, restart: bool)
    requires AreRestarts(pairs, shareds, starts) && SharesPrefix(KeyBefore(pairs, |pairs|), pair.key, shared)
    requires restart ==> shared == 0 && starts[|starts| - 1] < |pairs|
    ensures AreRestarts(pairs + [pair], shareds + [shared], NextStarts(starts, restart, |pairs|))
  {
    hide IsShared, Pieces, Joined, EncodeEntry, SharesPrefix;
    AppendPair(pairs, shareds, pair, shared);
    var shareds', starts' := shareds + [shared], NextStarts(starts, restart, |pairs|);
    forall k | 0 <= k < |starts'| ensures starts'[k] <= |pairs| && shareds'[starts'[k]] == 0 {
      StartIsWhole(pairs, shareds, starts, pair, shared, restart, k);
    }
    StartsInOrder(starts, restart, |pairs|);
  }

  lemma StartIsWhole(pairs: seq<Pair>, shareds: seq<nat>, starts: seq<nat>, pair: Pair, shared: nat, restart: bool, k: nat)
    requires |shareds| == |pairs| && AreRestarts(pairs, shareds, starts) && SharesPrefix(KeyBefore(pairs, |pairs|), pair.key, shared)
    requires restart ==> shared == 0
    requires k < |NextStarts(starts, restart, |pairs|)|
    ensures var at := NextStarts(starts, restart, |pairs|)[k]; at <= |pairs| && (shareds + [shared])[at] == 0
  {
    hide IsShared;
    if k < |starts| && starts[k] == |pairs| {
      assert k == 0 && KeyBefore(pairs, |pairs|) == [];
    }
  }

  lemma StartsInOrder(starts: seq<nat>, restart: bool, n: nat)
    requires starts != [] && (forall k :: 0 < k < |starts| ==> starts[k - 1] < starts[k] < n)
    requires restart ==> starts[|starts| - 1] < n
    ensures var next := NextStarts(starts, restart, n); forall k :: 0 < k < |next| ==> next[k - 1] < next[k] < n + 1
  {
  }

  lemma OffsetStays(pairs: seq<Pair>, shareds: seq<nat>, pair: Pair, shared: nat, i: nat)
    requires IsShared(pairs, shareds) && SharesPrefix(KeyBefore(pairs, |pairs|), pair.key, shared) && i <= |pairs|
    ensures IsShared(pairs + [pair], shareds + [shared])
    ensures Offset(pairs + [pair], shareds + [shared], i) == Offset(pairs, shareds, i)
  {
    AppendPair(pairs, shareds, pair, shared);
    StartPrefix(Pieces(pairs, shareds), [EncodeEntry(shared, pair.key, pair.value)], i);
  }

  function FixedList(words: seq<nat>): (r: Bytes)
    ensures |r| == 4 * |words|
  {
    if words == [] then [] else FixedList(words[..|words| - 1]) + EncodeFixed(words[|words| - 1], 4)
  }

  lemma {:induction false} FixedListAt(words: seq<nat>, k: nat)
    requires k < |words| && words[k] < TWO_32
    ensures DecodeFixed(FixedList(words)[4 * k..4 * k + 4]) == words[k]
  {
    var n := |words| - 1;
    if k < n {
      FixedListAt(words[..n], k);
      assert FixedList(words)[4 * k..4 * k + 4] == FixedList(words[..n])[4 * k..4 * k + 4];
    } else {
      FixedWidths();
      FixedRoundTrip(words[n], 4);
      assert FixedList(words)[4 * k..4 * k + 4] == EncodeFixed(words[n], 4);
    }
  }

  // A whole key every `interval` entries, the longest sharing in between.
  ghost predicate IsSpaced(pairs: seq<Pair>, shareds: seq<nat>, starts: seq<nat>, interval: nat)
    requires |shareds| == |pairs|
  {
    && (forall k :: 0 < k < |starts| ==> starts[k] == starts[k - 1] + interval)
    && (forall i :: 0 <= i < |pairs| && i !in starts ==> LongestShared(KeyBefore(pairs, i), pairs[i].key, shareds[i]))
  }

  ghost predicate AreOffsets(pairs: seq<Pair>, shareds: seq<nat>, starts: seq<nat>, restarts: seq<nat>)
    requires IsShared(pairs, shareds)
  {
    |restarts| == |starts| && forall k :: 0 <= k < |starts| ==> starts[k] <= |pairs| && restarts[k] == Offset(pairs, shareds, starts[k])
  }

  ghost predicate IsBuilder(buffer: Bytes, restarts: seq<nat>, counter: nat, interval: nat,
                            pairs: seq<Pair>, shareds: seq<nat>, starts: seq<nat>) {
    && AreRestarts(pairs, shareds, starts) && buffer == Joined(Pieces(pairs, shareds))
    && AreOffsets(pairs, shareds, starts, restarts)
    && counter <= interval && starts[|starts| - 1] + counter == |pairs| && IsSpaced(pairs, shareds, starts, interval)
  }

  lemma BuilderAppends(buffer: Bytes, restarts: seq<nat>, counter: nat, interval: nat,
                       pairs: seq<Pair>, shareds: seq<nat>, starts: seq<nat>, pair: Pair, shared: nat)
    requires interval >= 1 && IsBuilder(buffer, restarts, counter, interval, pairs, shareds, starts)
    requires if counter < interval then LongestShared(KeyBefore(pairs, |pairs|), pair.key, shared) else shared == 0
    ensures var restart := counter >= interval;
      shared <= |pair.key| &&
      IsBuilder(buffer + EncodeEntry(shared, pair.key, pair.value), NextStarts(restarts, restart, |buffer|),
                (if restart then 0 else counter) + 1, interval,
                pairs + [pair], shareds + [shared], NextStarts(starts, restart, |pairs|))
  {
    var restart := counter >= interval;
    JoinedLength(Pieces(pairs, shareds));
    AppendPair(pairs, shareds, pair, shared);
    hide EncodeEntry, Pieces, Joined, IsShared, Start;
    RestartsAppend(pairs, shareds, starts, pair, shared, restart);
    OffsetsAppend(pairs, shareds, starts, restarts, pair, shared, restart);
    SpacedAppends(pairs, shareds, starts, pair, shared, restart, interval);
    hide IsSpaced, AreOffsets, AreRestarts, Offset;
  }

  lemma OffsetsAppend(pairs: seq<Pair>, shareds: seq<nat>, starts: seq<nat>, restarts: seq<nat>, pair: Pair, shared: nat, restart: bool)
    requires IsShared(pairs, shareds) && AreOffsets(pairs, shareds, starts, restarts)
    requires SharesPrefix(KeyBefore(pairs, |pairs|), pair.key, shared)
    ensures IsShared(pairs + [pair], shareds + [shared])
    ensures AreOffsets(pairs + [pair], shareds + [shared], NextStarts(starts, restart, |pairs|),
                       NextStarts(restarts, restart, Offset(pairs, shareds, |pairs|)))
  {
    hide Offset, IsShared, SharesPrefix;
    OffsetStays(pairs, shareds, pair, shared, |pairs|);
    forall k | 0 <= k < |starts| ensures Offset(pairs + [pair], shareds + [shared], starts[k]) == restarts[k] {
      OffsetStays(pairs, shareds, pair, shared, starts[k]);
    }
  }

  lemma SpacedAppends(pairs: seq<Pair>, shareds: seq<nat>, starts: seq<nat>, pair: Pair, shared: nat, restart: bool, interval: nat)
    requires |shareds| == |pairs| && starts != [] && IsSpaced(pairs, shareds, starts, interval)
    requires if restart then |pairs| == starts[|starts| - 1] + interval else LongestShared(KeyBefore(pairs, |pairs|), pair.key, shared)
    ensures IsSpaced(pairs + [pair], shareds + [shared], NextStarts(starts, restart, |pairs|), interval)
  {
    hide LongestShared, NextStarts;
    StartsSpaced(starts, restart, |pairs|, interval);
    var pairs', shareds', starts' := pairs + [pair], shareds + [shared], NextStarts(starts, restart, |pairs|);
    forall i | 0 <= i < |pairs'| && i !in starts' ensures LongestShared(KeyBefore(pairs', i), pairs'[i].key, shareds'[i]) {
      StartsKept(starts, restart, |pairs|, i);
      SpacedAt(pairs, shareds, starts, pair, shared, restart, interval, i);
    }
  }

  lemma SpacedAt(pairs: seq<Pair>, shareds: seq<nat>, starts: seq<nat>, pair: Pair, shared: nat, restart: bool, interval: nat, i: nat)
    requires |shareds| == |pairs| && IsSpaced(pairs, shareds, starts, interval) && i <= |pairs|
    requires i < |pairs| ==> i !in starts
    requires i == |pairs| ==> LongestShared(KeyBefore(pairs, |pairs|), pair.key, shared)
    ensures LongestShared(KeyBefore(pairs + [pair], i), (pairs + [pair])[i].key, (shareds + [shared])[i])
  {
    hide LongestShared;
    assert KeyBefore(pairs + [pair], i) == KeyBefore(pairs, i);
  }

  lemma StartsSpaced(starts: seq<nat>, restart: bool, n: nat, interval: nat)
    requires starts != [] && (forall k :: 0 < k < |starts| ==> starts[k] == starts[k - 1] + interval)
    requires restart ==> n == starts[|starts| - 1] + interval
    ensures var next := NextStarts(starts, restart, n); forall k :: 0 < k < |next| ==> next[k] == next[k - 1] + interval
  {
  }

  lemma StartsKept(starts: seq<nat>, restart: bool, n: nat, i: nat)
    requires i !in NextStarts(starts, restart, n)
    ensures i !in starts && (restart ==> i != n)
  {
    var next := NextStarts(starts, restart, n);
    assert forall k :: 0 <= k < |starts| ==> next[k] == starts[k];
    assert restart ==> next[|starts|] == n;
  }

  lemma EntryIs(written: Bytes, shared: nat, key: Bytes, value: Bytes)
    requires shared <= |key|
    ensures written + EncodeVarint(shared) + EncodeVarint(|key| - shared) + EncodeVarint(|value|) + key[shared..] + value ==
            written + EncodeEntry(shared, key, value)
  {
  }

  class BlockBuilder {
    const restartInterval: nat
    var buffer: Bytes
    var restarts: seq<nat>
    var counter: nat
    var finished: bool
    var lastKey: Bytes
    ghost var pairs: seq<Pair>
    ghost var shareds: seq<nat>
    ghost var starts: seq<nat>

    constructor (restartInterval: nat)
      requires restartInterval >= 1
      ensures this.restartInterval == restartInterval && Valid() && !finished && pairs == []
    {
      this.restartInterval := restartInterval;
      buffer, restarts, counter, finished, lastKey := [], [0], 0, false, [];
      pairs, shareds, starts := [], [], [0];
    }

    ghost predicate Valid()
      reads this
    {
      restartInterval >= 1 && lastKey == KeyBefore(pairs, |pairs|) && IsBuilder(buffer, restarts, counter, restartInterval, pairs, shareds, starts)
    }

    method Reset()
      requires restartInterval >= 1
      modifies this
      ensures Valid() && !finished && pairs == []
    {
      buffer, restarts, counter, finished, lastKey := [], [0], 0, false, [];
      pairs, shareds, starts := [], [], [0];
    }

    // What the block would take if it were finished now.
    function CurrentSizeEstimate(): nat
      reads this
    {
      |buffer| + 4 * |restarts| + 4
    }

    method IsEmpty() returns (empty: bool)
      requires Valid() && !finished
      ensures empty <==> pairs == []
    {
      if pairs != [] {
        OffsetOrder(pairs, shareds, 0, |pairs|);
        OffsetIsLength(pairs, shareds);
      }
      empty := |buffer| == 0;
    }

    method Add(key: Bytes, value: Bytes)
      requires Valid() && !finished
      modifies this
      ensures Valid() && !finished && pairs == old(pairs) + [Pair(key, value)]
    {
      hide IsBuilder, EncodeEntry, EncodeVarint;
      ghost var pair, restart, n := Pair(key, value), counter >= restartInterval, counter;
      ghost var written := buffer;
      var shared := 0;
      if counter < restartInterval {
        shared := SharedLength(lastKey, key);
      } else {
        restarts := restarts + [|buffer|];
        counter := 0;
      }
      BuilderAppends(written, old(restarts), n, restartInterval, pairs, shareds, starts, pair, shared);
      buffer := buffer + EncodeVarint(shared) + EncodeVarint(|key| - shared) + EncodeVarint(|value|);
      buffer := buffer + key[shared..] + value;
      EntryIs(written, shared, key, value);
      assert key == key[..shared] + key[shared..];
      lastKey := lastKey[..shared] + key[shared..];
      counter := counter + 1;
      starts := NextStarts(starts, restart, |pairs|);
      pairs, shareds := pairs + [pair], shareds + [shared];
    }

    // The restart array and its length go behind the entries.
    method Finish() returns (contents: Bytes)
      requires Valid() && !finished
      modifies `buffer, `finished
      ensures finished && contents == buffer && |contents| == old(CurrentSizeEstimate())
      ensures |contents| < TWO_32 ==>
                var o := OpenBlock(contents);
                o.Opened? && IsBlock(contents, o.restarts, o.numRestarts, pairs, shareds, starts)
    {
      hide IsBuilder, EncodeFixed, DecodeFixed, FixedList;
      ghost var entries := buffer;
      assert FixedList(restarts[..0]) == [] by { NoRestarts(); }
      var i := 0;
      while i < |restarts|
        invariant i <= |restarts| && buffer == entries + FixedList(restarts[..i])
      {
        FixedListNext(restarts, i);
        buffer := buffer + EncodeFixed(restarts[i], 4);
        i := i + 1;
      }
      assert restarts[..i] == restarts;
      buffer := buffer + EncodeFixed(|restarts|, 4);
      finished := true;
      contents := buffer;
      if |contents| < TWO_32 {
        FinishedIsBlock(entries, restarts, counter, restartInterval, pairs, shareds, starts);
      }
    }

    method SharedLength(last: Bytes, key: Bytes) returns (shared: nat)
      ensures LongestShared(last, key, shared)
    {
      var minLength := if |last| < |key| then |last| else |key|;
      shared := 0;
      while shared < minLength && last[shared] == key[shared]
        invariant shared <= minLength && last[..shared] == key[..shared]
      {
        shared := shared + 1;
      }
    }
  }

  lemma NoRestarts()
    ensures FixedList([]) == []
  {
  }

  lemma FixedListNext(words: seq<nat>, i: nat)
    requires i < |words|
    ensures FixedList(words[..i + 1]) == FixedList(words[..i]) + EncodeFixed(words[i], 4)
  {
    assert words[..i + 1][..i] == words[..i];
  }

  // ----- Opening a finished block -----

  datatype Opening = BadContents | NoEntries | Opened(restarts: nat, numRestarts: nat)

  // Block::Block and NewIterator: the last word is the number of restart points.
  function OpenBlock(contents: Bytes): (o: Opening)
    ensures o.Opened? ==> o.numRestarts > 0 && o.restarts + 4 * o.numRestarts + 4 == |contents|
  {
    if |contents| < 4 then BadContents
    else
      var num := DecodeFixed(contents[|contents| - 4..]);
      var maxRestartsAllowed := (|contents| - 4) / 4;
      if num > maxRestartsAllowed then BadContents
      else if num == 0 then NoEntries
      else Opened(|contents| - (1 + num) * 4, num)
  }

  // What Finish writes opens as a block of the pairs added.
  lemma FinishedIsBlock(entries: Bytes, restarts: seq<nat>, counter: nat, interval: nat,
                        pairs: seq<Pair>, shareds: seq<nat>, starts: seq<nat>)
    requires IsBuilder(entries, restarts, counter, interval, pairs, shareds, starts)
    requires |entries| + 4 * |restarts| + 4 < TWO_32
    ensures var contents := entries + FixedList(restarts) + EncodeFixed(|restarts|, 4);
      OpenBlock(contents) == Opened(|entries|, |restarts|) &&
      IsBlock(contents, |entries|, |restarts|, pairs, shareds, starts)
  {
    hide EncodeFixed, DecodeFixed, FixedList, Pieces, Joined, IsShared, AreRestarts, IsSpaced, Offset, RestartPoint;
    HasRestart(pairs, shareds, starts);
    OffsetIsLength(pairs, shareds);
    var list, word := FixedList(restarts), EncodeFixed(|restarts|, 4);
    var contents := entries + list + word;
    FixedWidths();
    FixedRoundTrip(|restarts|, 4);
    assert contents[|contents| - 4..] == word;
    forall k | 0 <= k < |restarts| ensures RestartPoint(contents, |entries|, k) == Offset(pairs, shareds, starts[k]) {
      OffsetFits(pairs, shareds, starts, k);
      RestartStored(entries, restarts, word, k);
    }
    assert contents[..|entries|] == entries;
  }

  lemma RestartStored(entries: Bytes, restarts: seq<nat>, word: Bytes, k: nat)
    requires k < |restarts| && restarts[k] < TWO_32
    ensures RestartPoint(entries + FixedList(restarts) + word, |entries|, k) == restarts[k]
  {
    hide FixedList, DecodeFixed, RestartPoint;
    FixedListAt(restarts, k);
    RestartIn(entries, FixedList(restarts), word, k);
  }

  lemma RestartIn(entries: Bytes, list: Bytes, word: Bytes, k: nat)
    requires 4 * k + 4 <= |list|
    ensures RestartPoint(entries + list + word, |entries|, k) == DecodeFixed(list[4 * k..4 * k + 4])
  {
    hide DecodeFixed;
    InMiddle(entries, list, word, 4 * k, 4 * k + 4);
  }

  lemma OffsetIsLength(pairs: seq<Pair>, shareds: seq<nat>)
    requires IsShared(pairs, shareds)
    ensures Offset(pairs, shareds, |pairs|) == |Joined(Pieces(pairs, shareds))|
  {
    JoinedLength(Pieces(pairs, shareds));
  }

  lemma HasRestart(pairs: seq<Pair>, shareds: seq<nat>, starts: seq<nat>)
    requires AreRestarts(pairs, shareds, starts)
    ensures starts != [] && IsShared(pairs, shareds)
  {
  }

  lemma OffsetFits(pairs: seq<Pair>, shareds: seq<nat>, starts: seq<nat>, k: nat)
    requires AreRestarts(pairs, shareds, starts) && k < |starts|
    ensures IsShared(pairs, shareds) && starts[k] <= |pairs| && Offset(pairs, shareds, starts[k]) <= Offset(pairs, shareds, |pairs|)
  {
    hide IsShared, Pieces, Start;
    StartMonotone(Pieces(pairs, shareds), starts[k], |pairs|);
  }

  lemma InMiddle(a: Bytes, b: Bytes, c: Bytes, i: nat, j: nat)
    requires i <= j <= |b|
    ensures (a + b + c)[|a| + i..|a| + j] == b[i..j]
  {
    assert forall k :: 0 <= k < j - i ==> (a + b + c)[|a| + i..|a| + j][k] == b[i + k] == b[i..j][k];
  }
}
