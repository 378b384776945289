// Looking up a key in a table: the index, the filter, one data block
// (leveldb/table/table.cc, leveldb/table/format.cc). Blocks are stored uncompressed.
module Tables {
  import opened Powers
  import opened Blocks
  import opened Codings
  import opened Comparators
  import opened Filters
  import opened Wrappers
  import opened InternalKeys
  import Logs

  // ----- Handles -----

  datatype Handle = Handle(offset: nat, size: nat)

  function EncodeHandle(h: Handle): Bytes {
    EncodeVarint(h.offset) + EncodeVarint(h.size)
  }

  // BlockHandle::DecodeFrom; what follows the handle is left alone.
  function DecodeHandle(s: Bytes): Option<Handle> {
    match GetVarint64(s)
    case None => None
    case Some(offset) =>
      match GetVarint64(offset.rest)
      case None => None
      case Some(size) => Some(Handle(offset.value, size.value))
  }

  lemma HandleRoundTrip(h: Handle, rest: Bytes)
    requires h.offset < TWO_64 && h.size < TWO_64
    ensures DecodeHandle(EncodeHandle(h) + rest) == Some(h)
  {
    hide EncodeVarint, GetVarint64;
    assert EncodeHandle(h) + rest == EncodeVarint(h.offset) + (EncodeVarint(h.size) + rest);
    Varint64RoundTrip(h.offset, EncodeVarint(h.size) + rest);
    Varint64RoundTrip(h.size, rest);
  }

  // ----- Stored blocks -----

  const BLOCK_TRAILER_SIZE := 5
  const NO_COMPRESSION: Byte := 0

  // A block's contents, its type and the masked checksum of both.
  function StoredForm(crc: Bytes -> Word, contents: Bytes): Bytes {
    contents + ([NO_COMPRESSION] + EncodeFixed(Logs.Mask(crc(contents + [NO_COMPRESSION])), 4))
  }

  // ReadBlock; None is corruption. With checksums verified, contents are handed out
  // exactly if they are stored with their checksum.
  method ReadBlock(crc: Bytes -> Word, file: Bytes, handle: Handle, verifyChecksums: bool) returns (r: Option<Bytes>)
    ensures forall contents :: IsStored(crc, file, handle, contents) ==> r == Some(contents)
    ensures verifyChecksums && r.Some? ==> IsStored(crc, file, handle, r.value)
    ensures !verifyChecksums && handle.offset + handle.size + BLOCK_TRAILER_SIZE <= |file| ==>
      r == if file[handle.offset + handle.size] == NO_COMPRESSION then Some(file[handle.offset..handle.offset + handle.size]) else None
    ensures handle.offset + handle.size + BLOCK_TRAILER_SIZE > |file| ==> r == None
  {
    var n := handle.size;
    if handle.offset + n + BLOCK_TRAILER_SIZE > |file| {
      return None;
    }
    var data := file[handle.offset..handle.offset + n + BLOCK_TRAILER_SIZE];
    forall contents | IsStored(crc, file, handle, contents)
      ensures data[..n] == contents && data[n] == NO_COMPRESSION
      ensures Logs.Unmask(DecodeFixed(data[n + 1..])) == crc(data[..n + 1])
    {
      StoredParts(crc, contents);
    }
    if verifyChecksums && Logs.Unmask(DecodeFixed(data[n + 1..])) != crc(data[..n + 1]) {
      return None;
    }
    if data[n] != NO_COMPRESSION {
      return None;
    }
    if verifyChecksums {
      PartsStored(crc, data, n);
    }
    PrefixOfSlice(file, handle.offset, n, BLOCK_TRAILER_SIZE);
    return Some(data[..n]);
  }

  ghost predicate IsStored(crc: Bytes -> Word, file: Bytes, handle: Handle, contents: Bytes) {
    && handle.size == |contents| && handle.offset + |contents| + BLOCK_TRAILER_SIZE <= |file|
    && file[handle.offset..handle.offset + |contents| + BLOCK_TRAILER_SIZE] == StoredForm(crc, contents)
  }

  lemma StoredParts(crc: Bytes -> Word, contents: Bytes)
    ensures var s := StoredForm(crc, contents);
      |s| == |contents| + BLOCK_TRAILER_SIZE && s[..|contents|] == contents && s[|contents|] == NO_COMPRESSION &&
      s[..|contents| + 1] == contents + [NO_COMPRESSION] &&
      Logs.Unmask(DecodeFixed(s[|contents| + 1..])) == crc(contents + [NO_COMPRESSION])
  {
    hide EncodeFixed, DecodeFixed, Logs.Mask, Logs.Unmask;
    var c := crc(contents + [NO_COMPRESSION]);
    var s := StoredForm(crc, contents);
    FixedWidths();
    FixedRoundTrip(Logs.Mask(c), 4);
    Logs.UnmaskMask(c);
    assert s[|contents| + 1..] == EncodeFixed(Logs.Mask(c), 4);
  }

  lemma PrefixOfSlice(file: Bytes, p: nat, n: nat, more: nat)
    requires p + n + more <= |file|
    ensures file[p..p + n + more][..n] == file[p..p + n]
  {
  }

  // What has the checksum of its parts has the stored form.
  lemma PartsStored(crc: Bytes -> Word, data: Bytes, n: nat)
    requires |data| == n + BLOCK_TRAILER_SIZE && data[n] == NO_COMPRESSION
    requires Logs.Unmask(DecodeFixed(data[n + 1..])) == crc(data[..n + 1])
    ensures data == StoredForm(crc, data[..n])
  {
    hide EncodeFixed, DecodeFixed, Logs.Mask, Logs.Unmask;
    var word := data[n + 1..];
    FixedWidths();
    FixedRoundTripBack(word);
    Logs.MaskUnmask(DecodeFixed(word));
    assert data[..n + 1] == data[..n] + [NO_COMPRESSION];
    assert data == data[..n] + ([NO_COMPRESSION] + word);
  }

  // ----- Lookups in one block -----

  ghost predicate IsBlockOf(contents: Bytes, pairs: seq<Pair>) {
    var o := OpenBlock(contents);
    o.Opened? && exists shareds, starts :: IsBlock(contents, o.restarts, o.numRestarts, pairs, shareds, starts)
  }

  // The first pair at or after a key.
  function FirstAtOrAfter(pairs: seq<Pair>, key: Bytes): Option<Pair> {
    var p := FirstNotBelow(InternalLess, pairs, key, 0);
    if p < |pairs| then Some(pairs[p]) else None
  }

  // A block iterator is opened and sent to a key.
  method SeekInBlock(contents: Bytes, key: Bytes, ghost pairs: seq<Pair>) returns (r: Option<Pair>)
    ensures IsBlockOf(contents, pairs) && KeysAscend(InternalLess, pairs) ==> r == FirstAtOrAfter(pairs, key)
  {
    var o := OpenBlock(contents);
    if !o.Opened? {
      return None;
    }
    ghost var shareds: seq<nat>, starts: seq<nat> := [], [];
    ghost var known := IsBlockOf(contents, pairs);
    if known {
      shareds, starts :| IsBlock(contents, o.restarts, o.numRestarts, pairs, shareds, starts);
    }
    var it := new BlockIter(InternalLess, contents, o.restarts, o.numRestarts, pairs, shareds, starts);
    it.Seek(key);
    InternalIsOrder();
    if known && KeysAscend(InternalLess, pairs) {
      it.Shows(FirstNotBelow(InternalLess, pairs, key, 0));
    }
    if it.Valid() {
      return Some(Pair(it.key, it.Value()));
    }
    return None;
  }

  lemma InternalIsOrder()
    ensures IsOrder(InternalLess)
  {
    forall a, b, c | InternalLess(a, b) && InternalLess(b, c) ensures InternalLess(a, c) {
      InternalTransitive(a, b, c);
    }
  }

  // ----- The table -----

  datatype DataBlock = DataBlock(handle: Handle, contents: Bytes, pairs: seq<Pair>)

  function FirstKey(block: DataBlock): Bytes
    requires block.pairs != []
  {
    block.pairs[0].key
  }

  function LastKey(block: DataBlock): Bytes
    requires block.pairs != []
  {
    block.pairs[|block.pairs| - 1].key
  }

  ghost predicate IsDataBlock(crc: Bytes -> Word, file: Bytes, block: DataBlock) {
    && block.pairs != [] && block.handle.offset < TWO_64 && block.handle.size < TWO_64
    && IsStored(crc, file, block.handle, block.contents) && IsBlockOf(block.contents, block.pairs)
    && KeysAscend(InternalLess, block.pairs) && HaveTrailers(block.pairs)
  }

  ghost predicate HaveTrailers(pairs: seq<Pair>) {
    forall i :: 0 <= i < |pairs| ==> |pairs[i].key| >= 8
  }

  // Separator b stands between blocks b and b + 1, the last one behind the last block.
  ghost predicate SeparatorAt(blocks: seq<DataBlock>, seps: seq<Bytes>, b: nat)
    requires b < |blocks| && b < |seps|
  {
    blocks[b].pairs != [] && |seps[b]| >= 8 &&
    if b + 1 < |blocks| then
      blocks[b + 1].pairs != [] && IsSeparator(LastKey(blocks[b]), seps[b], FirstKey(blocks[b + 1])) &&
      InternalLess(LastKey(blocks[b]), FirstKey(blocks[b + 1]))
    else seps[b] == LastKey(blocks[b]) || BytewiseLess(UserPart(LastKey(blocks[b])), UserPart(seps[b]))
  }

  ghost predicate AreSeparators(blocks: seq<DataBlock>, seps: seq<Bytes>) {
    |seps| == |blocks| && forall b :: 0 <= b < |blocks| ==> SeparatorAt(blocks, seps, b)
  }

  function IndexPairs(blocks: seq<DataBlock>, seps: seq<Bytes>): (r: seq<Pair>)
    requires |seps| <= |blocks|
    ensures |r| == |seps|
  {
    seq(|seps|, b requires 0 <= b < |seps| => Pair(seps[b], EncodeHandle(blocks[b].handle)))
  }

  function AllPairs(blocks: seq<DataBlock>): seq<Pair> {
    if blocks == [] then [] else AllPairs(blocks[..|blocks| - 1]) + blocks[|blocks| - 1].pairs
  }

  // The filter has every key of the block under the block's offset.
  ghost predicate FilterCovers(policy: Policy, filter: Bytes, block: DataBlock) {
    forall i :: 0 <= i < |block.pairs| ==> BlockMayMatch(policy, filter, block.handle.offset, block.pairs[i].key)
  }

  ghost predicate IsTable(crc: Bytes -> Word, file: Bytes, index: Bytes, filter: Option<FilterBlockReader>,
                          blocks: seq<DataBlock>, seps: seq<Bytes>) {
    && (forall b :: 0 <= b < |blocks| ==> IsDataBlock(crc, file, blocks[b]))
    && AreSeparators(blocks, seps) && IsBlockOf(index, IndexPairs(blocks, seps))
    && (filter.Some? ==>
          filter.value.layout == LayoutOf(filter.value.contents) && filter.value.policy.part == UserPart &&
          forall b :: 0 <= b < |blocks| ==> FilterCovers(filter.value.policy, filter.value.contents, blocks[b]))
  }

  // ----- Order -----

  ghost predicate InOrder(blocks: seq<DataBlock>, seps: seq<Bytes>) {
    && AreSeparators(blocks, seps)
    && forall b :: 0 <= b < |blocks| ==> IsRun(blocks[b].pairs)
  }

  ghost predicate IsRun(pairs: seq<Pair>) {
    pairs != [] && KeysAscend(InternalLess, pairs) && HaveTrailers(pairs)
  }

  ghost predicate AtMost(a: Bytes, b: Bytes) {
    a == b || InternalLess(a, b)
  }

  lemma WithinRun(pairs: seq<Pair>, i: nat)
    requires IsRun(pairs) && i < |pairs|
    ensures AtMost(pairs[0].key, pairs[i].key) && AtMost(pairs[i].key, pairs[|pairs| - 1].key)
  {
    hide InternalLess;
  }

  lemma Between(a: Bytes, b: Bytes, c: Bytes)
    requires AtMost(a, b) && InternalLess(b, c)
    ensures InternalLess(a, c)
  {
    if a != b {
      InternalTransitive(a, b, c);
    }
  }

  // Every key of a block is at most its separator.
  lemma BelowSeparator(blocks: seq<DataBlock>, seps: seq<Bytes>, b: nat, i: nat)
    requires InOrder(blocks, seps) && b < |blocks| && i < |blocks[b].pairs|
    ensures AtMost(blocks[b].pairs[i].key, seps[b])
    ensures AtMost(LastKey(blocks[b]), seps[b]) && AtMost(FirstKey(blocks[b]), seps[b])
  {
    hide InternalLess;
    assert SeparatorAt(blocks, seps, b) && IsRun(blocks[b].pairs);
    LastBelowSeparator(blocks, seps, b);
    WithinRun(blocks[b].pairs, i);
    WithinRun(blocks[b].pairs, 0);
    if seps[b] != LastKey(blocks[b]) {
      Between(blocks[b].pairs[i].key, LastKey(blocks[b]), seps[b]);
      Between(FirstKey(blocks[b]), LastKey(blocks[b]), seps[b]);
    }
  }

  lemma LastBelowSeparator(blocks: seq<DataBlock>, seps: seq<Bytes>, b: nat)
    requires b < |blocks| && b < |seps| && SeparatorAt(blocks, seps, b)
    ensures AtMost(LastKey(blocks[b]), seps[b])
    ensures b + 1 < |blocks| ==> InternalLess(seps[b], FirstKey(blocks[b + 1]))
  {
    if b + 1 < |blocks| {
      SeparatorIsBetween(LastKey(blocks[b]), seps[b], FirstKey(blocks[b + 1]));
    }
  }

  // A separator is before every later block, so before the later separators.
  lemma {:induction false} SeparatorBefore(blocks: seq<DataBlock>, seps: seq<Bytes>, a: nat, b: nat)
    requires InOrder(blocks, seps) && a < b < |blocks|
    ensures blocks[b].pairs != [] && InternalLess(seps[a], FirstKey(blocks[b])) && InternalLess(seps[a], seps[b])
    decreases b
  {
    hide InternalLess;
    assert SeparatorAt(blocks, seps, a) && SeparatorAt(blocks, seps, b - 1) && IsRun(blocks[b].pairs);
    LastBelowSeparator(blocks, seps, b - 1);
    if a < b - 1 {
      SeparatorBefore(blocks, seps, a, b - 1);
      InternalTransitive(seps[a], seps[b - 1], FirstKey(blocks[b]));
    }
    BelowSeparator(blocks, seps, b, 0);
    if FirstKey(blocks[b]) != seps[b] {
      InternalTransitive(seps[a], FirstKey(blocks[b]), seps[b]);
    }
  }

  lemma TableInOrder(crc: Bytes -> Word, file: Bytes, blocks: seq<DataBlock>, seps: seq<Bytes>)
    requires forall b :: 0 <= b < |blocks| ==> IsDataBlock(crc, file, blocks[b])
    requires AreSeparators(blocks, seps)
    ensures InOrder(blocks, seps) && KeysAscend(InternalLess, IndexPairs(blocks, seps))
  {
    hide IsStored, IsBlockOf, InternalLess, SeparatorAt, HaveTrailers;
    assert InOrder(blocks, seps);
    forall a, b | 0 <= a < b < |seps| ensures InternalLess(seps[a], seps[b]) {
      SeparatorBefore(blocks, seps, a, b);
    }
  }

  // ----- The first pair of several runs -----

  lemma {:induction false} AllPairsSplit(blocks: seq<DataBlock>, n: nat)
    requires n <= |blocks|
    ensures AllPairs(blocks) == AllPairs(blocks[..n]) + AllPairs(blocks[n..])
  {
    if n == |blocks| {
      assert blocks[..n] == blocks;
    } else {
      var m := |blocks| - 1;
      AllPairsSplit(blocks[..m], n);
      assert blocks[..m][..n] == blocks[..n] && blocks[..m][n..] == blocks[n..][..m - n];
    }
  }

  lemma {:induction false} AllPairsMember(blocks: seq<DataBlock>, i: nat) returns (b: nat, j: nat)
    requires i < |AllPairs(blocks)|
    ensures b < |blocks| && j < |blocks[b].pairs| && AllPairs(blocks)[i] == blocks[b].pairs[j]
  {
    var m := |blocks| - 1;
    if i < |AllPairs(blocks[..m])| {
      b, j := AllPairsMember(blocks[..m], i);
    } else {
      b, j := m, i - |AllPairs(blocks[..m])|;
    }
  }

  lemma {:induction false} FirstOfTwo(xs: seq<Pair>, ys: seq<Pair>, k: Bytes, i: nat)
    requires i <= |xs|
    ensures var p := FirstNotBelow(InternalLess, xs, k, i);
      FirstNotBelow(InternalLess, xs + ys, k, i) == if p < |xs| then p else |xs| + FirstNotBelow(InternalLess, ys, k, 0)
    decreases |xs| - i
  {
    hide InternalLess;
    if i == |xs| {
      FirstShifted(xs, ys, k, 0);
    } else if InternalLess(xs[i].key, k) {
      FirstOfTwo(xs, ys, k, i + 1);
    }
  }

  lemma {:induction false} FirstShifted(xs: seq<Pair>, ys: seq<Pair>, k: Bytes, i: nat)
    requires i <= |ys|
    ensures FirstNotBelow(InternalLess, xs + ys, k, |xs| + i) == |xs| + FirstNotBelow(InternalLess, ys, k, i)
    decreases |ys| - i
  {
    hide InternalLess;
    if i < |ys| && InternalLess(ys[i].key, k) {
      FirstShifted(xs, ys, k, i + 1);
    }
  }

  lemma FirstSplits(xs: seq<Pair>, ys: seq<Pair>, k: Bytes)
    ensures FirstAtOrAfter(xs + ys, k) == if FirstAtOrAfter(xs, k).Some? then FirstAtOrAfter(xs, k) else FirstAtOrAfter(ys, k)
  {
    hide InternalLess;
    FirstOfTwo(xs, ys, k, 0);
  }

  lemma NoneIfBelow(xs: seq<Pair>, k: Bytes)
    requires forall i :: 0 <= i < |xs| ==> InternalLess(xs[i].key, k)
    ensures FirstAtOrAfter(xs, k) == None
  {
    hide InternalLess;
  }

  // Blocks before the one the index picks hold only smaller keys.
  lemma FrontIsBelow(blocks: seq<DataBlock>, seps: seq<Bytes>, k: Bytes, b: nat)
    requires InOrder(blocks, seps) && b <= |blocks| && forall a :: 0 <= a < b ==> InternalLess(seps[a], k)
    ensures FirstAtOrAfter(AllPairs(blocks[..b]), k) == None
  {
    hide InternalLess, FirstAtOrAfter, SeparatorAt;
    var front := AllPairs(blocks[..b]);
    forall i | 0 <= i < |front| ensures InternalLess(front[i].key, k) {
      var a, j := AllPairsMember(blocks[..b], i);
      BelowSeparator(blocks, seps, a, j);
      Between(front[i].key, seps[a], k);
    }
    NoneIfBelow(front, k);
  }

  // The block the index picks decides, as far as the user key of k goes.
  lemma BlockDecides(blocks: seq<DataBlock>, seps: seq<Bytes>, k: Bytes, b: nat)
    requires InOrder(blocks, seps) && |k| >= 8 && b <= |blocks| == |seps|
    requires forall a :: 0 <= a < b ==> InternalLess(seps[a], k)
    requires b < |blocks| ==> !InternalLess(seps[b], k)
    ensures b == |blocks| ==> FirstAtOrAfter(AllPairs(blocks), k) == None
    ensures b < |blocks| ==>
      var d, all := FirstAtOrAfter(blocks[b].pairs, k), FirstAtOrAfter(AllPairs(blocks), k);
      if d.Some? then all == d else OfUser(all, UserPart(k)) == None
  {
    hide InternalLess, FirstAtOrAfter, InOrder, UserPart;
    FrontIsBelow(blocks, seps, k, b);
    AllPairsSplit(blocks, b);
    FirstSplits(AllPairs(blocks[..b]), AllPairs(blocks[b..]), k);
    if b == |blocks| {
      NoneIfBelow([], k);
    } else {
      var rest := blocks[b + 1..];
      AllPairsSplit(blocks[b..], 1);
      assert blocks[b..][1..] == rest && blocks[b..][..1] == [blocks[b]];
      assert AllPairs([blocks[b]]) == blocks[b].pairs;
      FirstSplits(blocks[b].pairs, AllPairs(rest), k);
      if FirstAtOrAfter(blocks[b].pairs, k).None? {
        HasPairs(blocks, seps, b);
        RestIsOfOthers(blocks, seps, k, b);
      }
    }
  }

  // A key behind the last of the block but not behind its separator is of a user key
  // that no later block begins with.
  lemma RestIsOfOthers(blocks: seq<DataBlock>, seps: seq<Bytes>, k: Bytes, b: nat)
    requires InOrder(blocks, seps) && |k| >= 8 && b < |blocks| == |seps| && !InternalLess(seps[b], k) && blocks[b].pairs != []
    requires FirstAtOrAfter(blocks[b].pairs, k) == None
    ensures OfUser(FirstAtOrAfter(AllPairs(blocks[b + 1..]), k), UserPart(k)) == None
  {
    hide InternalLess, UserPart, InOrder, FirstAtOrAfter;
    var rest := blocks[b + 1..];
    if rest == [] {
      assert AllPairs(rest) == [];
      NoneIfBelow([], k);
    } else {
      NextBlock(blocks, seps, b);
      NoneMeansBelow(blocks[b].pairs, k);
      NextIsOther(LastKey(blocks[b]), seps[b], FirstKey(blocks[b + 1]), k);
      AllPairsSplit(rest, 1);
      assert rest[..1] == [blocks[b + 1]];
      assert AllPairs([blocks[b + 1]]) == blocks[b + 1].pairs;
      FirstSplits(blocks[b + 1].pairs, AllPairs(rest[1..]), k);
      FirstIsFound(blocks[b + 1].pairs, k);
    }
  }

  lemma FirstIsFound(xs: seq<Pair>, k: Bytes)
    requires xs != [] && !InternalLess(xs[0].key, k)
    ensures FirstAtOrAfter(xs, k) == Some(xs[0])
  {
    hide InternalLess;
  }

  lemma HasPairs(blocks: seq<DataBlock>, seps: seq<Bytes>, b: nat)
    requires InOrder(blocks, seps) && b < |blocks|
    ensures blocks[b].pairs != []
  {
    hide KeysAscend, HaveTrailers;
    assert IsRun(blocks[b].pairs);
  }

  lemma NextBlock(blocks: seq<DataBlock>, seps: seq<Bytes>, b: nat)
    requires InOrder(blocks, seps) && b + 1 < |blocks|
    ensures |seps| == |blocks| && blocks[b].pairs != [] && blocks[b + 1].pairs != []
    ensures |LastKey(blocks[b])| >= 8 && |seps[b]| >= 8 && |FirstKey(blocks[b + 1])| >= 8
    ensures IsSeparator(LastKey(blocks[b]), seps[b], FirstKey(blocks[b + 1]))
    ensures InternalLess(LastKey(blocks[b]), FirstKey(blocks[b + 1]))
  {
    hide InternalLess, UserPart, IsSeparator, KeysAscend;
    assert SeparatorAt(blocks, seps, b) && IsRun(blocks[b].pairs) && IsRun(blocks[b + 1].pairs);
  }

  lemma NoneMeansBelow(xs: seq<Pair>, k: Bytes)
    requires xs != [] && FirstAtOrAfter(xs, k) == None
    ensures InternalLess(xs[|xs| - 1].key, k)
  {
    hide InternalLess;
  }

  lemma NextIsOther(last: Bytes, sep: Bytes, next: Bytes, k: Bytes)
    requires |last| >= 8 && |sep| >= 8 && |next| >= 8 && |k| >= 8
    requires IsSeparator(last, sep, next) && InternalLess(last, next) && InternalLess(last, k) && !InternalLess(sep, k)
    ensures !InternalLess(next, k) && UserPart(next) != UserPart(k)
  {
    InternalTotal(last, k);
    BytewiseTotal(UserPart(sep), UserPart(k));
    BytewiseTotal(UserPart(next), UserPart(k));
    if BytewiseLess(UserPart(k), UserPart(sep)) {
      BytewiseTransitive(UserPart(k), UserPart(sep), UserPart(next));
    }
  }

  // A filter that turns k away has seen no key of its user key.
  lemma TurnedAway(policy: Policy, filter: Bytes, block: DataBlock, k: Bytes)
    requires policy.part == UserPart && FilterCovers(policy, filter, block)
    requires !BlockMayMatch(policy, filter, block.handle.offset, k)
    ensures OfUser(FirstAtOrAfter(block.pairs, k), UserPart(k)) == None
  {
    hide InternalLess, UserPart, LayoutOf, WordAt, MayMatch;
    var d := FirstAtOrAfter(block.pairs, k);
    if d.Some? && UserPart(d.value.key) == UserPart(k) {
      SameUserSameMatch(policy, filter, block.handle.offset, d.value.key, k);
    }
  }

  lemma SameUserSameMatch(policy: Policy, filter: Bytes, offset: nat, a: Bytes, b: Bytes)
    requires policy.part(a) == policy.part(b)
    ensures BlockMayMatch(policy, filter, offset, a) == BlockMayMatch(policy, filter, offset, b)
  {
    hide LayoutOf, WordAt, MayMatch;
  }

  // What a lookup of the user key of k may use.
  function OfUser(o: Option<Pair>, user: Bytes): Option<Pair> {
    if o.Some? && UserPart(o.value.key) == user then o else None
  }

  class Table {
    const crc: Bytes -> Word
    const file: Bytes
    const indexBlock: Bytes
    const filter: Option<FilterBlockReader>

    constructor (crc: Bytes -> Word, file: Bytes, indexBlock: Bytes, filter: Option<FilterBlockReader>)
      ensures this.crc == crc && this.file == file && this.indexBlock == indexBlock && this.filter == filter
    {
      this.crc, this.file, this.indexBlock, this.filter := crc, file, indexBlock, filter;
    }

    // InternalGet: what the callback is given, if it is called.
    method InternalGet(k: Bytes, verifyChecksums: bool, ghost blocks: seq<DataBlock>, ghost seps: seq<Bytes>)
      returns (delivered: Option<Pair>)
      requires |k| >= 8 && (filter.Some? ==> filter.value.layout == LayoutOf(filter.value.contents))
      ensures IsTable(crc, file, indexBlock, filter, blocks, seps) ==>
                && OfUser(delivered, UserPart(k)) == OfUser(FirstAtOrAfter(AllPairs(blocks), k), UserPart(k))
                && (delivered.Some? ==> delivered == FirstAtOrAfter(AllPairs(blocks), k))
    {
      hide IsBlockOf, FirstAtOrAfter, IsDataBlock, SeparatorAt, FilterCovers, KeysAscend, BlockMayMatch, InternalLess, IndexPairs;
      ghost var known := IsTable(crc, file, indexBlock, filter, blocks, seps);
      ghost var index := if known then IndexPairs(blocks, seps) else [];
      if known {
        TableInOrder(crc, file, blocks, seps);
        IndexPicks(blocks, seps, k);
      }
      delivered := None;
      var entry := SeekInBlock(indexBlock, k, index);
      if entry.Some? {
        var handle := DecodeHandle(entry.value.value);
        ghost var b := FirstNotBelow(InternalLess, index, k, 0);
        if known {
          PickedIsStored(crc, file, blocks, b);
          if filter.Some? && !BlockMayMatch(filter.value.policy, filter.value.contents, blocks[b].handle.offset, k) {
            TurnedAway(filter.value.policy, filter.value.contents, blocks[b], k);
          }
        }
        var may := true;
        if filter.Some? && handle.Some? {
          may := filter.value.KeyMayMatch(handle.value.offset, k);
        }
        if may && handle.Some? {
          var contents := ReadBlock(crc, file, handle.value, verifyChecksums);
          if contents.Some? {
            delivered := SeekInBlock(contents.value, k, if known then blocks[b].pairs else []);
          }
        }
      }
    }
  }

  // The entry the index seek finds is that of the block that decides.
  lemma IndexPicks(blocks: seq<DataBlock>, seps: seq<Bytes>, k: Bytes)
    requires InOrder(blocks, seps) && |k| >= 8
    ensures var index := IndexPairs(blocks, seps);
      var b := FirstNotBelow(InternalLess, index, k, 0);
      if b == |blocks| then FirstAtOrAfter(index, k) == None == FirstAtOrAfter(AllPairs(blocks), k)
      else
        b < |blocks| && FirstAtOrAfter(index, k) == Some(Pair(seps[b], EncodeHandle(blocks[b].handle))) &&
        var d, all := FirstAtOrAfter(blocks[b].pairs, k), FirstAtOrAfter(AllPairs(blocks), k);
        if d.Some? then all == d else OfUser(all, UserPart(k)) == None
  {
    hide InternalLess, IsRun, UserPart, SeparatorAt;
    var index := IndexPairs(blocks, seps);
    var b := FirstNotBelow(InternalLess, index, k, 0);
    assert forall a :: 0 <= a < |seps| ==> index[a].key == seps[a];
    BlockDecides(blocks, seps, k, b);
  }

  lemma PickedIsStored(crc: Bytes -> Word, file: Bytes, blocks: seq<DataBlock>, b: nat)
    requires b < |blocks| && IsDataBlock(crc, file, blocks[b])
    ensures DecodeHandle(EncodeHandle(blocks[b].handle)) == Some(blocks[b].handle)
    ensures IsStored(crc, file, blocks[b].handle, blocks[b].contents)
    ensures IsBlockOf(blocks[b].contents, blocks[b].pairs) && KeysAscend(InternalLess, blocks[b].pairs)
  {
    hide IsStored, IsBlockOf, KeysAscend;
    HandleRoundTrip(blocks[b].handle, []);
    assert EncodeHandle(blocks[b].handle) + [] == EncodeHandle(blocks[b].handle);
  }

  // ----- What a lookup key asks for -----

  function SequenceOf(key: Bytes): nat {
    Trailer(key) / 256
  }

  // Of the user key, written at or before s.
  predicate Matches(p: Pair, user: Bytes, s: nat) {
    UserPart(p.key) == user && SequenceOf(p.key) <= s
  }

  // The first pair at or after (user, s), if it is of that user key, is the newest pair
  // of the user key written at or before s; else there is none.
  lemma LookupIsNewest(pairs: seq<Pair>, user: Bytes, s: nat)
    requires KeysAscend(InternalLess, pairs) && HaveTrailers(pairs) && s <= MAX_SEQUENCE
    requires KnownTypes(pairs)
    ensures IsNewestOf(pairs, user, s, OfUser(FirstAtOrAfter(pairs, InternalKey(user, s, VALUE_TYPE_FOR_SEEK)), user))
  {
    var k := InternalKey(user, s, VALUE_TYPE_FOR_SEEK);
    InternalKeyParts(user, s, VALUE_TYPE_FOR_SEEK);
    var at := FirstNotBelow(InternalLess, pairs, k, 0);
    hide InternalKey, FirstNotBelow, UserPart, Trailer, BytewiseLess;
    forall i | 0 <= i < |pairs| && Matches(pairs[i], user, s)
      ensures at <= i && UserPart(pairs[at].key) == user && SequenceOf(pairs[i].key) <= SequenceOf(pairs[at].key)
    {
      MatchIsNotBelow(pairs[i], user, s, k);
      SameUserAt(pairs, at, i, k);
    }
    if at < |pairs| && UserPart(pairs[at].key) == user {
      NotBelowMatches(pairs[at], user, s, k);
    }
  }

  lemma MatchIsNotBelow(p: Pair, user: Bytes, s: nat, k: Bytes)
    requires Matches(p, user, s) && UserPart(k) == user && Trailer(k) == s * 256 + VALUE_TYPE_FOR_SEEK
    requires Trailer(p.key) % 256 <= VALUE_TYPE_FOR_SEEK
    ensures !InternalLess(p.key, k)
  {
    hide UserPart, Trailer, BytewiseLess;
    BytewiseTotal(user, user);
  }

  lemma NotBelowMatches(p: Pair, user: Bytes, s: nat, k: Bytes)
    requires UserPart(p.key) == user == UserPart(k) && Trailer(k) == s * 256 + VALUE_TYPE_FOR_SEEK && !InternalLess(p.key, k)
    ensures Matches(p, user, s)
  {
    hide UserPart, Trailer, BytewiseLess;
  }

  // Between k and a pair of its user key are only pairs of that user key, newer ones first.
  lemma SameUserAt(pairs: seq<Pair>, at: nat, i: nat, k: Bytes)
    requires KeysAscend(InternalLess, pairs) && at <= i < |pairs|
    requires !InternalLess(pairs[at].key, k) && UserPart(pairs[i].key) == UserPart(k)
    ensures UserPart(pairs[at].key) == UserPart(k) && Trailer(pairs[i].key) <= Trailer(pairs[at].key)
  {
    hide UserPart, Trailer, BytewiseLess;
    BytewiseTotal(UserPart(pairs[at].key), UserPart(k));
    if at < i {
      assert InternalLess(pairs[at].key, pairs[i].key);
    }
  }

  // ----- Lookups by user key and sequence number -----

  // The pairs of the blocks one after the other are one run.
  lemma {:induction false} BlocksAscend(blocks: seq<DataBlock>, seps: seq<Bytes>, n: nat)
    requires InOrder(blocks, seps) && n <= |blocks|
    ensures KeysAscend(InternalLess, AllPairs(blocks[..n])) && HaveTrailers(AllPairs(blocks[..n]))
  {
    if n > 0 {
      hide InternalLess, SeparatorAt;
      BlocksAscend(blocks, seps, n - 1);
      var front, last := AllPairs(blocks[..n - 1]), blocks[n - 1].pairs;
      assert blocks[..n][..n - 1] == blocks[..n - 1];
      assert IsRun(last);
      forall i, j | 0 <= i < |front| && 0 <= j < |last| ensures InternalLess(front[i].key, last[j].key) {
        var a, k := AllPairsMember(blocks[..n - 1], i);
        FrontPairBelow(blocks, seps, a, k, n - 1, j);
      }
      RunsJoin(front, last);
    }
  }

  lemma FrontPairBelow(blocks: seq<DataBlock>, seps: seq<Bytes>, a: nat, i: nat, b: nat, j: nat)
    requires InOrder(blocks, seps) && a < b < |blocks| && i < |blocks[a].pairs| && j < |blocks[b].pairs|
    ensures InternalLess(blocks[a].pairs[i].key, blocks[b].pairs[j].key)
  {
    hide InternalLess, SeparatorAt;
    BelowSeparator(blocks, seps, a, i);
    SeparatorBefore(blocks, seps, a, b);
    Between(blocks[a].pairs[i].key, seps[a], FirstKey(blocks[b]));
    WithinRun(blocks[b].pairs, j);
    if j > 0 {
      InternalTransitive(blocks[a].pairs[i].key, FirstKey(blocks[b]), blocks[b].pairs[j].key);
    }
  }

  lemma RunsJoin(xs: seq<Pair>, ys: seq<Pair>)
    requires KeysAscend(InternalLess, xs) && KeysAscend(InternalLess, ys) && HaveTrailers(xs) && HaveTrailers(ys)
    requires forall i, j :: 0 <= i < |xs| && 0 <= j < |ys| ==> InternalLess(xs[i].key, ys[j].key)
    ensures KeysAscend(InternalLess, xs + ys) && HaveTrailers(xs + ys)
  {
    hide InternalLess;
  }

  // The value types on disk: deletions and values.
  ghost predicate KnownTypes(pairs: seq<Pair>) {
    forall i :: 0 <= i < |pairs| ==> Trailer(pairs[i].key) % 256 <= VALUE_TYPE_FOR_SEEK
  }

  // r is the newest pair of the user key written at or before s, None if there is none.
  ghost predicate IsNewestOf(pairs: seq<Pair>, user: Bytes, s: nat, r: Option<Pair>) {
    && (r.Some? ==> r.value in pairs && Matches(r.value, user, s) &&
                    forall p :: p in pairs && Matches(p, user, s) ==> SequenceOf(p.key) <= SequenceOf(r.value.key))
    && (r.None? ==> forall p :: p in pairs ==> !Matches(p, user, s))
  }

  // The lookup of a user key at a sequence number: the key LookupKey builds goes to
  // InternalGet, and the saver keeps what is of the user key.
  method Get(table: Table, user: Bytes, s: nat, verifyChecksums: bool, ghost blocks: seq<DataBlock>, ghost seps: seq<Bytes>)
    returns (r: Option<Pair>)
    requires s <= MAX_SEQUENCE && (table.filter.Some? ==> table.filter.value.layout == LayoutOf(table.filter.value.contents))
    ensures IsTable(table.crc, table.file, table.indexBlock, table.filter, blocks, seps) && KnownTypes(AllPairs(blocks)) ==>
              IsNewestOf(AllPairs(blocks), user, s, r)
  {
    InternalKeyParts(user, s, VALUE_TYPE_FOR_SEEK);
    hide UserPart, InternalKey, Trailer, InternalLess, IsBlockOf, IsDataBlock, SeparatorAt, FilterCovers, FirstAtOrAfter, Matches, LayoutOf;
    var k := InternalKey(user, s, VALUE_TYPE_FOR_SEEK);
    var delivered := table.InternalGet(k, verifyChecksums, blocks, seps);
    r := OfUser(delivered, user);
    if IsTable(table.crc, table.file, table.indexBlock, table.filter, blocks, seps) && KnownTypes(AllPairs(blocks)) {
      TableInOrder(table.crc, table.file, blocks, seps);
      BlocksAscend(blocks, seps, |blocks|);
      assert blocks[..|blocks|] == blocks;
      LookupIsNewest(AllPairs(blocks), user, s);
    }
  }
}
