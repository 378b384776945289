// The Bloom filter (leveldb/util/bloom.cc) and the filter block, one filter for every
// 2 KB of file (leveldb/table/filter_block.cc). The hash function is a parameter.
module Filters {
  import opened Powers
  import Blocks
  import opened Codings

  // ----- Bits of a byte -----

  predicate HasBit(b: nat, i: nat) {
    if i == 0 then b % 2 == 1 else HasBit(b / 2, i - 1)
  }

  // b | (1 << i).
  function WithBit(b: nat, i: nat): nat {
    if i == 0 then b / 2 * 2 + 1 else b % 2 + 2 * WithBit(b / 2, i - 1)
  }

  lemma {:induction false} WithBitFits(b: nat, i: nat, n: nat)
    requires i < n && b < Pow(2, n)
    ensures WithBit(b, i) < Pow(2, n)
  {
    if i > 0 {
      WithBitFits(b / 2, i - 1, n - 1);
    }
  }

  lemma {:induction false} WithBitBits(b: nat, i: nat, j: nat)
    ensures HasBit(WithBit(b, i), j) <==> i == j || HasBit(b, j)
  {
    if i > 0 && j > 0 {
      WithBitBits(b / 2, i - 1, j - 1);
    }
  }

  function Marked(b: Byte, i: nat): (r: Byte)
    requires i < 8
  {
    assert Pow(2, 8) == 256 by { assert Pow(2, 4) == 16; }
    WithBitFits(b, i, 8);
    WithBit(b, i)
  }

  // ----- The Bloom filter -----

  const MAX_PROBES := 30

  // The rotation that steps a hash value: (h >> 17) | (h << 15).
  function Delta(h: Word): Word {
    h / 0x2_0000 + h % 0x2_0000 * 0x8000
  }

  function Step(h: Word, delta: Word): Word {
    (h + delta) % 0x1_0000_0000
  }

  // The h of probe j.
  function Probe(h: Word, delta: Word, j: nat): Word {
    if j == 0 then h else Step(Probe(h, delta, j - 1), delta)
  }

  // Bit p of an array of bytes.
  predicate BitSet(bits: Bytes, p: nat)
    requires p < 8 * |bits|
  {
    HasBit(bits[p / 8], p % 8)
  }

  // Every probed bit of the hash is set.
  ghost predicate Probed(bits: Bytes, h: Word, k: nat)
    requires bits != []
  {
    forall j :: 0 <= j < k ==> BitSet(bits, Position(h, j, 8 * |bits|))
  }

  // The bit probe j falls on.
  function Position(h: Word, j: nat, bits: nat): (p: nat)
    requires bits > 0
    ensures p < bits
  {
    Probe(h, Delta(h), j) % bits
  }

  ghost predicate IsProbe(p: nat, bits: nat, h: Word, k: nat)
    requires bits > 0
  {
    exists j :: 0 <= j < k && p == Position(h, j, bits)
  }

  ghost predicate IsProbeOfAny(p: nat, bits: nat, hash: Bytes -> Word, keys: seq<Bytes>, k: nat)
    requires bits > 0
  {
    exists n :: 0 <= n < |keys| && IsProbe(p, bits, hash(keys[n]), k)
  }

  lemma SetOne(bits: Bytes, p: nat)
    requires p < 8 * |bits|
    ensures var r := bits[p / 8 := Marked(bits[p / 8], p % 8)];
      forall q :: 0 <= q < 8 * |bits| ==> (BitSet(r, q) <==> q == p || BitSet(bits, q))
  {
    hide HasBit, WithBit;
    forall q | 0 <= q < 8 * |bits| {
      WithBitBits(bits[p / 8], p % 8, q % 8);
    }
  }

  // The array's size, from the keys and the bits per key.
  function FilterBytes(keys: nat, bitsPerKey: nat): (n: nat)
    ensures n >= 8
  {
    var bits := keys * bitsPerKey;
    ((if bits < 64 then 64 else bits) + 7) / 8
  }

  // The bits set are exactly those probed for some key; the number of probes is last.
  ghost predicate IsBloom(filter: Bytes, hash: Bytes -> Word, keys: seq<Bytes>, bitsPerKey: nat, k: nat) {
    && |filter| == FilterBytes(|keys|, bitsPerKey) + 1 && filter[|filter| - 1] == k
    && var data := filter[..|filter| - 1];
       forall p :: 0 <= p < 8 * |data| ==> (BitSet(data, p) <==> IsProbeOfAny(p, 8 * |data|, hash, keys, k))
  }

  // BloomFilterPolicy::CreateFilter: what it appends. k is the number of probes.
  method CreateFilter(hash: Bytes -> Word, keys: seq<Bytes>, bitsPerKey: nat, k: nat) returns (filter: Bytes)
    requires 1 <= k <= MAX_PROBES
    ensures IsBloom(filter, hash, keys, bitsPerKey, k)
  {
    var bits := |keys| * bitsPerKey;
    if bits < 64 {
      bits := 64;
    }
    var bytes := (bits + 7) / 8;
    bits := bytes * 8;
    var data: Bytes := seq(bytes, _ => 0);
    forall p | 0 <= p < bits ensures !BitSet(data, p) {
      ZeroHasNoBit(p % 8);
    }
    var i := 0;
    hide BitSet, IsProbe;
    while i < |keys|
      invariant i <= |keys| && |data| == bytes
      invariant forall p :: 0 <= p < bits ==> (BitSet(data, p) <==> IsProbeOfAny(p, bits, hash, keys[..i], k))
    {
      data := SetProbes(data, hash(keys[i]), k);
      forall p | 0 <= p < bits
        ensures IsProbeOfAny(p, bits, hash, keys[..i + 1], k) <==>
                IsProbeOfAny(p, bits, hash, keys[..i], k) || IsProbe(p, bits, hash(keys[i]), k)
      {
        OneKeyMore(p, bits, hash, keys, i, k);
      }
      i := i + 1;
    }
    assert keys[..i] == keys;
    filter := data + [k];
    assert filter[..|filter| - 1] == data;
  }

  lemma {:induction false} ZeroHasNoBit(i: nat)
    ensures !HasBit(0, i)
  {
    if i > 0 {
      ZeroHasNoBit(i - 1);
    }
  }

  lemma OneKeyMore(p: nat, bits: nat, hash: Bytes -> Word, keys: seq<Bytes>, i: nat, k: nat)
    requires bits > 0 && i < |keys|
    ensures IsProbeOfAny(p, bits, hash, keys[..i + 1], k) <==>
            IsProbeOfAny(p, bits, hash, keys[..i], k) || IsProbe(p, bits, hash(keys[i]), k)
  {
    hide IsProbe;
    assert forall n :: 0 <= n < i ==> keys[..i + 1][n] == keys[..i][n];
    assert keys[..i + 1][i] == keys[i];
  }

  // One key's bits.
  method SetProbes(data: Bytes, hash: Word, k: nat) returns (r: Bytes)
    requires data != []
    ensures |r| == |data|
    ensures forall p :: 0 <= p < 8 * |data| ==> (BitSet(r, p) <==> BitSet(data, p) || IsProbe(p, 8 * |data|, hash, k))
  {
    hide BitSet, Position;
    r := data;
    var h, delta := hash, Delta(hash);
    var j := 0;
    while j < k
      invariant j <= k && |r| == |data| && h == Probe(hash, Delta(hash), j)
      invariant forall p :: 0 <= p < 8 * |data| ==> (BitSet(r, p) <==> BitSet(data, p) || IsProbe(p, 8 * |data|, hash, j))
    {
      var bitpos := h % (8 * |r|);
      PositionIs(hash, j, 8 * |r|);
      SetOne(r, bitpos);
      r := r[bitpos / 8 := Marked(r[bitpos / 8], bitpos % 8)];
      h := Step(h, delta);
      j := j + 1;
    }
  }

  lemma PositionIs(h: Word, j: nat, bits: nat)
    requires bits > 0
    ensures Position(h, j, bits) == Probe(h, Delta(h), j) % bits
  {
  }

  // Every bit probed for the key is also probed for some key put in.
  ghost predicate AllProbed(hash: Bytes -> Word, keys: seq<Bytes>, bitsPerKey: nat, k: nat, key: Bytes) {
    var bits := 8 * FilterBytes(|keys|, bitsPerKey);
    forall j :: 0 <= j < k ==> IsProbeOfAny(Position(hash(key), j, bits), bits, hash, keys, k)
  }

  // A key is answered with true exactly if all its probes are probes of keys put in.
  lemma MatchIsExact(filter: Bytes, hash: Bytes -> Word, keys: seq<Bytes>, bitsPerKey: nat, k: nat, key: Bytes)
    requires 1 <= k <= MAX_PROBES && IsBloom(filter, hash, keys, bitsPerKey, k)
    ensures MayMatch(hash(key), filter) <==> AllProbed(hash, keys, bitsPerKey, k, key)
  {
    hide BitSet, Position, IsProbeOfAny, FilterBytes;
    var data := filter[..|filter| - 1];
    forall j | 0 <= j < k
      ensures BitSet(data, Position(hash(key), j, 8 * |data|)) <==>
              IsProbeOfAny(Position(hash(key), j, 8 * |data|), 8 * |data|, hash, keys, k)
    {
    }
  }

  // So no key put in is missed.
  lemma NoFalseNegative(filter: Bytes, hash: Bytes -> Word, keys: seq<Bytes>, bitsPerKey: nat, k: nat, key: Bytes)
    requires key in keys && 1 <= k <= MAX_PROBES && IsBloom(filter, hash, keys, bitsPerKey, k)
    ensures MayMatch(hash(key), filter)
  {
    hide IsBloom, MayMatch, Position;
    MatchIsExact(filter, hash, keys, bitsPerKey, k, key);
    var n :| 0 <= n < |keys| && keys[n] == key;
    var bits := 8 * FilterBytes(|keys|, bitsPerKey);
    forall j | 0 <= j < k ensures IsProbeOfAny(Position(hash(key), j, bits), bits, hash, keys, k) {
      assert IsProbe(Position(hash(key), j, bits), bits, hash(keys[n]), k);
    }
  }

  // The probes of a hash lie at equal distances, in 32 bits.
  lemma {:induction false} ProbesAreSteps(h: Word, delta: Word, j: nat)
    ensures Probe(h, delta, j) == (h + j * delta) % TWO_32
  {
    if j > 0 {
      ProbesAreSteps(h, delta, j - 1);
      OneMore(j, delta);
      StepIsSum(h + (j - 1) * delta, delta);
    }
  }

  lemma OneMore(j: nat, delta: nat)
    requires j > 0
    ensures j * delta == (j - 1) * delta + delta
  {
  }

  lemma StepIsSum(n: nat, delta: nat)
    ensures (n % TWO_32 + delta) % TWO_32 == (n + delta) % TWO_32
  {
    var r := n % TWO_32 + delta;
    assert n + delta == n / TWO_32 * TWO_32 + r;
    assert n + delta == (n / TWO_32 + r / TWO_32) * TWO_32 + r % TWO_32;
  }

  // BloomFilterPolicy::KeyMayMatch.
  method BloomMayMatch(hash: Bytes -> Word, key: Bytes, filter: Bytes) returns (may: bool)
    ensures may <==> MayMatch(hash(key), filter)
  {
    hide MayMatch;
    MatchMeans(hash(key), filter);
    if |filter| < 2 {
      return false;
    }
    var bits := (|filter| - 1) * 8;
    var k := filter[|filter| - 1];
    if k > MAX_PROBES {
      return true;
    }
    ghost var data := filter[..|filter| - 1];
    hide HasBit, BitSet, Position, Delta, Step, Probe, Probed;
    var h, delta := hash(key), Delta(hash(key));
    var j := 0;
    FirstProbe(data, h);
    while j < k
      invariant j <= k && Probed(data, hash(key), j)
      invariant h == Probe(hash(key), Delta(hash(key)), j)
    {
      var bitpos := h % bits;
      PositionIs(hash(key), j, bits);
      SameBit(filter, bitpos);
      NextProbe(data, hash(key), j, k);
      if !HasBit(filter[bitpos / 8], bitpos % 8) {
        return false;
      }
      h := Step(h, delta);
      j := j + 1;
    }
    return true;
  }

  lemma MatchMeans(h: Word, filter: Bytes)
    ensures |filter| < 2 ==> !MayMatch(h, filter)
    ensures |filter| >= 2 ==>
      (MayMatch(h, filter) <==> filter[|filter| - 1] > MAX_PROBES || Probed(filter[..|filter| - 1], h, filter[|filter| - 1]))
  {
  }

  lemma FirstProbe(data: Bytes, h: Word)
    requires data != []
    ensures Probed(data, h, 0) && Probe(h, Delta(h), 0) == h
  {
  }

  lemma NextProbe(data: Bytes, h: Word, j: nat, k: nat)
    requires data != [] && Probed(data, h, j) && j < k
    ensures Step(Probe(h, Delta(h), j), Delta(h)) == Probe(h, Delta(h), j + 1)
    ensures BitSet(data, Position(h, j, 8 * |data|)) ==> Probed(data, h, j + 1)
    ensures !BitSet(data, Position(h, j, 8 * |data|)) ==> !Probed(data, h, k)
  {
    hide BitSet, Position, Delta, Step;
  }

  lemma SameBit(filter: Bytes, p: nat)
    requires filter != [] && p < 8 * (|filter| - 1)
    ensures BitSet(filter[..|filter| - 1], p) == HasBit(filter[p / 8], p % 8)
  {
  }

  ghost predicate MayMatch(h: Word, filter: Bytes) {
    |filter| >= 2 &&
    (filter[|filter| - 1] > MAX_PROBES || Probed(filter[..|filter| - 1], h, filter[|filter| - 1]))
  }

  // ----- The filter block -----

  const FILTER_BASE_LG := 11
  const FILTER_BASE := 2048

  // A filter policy: the part of a key that is hashed, its hash, the bits for a key and
  // the probes.
  datatype Policy = Policy(part: Bytes -> Bytes, hash: Bytes -> Word, bitsPerKey: nat, k: nat) {
    predicate Valid() {
      1 <= k <= MAX_PROBES
    }
  }

  function Parts(policy: Policy, keys: seq<Bytes>): (r: seq<Bytes>)
    ensures |r| == |keys|
  {
    seq(|keys|, i requires 0 <= i < |keys| => policy.part(keys[i]))
  }

  // Nothing for no keys.
  ghost predicate IsFilterOf(filter: Bytes, policy: Policy, keys: seq<Bytes>) {
    if keys == [] then filter == []
    else IsBloom(filter, policy.hash, Parts(policy, keys), policy.bitsPerKey, policy.k)
  }

  // Filter i of the offsets is that of group i.
  ghost predicate HasFilter(result: Bytes, offsets: seq<nat>, i: nat, policy: Policy, keys: seq<Bytes>)
    requires i < |offsets|
  {
    var limit := if i + 1 < |offsets| then offsets[i + 1] else |result|;
    offsets[i] <= limit <= |result| && IsFilterOf(result[offsets[i]..limit], policy, keys)
  }

  ghost predicate AreFilters(result: Bytes, offsets: seq<nat>, policy: Policy, groups: seq<seq<Bytes>>) {
    |groups| == |offsets| && forall i :: 0 <= i < |offsets| ==> HasFilter(result, offsets, i, policy, groups[i])
  }

  lemma FilterAdded(result: Bytes, offsets: seq<nat>, policy: Policy, groups: seq<seq<Bytes>>, filter: Bytes, keys: seq<Bytes>)
    requires AreFilters(result, offsets, policy, groups) && IsFilterOf(filter, policy, keys)
    ensures AreFilters(result + filter, offsets + [|result|], policy, groups + [keys])
  {
    hide IsFilterOf;
    var result', offsets', groups' := result + filter, offsets + [|result|], groups + [keys];
    assert result'[|result|..|result'|] == filter;
    forall i | 0 <= i < |offsets'| ensures HasFilter(result', offsets', i, policy, groups'[i]) {
      if i < |offsets| {
        assert HasFilter(result, offsets, i, policy, groups[i]) && groups'[i] == groups[i];
        var limit := if i + 1 < |offsets| then offsets[i + 1] else |result|;
        assert result'[offsets[i]..limit] == result[offsets[i]..limit];
      }
    }
  }

  class FilterBlockBuilder {
    const policy: Policy
    var filterOffsets: seq<nat>
    var result: Bytes
    var keys: seq<Bytes>
    ghost var groups: seq<seq<Bytes>>

    constructor (policy: Policy)
      requires policy.Valid()
      ensures this.policy == policy && Valid() && groups == [] && keys == []
    {
      this.policy := policy;
      filterOffsets, result, keys, groups := [], [], [], [];
    }

    ghost predicate Valid()
      reads this
    {
      policy.Valid() && AreFilters(result, filterOffsets, policy, groups)
    }

    // The keys whose filter is, or will be, filter i.
    ghost function KeysAt(i: nat): seq<Bytes>
      reads this
    {
      if i < |groups| then groups[i] else if i == |groups| then keys else []
    }

    // Closes filters until the next one to write is that of the block's offset.
    method StartBlock(blockOffset: nat)
      requires Valid() && blockOffset / FILTER_BASE >= |groups|
      modifies this
      ensures Valid() && |groups| == blockOffset / FILTER_BASE
      ensures forall i :: KeysAt(i) == old(KeysAt(i))
    {
      var filterIndex := blockOffset / FILTER_BASE;
      while filterIndex > |filterOffsets|
        invariant Valid() && |filterOffsets| == |groups| <= filterIndex
        invariant forall i :: KeysAt(i) == old(KeysAt(i))
      {
        GenerateFilter();
      }
    }

    method AddKey(key: Bytes)
      requires Valid()
      modifies `keys
      ensures Valid() && keys == old(keys) + [key]
    {
      keys := keys + [key];
    }

    method GenerateFilter()
      requires Valid()
      modifies this
      ensures Valid() && groups == old(groups) + [old(keys)] && keys == []
    {
      hide IsBloom, HasFilter;
      ghost var filter: Bytes := [];
      if |keys| == 0 {
        FilterAdded(result, filterOffsets, policy, groups, [], []);
        filterOffsets := filterOffsets + [|result|];
        assert result + [] == result;
      } else {
        var tmpKeys := Parts(policy, keys);
        var filter := CreateFilter(policy.hash, tmpKeys, policy.bitsPerKey, policy.k);
        FilterAdded(result, filterOffsets, policy, groups, filter, keys);
        filterOffsets := filterOffsets + [|result|];
        result := result + filter;
      }
      groups := groups + [keys];
      keys := [];
    }

    method Finish() returns (contents: Bytes)
      requires Valid()
      modifies this
      ensures contents == result
      ensures |contents| < TWO_32 ==>
                forall offset: nat, key :: offset / FILTER_BASE < |groups| ==>
                  (BlockMayMatch(policy, contents, offset, key) <==> MaybeIn(policy, old(KeysAt(offset / FILTER_BASE)), key))
      ensures forall i: nat, key :: key in old(KeysAt(i)) ==> i < |groups| && MaybeIn(policy, old(KeysAt(i)), key)
    {
      hide AreFilters, FinishedBlock, BlockMayMatch, MaybeIn;
      ghost var before := KeysNow();
      if |keys| > 0 {
        GenerateFilter();
      }
      ghost var filters, offsets, groups := result, filterOffsets, groups;
      FilterCount(filters, offsets, policy, groups);
      contents := AppendOffsets();
      if |contents| < TWO_32 {
        forall offset: nat, key | offset / FILTER_BASE < |groups|
          ensures BlockMayMatch(policy, contents, offset, key) <==> MaybeIn(policy, before(offset / FILTER_BASE), key)
        {
          FinishedMayMatch(filters, offsets, policy, groups, offset, key);
        }
      }
      forall i: nat, key | key in old(KeysAt(i)) ensures i < |groups| && MaybeIn(policy, old(KeysAt(i)), key) {
        MemberMaybeIn(policy, old(KeysAt(i)), key);
      }
    }

    lemma FilterCount(filters: Bytes, offsets: seq<nat>, policy: Policy, groups: seq<seq<Bytes>>)
      requires AreFilters(filters, offsets, policy, groups)
      ensures |groups| == |offsets|
    {
    }

    method AppendOffsets() returns (contents: Bytes)
      modifies `result
      ensures contents == result == FinishedBlock(old(result), filterOffsets)
    {
      hide Blocks.FixedList, EncodeFixed;
      ghost var filters := result;
      var arrayOffset := |result|;
      assert Blocks.FixedList(filterOffsets[..0]) == [] by { Blocks.NoRestarts(); }
      var i := 0;
      while i < |filterOffsets|
        invariant i <= |filterOffsets| && result == filters + Blocks.FixedList(filterOffsets[..i])
      {
        Blocks.FixedListNext(filterOffsets, i);
        result := result + EncodeFixed(filterOffsets[i], 4);
        i := i + 1;
      }
      assert filterOffsets[..i] == filterOffsets;
      result := result + EncodeFixed(arrayOffset, 4);
      result := result + [FILTER_BASE_LG];
      contents := result;
    }

    ghost function KeysNow(): nat -> seq<Bytes>
      reads this
    {
      var gs, ks := groups, keys;
      (i: nat) => if i < |gs| then gs[i] else if i == |gs| then ks else []
    }
  }

  // ----- Reading a filter block -----

  // FilterBlockReader: where the offsets are, how many, and what an offset is divided by.
  datatype Layout = Layout(base: nat, num: nat, baseLg: nat)

  function LayoutOf(contents: Bytes): (l: Layout)
    ensures l.num > 0 ==> l.base + 4 * l.num + 5 <= |contents|
  {
    var n := |contents|;
    if n < 5 then Layout(0, 0, 0)
    else
      var baseLg, lastWord := contents[n - 1], DecodeFixed(contents[n - 5..n - 1]);
      if lastWord > n - 5 then Layout(0, 0, baseLg) else Layout(lastWord, (n - 5 - lastWord) / 4, baseLg)
  }

  function WordAt(contents: Bytes, p: nat): nat
    requires p + 4 <= |contents|
  {
    DecodeFixed(contents[p..p + 4])
  }

  // FilterBlockReader::KeyMayMatch; what is malformed is a potential match.
  ghost predicate BlockMayMatch(policy: Policy, contents: Bytes, blockOffset: nat, key: Bytes) {
    var l := LayoutOf(contents);
    var index := blockOffset / Pow(2, l.baseLg);
    index < l.num ==>
      var start, limit := WordAt(contents, l.base + 4 * index), WordAt(contents, l.base + 4 * index + 4);
      if start <= limit <= l.base then MayMatch(policy.hash(policy.part(key)), contents[start..limit]) else start != limit
  }

  class FilterBlockReader {
    const policy: Policy
    const contents: Bytes
    const layout: Layout

    constructor (policy: Policy, contents: Bytes)
      ensures this.policy == policy && this.contents == contents && layout == LayoutOf(contents)
    {
      this.policy, this.contents, layout := policy, contents, LayoutOf(contents);
    }

    method KeyMayMatch(blockOffset: nat, key: Bytes) returns (may: bool)
      requires layout == LayoutOf(contents)
      ensures may <==> BlockMayMatch(policy, contents, blockOffset, key)
    {
      hide MayMatch;
      var index := blockOffset / Pow(2, layout.baseLg);
      if index < layout.num {
        var start := DecodeFixed(contents[layout.base + 4 * index..layout.base + 4 * index + 4]);
        var limit := DecodeFixed(contents[layout.base + 4 * index + 4..layout.base + 4 * index + 8]);
        if start <= limit && limit <= layout.base {
          may := BloomMayMatch(policy.hash, policy.part(key), contents[start..limit]);
          return;
        } else if start == limit {
          return false;
        }
      }
      return true;
    }
  }

  // The filters, the offsets, and where the offsets begin.
  function FinishedBlock(filters: Bytes, offsets: seq<nat>): (r: Bytes)
    ensures |r| == |filters| + 4 * |offsets| + 5
  {
    filters + Blocks.FixedList(offsets) + EncodeFixed(|filters|, 4) + [FILTER_BASE_LG]
  }

  // What the filter of these keys can tell of a key.
  ghost predicate MaybeIn(policy: Policy, keys: seq<Bytes>, key: Bytes) {
    keys != [] && AllProbed(policy.hash, Parts(policy, keys), policy.bitsPerKey, policy.k, policy.part(key))
  }

  lemma MemberMaybeIn(policy: Policy, keys: seq<Bytes>, key: Bytes)
    requires key in keys
    ensures MaybeIn(policy, keys, key)
  {
    hide Position, FilterBytes;
    var n :| 0 <= n < |keys| && keys[n] == key;
    var parts, part := Parts(policy, keys), policy.part(key);
    assert parts[n] == part;
    var bits := 8 * FilterBytes(|parts|, policy.bitsPerKey);
    forall j | 0 <= j < policy.k ensures IsProbeOfAny(Position(policy.hash(part), j, bits), bits, policy.hash, parts, policy.k) {
      assert IsProbe(Position(policy.hash(part), j, bits), bits, policy.hash(parts[n]), policy.k);
    }
  }

  // The filter the reader looks in for a block is the one its keys went to.
  lemma FinishedMayMatch(filters: Bytes, offsets: seq<nat>, policy: Policy, groups: seq<seq<Bytes>>, offset: nat, key: Bytes)
    requires policy.Valid() && AreFilters(filters, offsets, policy, groups)
    requires |FinishedBlock(filters, offsets)| < TWO_32
    requires offset / FILTER_BASE < |groups|
    ensures BlockMayMatch(policy, FinishedBlock(filters, offsets), offset, key) <==> MaybeIn(policy, groups[offset / FILTER_BASE], key)
  {
    hide LayoutOf, WordAt, FinishedBlock, MayMatch, IsFilterOf, Pow, MaybeIn;
    var i := offset / FILTER_BASE;
    FinishedLayout(filters, offsets);
    BaseIsPow();
    assert HasFilter(filters, offsets, i, policy, groups[i]);
    if i + 1 < |offsets| {
      assert HasFilter(filters, offsets, i + 1, policy, groups[i + 1]);
    }
    OffsetsStored(filters, offsets, i);
    var start, limit := offsets[i], if i + 1 < |offsets| then offsets[i + 1] else |filters|;
    FiltersStored(filters, offsets, start, limit);
    KeyIsMatched(policy, filters[start..limit], groups[i], key);
  }

  lemma FiltersStored(filters: Bytes, offsets: seq<nat>, start: nat, limit: nat)
    requires start <= limit <= |filters|
    ensures FinishedBlock(filters, offsets)[start..limit] == filters[start..limit]
  {
    hide Blocks.FixedList, EncodeFixed;
    var rest := Blocks.FixedList(offsets) + EncodeFixed(|filters|, 4) + [FILTER_BASE_LG];
    assert FinishedBlock(filters, offsets) == filters + rest;
  }

  lemma KeyIsMatched(policy: Policy, filter: Bytes, keys: seq<Bytes>, key: Bytes)
    requires policy.Valid() && IsFilterOf(filter, policy, keys)
    ensures MayMatch(policy.hash(policy.part(key)), filter) <==> MaybeIn(policy, keys, key)
  {
    hide IsBloom, AllProbed;
    if keys != [] {
      hide MayMatch;
      MatchIsExact(filter, policy.hash, Parts(policy, keys), policy.bitsPerKey, policy.k, policy.part(key));
    }
  }

  lemma BaseIsPow()
    ensures Pow(2, FILTER_BASE_LG) == FILTER_BASE
  {
    assert Pow(2, 4) == 16;
    assert Pow(2, 8) == 256;
  }

  lemma FinishedLayout(filters: Bytes, offsets: seq<nat>)
    requires |filters| < TWO_32
    ensures LayoutOf(FinishedBlock(filters, offsets)) == Layout(|filters|, |offsets|, FILTER_BASE_LG)
  {
    hide Blocks.FixedList, EncodeFixed, DecodeFixed;
    FixedWidths();
    FixedRoundTrip(|filters|, 4);
    LastWord(filters + Blocks.FixedList(offsets), EncodeFixed(|filters|, 4));
  }

  lemma LastWord(a: Bytes, word: Bytes)
    requires |word| == 4
    ensures var contents := a + word + [FILTER_BASE_LG];
      contents[|contents| - 5..|contents| - 1] == word && contents[|contents| - 1] == FILTER_BASE_LG
  {
  }

  // The word behind the last offset is where the offsets begin, the end of the filters.
  lemma OffsetsStored(filters: Bytes, offsets: seq<nat>, i: nat)
    requires i < |offsets| && |filters| < TWO_32 && offsets[i] < TWO_32 && (i + 1 < |offsets| ==> offsets[i + 1] < TWO_32)
    ensures WordAt(FinishedBlock(filters, offsets), |filters| + 4 * i) == offsets[i]
    ensures WordAt(FinishedBlock(filters, offsets), |filters| + 4 * i + 4) ==
            if i + 1 < |offsets| then offsets[i + 1] else |filters|
  {
    hide Blocks.FixedList, EncodeFixed, DecodeFixed, WordAt;
    OffsetStored(filters, offsets, i);
    if i + 1 < |offsets| {
      OffsetStored(filters, offsets, i + 1);
    } else {
      FixedWidths();
      FixedRoundTrip(|filters|, 4);
      var list, word := Blocks.FixedList(offsets), EncodeFixed(|filters|, 4);
      WordIn(filters + list, word, [FILTER_BASE_LG], 0);
      assert word[0..4] == word;
    }
  }

  lemma OffsetStored(filters: Bytes, offsets: seq<nat>, i: nat)
    requires i < |offsets| && offsets[i] < TWO_32
    ensures WordAt(FinishedBlock(filters, offsets), |filters| + 4 * i) == offsets[i]
  {
    hide Blocks.FixedList, EncodeFixed, DecodeFixed, WordAt;
    var list, rest := Blocks.FixedList(offsets), EncodeFixed(|filters|, 4) + [FILTER_BASE_LG];
    Blocks.FixedListAt(offsets, i);
    WordIn(filters, list, rest, 4 * i);
    assert FinishedBlock(filters, offsets) == filters + list + rest;
  }

  lemma WordIn(a: Bytes, b: Bytes, c: Bytes, i: nat)
    requires i + 4 <= |b|
    ensures WordAt(a + b + c, |a| + i) == DecodeFixed(b[i..i + 4])
  {
    hide DecodeFixed;
    Blocks.InMiddle(a, b, c, i, i + 4);
  }
}
