// Writing a table (leveldb/table/table_builder.cc): data blocks, an index entry for
// each once the next key is known, filters by file offset.
module TableBuilders {
  import opened Powers
  import opened Blocks
  import opened Codings
  import opened Comparators
  import opened Filters
  import opened Wrappers
  import opened InternalKeys
  import opened Tables

  // ----- What has been written -----

  // Appending to the file leaves what is stored in it.
  lemma StillStored(crc: Bytes -> Word, file: Bytes, more: Bytes, handle: Handle, contents: Bytes)
    requires IsStored(crc, file, handle, contents)
    ensures IsStored(crc, file + more, handle, contents)
  {
    hide StoredForm;
    var end := handle.offset + |contents| + BLOCK_TRAILER_SIZE;
    assert (file + more)[handle.offset..end] == file[handle.offset..end];
  }

  lemma NewStored(crc: Bytes -> Word, file: Bytes, contents: Bytes)
    ensures IsStored(crc, file + StoredForm(crc, contents), Handle(|file|, |contents|), contents)
  {
    hide EncodeFixed;
    var s := StoredForm(crc, contents);
    assert (file + s)[|file|..|file| + |contents| + BLOCK_TRAILER_SIZE] == s;
  }

  ghost predicate AreDataBlocks(crc: Bytes -> Word, file: Bytes, blocks: seq<DataBlock>) {
    forall b :: 0 <= b < |blocks| ==> IsDataBlock(crc, file, blocks[b])
  }

  lemma StillDataBlocks(crc: Bytes -> Word, file: Bytes, more: Bytes, blocks: seq<DataBlock>)
    requires AreDataBlocks(crc, file, blocks)
    ensures AreDataBlocks(crc, file + more, blocks)
  {
    hide IsStored, IsBlockOf, KeysAscend, HaveTrailers;
    forall b | 0 <= b < |blocks| ensures IsDataBlock(crc, file + more, blocks[b]) {
      assert IsDataBlock(crc, file, blocks[b]);
      StillStored(crc, file, more, blocks[b].handle, blocks[b].contents);
    }
  }

  // ----- Blocks, separators and the block being filled -----

  ghost predicate Linked(block: DataBlock, sep: Bytes, next: Bytes) {
    && block.pairs != [] && |sep| >= 8
    && IsSeparator(LastKey(block), sep, next) && InternalLess(LastKey(block), next)
  }

  ghost predicate Chain(blocks: seq<DataBlock>, seps: seq<Bytes>) {
    forall b :: 0 <= b < |blocks| - 1 ==> LinkedAt(blocks, seps, b)
  }

  ghost predicate LinkedAt(blocks: seq<DataBlock>, seps: seq<Bytes>, b: nat) {
    && b < |seps| && b + 1 < |blocks| && blocks[b + 1].pairs != []
    && Linked(blocks[b], seps[b], FirstKey(blocks[b + 1]))
  }

  // An entry is pending exactly while the block after the last one is empty.
  ghost predicate Building(blocks: seq<DataBlock>, seps: seq<Bytes>, pending: bool, handle: Handle, lastKey: Bytes, current: seq<Pair>) {
    && Chain(blocks, seps) && (forall b :: 0 <= b < |blocks| ==> IsRun(blocks[b].pairs))
    && |blocks| == |seps| + (if pending then 1 else 0)
    && (pending ==> current == [] && handle == blocks[|blocks| - 1].handle && lastKey == LastKey(blocks[|blocks| - 1]))
    && (!pending && blocks != [] ==> current != [] && Linked(blocks[|blocks| - 1], seps[|seps| - 1], current[0].key))
    && (current != [] ==> IsRun(current) && lastKey == current[|current| - 1].key)
  }

  lemma OneIsRun(pair: Pair)
    requires |pair.key| >= 8
    ensures IsRun([pair])
  {
  }

  lemma RunGrows(pairs: seq<Pair>, pair: Pair)
    requires IsRun(pairs) && |pair.key| >= 8 && InternalLess(pairs[|pairs| - 1].key, pair.key)
    ensures IsRun(pairs + [pair])
  {
    hide InternalLess;
    forall i | 0 <= i < |pairs| ensures InternalLess(pairs[i].key, pair.key) {
      WithinRun(pairs, i);
      Between(pairs[i].key, pairs[|pairs| - 1].key, pair.key);
    }
  }

  // The entry of the block before is written and the next block begins.
  lemma EmitKeeps(blocks: seq<DataBlock>, seps: seq<Bytes>, handle: Handle, lastKey: Bytes, sep: Bytes, pair: Pair)
    requires Building(blocks, seps, true, handle, lastKey, []) && |pair.key| >= 8 && InternalLess(lastKey, pair.key)
    requires |sep| >= 8 && IsSeparator(lastKey, sep, pair.key)
    ensures Building(blocks, seps + [sep], false, handle, pair.key, [pair])
  {
    OneIsRun(pair);
    hide IsSeparator, InternalLess, IsRun;
    assert IsRun(blocks[|blocks| - 1].pairs);
    LastHasPairs(blocks[|blocks| - 1].pairs);
    forall b | 0 <= b < |blocks| - 1 ensures LinkedAt(blocks, seps + [sep], b) {
      assert LinkedAt(blocks, seps, b) && (seps + [sep])[b] == seps[b];
    }
  }

  lemma LastHasPairs(pairs: seq<Pair>)
    requires IsRun(pairs)
    ensures pairs != []
  {
  }

  lemma AddKeeps(blocks: seq<DataBlock>, seps: seq<Bytes>, handle: Handle, lastKey: Bytes, current: seq<Pair>, pair: Pair)
    requires Building(blocks, seps, false, handle, lastKey, current) && |pair.key| >= 8
    requires current != [] ==> InternalLess(lastKey, pair.key)
    ensures Building(blocks, seps, false, handle, pair.key, current + [pair])
  {
    if current == [] {
      OneIsRun(pair);
      assert current + [pair] == [pair];
    } else {
      RunGrows(current, pair);
    }
    hide IsRun, Linked, InternalLess;
  }

  lemma FlushKeeps(blocks: seq<DataBlock>, seps: seq<Bytes>, handle: Handle, lastKey: Bytes, block: DataBlock)
    requires Building(blocks, seps, false, handle, lastKey, block.pairs) && block.pairs != []
    ensures Building(blocks + [block], seps, true, block.handle, lastKey, [])
  {
    hide IsRun, Linked, InternalLess;
    var blocks' := blocks + [block];
    forall b | 0 <= b < |blocks'| - 1 ensures LinkedAt(blocks', seps, b) {
      if b < |blocks| - 1 {
        assert LinkedAt(blocks, seps, b) && blocks'[b + 1] == blocks[b + 1];
      }
    }
  }

  lemma FinishKeeps(blocks: seq<DataBlock>, seps: seq<Bytes>, handle: Handle, lastKey: Bytes, sep: Bytes)
    requires Building(blocks, seps, true, handle, lastKey, [])
    requires |sep| >= 8 && (sep == lastKey || BytewiseLess(UserPart(lastKey), UserPart(sep)))
    ensures AreSeparators(blocks, seps + [sep])
  {
    hide IsSeparator, InternalLess, IsRun, UserPart, BytewiseLess;
    var seps' := seps + [sep];
    forall b | 0 <= b < |blocks| ensures SeparatorAt(blocks, seps', b) {
      LastHasPairs(blocks[b].pairs);
      if b + 1 < |blocks| {
        assert seps'[b] == seps[b] && LinkedAt(blocks, seps, b);
      }
    }
  }

  // ----- The filter's part -----

  ghost function KeysIn(groups: seq<seq<Bytes>>, keys: seq<Bytes>, i: nat): seq<Bytes> {
    if i < |groups| then groups[i] else if i == |groups| then keys else []
  }

  // The keys of a block are in the filter of its offset.
  ghost predicate KeysFiltered(groups: seq<seq<Bytes>>, keys: seq<Bytes>, offset: nat, pairs: seq<Pair>) {
    forall i :: 0 <= i < |pairs| ==> pairs[i].key in KeysIn(groups, keys, offset / FILTER_BASE)
  }

  ghost predicate Filtered(groups: seq<seq<Bytes>>, keys: seq<Bytes>, blocks: seq<DataBlock>, offset: nat, current: seq<Pair>) {
    && (forall b :: 0 <= b < |blocks| ==> KeysFiltered(groups, keys, blocks[b].handle.offset, blocks[b].pairs))
    && KeysFiltered(groups, keys, offset, current)
  }

  lemma FilterGrows(groups: seq<seq<Bytes>>, keys: seq<Bytes>, blocks: seq<DataBlock>, offset: nat, current: seq<Pair>, pair: Pair)
    requires Filtered(groups, keys, blocks, offset, current) && |groups| == offset / FILTER_BASE
    ensures Filtered(groups, keys + [pair.key], blocks, offset, current + [pair])
  {
    var keys' := keys + [pair.key];
    assert keys'[|keys|] == pair.key;
    assert forall i: nat, k :: k in KeysIn(groups, keys, i) ==> k in KeysIn(groups, keys', i);
    forall b | 0 <= b < |blocks| ensures KeysFiltered(groups, keys', blocks[b].handle.offset, blocks[b].pairs) {
      assert KeysFiltered(groups, keys, blocks[b].handle.offset, blocks[b].pairs);
    }
  }

  lemma FilterStays(groups: seq<seq<Bytes>>, keys: seq<Bytes>, groups': seq<seq<Bytes>>, keys': seq<Bytes>,
                    blocks: seq<DataBlock>, offset: nat, block: DataBlock, offset': nat)
    requires Filtered(groups, keys, blocks, offset, block.pairs) && block.handle.offset == offset
    requires forall i: nat :: KeysIn(groups', keys', i) == KeysIn(groups, keys, i)
    ensures Filtered(groups', keys', blocks + [block], offset', [])
  {
    var blocks' := blocks + [block];
    forall b | 0 <= b < |blocks'| ensures KeysFiltered(groups', keys', blocks'[b].handle.offset, blocks'[b].pairs) {
      assert b < |blocks| ==> KeysFiltered(groups, keys, blocks[b].handle.offset, blocks[b].pairs);
    }
  }

  // ----- The builder -----

  class TableBuilder {
    const crc: Bytes -> Word
    const blockSize: nat
    const dataBlock: BlockBuilder
    const indexBlock: BlockBuilder
    const filterBlock: FilterBlockBuilder?
    var file: Bytes
    var offset: nat
    var lastKey: Bytes
    var numEntries: nat
    var closed: bool
    var pendingIndexEntry: bool
    var pendingHandle: Handle
    ghost var blocks: seq<DataBlock>
    ghost var seps: seq<Bytes>
    // No block so far outgrew the 32 bits of a restart point, nor the file 64 bits.
    ghost var small: bool

    constructor (crc: Bytes -> Word, blockSize: nat, restartInterval: nat, policy: Option<Policy>)
      requires restartInterval >= 1 && (policy.Some? ==> policy.value.Valid() && policy.value.part == UserPart)
      ensures this.crc == crc && Valid() && !closed && Added() == [] && small
      ensures fresh(dataBlock) && fresh(indexBlock) && (filterBlock != null ==> fresh(filterBlock))
      ensures filterBlock != null <==> policy.Some?
    {
      hide BlockBuilder.Valid, FilterBlockBuilder.Valid;
      this.crc, this.blockSize := crc, blockSize;
      dataBlock := new BlockBuilder(restartInterval);
      indexBlock := new BlockBuilder(1);
      file, offset, lastKey, numEntries := [], 0, [], 0;
      closed, pendingIndexEntry, pendingHandle := false, false, Handle(0, 0);
      blocks, seps, small := [], [], true;
      if policy.Some? {
        var filter := new FilterBlockBuilder(policy.value);
        filter.StartBlock(0);
        filterBlock := filter;
      } else {
        filterBlock := null;
      }
    }

    ghost predicate HasParts()
      reads this
    {
      dataBlock != indexBlock
    }

    ghost predicate BlocksValid()
      reads this, dataBlock, indexBlock
    {
      && HasParts() && dataBlock.Valid() && !dataBlock.finished && indexBlock.Valid() && !indexBlock.finished
      && |seps| <= |blocks| && indexBlock.pairs == IndexPairs(blocks, seps)
    }

    ghost predicate FileValid()
      reads this
    {
      offset == |file| && (small ==> AreDataBlocks(crc, file, blocks)) && (|file| < TWO_32 ==> small)
    }

    ghost predicate FilterValid(current: seq<Pair>)
      reads this, filterBlock
    {
      filterBlock != null ==>
        && filterBlock.Valid() && filterBlock.policy.part == UserPart && |filterBlock.groups| == offset / FILTER_BASE
        && Filtered(filterBlock.groups, filterBlock.keys, blocks, offset, current)
    }

    ghost predicate Valid()
      reads this, dataBlock, indexBlock, filterBlock
    {
      && BlocksValid() && FileValid() && FilterValid(dataBlock.pairs)
      && Building(blocks, seps, pendingIndexEntry, pendingHandle, lastKey, dataBlock.pairs)
      && numEntries == |Added()|
    }

    // Everything added.
    ghost function Added(): seq<Pair>
      reads this, dataBlock
    {
      AllPairs(blocks) + dataBlock.pairs
    }

    method Add(key: Bytes, value: Bytes)
      requires Valid() && !closed && |key| >= 8 && (numEntries > 0 ==> InternalLess(lastKey, key))
      modifies this, dataBlock, indexBlock, filterBlock
      ensures Valid() && !closed && Added() == old(Added()) + [Pair(key, value)]
      // The block ends with the pair that brings it to its size.
      ensures if |blocks| > |old(blocks)| then
          && blocks[..|blocks| - 1] == old(blocks) && |blocks[|blocks| - 1].contents| >= blockSize
          && blocks[|blocks| - 1].pairs == old(dataBlock.pairs) + [Pair(key, value)] && dataBlock.pairs == []
        else
          && blocks == old(blocks) && dataBlock.CurrentSizeEstimate() < blockSize
          && dataBlock.pairs == old(dataBlock.pairs) + [Pair(key, value)]
    {
      hide Building, IndexPairs, AreDataBlocks, Filtered, BlockBuilder.Valid, FilterBlockBuilder.Valid, InternalLess, UserPart, AllPairs;
      ghost var pair := Pair(key, value);
      EmitPendingEntry(key, value);
      if filterBlock != null {
        FilterGrows(filterBlock.groups, filterBlock.keys, blocks, offset, dataBlock.pairs, pair);
        filterBlock.AddKey(key);
      }
      lastKey := key;
      numEntries := numEntries + 1;
      dataBlock.Add(key, value);
      var estimatedBlockSize := dataBlock.CurrentSizeEstimate();
      if estimatedBlockSize >= blockSize {
        Flush();
      }
    }

    // The first key after a block settles its separator.
    method EmitPendingEntry(key: Bytes, ghost value: Bytes)
      requires Valid() && !closed && |key| >= 8 && (numEntries > 0 ==> InternalLess(lastKey, key))
      modifies `pendingIndexEntry, `seps, indexBlock
      ensures BlocksValid() && FilterValid(dataBlock.pairs) && FileValid()
      ensures Building(blocks, seps, pendingIndexEntry, pendingHandle, key, dataBlock.pairs + [Pair(key, value)])
    {
      hide Building, IndexPairs, AreDataBlocks, Filtered, BlockBuilder.Valid, FilterBlockBuilder.Valid, InternalLess, UserPart, AllPairs;
      ghost var pair := Pair(key, value);
      HasEntries();
      if pendingIndexEntry {
        var sep := FindShortestInternalSeparator(lastKey, key);
        EmitKeeps(blocks, seps, pendingHandle, lastKey, sep, pair);
        AddIndexEntry(sep);
        assert dataBlock.pairs + [pair] == [pair];
      } else {
        AddKeeps(blocks, seps, pendingHandle, lastKey, dataBlock.pairs, pair);
      }
    }

    // lastKey is the key added last.
    lemma LastAdded()
      requires Valid()
      ensures numEntries == |Added()|
      ensures numEntries > 0 ==> lastKey == Added()[numEntries - 1].key
    {
      hide AreDataBlocks, Filtered, BlockBuilder.Valid, FilterBlockBuilder.Valid, InternalLess, Chain;
      if dataBlock.pairs == [] && blocks != [] {
        var n := |blocks| - 1;
        assert IsRun(blocks[n].pairs);
        assert AllPairs(blocks) == AllPairs(blocks[..n]) + blocks[n].pairs;
      }
    }

    // Entries are pending or present only if some were added.
    lemma HasEntries()
      requires Valid()
      ensures pendingIndexEntry ==> dataBlock.pairs == []
      ensures pendingIndexEntry || dataBlock.pairs != [] ==> numEntries > 0
      ensures pendingIndexEntry ==> |seps| < |blocks| && pendingHandle == blocks[|seps|].handle && |lastKey| >= 8
    {
      hide AreDataBlocks, Filtered, BlockBuilder.Valid, FilterBlockBuilder.Valid, InternalLess, Chain;
      if pendingIndexEntry {
        var n := |blocks| - 1;
        assert IsRun(blocks[n].pairs);
        assert AllPairs(blocks) == AllPairs(blocks[..n]) + blocks[n].pairs;
      }
    }

    // The entry of the last block, under its separator.
    method AddIndexEntry(sep: Bytes)
      requires BlocksValid() && |seps| < |blocks| && pendingHandle == blocks[|seps|].handle
      modifies `pendingIndexEntry, `seps, indexBlock
      ensures BlocksValid() && !pendingIndexEntry && seps == old(seps) + [sep]
    {
      hide BlockBuilder.Valid;
      indexBlock.Add(sep, EncodeHandle(pendingHandle));
      pendingIndexEntry := false;
      seps := seps + [sep];
      IndexGrows(blocks, old(seps), sep);
    }

    // WriteRawBlock.
    method WriteRawBlock(contents: Bytes) returns (handle: Handle)
      requires offset == |file|
      modifies `file, `offset
      ensures handle == Handle(old(offset), |contents|) && offset == |file|
      ensures file == old(file) + StoredForm(crc, contents) && |file| == old(|file|) + |contents| + BLOCK_TRAILER_SIZE
    {
      handle := Handle(offset, |contents|);
      file := file + StoredForm(crc, contents);
      offset := offset + |contents| + BLOCK_TRAILER_SIZE;
    }

    // WriteBlock: the block is finished, stored and started anew.
    method WriteBlock(block: BlockBuilder) returns (handle: Handle, raw: Bytes)
      requires offset == |file| && block.Valid() && !block.finished
      modifies `file, `offset, block
      ensures handle == Handle(old(offset), |raw|) && offset == |file| && file == old(file) + StoredForm(crc, raw)
      ensures |file| == old(|file|) + |raw| + BLOCK_TRAILER_SIZE
      ensures block.Valid() && !block.finished && block.pairs == []
      ensures |raw| < TWO_32 ==> IsBlockOf(raw, old(block.pairs))
      ensures |raw| == old(block.CurrentSizeEstimate())
    {
      hide StoredForm, IsBlock, IsBuilder, OpenBlock;
      ghost var pairs, shareds, starts := block.pairs, block.shareds, block.starts;
      raw := block.Finish();
      if |raw| < TWO_32 {
        BlockIsOf(raw, pairs, shareds, starts);
      }
      handle := WriteRawBlock(raw);
      block.Reset();
    }

    method Flush()
      requires Valid() && !closed
      modifies this, dataBlock, filterBlock
      ensures Valid() && !closed && Added() == old(Added()) && dataBlock.pairs == []
      ensures if old(dataBlock.pairs) == [] then blocks == old(blocks)
        else
          && |blocks| == |old(blocks)| + 1 && blocks[..|old(blocks)|] == old(blocks)
          && blocks[|old(blocks)|].pairs == old(dataBlock.pairs)
          && |blocks[|old(blocks)|].contents| == old(dataBlock.CurrentSizeEstimate())
    {
      hide Building, IndexPairs, AreDataBlocks, Filtered, BlockBuilder.Valid, FilterBlockBuilder.Valid, IsBlockOf, StoredForm, AllPairs;
      var isEmpty := dataBlock.IsEmpty();
      if isEmpty {
        return;
      }
      ghost var current := dataBlock.pairs;
      NotPending();
      var raw;
      pendingHandle, raw := WriteBlock(dataBlock);
      ghost var block := DataBlock(pendingHandle, raw, current);
      small := small && |raw| < TWO_32 && |file| < TWO_64;
      if small {
        BlockAdded(crc, old(file), blocks, block);
      }
      FlushKeeps(blocks, seps, old(pendingHandle), lastKey, block);
      IndexStays(blocks, seps, block);
      AllPairsSnoc(blocks, block);
      pendingIndexEntry := true;
      if filterBlock != null {
        FilterGoesOn(old(offset), block);
      }
      blocks := blocks + [block];
    }

    // The filters of the block are closed, those of the next one begun.
    method FilterGoesOn(ghost start: nat, ghost block: DataBlock)
      requires filterBlock != null && filterBlock.Valid() && |filterBlock.groups| == start / FILTER_BASE
      requires start <= offset && block.handle.offset == start
      requires Filtered(filterBlock.groups, filterBlock.keys, blocks, start, block.pairs)
      modifies filterBlock
      ensures filterBlock.Valid() && |filterBlock.groups| == offset / FILTER_BASE
      ensures Filtered(filterBlock.groups, filterBlock.keys, blocks + [block], offset, [])
    {
      hide Filtered, FilterBlockBuilder.Valid;
      filterBlock.StartBlock(offset);
      forall i: nat
        ensures KeysIn(filterBlock.groups, filterBlock.keys, i) == KeysIn(old(filterBlock.groups), old(filterBlock.keys), i)
      {
        assert filterBlock.KeysAt(i) == old(filterBlock.KeysAt(i));
      }
      FilterStays(old(filterBlock.groups), old(filterBlock.keys), filterBlock.groups, filterBlock.keys, blocks, start, block, offset);
    }

    // The filter, then the index with the last block's entry. What is returned, with the
    // file, is what a reader opens.
    method Finish() returns (index: Bytes, filter: Option<FilterBlockReader>)
      requires Valid() && !closed
      modifies this, dataBlock, indexBlock, filterBlock
      ensures closed && AllPairs(blocks) == old(Added())
      ensures filter.Some? ==> fresh(filter.value) && filter.value.layout == LayoutOf(filter.value.contents)
      ensures filter.Some? <==> filterBlock != null
      ensures small ==> IsTable(crc, file, index, filter, blocks, seps)
      ensures |file| < TWO_32 ==> small
    {
      hide Building, IndexPairs, AreDataBlocks, Filtered, BlockBuilder.Valid, FilterBlockBuilder.Valid, IsBlockOf, StoredForm, AllPairs;
      hide InternalLess, UserPart, BytewiseLess, FilterCovers, BlockMayMatch, IsDataBlock, AreSeparators;
      Flush();
      closed := true;
      NothingLeft();
      if pendingIndexEntry {
        HasEntries();
      } else {
        NoBlocks();
      }
      filter := None;
      if filterBlock != null {
        filter := FinishFilter();
      }
      if pendingIndexEntry {
        var succ := FindShortInternalSuccessor(lastKey);
        FinishKeeps(blocks, seps, pendingHandle, lastKey, succ);
        AddIndexEntry(succ);
      }
      index := WriteIndex();
    }

    method WriteIndex() returns (index: Bytes)
      requires BlocksValid() && FileValid()
      modifies `file, `offset, `small, indexBlock
      ensures |file| < TWO_32 ==> small
      ensures small ==> IsBlockOf(index, IndexPairs(blocks, seps)) && forall b :: 0 <= b < |blocks| ==> IsDataBlock(crc, file, blocks[b])
      ensures small ==> old(small)
    {
      hide IndexPairs, AreDataBlocks, BlockBuilder.Valid, IsBlockOf, StoredForm, IsDataBlock;
      ghost var before := file;
      var _, raw := WriteBlock(indexBlock);
      index := raw;
      StillIfSmall(crc, before, StoredForm(crc, raw), blocks, small);
      small := small && |raw| < TWO_32 && |file| < TWO_64;
      if small {
        AllData(crc, file, blocks);
      }
    }

    lemma NothingLeft()
      requires Valid() && dataBlock.pairs == []
      ensures Added() == AllPairs(blocks)
    {
    }

    lemma NoBlocks()
      requires Valid() && dataBlock.pairs == [] && !pendingIndexEntry
      ensures AreSeparators(blocks, seps) && |seps| == |blocks|
    {
      hide AreDataBlocks, Filtered, BlockBuilder.Valid, FilterBlockBuilder.Valid, Chain;
    }

    method FinishFilter() returns (filter: Option<FilterBlockReader>)
      requires filterBlock != null && FileValid() && FilterValid([])
      modifies `file, `offset, `small, filterBlock
      ensures FileValid() && filter.Some? && fresh(filter.value)
      ensures filter.value.layout == LayoutOf(filter.value.contents) && filter.value.policy.part == UserPart
      ensures small ==> forall b :: 0 <= b < |blocks| ==> FilterCovers(filter.value.policy, filter.value.contents, blocks[b])
    {
      hide AreDataBlocks, BlockMayMatch, FilterBlockBuilder.Valid, StoredForm, LayoutOf;
      ghost var groups, keys := filterBlock.groups, filterBlock.keys;
      forall i: nat ensures KeysIn(groups, keys, i) == filterBlock.KeysAt(i) { }
      var contents := filterBlock.Finish();
      ghost var before := file;
      var _ := WriteRawBlock(contents);
      StillIfSmall(crc, before, StoredForm(crc, contents), blocks, small);
      small := small && |contents| < TWO_32;
      var reader := new FilterBlockReader(filterBlock.policy, contents);
      if small {
        forall b | 0 <= b < |blocks| ensures FilterCovers(reader.policy, reader.contents, blocks[b]) {
          assert KeysFiltered(groups, keys, blocks[b].handle.offset, blocks[b].pairs);
        }
      }
      filter := Some(reader);
    }

    lemma NotPending()
      requires Valid() && dataBlock.pairs != []
      ensures !pendingIndexEntry && IsRun(dataBlock.pairs)
    {
    }
  }

  lemma StillIfSmall(crc: Bytes -> Word, file: Bytes, more: Bytes, blocks: seq<DataBlock>, small: bool)
    requires small ==> AreDataBlocks(crc, file, blocks)
    ensures small ==> AreDataBlocks(crc, file + more, blocks)
  {
    if small {
      StillDataBlocks(crc, file, more, blocks);
    }
  }

  lemma AllData(crc: Bytes -> Word, file: Bytes, blocks: seq<DataBlock>)
    requires AreDataBlocks(crc, file, blocks)
    ensures forall b :: 0 <= b < |blocks| ==> IsDataBlock(crc, file, blocks[b])
  {
  }

  lemma IndexGrows(blocks: seq<DataBlock>, seps: seq<Bytes>, sep: Bytes)
    requires |seps| < |blocks|
    ensures IndexPairs(blocks, seps + [sep]) == IndexPairs(blocks, seps) + [Pair(sep, EncodeHandle(blocks[|seps|].handle))]
  {
    hide EncodeHandle;
  }

  lemma IndexStays(blocks: seq<DataBlock>, seps: seq<Bytes>, block: DataBlock)
    requires |seps| <= |blocks|
    ensures IndexPairs(blocks + [block], seps) == IndexPairs(blocks, seps)
  {
    hide EncodeHandle;
  }

  lemma AllPairsSnoc(blocks: seq<DataBlock>, block: DataBlock)
    ensures AllPairs(blocks + [block]) == AllPairs(blocks) + block.pairs
  {
    assert (blocks + [block])[..|blocks|] == blocks;
  }

  lemma BlockIsOf(raw: Bytes, pairs: seq<Pair>, shareds: seq<nat>, starts: seq<nat>)
    requires var o := OpenBlock(raw); o.Opened? && IsBlock(raw, o.restarts, o.numRestarts, pairs, shareds, starts)
    ensures IsBlockOf(raw, pairs)
  {
  }

  lemma BlockAdded(crc: Bytes -> Word, file: Bytes, blocks: seq<DataBlock>, block: DataBlock)
    requires AreDataBlocks(crc, file, blocks) && IsRun(block.pairs) && IsBlockOf(block.contents, block.pairs)
    requires block.handle == Handle(|file|, |block.contents|)
    requires |file + StoredForm(crc, block.contents)| < TWO_64
    ensures AreDataBlocks(crc, file + StoredForm(crc, block.contents), blocks + [block])
  {
    hide IsStored, IsBlockOf, InternalLess;
    StillDataBlocks(crc, file, StoredForm(crc, block.contents), blocks);
    NewStored(crc, file, block.contents);
  }

  // ----- From pairs to lookups -----

  // BuildTable, for the pairs its iterator runs over.
  method BuildTable(crc: Bytes -> Word, blockSize: nat, restartInterval: nat, policy: Option<Policy>, pairs: seq<Pair>)
    returns (table: Table, ghost blocks: seq<DataBlock>, ghost seps: seq<Bytes>)
    requires restartInterval >= 1 && (policy.Some? ==> policy.value.Valid() && policy.value.part == UserPart)
    requires KeysAscend(InternalLess, pairs) && HaveTrailers(pairs)
    ensures table.filter.Some? ==> table.filter.value.layout == LayoutOf(table.filter.value.contents)
    ensures AllPairs(blocks) == pairs
    ensures |table.file| < TWO_32 ==> IsTable(table.crc, table.file, table.indexBlock, table.filter, blocks, seps)
  {
    hide InternalLess, TableBuilder.Valid, TableBuilder.Added, IsTable, LayoutOf, AllPairs;
    var builder := new TableBuilder(crc, blockSize, restartInterval, policy);
    var i := 0;
    while i < |pairs|
      invariant i <= |pairs| && builder.Valid() && !builder.closed && builder.Added() == pairs[..i]
      invariant fresh(builder) && fresh(builder.dataBlock) && fresh(builder.indexBlock)
      invariant builder.filterBlock != null ==> fresh(builder.filterBlock)
    {
      builder.LastAdded();
      builder.Add(pairs[i].key, pairs[i].value);
      i := i + 1;
    }
    assert pairs[..i] == pairs;
    var index, filter := builder.Finish();
    table := new Table(crc, builder.file, index, filter);
    blocks, seps := builder.blocks, builder.seps;
  }

  // Over every table file below 4 GB: a lookup of any user key at any sequence number
  // gives the newest pair put in at or before it.
  method BuildAndGet(crc: Bytes -> Word, blockSize: nat, restartInterval: nat, policy: Option<Policy>, pairs: seq<Pair>,
                     user: Bytes, s: nat, verifyChecksums: bool)
    returns (table: Table, r: Option<Pair>)
    requires restartInterval >= 1 && (policy.Some? ==> policy.value.Valid() && policy.value.part == UserPart)
    requires KeysAscend(InternalLess, pairs) && HaveTrailers(pairs) && KnownTypes(pairs) && s <= MAX_SEQUENCE
    ensures |table.file| < TWO_32 ==> IsNewestOf(pairs, user, s, r)
  {
    hide InternalLess, IsTable, LayoutOf, AllPairs, IsNewestOf, KnownTypes;
    ghost var blocks, seps;
    table, blocks, seps := BuildTable(crc, blockSize, restartInterval, policy, pairs);
    r := Get(table, user, s, verifyChecksums, blocks, seps);
  }
}
