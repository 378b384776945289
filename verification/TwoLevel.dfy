// TwoLevelIterator: one cursor over the concatenation of the blocks an index
// points to (two_level_iterator.cc).
module TwoLevels {
  import opened Wrappers
  import opened InternalKeys
  import opened Cursors
  import Versions

  // ----- The concatenation -----

  function Offset(blocks: seq<seq<Entry>>, b: nat): nat
    requires b <= |blocks|
  {
    if b == 0 then 0 else Offset(blocks, b - 1) + |blocks[b - 1]|
  }

  function Concat(blocks: seq<seq<Entry>>): seq<Entry> {
    if blocks == [] then [] else Concat(blocks[..|blocks| - 1]) + blocks[|blocks| - 1]
  }

  lemma {:induction false} OffsetPrefix(blocks: seq<seq<Entry>>, n: nat, b: nat)
    requires b <= n <= |blocks|
    ensures Offset(blocks[..n], b) == Offset(blocks, b)
  {
    if b > 0 {
      OffsetPrefix(blocks, n, b - 1);
    }
  }

  lemma {:induction false} ConcatAt(blocks: seq<seq<Entry>>, b: nat, j: nat)
    requires b < |blocks| && j < |blocks[b]|
    ensures |Concat(blocks)| == Offset(blocks, |blocks|)
    ensures Offset(blocks, b) + j < |Concat(blocks)| && Concat(blocks)[Offset(blocks, b) + j] == blocks[b][j]
  {
    var n := |blocks| - 1;
    OffsetPrefix(blocks, n, n);
    ConcatLength(blocks[..n]);
    if b < n {
      ConcatAt(blocks[..n], b, j);
      OffsetPrefix(blocks, n, b);
    }
  }

  lemma {:induction false} ConcatLength(blocks: seq<seq<Entry>>)
    ensures |Concat(blocks)| == Offset(blocks, |blocks|)
  {
    if blocks != [] {
      var n := |blocks| - 1;
      ConcatLength(blocks[..n]);
      OffsetPrefix(blocks, n, n);
    }
  }

  lemma {:induction false} OffsetMonotone(blocks: seq<seq<Entry>>, a: nat, b: nat)
    requires a <= b <= |blocks|
    ensures Offset(blocks, a) <= Offset(blocks, b)
    ensures a < b ==> Offset(blocks, a) + |blocks[a]| <= Offset(blocks, b)
  {
    if a < b {
      OffsetMonotone(blocks, a, b - 1);
    }
  }

  lemma OffsetNext(blocks: seq<seq<Entry>>, b: nat)
    requires b < |blocks|
    ensures Offset(blocks, b + 1) == Offset(blocks, b) + |blocks[b]|
  {
  }

  // The block an index of the concatenation falls into.
  lemma {:induction false} Locate(blocks: seq<seq<Entry>>, n: nat, k: nat) returns (b: nat)
    requires n <= |blocks| && k < Offset(blocks, n)
    ensures b < n && Offset(blocks, b) <= k < Offset(blocks, b) + |blocks[b]|
  {
    if Offset(blocks, n - 1) <= k {
      b := n - 1;
    } else {
      b := Locate(blocks, n - 1, k);
    }
  }

  // ----- The index -----

  // separators[b] is at or after every entry of block b and before every entry
  // of a later block.
  ghost predicate Separates(separators: seq<Key>, blocks: seq<seq<Entry>>) {
    && |separators| == |blocks|
    && (forall b, j :: 0 <= b < |blocks| && 0 <= j < |blocks[b]| ==> !Less(separators[b], blocks[b][j].key))
    && (forall a, b, j :: 0 <= a < b < |blocks| && 0 <= j < |blocks[b]| ==> Less(separators[a], blocks[b][j].key))
    && (forall a, b :: 0 <= a < b < |separators| ==> Less(separators[a], separators[b]))
    && (forall b :: 0 <= b < |blocks| ==> Sorted(blocks[b]))
  }

  ghost predicate IsKeyBound(keys: seq<Key>, target: Key, p: nat) {
    && p <= |keys|
    && (forall i :: 0 <= i < p ==> Less(keys[i], target))
    && (forall i :: p <= i < |keys| ==> !Less(keys[i], target))
  }

  function SeekIndex(keys: seq<Key>, target: Key): (p: nat)
    requires forall a, b :: 0 <= a < b < |keys| ==> Less(keys[a], keys[b])
    ensures IsKeyBound(keys, target, p)
  {
    if keys == [] then 0
    else if !Less(keys[0], target) then
      assert forall i :: 0 < i < |keys| ==> Less(keys[0], keys[i]);
      0
    else
      assert forall i :: 0 < i < |keys| ==> keys[i] == keys[1..][i - 1];
      1 + SeekIndex(keys[1..], target)
  }

  lemma ConcatSorted(separators: seq<Key>, blocks: seq<seq<Entry>>)
    requires Separates(separators, blocks)
    ensures Sorted(Concat(blocks))
  {
    var all := Concat(blocks);
    ConcatLength(blocks);
    forall i, j | 0 <= i < j < |all| ensures Less(all[i].key, all[j].key) {
      var a := Locate(blocks, |blocks|, i);
      var b := Locate(blocks, |blocks|, j);
      ConcatAt(blocks, a, i - Offset(blocks, a));
      ConcatAt(blocks, b, j - Offset(blocks, b));
      if b < a {
        OffsetMonotone(blocks, b, a);
      }
    }
  }

  // One entry of the concatenation lies on the same side of the target as of the
  // position a seek reaches inside the block the index picks.
  lemma SeekSide(separators: seq<Key>, blocks: seq<seq<Entry>>, target: Key, b: nat, p: nat, k: nat)
    requires Separates(separators, blocks) && IsKeyBound(separators, target, b)
    requires b < |blocks| ==> IsLowerBound(blocks[b], target, p)
    requires b == |blocks| ==> p == 0
    requires k < Offset(blocks, |blocks|)
    ensures k < |Concat(blocks)|
    ensures Less(Concat(blocks)[k].key, target) <==> k < Offset(blocks, b) + p
  {
    hide Concat, Offset, Sorted;
    var c := Locate(blocks, |blocks|, k);
    ConcatAt(blocks, c, k - Offset(blocks, c));
    var e := blocks[c][k - Offset(blocks, c)];
    if c < b {
      OffsetMonotone(blocks, c, b);
      assert !Less(separators[c], e.key) && Less(separators[c], target);
    } else if c > b {
      OffsetMonotone(blocks, b, c);
      assert Less(separators[b], e.key) && !Less(separators[b], target);
    }
  }

  // The position a seek reaches inside the right block is right for the whole.
  lemma SeekIsBound(separators: seq<Key>, blocks: seq<seq<Entry>>, target: Key, b: nat, p: nat)
    requires Separates(separators, blocks) && IsKeyBound(separators, target, b)
    requires b < |blocks| ==> IsLowerBound(blocks[b], target, p)
    requires b == |blocks| ==> p == 0
    ensures IsLowerBound(Concat(blocks), target, Offset(blocks, b) + p)
  {
    hide Concat, Offset, Less, Sorted;
    ConcatLength(blocks);
    OffsetMonotone(blocks, b, |blocks|);
    forall k | 0 <= k < |Concat(blocks)|
      ensures Less(Concat(blocks)[k].key, target) <==> k < Offset(blocks, b) + p
    {
      SeekSide(separators, blocks, target, b, p, k);
    }
  }

  class TwoLevelIterator {
    const separators: seq<Key>
    const handles: seq<nat>
    const blockFunction: nat -> seq<Entry>
    var indexPos: nat
    var data: Option<seq<Entry>>
    var dataPos: nat
    var dataBlockHandle: nat

    constructor (separators: seq<Key>, handles: seq<nat>, blockFunction: nat -> seq<Entry>)
      requires |handles| == |separators| && Separates(separators, seq(|handles|, b requires 0 <= b < |handles| => blockFunction(handles[b])))
      ensures this.separators == separators && this.handles == handles && this.blockFunction == blockFunction
      ensures Good() && At(|All()|) && Sorted(All())
    {
      ConcatSorted(separators, seq(|handles|, b requires 0 <= b < |handles| => blockFunction(handles[b])));
      this.separators, this.handles, this.blockFunction := separators, handles, blockFunction;
      indexPos, data, dataPos, dataBlockHandle := |separators|, None, 0, 0;
    }

    ghost function Blocks(): seq<seq<Entry>> {
      seq(|handles|, b requires 0 <= b < |handles| => blockFunction(handles[b]))
    }

    ghost function All(): seq<Entry> {
      Concat(Blocks())
    }

    // Between the statements of an operation: the data iterator, if any, reads
    // the block the index stands at.
    ghost predicate Consistent()
      reads this
    {
      && Separates(separators, Blocks())
      && indexPos <= |separators| == |handles|
      && (data.Some? ==> data.value == blockFunction(dataBlockHandle) && dataPos <= |data.value|)
    }

    ghost predicate OnIndexBlock()
      reads this
    {
      data.Some? ==> indexPos < |handles| && data.value == Blocks()[indexPos]
    }

    ghost predicate Good()
      reads this
    {
      Consistent() && OnIndexBlock() && (data.Some? ==> dataPos < |data.value|)
    }

    // The iterator stands at index k of the concatenation; |All()| is "not valid".
    ghost predicate At(k: nat)
      reads this
    {
      if data.Some? then indexPos < |handles| && k == Offset(Blocks(), indexPos) + dataPos && k < |All()| else k == |All()|
    }

    predicate Valid()
      reads this
    {
      data.Some? && dataPos < |data.value|
    }

    method Current(ghost k: nat) returns (e: Entry)
      requires Good() && Valid() && At(k)
      ensures e == All()[k]
    {
      ConcatAt(Blocks(), indexPos, dataPos);
      e := data.value[dataPos];
    }

    // Reuses the data iterator when the index names the same block.
    method InitDataBlock()
      requires Consistent()
      modifies `data, `dataPos, `dataBlockHandle
      ensures Consistent() && OnIndexBlock()
      ensures data.Some? <==> indexPos < |separators|
    {
      if indexPos >= |separators| {
        data := None;
      } else {
        var handle := handles[indexPos];
        if data.Some? && handle == dataBlockHandle {
        } else {
          var contents := blockFunction(handle);
          dataBlockHandle := handle;
          data, dataPos := Some(contents), |contents|;
        }
      }
    }

    // Moves over empty blocks; the answer is the first entry after block indexPos
    // when the data iterator has run off its end.
    method SkipEmptyDataBlocksForward()
      requires Consistent() && OnIndexBlock()
      requires data.None? ==> indexPos == |separators|
      modifies this
      ensures Good()
      ensures At(if old(data).None? then |All()| else Offset(Blocks(), old(indexPos)) + old(dataPos))
    {
      hide Separates, Concat, Offset;
      ghost var target := if data.None? then |All()| else Offset(Blocks(), indexPos) + dataPos;
      ConcatLength(Blocks());
      while data.None? || dataPos >= |data.value|
        invariant Consistent() && OnIndexBlock()
        invariant data.None? ==> indexPos == |separators| && target == |All()|
        invariant data.Some? ==> target == Offset(Blocks(), indexPos) + dataPos
        decreases |separators| - indexPos, if data.None? then 0 else 1
      {
        if indexPos >= |separators| {
          data := None;
          return;
        }
        OffsetNext(Blocks(), indexPos);
        indexPos := indexPos + 1;
        InitDataBlock();
        if data.Some? {
          dataPos := 0;
        }
      }
      ConcatAt(Blocks(), indexPos, dataPos);
    }

    // The mirror image: the answer is the last entry before block indexPos when
    // the data iterator has run off its front (dataPos is then past the end).
    method SkipEmptyDataBlocksBackward()
      requires Consistent() && OnIndexBlock()
      requires data.None? ==> indexPos == |separators|
      modifies this
      ensures Good()
      ensures old(data).None? ==> At(|All()|)
      ensures old(data).Some? ==>
        At(if old(dataPos) < |old(data).value| then Offset(Blocks(), old(indexPos)) + old(dataPos)
           else if Offset(Blocks(), old(indexPos)) == 0 then |All()| else Offset(Blocks(), old(indexPos)) - 1)
    {
      hide Separates, Concat;
      ConcatLength(Blocks());
      ghost var limit := if data.Some? then Offset(Blocks(), indexPos) else 0;
      ghost var inside := data.Some? && dataPos < |data.value|;
      ghost var here := limit + dataPos;
      while data.None? || dataPos >= |data.value|
        invariant Consistent() && OnIndexBlock()
        invariant inside ==> data.Some? && dataPos < |data.value| && Offset(Blocks(), indexPos) + dataPos == here
        invariant data.None? ==> indexPos == |separators| && limit == 0
        invariant !inside && data.Some? ==>
          if dataPos < |data.value| then limit > 0 && Offset(Blocks(), indexPos) + dataPos == limit - 1
          else Offset(Blocks(), indexPos) == limit
        decreases if data.None? then 0 else indexPos + 1
      {
        if indexPos >= |separators| {
          data := None;
          return;
        }
        indexPos := if indexPos == 0 then |separators| else indexPos - 1;
        InitDataBlock();
        if data.Some? {
          dataPos := LastPosition(data.value);
        }
      }
      ConcatAt(Blocks(), indexPos, dataPos);
    }

    method Seek(target: Key)
      requires Good()
      modifies this
      ensures Good() && exists k :: IsLowerBound(All(), target, k) && At(k)
    {
      hide Concat, Offset, Less, Sorted;
      indexPos := SeekIndex(separators, target);
      InitDataBlock();
      if data.Some? {
        dataPos := Versions.SeekPosition(data.value, target);
      }
      ghost var p := if data.Some? then dataPos else 0;
      SeekIsBound(separators, Blocks(), target, indexPos, p);
      ConcatLength(Blocks());
      SkipEmptyDataBlocksForward();
    }

    method SeekToFirst()
      requires Good()
      modifies this
      ensures Good() && At(0)
    {
      indexPos := 0;
      InitDataBlock();
      if data.Some? {
        dataPos := 0;
      }
      SkipEmptyDataBlocksForward();
    }

    method SeekToLast()
      requires Good()
      modifies this
      ensures Good() && At(LastPosition(All()))
    {
      indexPos := if |separators| == 0 then 0 else |separators| - 1;
      InitDataBlock();
      if data.Some? {
        dataPos := LastPosition(data.value);
      }
      ConcatLength(Blocks());
      SkipEmptyDataBlocksBackward();
    }

    method Next(ghost k: nat)
      requires Good() && Valid() && At(k)
      modifies this
      ensures Good() && At(k + 1)
    {
      dataPos := dataPos + 1;
      SkipEmptyDataBlocksForward();
    }

    method Prev(ghost k: nat)
      requires Good() && Valid() && At(k)
      modifies this
      ensures Good() && At(PrevPosition(All(), k))
    {
      dataPos := PrevPosition(data.value, dataPos);
      SkipEmptyDataBlocksBackward();
    }
  }
}
