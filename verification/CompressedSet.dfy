// The block-compressed posting list and its skipping iterator (varint/CompressedSet.cpp,
// varint/CollectionHelper.h). The block codec is an abstract pair of inverse functions.
module CompressedSets {
  import opened Powers
  import opened Codings
  import opened Wrappers
  import opened InternalKeys
  import opened LazyOrs

  const BATCH := 2048

  datatype Codec = Codec(compress: seq<Word> -> Bytes, uncompress: Bytes -> seq<Word>)

  ghost predicate Inverse(codec: Codec) {
    forall block: seq<Word> :: |block| == BATCH ==> codec.uncompress(codec.compress(block)) == block
  }

  // What a caller may put in: ascending, and never the value that means "no more".
  ghost predicate IsIds(docs: seq<Word>) {
    && (forall i :: 0 <= i < |docs| ==> docs[i] < NO_MORE_DOCS)
    && (forall i, j :: 0 <= i < j < |docs| ==> docs[i] < docs[j])
  }

  // ----- The layout of a list -----

  function Block(docs: seq<Word>, b: nat): (r: seq<Word>)
    requires BATCH * b + BATCH <= |docs|
    ensures |r| == BATCH
  {
    docs[BATCH * b..BATCH * b + BATCH]
  }

  // Full blocks are compressed, with the last doc of each in the base list; the rest
  // is open.
  ghost predicate Layout(codec: Codec, docs: seq<Word>, blocks: seq<Bytes>, bases: seq<Word>, open: seq<Word>) {
    && |docs| == BATCH * |blocks| + |open| && |open| <= BATCH && |bases| == |blocks|
    && open == docs[BATCH * |blocks|..]
    && (forall b :: 0 <= b < |blocks| ==> blocks[b] == codec.compress(Block(docs, b)))
    && (forall b :: 0 <= b < |bases| ==> bases[b] == docs[BATCH * b + BATCH - 1])
  }

  lemma CloseBlock(codec: Codec, docs: seq<Word>, blocks: seq<Bytes>, bases: seq<Word>, open: seq<Word>)
    requires Layout(codec, docs, blocks, bases, open) && |open| == BATCH
    ensures Layout(codec, docs, blocks + [codec.compress(open)], bases + [open[BATCH - 1]], [])
  {
    assert Block(docs, |blocks|) == open;
  }

  lemma OpenMore(codec: Codec, docs: seq<Word>, blocks: seq<Bytes>, bases: seq<Word>, open: seq<Word>, more: seq<Word>)
    requires Layout(codec, docs, blocks, bases, open) && |open| + |more| <= BATCH
    ensures Layout(codec, docs + more, blocks, bases, open + more)
  {
    forall b | 0 <= b < |blocks| ensures Block(docs + more, b) == Block(docs, b) {
    }
  }

  // ----- Searching -----

  ghost predicate AscendsTo(words: seq<Word>, end: nat)
    requires end < |words|
  {
    forall i, j :: 0 <= i < j <= end ==> words[i] < words[j]
  }

  lemma IdsAscend(words: seq<Word>)
    requires IsIds(words) && words != []
    ensures AscendsTo(words, |words| - 1)
  {
  }

  // binarySearchForFirstElementEqualOrLargerThanTarget, in both its forms.
  method FirstAtLeast(words: seq<Word>, start: nat, end: nat, target: Word) returns (r: int)
    requires start <= end < |words|
    requires AscendsTo(words, end)
    ensures r == -1 <==> words[end] < target
    ensures r != -1 ==> start <= r <= end && words[r] >= target && forall i :: start <= i < r ==> words[i] < target
  {
    var lo, hi := start, end;
    while lo < hi
      invariant start <= lo <= hi <= end
      invariant forall i :: start <= i < lo ==> words[i] < target
      invariant hi < end ==> words[hi] >= target
    {
      var mid := (lo + hi) / 2;
      if words[mid] < target {
        lo := mid + 1;
      } else if words[mid] == target {
        return mid;
      } else {
        hi := mid;
      }
    }
    r := if words[lo] >= target then lo else -1;
  }

  // Doc by doc to the first at least target.
  method ScanBlock(block: seq<Word>, start: nat, target: Word) returns (offset: nat, doc: Word)
    requires 0 < start < |block| && block[start - 1] < target <= block[|block| - 1]
    ensures start <= offset < |block| && doc == block[offset] >= target && block[offset - 1] < target
  {
    offset, doc := start, block[start];
    while offset < |block|
      invariant start <= offset < |block| && block[offset - 1] < target
    {
      doc := block[offset];
      if doc >= target {
        break;
      }
      offset := offset + 1;
    }
  }

  // Codec::findInArray; size may reach past the array, the search may not.
  method FindInArray(words: seq<Word>, size: nat, target: Word) returns (found: bool)
    requires forall i, j :: 0 <= i < j < |words| ==> words[i] < words[j]
    requires size <= |words| || (words != [] && words[|words| - 1] >= target)
    ensures found <==> target in words[..if size <= |words| then size else |words|]
  {
    var idx := 0;
    while idx < size
      invariant idx <= size && idx <= |words|
      invariant forall i :: 0 <= i < idx ==> words[i] < target
    {
      var lastId := words[idx];
      if lastId >= target {
        return lastId == target;
      }
      idx := idx + 1;
    }
    return false;
  }

  // The position between the docs below the target and the others is the first from
  // the cursor, if everything before the cursor is below the (raised) target.
  lemma FirstIsUnique(docs: seq<Word>, c: nat, target: nat, raised: nat, q: nat)
    requires IsIds(docs) && c <= |docs| && q <= |docs|
    requires raised == if c > 0 && target <= docs[c - 1] then docs[c - 1] + 1 else target
    requires q > 0 ==> docs[q - 1] < raised
    requires q < |docs| ==> docs[q] >= raised
    ensures q == FirstFrom(docs, c, target)
  {
    var p := FirstFrom(docs, c, target);
  }

  // Only one block can hold a doc.
  lemma InBlock(docs: seq<Word>, b: nat, target: Word)
    requires IsIds(docs) && BATCH * b + BATCH <= |docs|
    requires b > 0 ==> docs[BATCH * b - 1] < target
    requires target <= docs[BATCH * b + BATCH - 1]
    ensures target in Block(docs, b) <==> target in docs
  {
    if k :| 0 <= k < |docs| && docs[k] == target {
      assert BATCH * b <= k < BATCH * b + BATCH;
      assert Block(docs, b)[k - BATCH * b] == target;
    }
  }

  // ----- The set -----

  // std::vector::resize.
  function Resized(words: seq<Word>, n: nat): (r: seq<Word>)
    ensures |r| == n && forall i :: 0 <= i < n && i < |words| ==> r[i] == words[i]
  {
    if n <= |words| then words[..n] else words + seq(n - |words|, _ => 0)
  }

  // memcpy of more into words from position at on.
  function Copied(words: seq<Word>, at: nat, more: seq<Word>): (r: seq<Word>)
    requires at + |more| <= |words|
    ensures |r| == |words| && r[..at + |more|] == words[..at] + more
  {
    words[..at] + more + words[at + |more|..]
  }

  class CompressedSet {
    const codec: Codec
    var sizeOfCurrentNoCompBlock: nat
    var baseListForOnlyCompBlocks: seq<Word>
    var totalDocIdNum: nat
    var currentNoCompBlock: seq<Word>
    var sequenceOfCompBlocks: seq<Bytes>
    ghost var docs: seq<Word>

    constructor (codec: Codec)
      requires Inverse(codec)
      ensures this.codec == codec && Valid() && docs == []
    {
      this.codec := codec;
      sizeOfCurrentNoCompBlock, totalDocIdNum := 0, 0;
      baseListForOnlyCompBlocks, currentNoCompBlock, sequenceOfCompBlocks := [], [], [];
      docs := [];
    }

    ghost predicate HasLayout(docs: seq<Word>)
      reads this
    {
      && Inverse(codec) && sizeOfCurrentNoCompBlock <= |currentNoCompBlock|
      && Layout(codec, docs, sequenceOfCompBlocks, baseListForOnlyCompBlocks, currentNoCompBlock[..sizeOfCurrentNoCompBlock])
    }

    ghost predicate Valid()
      reads this
    {
      && HasLayout(docs) && totalDocIdNum == |docs|
      && (docs != [] ==> sizeOfCurrentNoCompBlock > 0)
    }

    // The full block is compressed and its last doc goes to the base list.
    method CompressCurrentBlock()
      requires HasLayout(docs) && sizeOfCurrentNoCompBlock == BATCH
      modifies `sequenceOfCompBlocks, `baseListForOnlyCompBlocks
      ensures Layout(codec, docs, sequenceOfCompBlocks, baseListForOnlyCompBlocks, [])
    {
      ghost var open := currentNoCompBlock[..sizeOfCurrentNoCompBlock];
      CloseBlock(codec, docs, sequenceOfCompBlocks, baseListForOnlyCompBlocks, open);
      baseListForOnlyCompBlocks := baseListForOnlyCompBlocks + [currentNoCompBlock[BATCH - 1]];
      sequenceOfCompBlocks := sequenceOfCompBlocks + [codec.compress(currentNoCompBlock[..sizeOfCurrentNoCompBlock])];
    }

    method AddDoc(docId: Word)
      requires Valid()
      modifies this
      ensures Valid() && docs == old(docs) + [docId]
    {
      hide Layout, Inverse;
      ghost var open := currentNoCompBlock[..sizeOfCurrentNoCompBlock];
      if sizeOfCurrentNoCompBlock != BATCH {
        LayoutFits(codec, docs, sequenceOfCompBlocks, baseListForOnlyCompBlocks, open);
        OpenMore(codec, docs, sequenceOfCompBlocks, baseListForOnlyCompBlocks, open, [docId]);
        currentNoCompBlock := Resized(currentNoCompBlock, sizeOfCurrentNoCompBlock + 1);
        currentNoCompBlock := currentNoCompBlock[sizeOfCurrentNoCompBlock := docId];
        sizeOfCurrentNoCompBlock := sizeOfCurrentNoCompBlock + 1;
        assert currentNoCompBlock[..sizeOfCurrentNoCompBlock] == open + [docId];
      } else {
        CompressCurrentBlock();
        OpenMore(codec, docs, sequenceOfCompBlocks, baseListForOnlyCompBlocks, [], [docId]);
        sizeOfCurrentNoCompBlock := 1;
        currentNoCompBlock := Resized(currentNoCompBlock, 1);
        currentNoCompBlock := currentNoCompBlock[0 := docId];
        assert currentNoCompBlock[..1] == [] + [docId];
      }
      docs := docs + [docId];
      totalDocIdNum := totalDocIdNum + 1;
    }

    method AddDocs(docids: seq<Word>, start: nat, len: nat)
      requires Valid() && start + len <= |docids|
      modifies this
      ensures Valid() && docs == old(docs) + docids[start..start + len]
    {
      hide Layout, Inverse;
      ghost var before := docs;
      LayoutFits(codec, docs, sequenceOfCompBlocks, baseListForOnlyCompBlocks, currentNoCompBlock[..sizeOfCurrentNoCompBlock]);
      if len + sizeOfCurrentNoCompBlock <= BATCH {
        AppendOpen(docids[start..start + len]);
      } else {
        var copyLen := BATCH - sizeOfCurrentNoCompBlock;
        FillUp(docids[start..start + copyLen]);
        var leftLen: nat, newStart: nat := len - copyLen, start + copyLen;
        while leftLen > BATCH
          invariant newStart + leftLen == start + len && leftLen > 0 && newStart >= start
          invariant HasBlocks() && sizeOfCurrentNoCompBlock == BATCH
          invariant totalDocIdNum == |before|
          invariant docs == before + docids[start..newStart]
        {
          TakeBlock(docids[newStart..newStart + BATCH]);
          leftLen, newStart := leftLen - BATCH, newStart + BATCH;
          assert docids[start..newStart] == docids[start..newStart - BATCH] + docids[newStart - BATCH..newStart];
        }
        TakeRest(docids[newStart..newStart + leftLen]);
        assert docids[start..start + len] == docids[start..newStart] + docids[newStart..newStart + leftLen];
      }
      totalDocIdNum := totalDocIdNum + len;
    }

    // Every doc so far is in a compressed block.
    ghost predicate HasBlocks()
      reads this
    {
      && Inverse(codec) && |currentNoCompBlock| == BATCH
      && Layout(codec, docs, sequenceOfCompBlocks, baseListForOnlyCompBlocks, [])
    }

    method AppendOpen(more: seq<Word>)
      requires HasLayout(docs) && sizeOfCurrentNoCompBlock + |more| <= BATCH
      modifies this
      ensures HasLayout(docs) && sizeOfCurrentNoCompBlock == old(sizeOfCurrentNoCompBlock) + |more|
      ensures docs == old(docs) + more && totalDocIdNum == old(totalDocIdNum)
    {
      hide Layout, Inverse;
      OpenMore(codec, docs, sequenceOfCompBlocks, baseListForOnlyCompBlocks, currentNoCompBlock[..sizeOfCurrentNoCompBlock], more);
      docs := docs + more;
      var resized := Resized(currentNoCompBlock, |more| + sizeOfCurrentNoCompBlock);
      assert resized[..sizeOfCurrentNoCompBlock] == currentNoCompBlock[..sizeOfCurrentNoCompBlock];
      currentNoCompBlock := Copied(resized, sizeOfCurrentNoCompBlock, more);
      sizeOfCurrentNoCompBlock := sizeOfCurrentNoCompBlock + |more|;
    }

    method FillUp(more: seq<Word>)
      requires HasLayout(docs) && sizeOfCurrentNoCompBlock + |more| == BATCH
      modifies this
      ensures HasBlocks() && sizeOfCurrentNoCompBlock == BATCH
      ensures docs == old(docs) + more && totalDocIdNum == old(totalDocIdNum)
    {
      hide Layout, Inverse;
      OpenMore(codec, docs, sequenceOfCompBlocks, baseListForOnlyCompBlocks, currentNoCompBlock[..sizeOfCurrentNoCompBlock], more);
      docs := docs + more;
      var resized := Resized(currentNoCompBlock, BATCH);
      assert resized[..sizeOfCurrentNoCompBlock] == currentNoCompBlock[..sizeOfCurrentNoCompBlock];
      currentNoCompBlock := Copied(resized, sizeOfCurrentNoCompBlock, more);
      sizeOfCurrentNoCompBlock := BATCH;
      CompressCurrentBlock();
    }

    method TakeBlock(block: seq<Word>)
      requires HasBlocks() && sizeOfCurrentNoCompBlock == BATCH && |block| == BATCH
      modifies this
      ensures HasBlocks() && sizeOfCurrentNoCompBlock == BATCH
      ensures docs == old(docs) + block && totalDocIdNum == old(totalDocIdNum)
    {
      hide Layout, Inverse;
      OpenMore(codec, docs, sequenceOfCompBlocks, baseListForOnlyCompBlocks, [], block);
      docs := docs + block;
      currentNoCompBlock := Copied(currentNoCompBlock, 0, block);
      assert currentNoCompBlock[..BATCH] == [] + block;
      CompressCurrentBlock();
    }

    method TakeRest(more: seq<Word>)
      requires HasBlocks() && 0 < |more| <= BATCH
      modifies this
      ensures HasLayout(docs) && sizeOfCurrentNoCompBlock == |more|
      ensures docs == old(docs) + more && totalDocIdNum == old(totalDocIdNum)
    {
      hide Layout, Inverse;
      OpenMore(codec, docs, sequenceOfCompBlocks, baseListForOnlyCompBlocks, [], more);
      docs := docs + more;
      currentNoCompBlock := Copied(currentNoCompBlock, 0, more);
      sizeOfCurrentNoCompBlock := |more|;
      assert currentNoCompBlock[..|more|] == [] + more;
    }

    function Snapshot(): Fields
      requires sizeOfCurrentNoCompBlock <= |currentNoCompBlock|
      reads this
    {
      Fields(totalDocIdNum, sizeOfCurrentNoCompBlock, currentNoCompBlock[..sizeOfCurrentNoCompBlock],
             baseListForOnlyCompBlocks, sequenceOfCompBlocks)
    }

    lemma Shape()
      requires Valid()
      ensures sizeOfCurrentNoCompBlock <= |currentNoCompBlock| && IsShaped(Snapshot())
    {
    }

    lemma HasInverse()
      requires Valid()
      ensures Inverse(codec)
    {
    }

    method Write() returns (out: Bytes)
      requires Valid()
      ensures IsShaped(Snapshot()) && out == Written(Snapshot())
    {
      hide EncodeFixed, Ints, Chunks, CompressedSet.Valid, BlocksWritten;
      Shape();
      out := EncodeFixed(totalDocIdNum, 4);
      if totalDocIdNum > 0 {
        if totalDocIdNum >= BATCH {
          out := out + EncodeFixed(sizeOfCurrentNoCompBlock, 4);
        }
        out := out + Ints(currentNoCompBlock[..sizeOfCurrentNoCompBlock]);
      }
      if totalDocIdNum > BATCH {
        out := out + EncodeFixed(|baseListForOnlyCompBlocks|, 4);
        out := out + Ints(baseListForOnlyCompBlocks);
        var chunks := WriteChunks(sequenceOfCompBlocks);
        out := out + chunks;
        WrittenInOrder(EncodeFixed(totalDocIdNum, 4), EncodeFixed(sizeOfCurrentNoCompBlock, 4), Snapshot());
      }
    }

    // The fields are those of the list saved.
    ghost predicate Describes(saved: seq<Word>)
      requires sizeOfCurrentNoCompBlock <= |currentNoCompBlock|
      reads this
    {
      && IsShaped(Snapshot())
      && Layout(codec, saved, sequenceOfCompBlocks, baseListForOnlyCompBlocks, Snapshot().current)
    }

    // ok is the state of the stream; if it holds, the set is as the fields read say.
    method Read(input: Bytes, ghost saved: seq<Word>) returns (ok: bool, rest: Bytes)
      requires sizeOfCurrentNoCompBlock <= |currentNoCompBlock| && Inverse(codec)
      modifies this
      ensures ok <==> ReadFields(old(Snapshot()), input).Some?
      ensures ok ==> sizeOfCurrentNoCompBlock <= |currentNoCompBlock| &&
                     ReadFields(old(Snapshot()), input) == Some(Decoded(Snapshot(), rest))
      ensures ok && Describes(saved) ==> Valid() && docs == saved
    {
      hide TakeInt, TakeInts, TakeChunks;
      docs := saved;
      var total := TakeInt(input);
      if total.None? {
        return false, input;
      }
      totalDocIdNum, rest := total.value.value, total.value.rest;
      if totalDocIdNum > 0 {
        if totalDocIdNum < BATCH {
          sizeOfCurrentNoCompBlock := totalDocIdNum;
        } else {
          var size := TakeInt(rest);
          if size.None? {
            return false, rest;
          }
          sizeOfCurrentNoCompBlock, rest := size.value.value, size.value.rest;
        }
        var current := TakeInts(rest, sizeOfCurrentNoCompBlock);
        if current.None? {
          return false, rest;
        }
        TakeIntsLength(rest, sizeOfCurrentNoCompBlock);
        currentNoCompBlock, rest := current.value.value, current.value.rest;
        assert currentNoCompBlock[..sizeOfCurrentNoCompBlock] == currentNoCompBlock;
        if totalDocIdNum > BATCH {
          ok, rest := ReadCompressed(rest);
          return;
        }
      }
      ok := true;
    }

    method ReadCompressed(input: Bytes) returns (ok: bool, rest: Bytes)
      requires sizeOfCurrentNoCompBlock <= |currentNoCompBlock|
      modifies `baseListForOnlyCompBlocks, `sequenceOfCompBlocks
      ensures ok <==> ReadBlocks(old(Snapshot()), input).Some?
      ensures ok ==> ReadBlocks(old(Snapshot()), input) == Some(Decoded(Snapshot(), rest))
    {
      hide TakeInt, TakeInts, TakeChunks;
      var n := TakeInt(input);
      if n.None? {
        return false, input;
      }
      var bases := TakeInts(n.value.rest, n.value.value);
      if bases.None? {
        return false, n.value.rest;
      }
      baseListForOnlyCompBlocks := bases.value.value;
      var m := TakeInt(bases.value.rest);
      if m.None? {
        return false, bases.value.rest;
      }
      var blocks := ReadChunks(m.value.rest, m.value.value);
      if blocks.None? {
        return false, m.value.rest;
      }
      sequenceOfCompBlocks := blocks.value.value;
      return true, blocks.value.rest;
    }

    lemma DocAt(c: nat)
      requires Valid() && c < totalDocIdNum
      ensures var b := c / BATCH;
        if c < BATCH * |sequenceOfCompBlocks| then
          b < |sequenceOfCompBlocks| && BATCH * b + BATCH <= |docs| &&
          codec.uncompress(sequenceOfCompBlocks[b]) == Block(docs, b) && Block(docs, b)[c % BATCH] == docs[c]
        else b == |sequenceOfCompBlocks| && c % BATCH < |currentNoCompBlock| && currentNoCompBlock[c % BATCH] == docs[c]
    {
      if c >= BATCH * |sequenceOfCompBlocks| {
        assert currentNoCompBlock[..sizeOfCurrentNoCompBlock][c % BATCH] == docs[c];
      }
    }

    lemma BlockAt(b: nat)
      requires Valid() && b < |sequenceOfCompBlocks|
      ensures BATCH * b + BATCH <= |docs| && codec.uncompress(sequenceOfCompBlocks[b]) == Block(docs, b)
      ensures |baseListForOnlyCompBlocks| == |sequenceOfCompBlocks| && baseListForOnlyCompBlocks[b] == Block(docs, b)[BATCH - 1]
    {
    }

    lemma BasesAscend()
      requires Valid() && IsIds(docs)
      ensures IsIds(baseListForOnlyCompBlocks) && |baseListForOnlyCompBlocks| == |sequenceOfCompBlocks|
    {
    }

    lemma OpenBlock()
      requires Valid() && docs != []
      ensures |docs| == BATCH * |sequenceOfCompBlocks| + sizeOfCurrentNoCompBlock
      ensures 0 < sizeOfCurrentNoCompBlock <= |currentNoCompBlock|
      ensures IsIds(docs) ==> AscendsTo(currentNoCompBlock, sizeOfCurrentNoCompBlock - 1)
      ensures forall i :: 0 <= i < sizeOfCurrentNoCompBlock ==> currentNoCompBlock[i] == docs[BATCH * |sequenceOfCompBlocks| + i]
    {
      var open := currentNoCompBlock[..sizeOfCurrentNoCompBlock];
      assert forall i :: 0 <= i < |open| ==> open[i] == currentNoCompBlock[i];
    }

    // Membership.
    method Find(target: Word) returns (found: bool)
      requires Valid() && IsIds(docs)
      ensures found <==> target in docs
    {
      var size, bases := sizeOfCurrentNoCompBlock, baseListForOnlyCompBlocks;
      if totalDocIdNum == 0 {
        return false;
      }
      if size != 0 {
        if target > currentNoCompBlock[size - 1] {
          assert currentNoCompBlock[..size][size - 1] == docs[|docs| - 1];
          return false;
        }
        if |bases| == 0 || target > bases[|bases| - 1] {
          var i := 0;
          while i < size && currentNoCompBlock[i] < target
            invariant i <= size
            invariant forall k :: 0 <= k < i ==> currentNoCompBlock[k] < target
          {
            i := i + 1;
          }
          return i < size && currentNoCompBlock[i] == target;
        }
      }
      if |bases| > 0 {
        var index := FirstAtLeast(bases, 0, |bases| - 1, target);
        if index < 0 {
          return false;
        }
        var block := codec.uncompress(sequenceOfCompBlocks[index]);
        assert index > 0 ==> bases[index - 1] < target;
        InBlock(docs, index, target);
        // Uncompress reports the size in bytes.
        found := FindInArray(block, 4 * |block|, target);
        return;
      }
      return false;
    }
  }

  lemma LayoutFits(codec: Codec, docs: seq<Word>, blocks: seq<Bytes>, bases: seq<Word>, open: seq<Word>)
    requires Layout(codec, docs, blocks, bases, open)
    ensures |open| <= BATCH
  {
  }

  // ----- Writing and reading back -----

  datatype Fields = Fields(total: nat, size: nat, current: seq<Word>, bases: seq<Word>, blocks: seq<Bytes>)

  // What a set built by adding docs looks like.
  ghost predicate IsShaped(f: Fields) {
    && f.total == BATCH * |f.blocks| + f.size && |f.bases| == |f.blocks|
    && |f.current| == f.size <= BATCH && (f.total > 0 ==> f.size > 0)
  }

  // Every number written fits the four bytes it gets.
  ghost predicate FitsFile(f: Fields) {
    f.total < TWO_32 && forall b :: 0 <= b < |f.blocks| ==> |f.blocks[b]| < TWO_32
  }

  function Ints(words: seq<Word>): (r: Bytes)
    ensures |r| == 4 * |words|
  {
    if words == [] then [] else EncodeFixed(words[0], 4) + Ints(words[1..])
  }

  function Chunks(chunks: seq<Bytes>): Bytes {
    if chunks == [] then [] else EncodeFixed(|chunks[0]|, 4) + (chunks[0] + Chunks(chunks[1..]))
  }

  function Written(f: Fields): Bytes {
    EncodeFixed(f.total, 4) + ListWritten(f)
  }

  function ListWritten(f: Fields): Bytes {
    if f.total == 0 then []
    else if f.total < BATCH then Ints(f.current)
    else EncodeFixed(f.size, 4) + (Ints(f.current) + if f.total == BATCH then [] else BlocksWritten(f))
  }

  function BlocksWritten(f: Fields): Bytes {
    EncodeFixed(|f.bases|, 4) + (Ints(f.bases) + (EncodeFixed(|f.blocks|, 4) + Chunks(f.blocks)))
  }

  function TakeInt(s: Bytes): Option<Decoded<Word>> {
    if |s| < 4 then None
    else
      FixedRoundTripBack(s[..4]);
      FixedWidths();
      Some(Decoded(DecodeFixed(s[..4]), s[4..]))
  }

  function TakeInts(s: Bytes, n: nat): Option<Decoded<seq<Word>>> {
    if n == 0 then Some(Decoded([], s))
    else match TakeInt(s)
      case None => None
      case Some(first) =>
        match TakeInts(first.rest, n - 1)
        case None => None
        case Some(others) => Some(Decoded([first.value] + others.value, others.rest))
  }

  function TakeChunk(s: Bytes): Option<Decoded<Bytes>> {
    match TakeInt(s)
    case None => None
    case Some(d) => if |d.rest| < d.value then None else Some(Decoded(d.rest[..d.value], d.rest[d.value..]))
  }

  function TakeChunks(s: Bytes, n: nat): Option<Decoded<seq<Bytes>>> {
    if n == 0 then Some(Decoded([], s))
    else match TakeChunk(s)
      case None => None
      case Some(first) =>
        match TakeChunks(first.rest, n - 1)
        case None => None
        case Some(others) => Some(Decoded([first.value] + others.value, others.rest))
  }

  lemma TakeIntBack(v: Word, rest: Bytes)
    ensures TakeInt(EncodeFixed(v, 4) + rest) == Some(Decoded(v, rest))
  {
    var all := EncodeFixed(v, 4) + rest;
    assert all[..4] == EncodeFixed(v, 4) && all[4..] == rest;
    FixedWidths();
    FixedRoundTrip(v, 4);
  }

  lemma {:induction false} TakeIntsBack(words: seq<Word>, rest: Bytes)
    ensures TakeInts(Ints(words) + rest, |words|) == Some(Decoded(words, rest))
  {
    hide TakeInt, EncodeFixed;
    if words == [] {
      assert Ints(words) + rest == rest;
    } else {
      assert Ints(words) + rest == EncodeFixed(words[0], 4) + (Ints(words[1..]) + rest);
      TakeIntBack(words[0], Ints(words[1..]) + rest);
      TakeIntsBack(words[1..], rest);
      assert words == [words[0]] + words[1..];
    }
  }

  lemma {:induction false} TakeIntsLength(s: Bytes, n: nat)
    ensures TakeInts(s, n).Some? ==> |TakeInts(s, n).value.value| == n
    decreases n
  {
    hide TakeInt;
    if n > 0 && TakeInt(s).Some? {
      TakeIntsLength(TakeInt(s).value.rest, n - 1);
    }
  }

  lemma {:induction false} TakeChunksBack(chunks: seq<Bytes>, rest: Bytes)
    requires forall b :: 0 <= b < |chunks| ==> |chunks[b]| < TWO_32
    ensures TakeChunks(Chunks(chunks) + rest, |chunks|) == Some(Decoded(chunks, rest))
  {
    hide TakeInt, EncodeFixed;
    if chunks == [] {
      assert Chunks(chunks) + rest == rest;
    } else {
      var c, more := chunks[0], Chunks(chunks[1..]) + rest;
      assert Chunks(chunks) + rest == EncodeFixed(|c|, 4) + (c + more);
      TakeIntBack(|c|, c + more);
      assert (c + more)[..|c|] == c && (c + more)[|c|..] == more;
      TakeChunksBack(chunks[1..], rest);
      assert chunks == [c] + chunks[1..];
    }
  }

  // What is read is put over what the set held; a list that fits one block says
  // nothing about compressed blocks, an empty list nothing about any.
  function ReadFields(into: Fields, s: Bytes): Option<Decoded<Fields>> {
    match TakeInt(s)
    case None => None
    case Some(total) =>
      var f := into.(total := total.value);
      if f.total == 0 then Some(Decoded(f, total.rest))
      else if f.total < BATCH then ReadCurrent(f.(size := f.total), total.rest)
      else match TakeInt(total.rest)
        case None => None
        case Some(size) => ReadCurrent(f.(size := size.value), size.rest)
  }

  function ReadCurrent(f: Fields, s: Bytes): Option<Decoded<Fields>> {
    match TakeInts(s, f.size)
    case None => None
    case Some(current) =>
      var g := f.(current := current.value);
      if g.total <= BATCH then Some(Decoded(g, current.rest)) else ReadBlocks(g, current.rest)
  }

  function ReadBlocks(f: Fields, s: Bytes): Option<Decoded<Fields>> {
    match TakeInt(s)
    case None => None
    case Some(n) =>
      match TakeInts(n.rest, n.value)
      case None => None
      case Some(bases) =>
        match TakeInt(bases.rest)
        case None => None
        case Some(m) =>
          match TakeChunks(m.rest, m.value)
          case None => None
          case Some(blocks) => Some(Decoded(f.(bases := bases.value, blocks := blocks.value), blocks.rest))
  }

  function Restored(f: Fields, into: Fields): Fields {
    if f.total == 0 then into.(total := 0)
    else if f.total <= BATCH then f.(bases := into.bases, blocks := into.blocks)
    else f
  }

  // Reading back gives the list written, and all that was written is consumed.
  lemma ReadUndoesWrite(f: Fields, into: Fields, rest: Bytes)
    requires IsShaped(f) && FitsFile(f)
    ensures ReadFields(into, Written(f) + rest) == Some(Decoded(Restored(f, into), rest))
  {
    hide TakeInt, TakeInts, TakeChunks, EncodeFixed, Ints, Chunks;
    var tail := ListWritten(f);
    assert Written(f) + rest == EncodeFixed(f.total, 4) + (tail + rest);
    TakeIntBack(f.total, tail + rest);
    if f.total == 0 {
      assert tail + rest == rest;
    } else if f.total < BATCH {
      TakeIntsBack(f.current, rest);
    } else {
      var more := if f.total == BATCH then [] else BlocksWritten(f);
      assert tail + rest == EncodeFixed(f.size, 4) + (Ints(f.current) + (more + rest));
      TakeIntBack(f.size, Ints(f.current) + (more + rest));
      TakeIntsBack(f.current, more + rest);
      if f.total == BATCH {
        assert more + rest == rest;
      } else {
        BlocksBack(f, into, rest);
      }
    }
  }

  lemma BlocksBack(f: Fields, into: Fields, rest: Bytes)
    requires IsShaped(f) && FitsFile(f)
    ensures ReadBlocks(f.(bases := into.bases, blocks := into.blocks), BlocksWritten(f) + rest) == Some(Decoded(f, rest))
  {
    hide TakeInt, TakeInts, TakeChunks, EncodeFixed, Ints, Chunks;
    var s3 := Chunks(f.blocks) + rest;
    var s2 := EncodeFixed(|f.blocks|, 4) + s3;
    var s1 := Ints(f.bases) + s2;
    assert BlocksWritten(f) + rest == EncodeFixed(|f.bases|, 4) + s1;
    TakeIntBack(|f.bases|, s1);
    TakeIntsBack(f.bases, s2);
    TakeIntBack(|f.blocks|, s3);
    TakeChunksBack(f.blocks, rest);
  }

  // The set read into becomes the set written exactly if it held no compressed block
  // the list would leave in place, nor an open block an empty list would.
  lemma ReadRestores(f: Fields, into: Fields, rest: Bytes)
    requires IsShaped(f) && FitsFile(f) && IsShaped(into)
    ensures ReadFields(into, Written(f) + rest) == Some(Decoded(f, rest)) <==>
            (f.total > BATCH || (into.blocks == [] && (f.total > 0 || into.size == 0)))
  {
    ReadUndoesWrite(f, into, rest);
    hide ReadFields, Written;
  }

  // DeltaChunkStore::write.
  method WriteChunks(chunks: seq<Bytes>) returns (out: Bytes)
    ensures out == EncodeFixed(|chunks|, 4) + Chunks(chunks)
  {
    hide EncodeFixed, Chunks;
    out := EncodeFixed(|chunks|, 4);
    NoChunks();
    var i := 0;
    while i < |chunks|
      invariant i <= |chunks| && out == EncodeFixed(|chunks|, 4) + Chunks(chunks[..i])
    {
      ChunksNext(chunks[..i], chunks[i]);
      assert chunks[..i + 1] == chunks[..i] + [chunks[i]];
      out := out + (EncodeFixed(|chunks[i]|, 4) + chunks[i]);
      i := i + 1;
    }
    assert chunks[..i] == chunks;
  }

  lemma WrittenInOrder(total: Bytes, size: Bytes, f: Fields)
    ensures total + size + Ints(f.current) + EncodeFixed(|f.bases|, 4) + Ints(f.bases) + (EncodeFixed(|f.blocks|, 4) + Chunks(f.blocks)) ==
            total + (size + (Ints(f.current) + BlocksWritten(f)))
  {
    hide EncodeFixed, Ints, Chunks;
  }

  lemma NoChunks()
    ensures Chunks([]) == []
  {
  }

  lemma {:induction false} ChunksNext(chunks: seq<Bytes>, c: Bytes)
    ensures Chunks(chunks + [c]) == Chunks(chunks) + (EncodeFixed(|c|, 4) + c)
  {
    hide EncodeFixed;
    if chunks == [] {
      assert chunks + [c] == [c] && Chunks([c][1..]) == [];
    } else {
      assert (chunks + [c])[1..] == chunks[1..] + [c];
      ChunksNext(chunks[1..], c);
    }
  }

  // DeltaChunkStore::read; None is a stream that ends early.
  method ReadChunks(s: Bytes, n: nat) returns (r: Option<Decoded<seq<Bytes>>>)
    ensures r == TakeChunks(s, n)
  {
    hide TakeChunk;
    var data: seq<Bytes>, rest, i := [], s, 0;
    assert forall v: seq<Bytes> :: data + v == v;
    while i < n
      invariant i <= n && |data| == i
      invariant TakeChunks(s, n) == match TakeChunks(rest, n - i)
                                    case None => None
                                    case Some(others) => Some(Decoded(data + others.value, others.rest))
    {
      var chunk := TakeChunk(rest);
      if chunk.None? {
        return None;
      }
      ghost var others := TakeChunks(chunk.value.rest, n - i - 1);
      assert others.Some? ==> data + ([chunk.value.value] + others.value.value) == (data + [chunk.value.value]) + others.value.value;
      data, rest := data + [chunk.value.value], chunk.value.rest;
      i := i + 1;
    }
    assert data + [] == data;
    return Some(Decoded(data, rest));
  }

  // ----- The iterator -----

  lemma BlockIsIds(docs: seq<Word>, b: nat)
    requires IsIds(docs) && BATCH * b + BATCH <= |docs|
    ensures IsIds(Block(docs, b))
  {
  }

  lemma BeforeInBlock(docs: seq<Word>, c: nat)
    requires c % BATCH != 0 && BATCH * (c / BATCH) + BATCH <= |docs|
    ensures c - 1 < |docs| && docs[c - 1] == Block(docs, c / BATCH)[c % BATCH - 1]
  {
  }

  // A place inside a block is a place in the list.
  lemma PickedInBlock(docs: seq<Word>, b: nat, offset: nat, target: nat)
    requires IsIds(docs) && BATCH * b + BATCH <= |docs| && offset < BATCH
    requires b > 0 ==> docs[BATCH * b - 1] < target
    requires offset > 0 ==> Block(docs, b)[offset - 1] < target
    ensures var q := BATCH * b + offset;
      q / BATCH == b && docs[q] == Block(docs, b)[offset] && (q > 0 ==> docs[q - 1] < target)
  {
    if offset > 0 {
      assert Block(docs, b)[offset - 1] == docs[BATCH * b + offset - 1];
    }
  }

  // The docs before the compressed block at b, or before the open one, are below the
  // target once every doc before the cursor c in that block is.
  lemma BeforeBlock(docs: seq<Word>, b: nat, c: nat, raised: nat)
    requires IsIds(docs) && BATCH * b <= c <= |docs|
    requires c > 0 ==> docs[c - 1] < raised
    ensures b > 0 ==> docs[BATCH * b - 1] < raised
  {
    assert b > 0 ==> BATCH * b - 1 <= c - 1;
  }

  class CompressedSetIterator {
    const parent: CompressedSet
    const totalDocIdNum: nat
    const compBlockNum: nat
    var lastAccessedDocId: nat
    var cursor: int
    var iterDecompBlock: seq<Word>

    constructor (parent: CompressedSet)
      requires parent.Valid()
      ensures this.parent == parent && Valid() && cursor == -1
    {
      this.parent, totalDocIdNum, compBlockNum := parent, parent.totalDocIdNum, |parent.sequenceOfCompBlocks|;
      lastAccessedDocId, cursor := NO_MORE_DOCS, -1;
      iterDecompBlock := seq(BATCH, _ => 0);
    }

    // The set is as it was when the iterator was made.
    ghost predicate Unchanged()
      reads parent
    {
      parent.Valid() && totalDocIdNum == parent.totalDocIdNum && compBlockNum == |parent.sequenceOfCompBlocks|
    }

    // The decompressed block is the one a cursor inside the compressed part is in.
    ghost predicate HoldsBlock(cursor: int)
      requires Unchanged()
      reads `iterDecompBlock, parent
    {
      && |iterDecompBlock| == BATCH
      && (0 <= cursor < BATCH * compBlockNum ==> iterDecompBlock == Block(parent.docs, cursor / BATCH))
    }

    ghost predicate Valid()
      reads this, parent
    {
      && Unchanged() && -1 <= cursor <= totalDocIdNum && HoldsBlock(cursor)
      && lastAccessedDocId == DocAtCursor(cursor)
    }

    ghost function DocAtCursor(cursor: int): nat
      reads parent
    {
      if 0 <= cursor < |parent.docs| then parent.docs[cursor] else NO_MORE_DOCS
    }

    ghost predicate Exhausted()
      reads `cursor
    {
      totalDocIdNum == 0 || cursor == totalDocIdNum
    }

    method NextDoc() returns (r: nat)
      requires Valid() && cursor < totalDocIdNum
      modifies this
      ensures Valid() && cursor == old(cursor) + 1 && r == DocAtCursor(cursor)
    {
      hide CompressedSet.Valid, Block;
      TotalIsLength();
      cursor := cursor + 1;
      if cursor == totalDocIdNum {
        lastAccessedDocId := NO_MORE_DOCS;
      } else {
        // cursor >> 11 and cursor & 2047
        var iterBlockIndex, offset := cursor / BATCH, cursor % BATCH;
        parent.DocAt(cursor);
        if iterBlockIndex == compBlockNum {
          lastAccessedDocId := parent.currentNoCompBlock[offset];
        } else if offset != 0 {
          SameBlock(cursor);
          lastAccessedDocId := iterDecompBlock[offset];
        } else {
          iterDecompBlock := parent.codec.uncompress(parent.sequenceOfCompBlocks[iterBlockIndex]);
          lastAccessedDocId := iterDecompBlock[0];
        }
      }
      return lastAccessedDocId;
    }

    lemma TotalIsLength()
      requires Unchanged()
      ensures totalDocIdNum == |parent.docs| && BATCH * compBlockNum <= totalDocIdNum
    {
    }

    // Inside a block the cursor before was in the same one.
    lemma SameBlock(c: nat)
      requires c % BATCH != 0
      ensures c > 0 && (c - 1) / BATCH == c / BATCH
    {
    }

    // The cursor is behind a doc below target and, unless at the end, on one that is not.
    ghost predicate Splits(target: nat)
      reads `cursor, parent
    {
      && 0 <= cursor <= |parent.docs|
      && (cursor > 0 ==> parent.docs[cursor - 1] < target)
      && (cursor < |parent.docs| ==> parent.docs[cursor] >= target)
    }

    // What Advance has established when it looks at the compressed blocks: everything
    // before the cursor is below target, some compressed doc is not, and the current
    // block is at hand unless the cursor has just entered it.
    ghost predicate Searching(target: nat)
      reads `cursor, `iterDecompBlock, parent
    {
      && Unchanged() && IsIds(parent.docs) && |iterDecompBlock| == BATCH
      && 0 <= cursor < BATCH * compBlockNum
      && (cursor % BATCH != 0 ==> iterDecompBlock == Block(parent.docs, cursor / BATCH))
      && (cursor > 0 ==> parent.docs[cursor - 1] < target)
      && target <= parent.baseListForOnlyCompBlocks[compBlockNum - 1]
    }

    method AdvanceToTargetInTheFollowingCompBlocks(target: Word, startBlockIndex: nat) returns (r: nat)
      requires Searching(target) && startBlockIndex == cursor / BATCH
      modifies `cursor, `iterDecompBlock
      ensures HoldsBlock(cursor) && Splits(target) && cursor < |parent.docs| && r == parent.docs[cursor]
    {
      hide CompressedSet.Valid, Block, IsIds, AscendsTo, CompressedSetIterator.Splits, CompressedSetIterator.HoldsBlock;
      parent.BasesAscend();
      IdsAscend(parent.baseListForOnlyCompBlocks);
      var iterBlockIndex := FirstAtLeast(parent.baseListForOnlyCompBlocks, startBlockIndex, |parent.baseListForOnlyCompBlocks| - 1, target);
      BlockStart(iterBlockIndex, target);
      parent.BlockAt(iterBlockIndex);
      BlockIsIds(parent.docs, iterBlockIndex);
      IdsAscend(Block(parent.docs, iterBlockIndex));
      var currentBlockIndex, currentOffset := cursor / BATCH, cursor % BATCH;
      if currentBlockIndex != iterBlockIndex || currentOffset == 0 {
        iterDecompBlock := parent.codec.uncompress(parent.sequenceOfCompBlocks[iterBlockIndex]);
      }
      var offset := FirstAtLeast(iterDecompBlock, 0, BATCH - 1, target);
      cursor := BATCH * iterBlockIndex + offset;
      Landed(iterBlockIndex, offset, target);
      return iterDecompBlock[offset];
    }

    // Docs before the block picked are below target.
    lemma BlockStart(b: nat, target: nat)
      requires Searching(target) && cursor / BATCH <= b < compBlockNum
      requires forall i :: cursor / BATCH <= i < b ==> parent.baseListForOnlyCompBlocks[i] < target
      ensures BATCH * b <= |parent.docs| && (b > 0 ==> parent.docs[BATCH * b - 1] < target)
    {
      if b > cursor / BATCH {
        assert parent.baseListForOnlyCompBlocks[b - 1] < target;
      } else {
        BeforeBlock(parent.docs, b, cursor, target);
      }
    }

    // The rest of the block at hand.
    method AdvanceInBlock(target: Word)
      requires Searching(target) && cursor % BATCH != 0
      requires target <= parent.baseListForOnlyCompBlocks[cursor / BATCH]
      modifies `cursor, `lastAccessedDocId
      ensures HoldsBlock(cursor) && Splits(target) && cursor < |parent.docs| && lastAccessedDocId == parent.docs[cursor]
    {
      hide CompressedSet.Valid, Block, IsIds, CompressedSetIterator.Splits, CompressedSetIterator.HoldsBlock;
      var iterBlockIndex, offset := cursor / BATCH, cursor % BATCH;
      BlockAtHand(target);
      offset, lastAccessedDocId := ScanBlock(iterDecompBlock, offset, target);
      cursor := BATCH * iterBlockIndex + offset;
      Landed(iterBlockIndex, offset, target);
    }

    lemma BlockAtHand(target: nat)
      requires Searching(target) && cursor % BATCH != 0
      ensures var b := cursor / BATCH;
        b < compBlockNum && BATCH * b + BATCH <= |parent.docs| && iterDecompBlock == Block(parent.docs, b) &&
        (b > 0 ==> parent.docs[BATCH * b - 1] < target) &&
        iterDecompBlock[cursor % BATCH - 1] < target && iterDecompBlock[BATCH - 1] == parent.baseListForOnlyCompBlocks[b]
    {
      hide CompressedSet.Valid, Block, IsIds;
      BlockStart(cursor / BATCH, target);
      parent.BlockAt(cursor / BATCH);
      BeforeInBlock(parent.docs, cursor);
    }

    lemma Landed(b: nat, offset: nat, target: nat)
      requires Unchanged() && IsIds(parent.docs) && b < compBlockNum && offset < BATCH && cursor == BATCH * b + offset
      requires BATCH * b + BATCH <= |parent.docs| && iterDecompBlock == Block(parent.docs, b)
      requires b > 0 ==> parent.docs[BATCH * b - 1] < target
      requires offset > 0 ==> iterDecompBlock[offset - 1] < target
      requires iterDecompBlock[offset] >= target
      ensures HoldsBlock(cursor) && Splits(target) && cursor < |parent.docs| && iterDecompBlock[offset] == parent.docs[cursor]
    {
      hide CompressedSet.Valid, Block, IsIds;
      PickedInBlock(parent.docs, b, offset, target);
    }

    // The open block; past its last doc the iterator is exhausted.
    method AdvanceInOpenBlock(target: Word)
      requires Unchanged() && IsIds(parent.docs) && parent.docs != [] && |iterDecompBlock| == BATCH
      requires BATCH * compBlockNum <= |parent.docs| && (compBlockNum > 0 ==> parent.docs[BATCH * compBlockNum - 1] < target)
      modifies `cursor, `lastAccessedDocId
      ensures HoldsBlock(cursor) && Splits(target) && lastAccessedDocId == DocAtCursor(cursor)
    {
      hide CompressedSet.Valid, Block, IsIds, AscendsTo;
      parent.OpenBlock();
      TotalIsLength();
      var offset := FirstAtLeast(parent.currentNoCompBlock, 0, parent.sizeOfCurrentNoCompBlock - 1, target);
      if offset >= 0 {
        lastAccessedDocId := parent.currentNoCompBlock[offset];
        cursor := BATCH * compBlockNum + offset;
        assert offset > 0 ==> parent.currentNoCompBlock[offset - 1] == parent.docs[cursor - 1];
      } else {
        cursor := totalDocIdNum;
        lastAccessedDocId := NO_MORE_DOCS;
        assert parent.currentNoCompBlock[parent.sizeOfCurrentNoCompBlock - 1] == parent.docs[cursor - 1];
      }
    }

    // The first doc after the cursor that is at least target.
    method Advance(target: Word) returns (r: nat)
      requires Valid() && IsIds(parent.docs)
      modifies this
      ensures Valid() && r == DocAtCursor(cursor)
      ensures cursor == if old(Exhausted()) then old(cursor) else FirstFrom(parent.docs, old(cursor) + 1, target)
    {
      hide CompressedSet.Valid, Block, IsIds, CompressedSetIterator.Splits, CompressedSetIterator.HoldsBlock, CompressedSetIterator.Entered;
      AtHand();
      if cursor == totalDocIdNum || totalDocIdNum <= 0 {
        lastAccessedDocId := NO_MORE_DOCS;
        return NO_MORE_DOCS;
      }
      cursor := cursor + 1;
      if cursor == totalDocIdNum {
        lastAccessedDocId := NO_MORE_DOCS;
        return NO_MORE_DOCS;
      }
      ghost var c: nat := cursor;
      var raised := target;
      if cursor != 0 && target <= lastAccessedDocId {
        raised := lastAccessedDocId + 1;
      }
      EnteredBlock();
      AdvanceFrom(raised);
      FoundFirst(c, target, raised);
      return lastAccessedDocId;
    }

    lemma AtHand()
      requires Valid() && IsIds(parent.docs)
      ensures HoldsBlock(totalDocIdNum) && totalDocIdNum == |parent.docs| && forall i :: 0 <= i < |parent.docs| ==> parent.docs[i] < NO_MORE_DOCS
    {
    }

    lemma FoundFirst(c: nat, target: nat, raised: nat)
      requires IsIds(parent.docs) && c <= |parent.docs| && Splits(raised)
      requires raised == if c > 0 && target <= parent.docs[c - 1] then parent.docs[c - 1] + 1 else target
      ensures 0 <= cursor <= |parent.docs| && cursor == FirstFrom(parent.docs, c, target)
    {
      hide IsIds;
      FirstIsUnique(parent.docs, c, target, raised, cursor);
    }

    // Which part holds the answer.
    method AdvanceFrom(target: Word)
      requires Unchanged() && IsIds(parent.docs) && Entered() && (cursor > 0 ==> parent.docs[cursor - 1] < target)
      modifies `cursor, `lastAccessedDocId, `iterDecompBlock
      ensures HoldsBlock(cursor) && Splits(target) && lastAccessedDocId == DocAtCursor(cursor)
    {
      var iterBlockIndex, offset := cursor / BATCH, cursor % BATCH;
      var sizeOfCurrentNoCompBlock, bases := parent.sizeOfCurrentNoCompBlock, parent.baseListForOnlyCompBlocks;
      parent.BasesAscend();
      LastBase();
      hide CompressedSet.Valid, Block, IsIds, CompressedSetIterator.Splits;
      if sizeOfCurrentNoCompBlock > 0 {
        if iterBlockIndex == compBlockNum || (|bases| > 0 && target > bases[|bases| - 1]) {
          AdvanceInOpenBlock(target);
          return;
        }
      }
      if |bases| > 0 && target <= bases[|bases| - 1] {
        if offset == 0 {
          lastAccessedDocId := AdvanceToTargetInTheFollowingCompBlocks(target, iterBlockIndex);
        } else if target <= bases[iterBlockIndex] {
          AdvanceInBlock(target);
        } else {
          lastAccessedDocId := AdvanceToTargetInTheFollowingCompBlocks(target, iterBlockIndex);
        }
        return;
      }
      assert false;
    }

    // The cursor is on a doc, and the block it is in is at hand unless just entered.
    ghost predicate Entered()
      requires Unchanged()
      reads `cursor, `iterDecompBlock, parent
    {
      && 0 <= cursor < totalDocIdNum && |iterDecompBlock| == BATCH
      && (cursor < BATCH * compBlockNum && cursor % BATCH != 0 ==> iterDecompBlock == Block(parent.docs, cursor / BATCH))
    }

    lemma EnteredBlock()
      requires Unchanged() && 0 <= cursor < totalDocIdNum && HoldsBlock(cursor - 1)
      ensures Entered()
    {
      if cursor < BATCH * compBlockNum && cursor % BATCH != 0 {
        SameBlock(cursor);
      }
    }

    lemma LastBase()
      requires Unchanged() && IsIds(parent.docs) && 0 <= cursor < totalDocIdNum
      ensures cursor / BATCH <= compBlockNum == |parent.baseListForOnlyCompBlocks| && BATCH * compBlockNum <= |parent.docs|
      ensures parent.sizeOfCurrentNoCompBlock > 0 && (cursor / BATCH < compBlockNum <==> cursor < BATCH * compBlockNum)
      ensures compBlockNum > 0 ==> parent.baseListForOnlyCompBlocks[compBlockNum - 1] == parent.docs[BATCH * compBlockNum - 1]
      ensures cursor / BATCH == compBlockNum > 0 ==> parent.docs[BATCH * compBlockNum - 1] <= parent.docs[cursor - 1]
    {
    }
  }

  // ----- Any mix of calls -----

  datatype Call = NextDoc | Advance(target: Word)

  // The position the iterator moves to when c docs are behind it.
  function Answer(docs: seq<Word>, c: nat, call: Call): (q: nat)
    requires c <= |docs|
    ensures c <= q <= |docs|
  {
    match call
    case NextDoc => c
    case Advance(target) => FirstFrom(docs, c, target)
  }

  // The docs returned by calls up to exhaustion.
  function Returned(docs: seq<Word>, c: nat, calls: seq<Call>): seq<Word>
    requires c <= |docs|
    decreases calls
  {
    if calls == [] then []
    else
      var q := Answer(docs, c, calls[0]);
      if q == |docs| then [] else [docs[q]] + Returned(docs, q + 1, calls[1..])
  }

  ghost predicate Exhausts(docs: seq<Word>, c: nat, calls: seq<Call>)
    requires c <= |docs|
    decreases calls
  {
    calls != [] && (var q := Answer(docs, c, calls[0]); q == |docs| || Exhausts(docs, q + 1, calls[1..]))
  }

  function Above(docs: seq<Word>, c: nat, target: nat): nat
    requires c <= |docs|
  {
    if c > 0 && docs[c - 1] >= target then docs[c - 1] + 1 else target
  }

  function Members(docs: seq<Word>): set<nat> {
    set d: nat | d in docs
  }

  // What an Advance answers depends on the set and the doc before, not on blocks: it
  // is the least member above that doc and not below the target.
  lemma AdvanceIsLeast(docs: seq<Word>, c: nat, target: nat)
    requires IsIds(docs) && c <= |docs|
    ensures var q := FirstFrom(docs, c, target);
      IsLeastFrom(Members(docs), Above(docs, c, target), if q < |docs| then docs[q] else NO_MORE_DOCS)
  {
    var q := FirstFrom(docs, c, target);
    forall d: nat | d in docs && Above(docs, c, target) <= d ensures q < |docs| && docs[q] <= d {
      var k :| 0 <= k < |docs| && docs[k] == d;
      assert k >= q;
    }
  }

  // The docs come out in ascending order, none twice, all from those not yet passed.
  lemma {:induction false} ReturnedAscends(docs: seq<Word>, c: nat, calls: seq<Call>)
    requires IsIds(docs) && c <= |docs|
    ensures IsIds(Returned(docs, c, calls))
    ensures forall d :: d in Returned(docs, c, calls) ==> d in docs && (c > 0 ==> docs[c - 1] < d)
    decreases calls
  {
    if calls != [] {
      var q := Answer(docs, c, calls[0]);
      if q < |docs| {
        ReturnedAscends(docs, q + 1, calls[1..]);
        Prepend(docs[q], Returned(docs, q + 1, calls[1..]));
        hide IsIds;
        assert c > 0 ==> docs[c - 1] < docs[q];
      }
    }
  }

  lemma Prepend(d: Word, rest: seq<Word>)
    requires IsIds(rest) && d < NO_MORE_DOCS && forall e :: e in rest ==> d < e
    ensures IsIds([d] + rest)
  {
    forall i | 0 <= i < |rest| ensures d < rest[i] {
      assert rest[i] in rest;
    }
  }

  // By the time the iterator is exhausted every doc has been returned, but for those
  // an Advance was asked to skip.
  lemma {:induction false} NothingIsSkipped(docs: seq<Word>, c: nat, calls: seq<Call>, k: nat)
    requires c <= k < |docs| && Exhausts(docs, c, calls)
    ensures docs[k] in Returned(docs, c, calls) ||
            exists i :: 0 <= i < |calls| && calls[i].Advance? && docs[k] < calls[i].target
    decreases calls
  {
    var q := Answer(docs, c, calls[0]);
    if k < q {
      assert calls[0].Advance? && docs[k] < calls[0].target;
    } else if k > q {
      NothingIsSkipped(docs, q + 1, calls[1..], k);
      if i :| 0 <= i < |calls[1..]| && calls[1..][i].Advance? && docs[k] < calls[1..][i].target {
        assert calls[i + 1] == calls[1..][i];
      }
    }
  }

  // One call of an iterator that is not exhausted.
  method Ask(it: CompressedSetIterator, call: Call) returns (r: nat)
    requires it.Valid() && IsIds(it.parent.docs) && it.cursor < |it.parent.docs|
    modifies it
    ensures it.Valid()
    ensures var q := Answer(it.parent.docs, old(it.cursor) + 1, call);
      if q < |it.parent.docs| then it.cursor == q && r == it.parent.docs[q] != NO_MORE_DOCS else r == NO_MORE_DOCS
  {
    hide CompressedSet.Valid, CompressedSetIterator.HoldsBlock, IsIds;
    it.AtHand();
    match call {
      case NextDoc => r := it.NextDoc();
      case Advance(target) => r := it.Advance(target);
    }
  }

  lemma ReturnedStep(docs: seq<Word>, c: nat, calls: seq<Call>, i: nat, out: seq<Word>, all: seq<Word>)
    requires c <= |docs| && i < |calls| && all == out + Returned(docs, c, calls[i..])
    ensures var q := Answer(docs, c, calls[i]);
      if q == |docs| then all == out else all == (out + [docs[q]]) + Returned(docs, q + 1, calls[i + 1..])
  {
    assert calls[i..][0] == calls[i] && calls[i..][1..] == calls[i + 1..];
  }

  // What an iterator returns to a run of calls that ends when it is exhausted.
  method Iterate(s: CompressedSet, calls: seq<Call>) returns (out: seq<Word>)
    requires s.Valid() && IsIds(s.docs)
    ensures out == Returned(s.docs, 0, calls) && IsIds(out)
  {
    hide CompressedSet.Valid, CompressedSetIterator.Valid, IsIds, Returned, Answer;
    ReturnedAscends(s.docs, 0, calls);
    ghost var all := Returned(s.docs, 0, calls);
    var it := new CompressedSetIterator(s);
    var i := 0;
    out := [];
    assert calls[0..] == calls && all == [] + Returned(s.docs, 0, calls[0..]);
    while i < |calls|
      invariant i <= |calls| && fresh(it) && it.parent == s && it.Valid() && 0 <= it.cursor + 1 <= |s.docs|
      invariant all == out + Returned(s.docs, it.cursor + 1, calls[i..])
    {
      ReturnedStep(s.docs, it.cursor + 1, calls, i, out, all);
      var r := Ask(it, calls[i]);
      if r == NO_MORE_DOCS {
        return;
      }
      out := out + [r];
      i := i + 1;
    }
    NothingAsked(s.docs, it.cursor + 1, calls);
  }

  lemma NothingAsked(docs: seq<Word>, c: nat, calls: seq<Call>)
    requires c <= |docs|
    ensures Returned(docs, c, calls[|calls|..]) == []
  {
  }

  // A set written and read into another: the copy has the same list, and the same
  // docs, exactly when the other set held nothing that the file does not replace.
  method SaveAndLoad(a: CompressedSet, b: CompressedSet) returns (ok: bool, rest: Bytes)
    requires a.Valid() && b.Valid() && a != b && a.codec == b.codec && FitsFile(a.Snapshot())
    modifies b
    ensures ok && rest == [] && b.sizeOfCurrentNoCompBlock <= |b.currentNoCompBlock|
    ensures b.Snapshot() == a.Snapshot() <==>
      (a.totalDocIdNum > BATCH || (old(b.sequenceOfCompBlocks) == [] && (a.totalDocIdNum > 0 || old(b.sizeOfCurrentNoCompBlock) == 0)))
    ensures b.Snapshot() == a.Snapshot() ==> b.Valid() && b.docs == a.docs
  {
    hide ReadFields, Written, CompressedSet.Valid, CompressedSet.Describes, IsShaped, FitsFile, Restored, Inverse;
    a.Shape();
    b.Shape();
    b.HasInverse();
    ghost var f, into := a.Snapshot(), b.Snapshot();
    var input := a.Write();
    assert input == Written(f) + [];
    ReadUndoesWrite(f, into, []);
    ReadRestores(f, into, []);
    ok, rest := b.Read(input, a.docs);
    if b.Snapshot() == f {
      SameList(a, b);
    }
  }

  lemma SameList(a: CompressedSet, b: CompressedSet)
    requires a.Valid() && a.codec == b.codec && b.sizeOfCurrentNoCompBlock <= |b.currentNoCompBlock| && b.Snapshot() == a.Snapshot()
    ensures b.Describes(a.docs)
  {
    a.Shape();
  }
}
