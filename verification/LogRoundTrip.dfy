// Reading back a log file that was cut off anywhere (leveldb/db/log_writer.cc,
// leveldb/db/log_reader.cc).
module LogRoundTrips {
  import opened Powers
  import opened Wrappers
  import opened InternalKeys
  import opened Codings
  import opened Logs

  // ----- One physical record -----

  lemma HeaderFields(crc: Crc, t: Byte, data: Bytes)
    requires |data| < 0x1_0000
    ensures LengthField(Header(crc, t, data)) == |data| && Header(crc, t, data)[6] == t
    ensures Header(crc, t, data)[..4] == EncodeFixed(Mask(crc([t] + data) % TWO_32), 4)
  {
  }

  lemma ChecksumMatches(crc: Crc, t: Byte, data: Bytes)
    requires |data| < 0x1_0000
    ensures Unmask(DecodeFixed(Header(crc, t, data)[..4])) == crc([t] + data) % TWO_32
  {
    hide Mask, Unmask, EncodeFixed, DecodeFixed, Pow;
    HeaderFields(crc, t, data);
    var c := crc([t] + data) % TWO_32;
    FixedWidths();
    FixedRoundTrip(Mask(c), 4);
    UnmaskMask(c);
  }

  // A buffer that starts with a record as it was written yields that record.
  lemma ParseWritten(crc: Crc, checksum: bool, buffer: Bytes, eof: bool, t: Byte, data: Bytes)
    requires |data| < 0x1_0000 && t != K_ZERO_TYPE
    requires K_HEADER_SIZE + |data| <= |buffer| && buffer[..K_HEADER_SIZE + |data|] == Physical(crc, t, data)
    ensures ParseHeader(crc, checksum, buffer, eof) == Parsed(t, data, K_HEADER_SIZE + |data|, [])
  {
    hide Header, Mask, Unmask, DecodeFixed;
    HeaderFields(crc, t, data);
    ChecksumMatches(crc, t, data);
    var header, whole := Header(crc, t, data), Physical(crc, t, data);
    assert forall i :: 0 <= i < |whole| ==> buffer[i] == whole[i];
    assert buffer[..4] == header[..4];
    assert buffer[6..K_HEADER_SIZE + |data|] == [t] + data;
    assert buffer[K_HEADER_SIZE..K_HEADER_SIZE + |data|] == data;
  }

  // A buffer that ends inside the payload is the end of the file, not corruption.
  lemma ParseCut(crc: Crc, checksum: bool, buffer: Bytes, t: Byte, data: Bytes)
    requires |data| < 0x1_0000
    requires K_HEADER_SIZE <= |buffer| < K_HEADER_SIZE + |data| && buffer == Physical(crc, t, data)[..|buffer|]
    ensures ParseHeader(crc, checksum, buffer, true) == Parsed(K_EOF, [], |buffer|, [])
  {
    hide Header;
    HeaderFields(crc, t, data);
    var header := Header(crc, t, data);
    assert forall i :: 0 <= i < K_HEADER_SIZE ==> buffer[i] == header[i];
  }

  // ----- Where the reader stands in an undamaged file -----

  function BlockEnd(size: nat, pos: nat): nat {
    Min(pos - pos % K_BLOCK_SIZE + K_BLOCK_SIZE, size)
  }

  // Between two records: at a block boundary the next block is yet to be read,
  // elsewhere the buffer reaches to the end of the block or of the file.
  ghost predicate Placed(size: nat, s: Cursor) {
    && s.pos <= size
    && if s.pos % K_BLOCK_SIZE == 0 then s.end == s.pos && !s.eof
       else s.end == BlockEnd(size, s.pos) && (s.eof <==> s.end % K_BLOCK_SIZE != 0)
  }

  // The cursor once the header at its position, behind any trailer, is in the buffer.
  function Filled(size: nat, s: Cursor): Cursor
    requires s.pos <= s.end <= size
  {
    if Pad(s.pos) == 0 && s.end > s.pos then s else NextBlock(size, s)
  }

  lemma FilledRead(crc: Crc, checksum: bool, file: Bytes, s: Cursor)
    requires Placed(|file|, s) && s.pos + Pad(s.pos) <= |file|
    ensures s.pos <= s.end
    ensures var f := Filled(|file|, s);
      && f.pos == s.pos + Pad(s.pos) && f.end == BlockEnd(|file|, f.pos) && (f.eof <==> f.end < f.pos - f.pos % K_BLOCK_SIZE + K_BLOCK_SIZE)
      && ReadPhysical(crc, checksum, file, s) == ReadPhysical(crc, checksum, file, f)
  {
    hide ReadPhysical;
    PlacedEnd(|file|, s);
    ReadPhysicalStep(crc, checksum, file, s);
  }

  // The buffer of a placed cursor: the trailer alone if there is one, else all up to
  // the end of block or file.
  lemma PlacedEnd(size: nat, s: Cursor)
    requires Placed(size, s)
    ensures s.pos <= s.end <= size
    ensures Pad(s.pos) > 0 && s.pos + Pad(s.pos) <= size ==>
      s.end == s.pos + Pad(s.pos) && !s.eof && s.end % K_BLOCK_SIZE == 0
  {
  }

  // The file holds the given bytes at `pos`.
  predicate Holds(file: Bytes, pos: nat, bytes: Bytes) {
    pos + |bytes| <= |file| && file[pos..pos + |bytes|] == bytes
  }

  lemma HoldsParts(file: Bytes, pos: nat, a: Bytes, b: Bytes)
    requires Holds(file, pos, a + b)
    ensures Holds(file, pos, a) && Holds(file, pos + |a|, b)
  {
    var n := |a| + |b|;
    assert file[pos..pos + |a|] == file[pos..pos + n][..|a|];
    assert file[pos + |a|..pos + n] == file[pos..pos + n][|a|..];
  }

  lemma ReadsWhole(crc: Crc, checksum: bool, file: Bytes, s: Cursor, t: Byte, data: Bytes)
    requires Placed(|file|, s) && t != K_ZERO_TYPE && |data| < 0x1_0000
    requires Holds(file, s.pos + Pad(s.pos), Physical(crc, t, data))
    requires (s.pos + Pad(s.pos)) % K_BLOCK_SIZE + K_HEADER_SIZE + |data| <= K_BLOCK_SIZE
    ensures s.pos <= s.end <= |file|
    ensures var r := ReadPhysical(crc, checksum, file, s);
      && r.t == t && r.fragment == data && r.drops == [] && Placed(|file|, r.at)
      && r.at.pos == s.pos + Pad(s.pos) + K_HEADER_SIZE + |data|
  {
    hide ReadPhysical, ParseHeader, Physical;
    FilledRead(crc, checksum, file, s);
    var f := Filled(|file|, s);
    hide Filled;
    ReadPhysicalStep(crc, checksum, file, f);
    var buffer := file[f.pos..f.end];
    assert buffer[..K_HEADER_SIZE + |data|] == file[f.pos..f.pos + K_HEADER_SIZE + |data|];
    ParseWritten(crc, checksum, buffer, f.eof, t, data);
    StillPlaced(|file|, f, K_HEADER_SIZE + |data|);
  }

  lemma StillPlaced(size: nat, f: Cursor, n: nat)
    requires f.pos < f.end <= size && f.end == BlockEnd(size, f.pos)
    requires f.eof <==> f.end < f.pos - f.pos % K_BLOCK_SIZE + K_BLOCK_SIZE
    requires 0 < n && f.pos % K_BLOCK_SIZE + n <= K_BLOCK_SIZE && f.pos + n <= f.end
    ensures Placed(size, f.(pos := f.pos + n))
  {
    if f.pos % K_BLOCK_SIZE + n == K_BLOCK_SIZE {
      assert (f.pos + n) % K_BLOCK_SIZE == 0;
    } else {
      assert (f.pos + n) % K_BLOCK_SIZE == f.pos % K_BLOCK_SIZE + n;
    }
  }

  // whole is the file as written, cut to its first n bytes.
  lemma ReadsCut(crc: Crc, checksum: bool, whole: Bytes, n: nat, s: Cursor, t: Byte, data: Bytes)
    requires n <= |whole| && Placed(n, s) && |data| < 0x1_0000
    requires Holds(whole, s.pos + Pad(s.pos), Physical(crc, t, data))
    requires (s.pos + Pad(s.pos)) % K_BLOCK_SIZE + K_HEADER_SIZE + |data| <= K_BLOCK_SIZE
    requires n < s.pos + Pad(s.pos) + K_HEADER_SIZE + |data|
    ensures s.pos <= s.end <= n
    ensures var r := ReadPhysical(crc, checksum, whole[..n], s); r.t == K_EOF && r.drops == []
  {
    hide ReadPhysical, ParseHeader, Physical;
    var file := whole[..n];
    PlacedEnd(n, s);
    if n < s.pos + Pad(s.pos) {
      ReadsShort(crc, checksum, file, s);
    } else {
      FilledRead(crc, checksum, file, s);
      var f := Filled(n, s);
      hide Filled;
      assert f.end == n;
      ReadPhysicalStep(crc, checksum, file, f);
      if n - f.pos >= K_HEADER_SIZE {
        var buffer := file[f.pos..f.end];
        assert buffer == whole[f.pos..f.pos + K_HEADER_SIZE + |data|][..n - f.pos];
        ParseCut(crc, checksum, buffer, t, data);
      }
    }
  }

  // Nothing is left but part of a trailer.
  lemma ReadsShort(crc: Crc, checksum: bool, file: Bytes, s: Cursor)
    requires Placed(|file|, s) && (|file| < s.pos + Pad(s.pos) || |file| == s.pos)
    ensures s.pos <= s.end <= |file|
    ensures var r := ReadPhysical(crc, checksum, file, s); r.t == K_EOF && r.drops == []
  {
    hide ReadPhysical;
    PlacedEnd(|file|, s);
    ReadPhysicalStep(crc, checksum, file, s);
    if !s.eof {
      ReadPhysicalStep(crc, checksum, file, NextBlock(|file|, s));
    }
  }

  // ----- One record -----

  // The first fragment of a record in the file, and the rest of it behind.
  lemma FirstHeld(crc: Crc, file: Bytes, data: Bytes, begin: bool, at: nat)
    requires Holds(file, at, Emit(crc, data, begin, at))
    ensures var n := FirstLength(data, at);
      var next := at + Pad(at) + K_HEADER_SIZE + n;
      && Holds(file, at + Pad(at), Physical(crc, TypeOf(begin, n == |data|), data[..n]))
      && (at + Pad(at)) % K_BLOCK_SIZE + K_HEADER_SIZE + n <= K_BLOCK_SIZE && n < 0x1_0000
      && |Emit(crc, data, begin, at)| == next - at + (if n == |data| then 0 else |Emit(crc, data[n..], false, next)|)
      && (n < |data| ==> Holds(file, next, Emit(crc, data[n..], false, next)))
  {
    hide Physical, Emit, First;
    var n := FirstLength(data, at);
    var first := First(crc, data, begin, at);
    EmitStep(crc, data, begin, at);
    FirstParts(crc, data, begin, at);
    var rest: Bytes := if n == |data| then [] else Emit(crc, data[n..], false, at + |first|);
    assert first + [] == first;
    HoldsParts(file, at, first, rest);
    HoldsParts(file, at, Zeros(Pad(at)), Physical(crc, TypeOf(begin, n == |data|), data[..n]));
  }

  // A fragment of the type the writer gives it continues or completes its record.
  lemma TypesFit(begin: bool, end: bool, fragment: Bytes, scratch: Bytes)
    ensures TypeOf(begin, end) != K_ZERO_TYPE
    ensures TurnOf(TypeOf(begin, end), fragment, !begin, scratch) ==
            var bytes := if begin then fragment else scratch + fragment;
            if end then Stop(Some(bytes), []) else Go(true, bytes, [])
  {
  }

  // A record that lies wholly in the file is returned, and nothing is reported.
  lemma {:induction false} LogicalWhole(crc: Crc, checksum: bool, file: Bytes, s: Cursor, data: Bytes, begin: bool, scratch: Bytes)
    requires Placed(|file|, s) && Holds(file, s.pos, Emit(crc, data, begin, s.pos))
    ensures s.pos <= s.end <= |file|
    ensures var r := ReadLogical(crc, checksum, file, s, !begin, scratch);
      && r.record == Some(if begin then data else scratch + data) && r.drops == []
      && Placed(|file|, r.at) && r.at.pos == s.pos + |Emit(crc, data, begin, s.pos)|
    decreases |data|, Avail(s.pos + Pad(s.pos)) == 0
  {
    hide ReadPhysical, ReadLogical, Physical, Emit, Placed, Holds, Pad, Avail, FirstLength, TypeOf, TurnOf;
    var at := s.pos;
    var n := FirstLength(data, at);
    FirstHeld(crc, file, data, begin, at);
    TypesFit(begin, n == |data|, data[..n], scratch);
    ReadsWhole(crc, checksum, file, s, TypeOf(begin, n == |data|), data[..n]);
    ReadLogicalStep(crc, checksum, file, s, !begin, scratch);
    assert data == data[..n] + data[n..] && data[..|data|] == data;
    if n < |data| {
      var p := ReadPhysical(crc, checksum, file, s);
      AvailNext(at);
      FirstProgress(data, at);
      LogicalWhole(crc, checksum, file, p.at, data[n..], false, if begin then data[..n] else scratch + data[..n]);
      assert scratch + data[..n] + data[n..] == scratch + data;
    }
  }

  lemma FirstProgress(data: Bytes, at: nat)
    ensures FirstLength(data, at) == 0 && data != [] ==> Avail(at + Pad(at)) == 0
  {
  }

  // A record the cut went through ends the reading, and nothing is reported.
  lemma {:induction false} LogicalCut(crc: Crc, checksum: bool, whole: Bytes, n: nat, s: Cursor, data: Bytes, begin: bool, scratch: Bytes)
    requires n <= |whole| && Placed(n, s) && Holds(whole, s.pos, Emit(crc, data, begin, s.pos))
    requires n < s.pos + |Emit(crc, data, begin, s.pos)|
    ensures s.pos <= s.end <= n
    ensures var r := ReadLogical(crc, checksum, whole[..n], s, !begin, scratch); r.record == None && r.drops == []
    decreases |data|, Avail(s.pos + Pad(s.pos)) == 0
  {
    hide ReadPhysical, ReadLogical, Physical, Emit, Placed, Holds, Pad, Avail, FirstLength, TypeOf, TurnOf;
    var at := s.pos;
    var k := FirstLength(data, at);
    var t := TypeOf(begin, k == |data|);
    FirstHeld(crc, whole, data, begin, at);
    TypesFit(begin, k == |data|, data[..k], scratch);
    if n < at + Pad(at) + K_HEADER_SIZE + k {
      ReadsCut(crc, checksum, whole, n, s, t, data[..k]);
      ReadLogicalStep(crc, checksum, whole[..n], s, !begin, scratch);
      EofStops(ReadPhysical(crc, checksum, whole[..n], s).fragment, !begin, scratch);
    } else {
      HeldBeforeCut(whole, n, at + Pad(at), Physical(crc, t, data[..k]));
      ReadsWhole(crc, checksum, whole[..n], s, t, data[..k]);
      ReadLogicalStep(crc, checksum, whole[..n], s, !begin, scratch);
      var p := ReadPhysical(crc, checksum, whole[..n], s);
      AvailNext(at);
      FirstProgress(data, at);
      LogicalCut(crc, checksum, whole, n, p.at, data[k..], false, if begin then data[..k] else scratch + data[..k]);
    }
  }

  lemma EofStops(fragment: Bytes, inFragment: bool, scratch: Bytes)
    ensures TurnOf(K_EOF, fragment, inFragment, scratch) == Stop(None, [])
  {
  }

  lemma HeldBeforeCut(whole: Bytes, n: nat, pos: nat, bytes: Bytes)
    requires Holds(whole, pos, bytes) && pos + |bytes| <= n <= |whole|
    ensures Holds(whole[..n], pos, bytes)
  {
  }

  // ----- The whole file -----

  lemma {:induction false} WrittenPrefix(crc: Crc, records: seq<Bytes>, j: nat)
    requires j <= |records|
    ensures Written(crc, records[..j]) <= Written(crc, records)
  {
    if j < |records| {
      WrittenPrefix(crc, records[..|records| - 1], j);
      assert records[..|records| - 1][..j] == records[..j];
    } else {
      assert records[..j] == records;
    }
  }

  lemma RecordHeld(crc: Crc, records: seq<Bytes>, j: nat)
    requires j < |records|
    ensures var at := |Written(crc, records[..j])|;
      && Holds(Written(crc, records), at, Emit(crc, records[j], true, at))
      && |Written(crc, records[..j + 1])| == at + |Emit(crc, records[j], true, at)|
  {
    hide Emit;
    WrittenPrefix(crc, records, j + 1);
    assert records[..j + 1][..j] == records[..j];
  }

  // Reading from record j on, when the first k records lie within the first n bytes
  // and the next one, if any, does not.
  lemma {:induction false} ReadsFrom(crc: Crc, checksum: bool, records: seq<Bytes>, n: nat, k: nat, j: nat, s: Cursor)
    requires j <= k <= |records| && n <= |Written(crc, records)|
    requires |Written(crc, records[..k])| <= n
    requires k < |records| ==> n < |Written(crc, records[..k + 1])|
    requires Placed(n, s) && s.pos == |Written(crc, records[..j])|
    ensures s.pos <= s.end <= n
    ensures ReadAll(crc, checksum, Written(crc, records)[..n], s) == (records[j..k], [])
    decreases k - j
  {
    hide Emit, ReadLogical, ReadPhysical, Written, Placed;
    var whole := Written(crc, records);
    if j < k {
      RecordHeld(crc, records, j);
      WrittenPrefix(crc, records[..k], j + 1);
      assert records[..k][..j + 1] == records[..j + 1];
      HeldBeforeCut(whole, n, s.pos, Emit(crc, records[j], true, s.pos));
      LogicalWhole(crc, checksum, whole[..n], s, records[j], true, []);
      var r := ReadLogical(crc, checksum, whole[..n], s, false, []);
      ReadsFrom(crc, checksum, records, n, k, j + 1, r.at);
      assert [records[j]] + records[j + 1..k] == records[j..k] && r.drops + [] == [];
    } else if k < |records| {
      RecordHeld(crc, records, k);
      LogicalCut(crc, checksum, whole, n, s, records[k], true, []);
    } else {
      assert records[..k] == records;
      ReadsShort(crc, checksum, whole[..n], s);
      ReadLogicalStep(crc, checksum, whole[..n], s, false, []);
      var r := ReadLogical(crc, checksum, whole[..n], s, false, []);
      assert r.record == None && r.drops == [];
      assert ReadAll(crc, checksum, whole[..n], s) == ([], []);
      assert records[j..k] == [];
    }
  }

  // The k-th record is the last that lies wholly within the first n bytes.
  ghost predicate CutAfter(crc: Crc, records: seq<Bytes>, n: nat, k: nat) {
    && k <= |records| && |Written(crc, records[..k])| <= n
    && (k < |records| ==> n < |Written(crc, records[..k + 1])|)
  }

  // Every cut falls after some number of whole records: the search goes down from j.
  lemma {:induction false} CutSplits(crc: Crc, records: seq<Bytes>, n: nat, j: nat) returns (k: nat)
    requires j <= |records| && n <= |Written(crc, records)|
    requires j < |records| ==> n < |Written(crc, records[..j + 1])|
    ensures CutAfter(crc, records, n, k)
  {
    if |Written(crc, records[..j])| <= n {
      k := j;
    } else {
      k := CutSplits(crc, records, n, j - 1);
    }
  }

  // Cut anywhere, a written log gives back exactly the records that lie wholly
  // before the cut, in order, and no corruption is reported, whether or not
  // checksums are verified.
  lemma RoundTripUnderTruncation(crc: Crc, checksum: bool, records: seq<Bytes>, n: nat) returns (k: nat)
    requires n <= |Written(crc, records)|
    ensures CutAfter(crc, records, n, k)
    ensures ReadAll(crc, checksum, Written(crc, records)[..n], START) == (records[..k], [])
  {
    k := CutSplits(crc, records, n, |records|);
    assert records[..0] == [];
    ReadsFrom(crc, checksum, records, n, k, 0, START);
    assert records[0..k] == records[..k];
  }
}
