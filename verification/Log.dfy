// The log: records cut into checksummed fragments that never cross a 32 KB block
// (leveldb/db/log_writer.cc, leveldb/db/log_reader.cc, leveldb/db/log_format.h).
module Logs {
  import opened Powers
  import opened Wrappers
  import opened InternalKeys
  import opened Codings

  const K_ZERO_TYPE: Byte := 0
  const K_FULL_TYPE: Byte := 1
  const K_FIRST_TYPE: Byte := 2
  const K_MIDDLE_TYPE: Byte := 3
  const K_LAST_TYPE: Byte := 4
  // Results of the reader beside the types above; a stored type of this value is
  // taken for them.
  const K_EOF: Byte := 5
  const K_BAD_RECORD: Byte := 6

  const K_BLOCK_SIZE := 32768
  const K_HEADER_SIZE := 7
  const K_MASK_DELTA := 0xa282ead8

  // The checksum of type byte and payload: any function. crc32c extends the
  // checksum of the type byte by the payload, which is the checksum of both.
  type Crc = Bytes -> nat

  // ----- Checksums are stored masked -----

  function Mask(crc: nat): (m: nat)
    requires crc < TWO_32
    ensures m < TWO_32
  {
    (crc / 0x8000 + crc % 0x8000 * 0x2_0000 + K_MASK_DELTA) % TWO_32
  }

  function Unmask(masked: nat): (c: nat)
    ensures c < TWO_32
  {
    var rot := (masked - K_MASK_DELTA) % TWO_32;
    rot / 0x2_0000 + rot % 0x2_0000 * 0x8000
  }

  lemma UnmaskMask(crc: nat)
    requires crc < TWO_32
    ensures Unmask(Mask(crc)) == crc
  {
    var q, r := crc / 0x8000, crc % 0x8000;
    var rot := q + r * 0x2_0000;
    assert rot < TWO_32;
    assert (Mask(crc) - K_MASK_DELTA) % TWO_32 == rot;
    assert rot / 0x2_0000 == r && rot % 0x2_0000 == q;
  }

  lemma MaskUnmask(m: nat)
    requires m < TWO_32
    ensures Mask(Unmask(m)) == m
  {
    var rot := (m - K_MASK_DELTA) % TWO_32;
    var c := Unmask(m);
    assert c % 0x8000 == rot / 0x2_0000 && c / 0x8000 == rot % 0x2_0000;
    assert (rot + K_MASK_DELTA) % TWO_32 == m;
  }

  // ----- One physical record -----

  function Header(crc: Crc, t: Byte, data: Bytes): (r: Bytes)
    requires |data| < 0x1_0000
    ensures |r| == K_HEADER_SIZE
  {
    EncodeFixed(Mask(crc([t] + data) % TWO_32), 4) + [|data| % 256, |data| / 256, t]
  }

  function Physical(crc: Crc, t: Byte, data: Bytes): (r: Bytes)
    requires |data| < 0x1_0000
    ensures |r| == K_HEADER_SIZE + |data|
  {
    Header(crc, t, data) + data
  }

  function Zeros(n: nat): (r: Bytes)
    ensures |r| == n
  {
    seq(n, i => 0)
  }

  // ----- The writer -----

  // Bytes of trailer before the next header, at file offset `at`.
  function Pad(at: nat): (p: nat)
    ensures p < K_HEADER_SIZE && K_BLOCK_SIZE - (at + p) % K_BLOCK_SIZE >= K_HEADER_SIZE
    ensures p > 0 ==> (at + p) % K_BLOCK_SIZE == 0
  {
    var leftover := K_BLOCK_SIZE - at % K_BLOCK_SIZE;
    if leftover < K_HEADER_SIZE then leftover else 0
  }

  function TypeOf(begin: bool, end: bool): Byte {
    if begin && end then K_FULL_TYPE else if begin then K_FIRST_TYPE else if end then K_LAST_TYPE else K_MIDDLE_TYPE
  }

  // Payload that fits behind a header at file offset `start`.
  function Avail(start: nat): (n: nat)
    requires K_BLOCK_SIZE - start % K_BLOCK_SIZE >= K_HEADER_SIZE
    ensures n < 0x8000 && start % K_BLOCK_SIZE + K_HEADER_SIZE + n == K_BLOCK_SIZE
  {
    K_BLOCK_SIZE - start % K_BLOCK_SIZE - K_HEADER_SIZE
  }

  function Min(a: nat, b: nat): nat {
    if a < b then a else b
  }

  // The trailer, if any, and the first fragment of what is left of a record.
  function First(crc: Crc, data: Bytes, begin: bool, at: nat): (r: Bytes)
    ensures |r| == Pad(at) + K_HEADER_SIZE + FirstLength(data, at)
  {
    var n := FirstLength(data, at);
    Zeros(Pad(at)) + Physical(crc, TypeOf(begin, n == |data|), data[..n])
  }

  function FirstLength(data: Bytes, at: nat): (n: nat)
    ensures n <= |data|
  {
    Min(|data|, Avail(at + Pad(at)))
  }

  // What a record, or the rest of one when begin is false, adds to a file that is
  // `at` bytes long.
  function Emit(crc: Crc, data: Bytes, begin: bool, at: nat): Bytes
    decreases |data|, Avail(at + Pad(at)) == 0
  {
    var n := FirstLength(data, at);
    if n == |data| then First(crc, data, begin, at)
    else
      AvailNext(at);
      First(crc, data, begin, at) + Emit(crc, data[n..], false, at + Pad(at) + K_HEADER_SIZE + n)
  }

  // A block with room for a header only is followed by an empty one.
  lemma AvailNext(at: nat)
    ensures var next := at + Pad(at) + K_HEADER_SIZE;
      Avail(at + Pad(at)) == 0 ==> next % K_BLOCK_SIZE == 0 && Pad(next) == 0 && Avail(next) > 0
  {
  }

  lemma FirstParts(crc: Crc, data: Bytes, begin: bool, at: nat)
    ensures var n := FirstLength(data, at);
      First(crc, data, begin, at) == Zeros(Pad(at)) + Physical(crc, TypeOf(begin, n == |data|), data[..n])
  {
  }

  lemma Regroup3(a: Bytes, b: Bytes, c: Bytes)
    ensures a + b + c == a + (b + c)
  {
  }

  lemma EmitStep(crc: Crc, data: Bytes, begin: bool, at: nat)
    ensures var n := FirstLength(data, at);
      Emit(crc, data, begin, at) ==
        if n == |data| then First(crc, data, begin, at)
        else First(crc, data, begin, at) + Emit(crc, data[n..], false, at + Pad(at) + K_HEADER_SIZE + n)
  {
  }

  function Written(crc: Crc, records: seq<Bytes>): Bytes {
    if records == [] then []
    else
      var file := Written(crc, records[..|records| - 1]);
      file + Emit(crc, records[|records| - 1], true, |file|)
  }

  lemma SameOffset(a: nat, b: nat, n: nat)
    requires a % K_BLOCK_SIZE == b % K_BLOCK_SIZE
    ensures (a + n) % K_BLOCK_SIZE == (b + n) % K_BLOCK_SIZE
  {
  }

  class Writer {
    const crc: Crc
    var dest: Bytes
    var blockOffset: nat

    ghost predicate Valid()
      reads this
    {
      blockOffset <= K_BLOCK_SIZE && blockOffset % K_BLOCK_SIZE == |dest| % K_BLOCK_SIZE
    }

    constructor (crc: Crc)
      ensures Valid() && dest == [] && this.crc == crc
    {
      this.crc, dest, blockOffset := crc, [], 0;
    }

    method EmitPhysicalRecord(t: Byte, data: Bytes)
      requires Valid() && blockOffset + K_HEADER_SIZE + |data| <= K_BLOCK_SIZE
      modifies this
      ensures Valid() && dest == old(dest) + Physical(crc, t, data)
      ensures blockOffset == old(blockOffset) + K_HEADER_SIZE + |data|
    {
      hide EncodeFixed, Mask;
      SameOffset(blockOffset, |dest|, K_HEADER_SIZE + |data|);
      var buf := EncodeFixed(Mask(crc([t] + data) % TWO_32), 4) + [|data| % 256, |data| / 256, t];
      assert dest + buf + data == dest + Physical(crc, t, data);
      dest := dest + buf;
      dest := dest + data;
      blockOffset := blockOffset + K_HEADER_SIZE + |data|;
    }

    // Starts a new block when a header does not fit into this one.
    method FillTrailer()
      requires Valid()
      modifies this
      ensures Valid() && dest == old(dest) + Zeros(Pad(|old(dest)|)) && blockOffset + K_HEADER_SIZE <= K_BLOCK_SIZE
      ensures Avail(|dest|) == K_BLOCK_SIZE - blockOffset - K_HEADER_SIZE
    {
      var leftover := K_BLOCK_SIZE - blockOffset;
      if leftover < K_HEADER_SIZE {
        if leftover > 0 {
          dest := dest + [0, 0, 0, 0, 0, 0][..leftover];
        }
        blockOffset := 0;
      }
    }

    method AddRecord(slice: Bytes)
      requires Valid()
      modifies this
      ensures Valid() && dest == old(dest) + Emit(crc, slice, true, |old(dest)|)
    {
      hide Emit, First, Physical, Zeros, Pad, Avail;
      ghost var goal := dest + Emit(crc, slice, true, |dest|);
      var left, begin := slice, true;
      var more := true;
      while more
        invariant Valid() && goal == if more then dest + Emit(crc, left, begin, |dest|) else dest
        decreases more, |left|, Avail(|dest| + Pad(|dest|)) == 0
      {
        ghost var before := dest;
        EmitStep(crc, left, begin, |before|);
        AvailNext(|before|);
        ghost var first := First(crc, left, begin, |before|);
        FirstParts(crc, left, begin, |before|);
        FillTrailer();
        var avail := K_BLOCK_SIZE - blockOffset - K_HEADER_SIZE;
        var fragmentLength := if |left| < avail then |left| else avail;
        var end := |left| == fragmentLength;
        EmitPhysicalRecord(TypeOf(begin, end), left[..fragmentLength]);
        Regroup3(before, Zeros(Pad(|before|)), Physical(crc, TypeOf(begin, end), left[..fragmentLength]));
        left := left[fragmentLength..];
        begin := false;
        more := |left| > 0;
        Regroup3(before, first, Emit(crc, left, begin, |dest|));
      }
    }
  }

  // ----- The reader -----

  // How far the reader has come: the buffer is file[pos..end], and eof says that the
  // last block read was short.
  datatype Cursor = Cursor(pos: nat, end: nat, eof: bool)

  const START := Cursor(0, 0, false)

  datatype PhysicalRead = PhysicalRead(t: Byte, fragment: Bytes, at: Cursor, drops: seq<nat>)

  datatype RecordRead = RecordRead(record: Option<Bytes>, at: Cursor, drops: seq<nat>)

  function NextBlock(size: nat, s: Cursor): (n: Cursor)
    requires s.end <= size
    ensures n.pos <= n.end <= size && n.end - n.pos <= K_BLOCK_SIZE
  {
    var e := Min(s.end + K_BLOCK_SIZE, size);
    Cursor(s.end, e, e - s.end < K_BLOCK_SIZE)
  }

  function Cleared(s: Cursor): Cursor {
    s.(pos := s.end)
  }

  // The first physical record of a buffer, and how many bytes it takes away.
  datatype Parsed = Parsed(t: Byte, fragment: Bytes, used: nat, drops: seq<nat>)

  function LengthField(buffer: Bytes): (n: nat)
    requires |buffer| >= K_HEADER_SIZE
  {
    var a: nat, b: nat := buffer[4], buffer[5];
    a + 256 * b
  }

  function ChecksumOk(crc: Crc, buffer: Bytes, length: nat): bool
    requires K_HEADER_SIZE + length <= |buffer|
  {
    Unmask(DecodeFixed(buffer[..4])) == crc(buffer[6..K_HEADER_SIZE + length]) % TWO_32
  }

  function ParseHeader(crc: Crc, checksum: bool, buffer: Bytes, eof: bool): (p: Parsed)
    requires |buffer| >= K_HEADER_SIZE
    ensures 0 < p.used <= |buffer|
  {
    var length := LengthField(buffer);
    var t := buffer[6];
    if K_HEADER_SIZE + length > |buffer| then
      if eof then Parsed(K_EOF, [], |buffer|, []) else Parsed(K_BAD_RECORD, [], |buffer|, [|buffer|])
    else if t == K_ZERO_TYPE && length == 0 then Parsed(K_BAD_RECORD, [], |buffer|, [])
    else if checksum && !ChecksumOk(crc, buffer, length) then Parsed(K_BAD_RECORD, [], |buffer|, [|buffer|])
    else Parsed(t, buffer[K_HEADER_SIZE..K_HEADER_SIZE + length], K_HEADER_SIZE + length, [])
  }

  function ReadPhysical(crc: Crc, checksum: bool, file: Bytes, s: Cursor): (r: PhysicalRead)
    requires s.pos <= s.end <= |file|
    ensures r.at.pos <= r.at.end <= |file|
    ensures r.t == K_EOF || r.at.pos > s.pos
    decreases |file| - s.end, !s.eof
  {
    if s.end - s.pos < K_HEADER_SIZE then
      if s.eof then PhysicalRead(K_EOF, [], Cleared(s), [])
      else ReadPhysical(crc, checksum, file, NextBlock(|file|, s))
    else
      var p := ParseHeader(crc, checksum, file[s.pos..s.end], s.eof);
      PhysicalRead(p.t, p.fragment, s.(pos := s.pos + p.used), p.drops)
  }

  // An unfinished record gives way to a new one; an empty one does so silently.
  function Abandoned(inFragment: bool, scratch: Bytes): seq<nat> {
    if inFragment && scratch != [] then [|scratch|] else []
  }

  lemma ReadPhysicalStep(crc: Crc, checksum: bool, file: Bytes, s: Cursor)
    requires s.pos <= s.end <= |file|
    ensures s.end - s.pos < K_HEADER_SIZE && s.eof ==>
      ReadPhysical(crc, checksum, file, s) == PhysicalRead(K_EOF, [], Cleared(s), [])
    ensures s.end - s.pos < K_HEADER_SIZE && !s.eof ==>
      ReadPhysical(crc, checksum, file, s) == ReadPhysical(crc, checksum, file, NextBlock(|file|, s))
    ensures s.end - s.pos >= K_HEADER_SIZE ==>
      var p := ParseHeader(crc, checksum, file[s.pos..s.end], s.eof);
      ReadPhysical(crc, checksum, file, s) == PhysicalRead(p.t, p.fragment, s.(pos := s.pos + p.used), p.drops)
  {
    hide ParseHeader;
  }

  // What one fragment does to the record under construction: either ReadRecord
  // returns, or it goes on with other bytes in hand; drops are what is reported.
  datatype Turn =
    | Stop(record: Option<Bytes>, drops: seq<nat>)
    | Go(inFragment: bool, scratch: Bytes, drops: seq<nat>)

  function TurnOf(t: Byte, fragment: Bytes, inFragment: bool, scratch: Bytes): Turn {
    if t == K_EOF then Stop(None, [])
    else if t == K_FULL_TYPE then Stop(Some(fragment), Abandoned(inFragment, scratch))
    else if t == K_FIRST_TYPE then Go(true, fragment, Abandoned(inFragment, scratch))
    else if t == K_MIDDLE_TYPE then
      if inFragment then Go(true, scratch + fragment, []) else Go(false, scratch, [|fragment|])
    else if t == K_LAST_TYPE then
      if inFragment then Stop(Some(scratch + fragment), []) else Go(false, scratch, [|fragment|])
    else if t == K_BAD_RECORD then
      if inFragment then Go(false, [], [|scratch|]) else Go(false, scratch, [])
    else Go(false, [], [|fragment| + if inFragment then |scratch| else 0])
  }

  // A reading before which the given drops were reported.
  function After(drops: seq<nat>, r: RecordRead): (a: RecordRead)
    ensures a.record == r.record && a.at == r.at
  {
    r.(drops := drops + r.drops)
  }

  lemma AfterTwice(a: seq<nat>, b: seq<nat>, r: RecordRead)
    ensures After(a, After(b, r)) == After(a + b, r) && After([], r) == r
  {
  }

  lemma AfterDrops(a: seq<nat>, r: RecordRead)
    ensures After(a, r).drops == a + r.drops
  {
  }

  function ReadLogical(crc: Crc, checksum: bool, file: Bytes, s: Cursor, inFragment: bool, scratch: Bytes): (r: RecordRead)
    requires s.pos <= s.end <= |file|
    ensures r.at.pos <= r.at.end <= |file|
    ensures r.record.Some? ==> r.at.pos > s.pos
    decreases |file| - s.pos
  {
    var p := ReadPhysical(crc, checksum, file, s);
    match TurnOf(p.t, p.fragment, inFragment, scratch)
    case Stop(record, drops) => RecordRead(record, p.at, p.drops + drops)
    case Go(more, kept, drops) => After(p.drops + drops, ReadLogical(crc, checksum, file, p.at, more, kept))
  }

  // Everything ReadRecord returns until it first returns false, and all drops.
  function ReadAll(crc: Crc, checksum: bool, file: Bytes, s: Cursor): (seq<Bytes>, seq<nat>)
    requires s.pos <= s.end <= |file|
    decreases |file| - s.pos
  {
    var r := ReadLogical(crc, checksum, file, s, false, []);
    if r.record.None? then ([], r.drops)
    else
      var (records, drops) := ReadAll(crc, checksum, file, r.at);
      ([r.record.value] + records, r.drops + drops)
  }

  class Reader {
    const crc: Crc
    const checksum: bool
    const file: Bytes
    var buffer: Bytes
    var eof: bool
    var endOfBufferOffset: nat
    // What the reporter has been told.
    var drops: seq<nat>

    ghost predicate Valid()
      reads `buffer, `endOfBufferOffset
    {
      |buffer| <= endOfBufferOffset <= |file| && buffer == file[endOfBufferOffset - |buffer|..endOfBufferOffset]
    }

    function At(): (s: Cursor)
      requires Valid()
      reads `buffer, `eof, `endOfBufferOffset
      ensures s.pos <= s.end <= |file| && s.eof == eof && s.end == endOfBufferOffset
      ensures buffer == file[s.pos..s.end]
    {
      Cursor(endOfBufferOffset - |buffer|, endOfBufferOffset, eof)
    }

    constructor (crc: Crc, checksum: bool, file: Bytes)
      ensures Valid() && At() == START && drops == []
      ensures this.crc == crc && this.checksum == checksum && this.file == file
    {
      this.crc, this.checksum, this.file := crc, checksum, file;
      buffer, eof, endOfBufferOffset, drops := [], false, 0, [];
    }

    method ReadBlock()
      requires Valid() && !eof
      modifies `buffer, `eof, `endOfBufferOffset
      ensures Valid() && At() == NextBlock(|file|, old(At()))
    {
      var e := Min(endOfBufferOffset + K_BLOCK_SIZE, |file|);
      buffer := file[endOfBufferOffset..e];
      endOfBufferOffset := e;
      if |buffer| < K_BLOCK_SIZE {
        eof := true;
      }
    }

    method ClearBuffer()
      requires Valid()
      modifies `buffer
      ensures Valid() && At() == Cleared(old(At()))
    {
      buffer := [];
    }

    // Reads on until the buffer holds a header; false at the end of the file.
    method FillBuffer() returns (more: bool)
      requires Valid()
      modifies `buffer, `eof, `endOfBufferOffset
      ensures Valid()
      ensures more ==> |buffer| >= K_HEADER_SIZE
      ensures var r := ReadPhysical(crc, checksum, file, old(At()));
        if more then
          var p := ParseHeader(crc, checksum, buffer, eof);
          r == PhysicalRead(p.t, p.fragment, At().(pos := At().pos + p.used), p.drops)
        else r == PhysicalRead(K_EOF, [], At(), [])
    {
      hide ParseHeader, ReadPhysical, Valid, At;
      while |buffer| < K_HEADER_SIZE
        invariant Valid()
        invariant ReadPhysical(crc, checksum, file, old(At())) == ReadPhysical(crc, checksum, file, At())
        decreases |file| - At().end, !eof
      {
        ReadPhysicalStep(crc, checksum, file, At());
        if !eof {
          ReadBlock();
        } else {
          ClearBuffer();
          return false;
        }
      }
      more := true;
      ReadPhysicalStep(crc, checksum, file, At());
    }

    // Takes the record at the front of the buffer.
    method TakeHeader() returns (t: Byte, result: Bytes)
      requires |buffer| >= K_HEADER_SIZE
      modifies `buffer, `drops
      ensures var p := ParseHeader(crc, checksum, old(buffer), eof);
        t == p.t && result == p.fragment && buffer == old(buffer)[p.used..] && drops == old(drops) + p.drops
    {
      hide ChecksumOk;
      var length := LengthField(buffer);
      t := buffer[6];
      if K_HEADER_SIZE + length > |buffer| {
        var dropSize := |buffer|;
        buffer := [];
        if !eof {
          drops := drops + [dropSize];
          return K_BAD_RECORD, [];
        }
        return K_EOF, [];
      }
      if t == K_ZERO_TYPE && length == 0 {
        buffer := [];
        return K_BAD_RECORD, [];
      }
      if checksum && !ChecksumOk(crc, buffer, length) {
        var dropSize := |buffer|;
        buffer := [];
        drops := drops + [dropSize];
        return K_BAD_RECORD, [];
      }
      result := buffer[K_HEADER_SIZE..K_HEADER_SIZE + length];
      buffer := buffer[K_HEADER_SIZE + length..];
    }

    method ReadPhysicalRecord() returns (t: Byte, result: Bytes)
      requires Valid()
      modifies this
      ensures Valid()
      ensures var r := ReadPhysical(crc, checksum, file, old(At()));
        r.t == t && r.fragment == result && r.at == At() && drops == old(drops) + r.drops
    {
      hide ReadPhysical, ParseHeader;
      var more := FillBuffer();
      if !more {
        return K_EOF, [];
      }
      t, result := TakeHeader();
    }

    method TakeFragment(t: Byte, fragment: Bytes, inFragment: bool, scratch: Bytes) returns (turn: Turn)
      modifies `drops
      ensures turn == TurnOf(t, fragment, inFragment, scratch) && drops == old(drops) + turn.drops
    {
      ghost var before := drops;
      var record: Option<Bytes>, stop, more, kept := None, false, inFragment, scratch;
      if t == K_FULL_TYPE {
        ReportPartial(more, kept);
        stop, record := true, Some(fragment);
      } else if t == K_FIRST_TYPE {
        ReportPartial(more, kept);
        kept := fragment;
        more := true;
      } else if t == K_MIDDLE_TYPE {
        if !more {
          drops := drops + [|fragment|];
        } else {
          kept := kept + fragment;
        }
      } else if t == K_LAST_TYPE {
        if !more {
          drops := drops + [|fragment|];
        } else {
          kept := kept + fragment;
          stop, record := true, Some(kept);
        }
      } else if t == K_EOF {
        stop := true;
      } else if t == K_BAD_RECORD {
        if more {
          drops := drops + [|kept|];
          more := false;
          kept := [];
        }
      } else {
        drops := drops + [|fragment| + if more then |kept| else 0];
        more := false;
        kept := [];
      }
      turn := if stop then Stop(record, TurnOf(t, fragment, inFragment, scratch).drops)
              else Go(more, kept, TurnOf(t, fragment, inFragment, scratch).drops);
    }

    method ReportPartial(inFragment: bool, scratch: Bytes)
      modifies `drops
      ensures drops == old(drops) + Abandoned(inFragment, scratch)
    {
      if inFragment {
        if scratch == [] {
        } else {
          drops := drops + [|scratch|];
        }
      }
    }

    method ReadRecord() returns (record: Option<Bytes>)
      requires Valid()
      modifies this
      ensures Valid()
      ensures var r := ReadLogical(crc, checksum, file, old(At()), false, []);
        r.record == record && r.at == At() && drops == old(drops) + r.drops
    {
      hide ReadPhysical, ReadLogical, TurnOf, Valid, At, After;
      var scratch: Bytes, inFragment := [], false;
      ghost var whole := ReadLogical(crc, checksum, file, At(), false, []);
      ghost var lost: seq<nat> := [];
      AfterTwice([], [], whole);
      while true
        invariant Valid() && drops == old(drops) + lost
        invariant whole == After(lost, ReadLogical(crc, checksum, file, At(), inFragment, scratch))
        decreases |file| - At().pos
      {
        ReadLogicalStep(crc, checksum, file, At(), inFragment, scratch);
        ghost var p := ReadPhysical(crc, checksum, file, At());
        var t, fragment := ReadPhysicalRecord();
        var turn := TakeFragment(t, fragment, inFragment, scratch);
        match turn {
          case Stop(result, drops) =>
            AfterDrops(lost, RecordRead(result, p.at, p.drops + drops));
            return result;
          case Go(more, kept, drops) =>
            AfterTwice(lost, p.drops + drops, ReadLogical(crc, checksum, file, At(), more, kept));
            lost := lost + (p.drops + drops);
            inFragment, scratch := more, kept;
        }
      }
    }
  }

  lemma ReadLogicalStep(crc: Crc, checksum: bool, file: Bytes, s: Cursor, inFragment: bool, scratch: Bytes)
    requires s.pos <= s.end <= |file|
    ensures var p := ReadPhysical(crc, checksum, file, s);
      ReadLogical(crc, checksum, file, s, inFragment, scratch) ==
        match TurnOf(p.t, p.fragment, inFragment, scratch)
        case Stop(record, drops) => RecordRead(record, p.at, p.drops + drops)
        case Go(more, kept, drops) =>
          After(p.drops + drops, ReadLogical(crc, checksum, file, p.at, more, kept))
    ensures var p := ReadPhysical(crc, checksum, file, s);
      TurnOf(p.t, p.fragment, inFragment, scratch).Go? ==> p.at.pos > s.pos
  {
  }
}
