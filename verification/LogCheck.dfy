// What the log reader makes of any file, told from the bytes of the file: which
// fragments may be part of a record, and which damage is reported
// (leveldb/db/log_reader.cc).
module LogChecks {
  import opened Powers
  import opened Wrappers
  import opened InternalKeys
  import opened Codings
  import opened Logs
  import opened LogRoundTrips

  // ----- Fragments -----

  // A header at p, wholly in its block.
  predicate HasHeader(file: Bytes, p: nat) {
    p + K_HEADER_SIZE <= BlockEnd(|file|, p)
  }

  function LengthAt(file: Bytes, p: nat): nat
    requires p + K_HEADER_SIZE <= |file|
  {
    var a: nat, b: nat := file[p + 4], file[p + 5];
    a + 256 * b
  }

  function EndAt(file: Bytes, p: nat): nat
    requires p + K_HEADER_SIZE <= |file|
  {
    p + K_HEADER_SIZE + LengthAt(file, p)
  }

  // The payload reaches no further than the block or the file.
  predicate Fits(file: Bytes, p: nat) {
    HasHeader(file, p) && EndAt(file, p) <= BlockEnd(|file|, p)
  }

  function DataAt(file: Bytes, p: nat): Bytes
    requires Fits(file, p)
  {
    file[p + K_HEADER_SIZE..EndAt(file, p)]
  }

  // The stored checksum is the one of type and payload.
  predicate Matches(crc: Crc, file: Bytes, p: nat)
    requires Fits(file, p)
  {
    DecodeFixed(file[p..p + 4]) == Mask(crc([file[p + 6]] + DataAt(file, p)) % TWO_32)
  }

  // Left behind by preallocation, and skipped silently.
  predicate IsZero(file: Bytes, p: nat)
    requires HasHeader(file, p)
  {
    file[p + 6] == K_ZERO_TYPE && LengthAt(file, p) == 0
  }

  predicate IsIntact(crc: Crc, file: Bytes, p: nat) {
    Fits(file, p) && !IsZero(file, p) && Matches(crc, file, p)
  }

  // A checksum that does not match, or a length that leaves a block read in full.
  predicate IsDamaged(crc: Crc, file: Bytes, p: nat) {
    && HasHeader(file, p)
    && if Fits(file, p) then !IsZero(file, p) && !Matches(crc, file, p)
       else BlockEnd(|file|, p) % K_BLOCK_SIZE == 0
  }

  // The header behind a fragment, past a trailer if there is one.
  function Behind(file: Bytes, p: nat): nat
    requires HasHeader(file, p)
  {
    EndAt(file, p) + Pad(EndAt(file, p))
  }

  lemma SliceOfSlice(file: Bytes, p: nat, end: nat, i: nat, j: nat)
    requires p <= end <= |file| && i <= j <= end - p
    ensures file[p..end][i..j] == file[p + i..p + j]
  {
    assert forall k :: 0 <= k < j - i ==> file[p..end][i..j][k] == file[p + i..p + j][k];
    assert file[p..end][i..j] == file[p + i..p + j];
  }

  lemma FirstAndRest(file: Bytes, i: nat, j: nat)
    requires i < j <= |file|
    ensures file[i..j] == [file[i]] + file[i + 1..j]
  {
  }

  lemma ChecksumIsMatch(crc: Crc, file: Bytes, p: nat, buffer: Bytes)
    requires Fits(file, p) && buffer == file[p..BlockEnd(|file|, p)]
    ensures ChecksumOk(crc, buffer, LengthAt(file, p)) <==> Matches(crc, file, p)
  {
    hide Mask, Unmask, DecodeFixed, Pow;
    SliceOfSlice(file, p, BlockEnd(|file|, p), 0, 4);
    SliceOfSlice(file, p, BlockEnd(|file|, p), 6, K_HEADER_SIZE + LengthAt(file, p));
    FirstAndRest(file, p + 6, EndAt(file, p));
    hide BlockEnd;
    FixedWidths();
    FixedRoundTripBack(buffer[..4]);
    MaskUnmask(DecodeFixed(buffer[..4]));
    UnmaskMask(crc([file[p + 6]] + DataAt(file, p)) % TWO_32);
  }

  // ----- One step of the reader -----

  // What the reader takes from the header at p.
  function Taken(crc: Crc, file: Bytes, p: nat): Parsed
    requires HasHeader(file, p)
  {
    var rest := BlockEnd(|file|, p) - p;
    if IsIntact(crc, file, p) then Parsed(file[p + 6], DataAt(file, p), K_HEADER_SIZE + LengthAt(file, p), [])
    else if IsDamaged(crc, file, p) then Parsed(K_BAD_RECORD, [], rest, [rest])
    else if Fits(file, p) then Parsed(K_BAD_RECORD, [], rest, [])
    else Parsed(K_EOF, [], rest, [])
  }

  lemma HeaderParses(crc: Crc, file: Bytes, p: nat)
    requires HasHeader(file, p)
    ensures var end := BlockEnd(|file|, p);
      ParseHeader(crc, true, file[p..end], end % K_BLOCK_SIZE != 0) == Taken(crc, file, p)
  {
    hide ChecksumOk, Matches;
    var buffer := file[p..BlockEnd(|file|, p)];
    assert LengthField(buffer) == LengthAt(file, p) && buffer[6] == file[p + 6];
    if Fits(file, p) {
      ChecksumIsMatch(crc, file, p, buffer);
      SliceOfSlice(file, p, BlockEnd(|file|, p), K_HEADER_SIZE, K_HEADER_SIZE + LengthAt(file, p));
    }
  }

  lemma StepTakes(crc: Crc, file: Bytes, s: Cursor)
    requires LogRoundTrips.Placed(|file|, s)
    ensures s.pos <= s.end <= |file|
    ensures var r, p := ReadPhysical(crc, true, file, s), s.pos + Pad(s.pos);
      if HasHeader(file, p) then
        var e := Taken(crc, file, p);
        r == PhysicalRead(e.t, e.fragment, r.at, e.drops) && r.at.pos == p + e.used && LogRoundTrips.Placed(|file|, r.at)
      else r.t == K_EOF && r.drops == []
  {
    hide ReadPhysical, LogRoundTrips.Placed, NextBlock, Filled, Pad, HasHeader, BlockEnd;
    PlacedEnd(|file|, s);
    var p := s.pos + Pad(s.pos);
    if p <= |file| {
      FilledRead(crc, true, file, s);
      FilledTakes(crc, file, Filled(|file|, s));
    } else {
      PastEnd(crc, file, s);
    }
  }

  lemma FilledTakes(crc: Crc, file: Bytes, f: Cursor)
    requires f.pos <= |file| && f.end == BlockEnd(|file|, f.pos)
    requires f.eof <==> f.end < f.pos - f.pos % K_BLOCK_SIZE + K_BLOCK_SIZE
    requires K_BLOCK_SIZE - f.pos % K_BLOCK_SIZE >= K_HEADER_SIZE
    ensures f.pos <= f.end <= |file|
    ensures var r := ReadPhysical(crc, true, file, f);
      if HasHeader(file, f.pos) then
        var e := Taken(crc, file, f.pos);
        r == PhysicalRead(e.t, e.fragment, r.at, e.drops) && r.at.pos == f.pos + e.used && LogRoundTrips.Placed(|file|, r.at)
      else r.t == K_EOF && r.drops == []
  {
    hide ReadPhysical, ParseHeader, Taken, LogRoundTrips.Placed;
    ReadPhysicalStep(crc, true, file, f);
    if HasHeader(file, f.pos) {
      HeaderParses(crc, file, f.pos);
      EndOfFile(file, f);
      TakenInBlock(crc, file, f.pos);
      StillPlaced(|file|, f, Taken(crc, file, f.pos).used);
    }
  }

  lemma EndOfFile(file: Bytes, f: Cursor)
    requires HasHeader(file, f.pos) && f.end == BlockEnd(|file|, f.pos)
    requires f.eof <==> f.end < f.pos - f.pos % K_BLOCK_SIZE + K_BLOCK_SIZE
    ensures f.eof <==> f.end % K_BLOCK_SIZE != 0
  {
    if f.eof {
      assert f.end - (f.pos - f.pos % K_BLOCK_SIZE) == f.end % K_BLOCK_SIZE;
    }
  }

  lemma TakenInBlock(crc: Crc, file: Bytes, p: nat)
    requires HasHeader(file, p)
    ensures var used := Taken(crc, file, p).used;
      0 < used && p % K_BLOCK_SIZE + used <= K_BLOCK_SIZE && p + used <= BlockEnd(|file|, p)
  {
  }

  // A trailer that the file does not hold in full.
  lemma PastEnd(crc: Crc, file: Bytes, s: Cursor)
    requires LogRoundTrips.Placed(|file|, s) && s.pos <= s.end && s.pos + Pad(s.pos) > |file|
    ensures ReadPhysical(crc, true, file, s).t == K_EOF && ReadPhysical(crc, true, file, s).drops == []
    ensures !HasHeader(file, s.pos + Pad(s.pos))
  {
    ReadPhysicalStep(crc, true, file, s);
  }

  // ----- Records -----

  function JoinedData(file: Bytes, ps: seq<nat>): Bytes
    requires forall i :: 0 <= i < |ps| ==> Fits(file, ps[i])
  {
    if ps == [] then [] else JoinedData(file, ps[..|ps| - 1]) + DataAt(file, ps[|ps| - 1])
  }

  // Intact fragments, each right behind the one before.
  ghost predicate IsChain(crc: Crc, file: Bytes, ps: seq<nat>) {
    && ps != []
    && (forall i :: 0 <= i < |ps| ==> IsIntact(crc, file, ps[i]))
    && forall i :: 0 <= i < |ps| - 1 ==> ps[i + 1] == Behind(file, ps[i])
  }

  // The fragments that make up a record: one that is full, or a first, any number of
  // middle ones and a last.
  ghost predicate IsRecord(crc: Crc, file: Bytes, ps: seq<nat>, record: Bytes) {
    && IsChain(crc, file, ps)
    && record == JoinedData(file, ps)
    && forall i :: 0 <= i < |ps| ==> file[ps[i] + 6] == TypeOf(i == 0, i == |ps| - 1)
  }

  // A record of which the last fragment is still to come.
  ghost predicate IsUnfinished(crc: Crc, file: Bytes, ps: seq<nat>, scratch: Bytes) {
    && IsChain(crc, file, ps)
    && scratch == JoinedData(file, ps)
    && forall i :: 0 <= i < |ps| ==> file[ps[i] + 6] == TypeOf(i == 0, false)
  }

  lemma ChainGrows(crc: Crc, file: Bytes, ps: seq<nat>, q: nat)
    requires IsIntact(crc, file, q) && (ps != [] ==> IsChain(crc, file, ps) && q == Behind(file, ps[|ps| - 1]))
    ensures IsChain(crc, file, ps + [q])
    ensures JoinedData(file, ps + [q]) == JoinedData(file, ps) + DataAt(file, q)
  {
    hide IsIntact, Behind, DataAt, Fits, HasHeader;
    var qs := ps + [q];
    IntactFits(crc, file, qs);
    assert qs[..|ps|] == ps && forall i :: 0 <= i < |ps| ==> qs[i] == ps[i];
    forall i | 0 <= i < |qs| - 1 ensures qs[i + 1] == Behind(file, qs[i]) {
      assert i < |ps| - 1 ==> ps[i + 1] == Behind(file, ps[i]);
    }
  }

  lemma UnfinishedGrows(crc: Crc, file: Bytes, ps: seq<nat>, q: nat, scratch: Bytes)
    requires IsIntact(crc, file, q) && file[q + 6] == TypeOf(ps == [], false)
    requires if ps == [] then scratch == [] else IsUnfinished(crc, file, ps, scratch) && q == Behind(file, ps[|ps| - 1])
    ensures IsUnfinished(crc, file, ps + [q], scratch + DataAt(file, q))
  {
    hide IsIntact, TypeOf;
    IntactFits(crc, file, ps + [q]);
    ChainGrows(crc, file, ps, q);
  }

  lemma RecordEnds(crc: Crc, file: Bytes, ps: seq<nat>, q: nat, scratch: Bytes)
    requires IsIntact(crc, file, q) && file[q + 6] == TypeOf(ps == [], true)
    requires if ps == [] then scratch == [] else IsUnfinished(crc, file, ps, scratch) && q == Behind(file, ps[|ps| - 1])
    ensures IsRecord(crc, file, ps + [q], scratch + DataAt(file, q))
  {
    hide IsIntact, TypeOf;
    IntactFits(crc, file, ps + [q]);
    ChainGrows(crc, file, ps, q);
  }

  lemma IntactFits(crc: Crc, file: Bytes, ps: seq<nat>)
    ensures forall i :: 0 <= i < |ps| && IsIntact(crc, file, ps[i]) ==> HasHeader(file, ps[i]) && Fits(file, ps[i])
  {
  }

  lemma TakenIsIntact(crc: Crc, file: Bytes, q: nat)
    requires HasHeader(file, q) && Taken(crc, file, q).t != K_EOF && Taken(crc, file, q).t != K_BAD_RECORD
    ensures IsIntact(crc, file, q) && Taken(crc, file, q).t == file[q + 6]
    ensures Taken(crc, file, q).fragment == DataAt(file, q) && Taken(crc, file, q).used == EndAt(file, q) - q
  {
  }

  // Where the turn over the header at q returns a record.
  lemma TurnEnds(crc: Crc, file: Bytes, q: nat, inFragment: bool, scratch: Bytes, ps: seq<nat>, record: Bytes)
    requires HasHeader(file, q)
    requires inFragment ==> IsUnfinished(crc, file, ps, scratch) && q == Behind(file, ps[|ps| - 1])
    requires var e := Taken(crc, file, q); var turn := TurnOf(e.t, e.fragment, inFragment, scratch);
      turn.Stop? && turn.record == Some(record)
    ensures IsIntact(crc, file, q) && Taken(crc, file, q).used == EndAt(file, q) - q
    ensures var full := Taken(crc, file, q).t == K_FULL_TYPE;
      (full || inFragment) && IsRecord(crc, file, if full then [q] else ps + [q], record)
  {
    hide Taken, IsIntact, IsRecord;
    TakenIsIntact(crc, file, q);
    if Taken(crc, file, q).t == K_FULL_TYPE {
      RecordEnds(crc, file, [], q, []);
      assert [] + [q] == [q] && [] + DataAt(file, q) == DataAt(file, q);
    } else {
      RecordEnds(crc, file, ps, q, scratch);
    }
  }

  // Where it goes on.
  lemma TurnGoes(crc: Crc, file: Bytes, q: nat, inFragment: bool, scratch: Bytes, ps: seq<nat>, more: bool, kept: Bytes)
    requires HasHeader(file, q)
    requires inFragment ==> IsUnfinished(crc, file, ps, scratch) && q == Behind(file, ps[|ps| - 1])
    requires var e := Taken(crc, file, q); var turn := TurnOf(e.t, e.fragment, inFragment, scratch);
      turn.Go? && turn.inFragment == more && turn.scratch == kept
    ensures more ==>
      var first := Taken(crc, file, q).t == K_FIRST_TYPE;
      && IsIntact(crc, file, q) && Taken(crc, file, q).used == EndAt(file, q) - q
      && (first || inFragment) && IsUnfinished(crc, file, if first then [q] else ps + [q], kept)
  {
    hide Taken, IsIntact, IsUnfinished;
    if more {
      TakenIsIntact(crc, file, q);
      if Taken(crc, file, q).t == K_FIRST_TYPE {
        UnfinishedGrows(crc, file, [], q, []);
        assert [] + [q] == [q] && [] + DataAt(file, q) == DataAt(file, q);
      } else {
        UnfinishedNotEmpty(crc, file, ps, scratch);
        UnfinishedGrows(crc, file, ps, q, scratch);
      }
    }
  }

  lemma UnfinishedNotEmpty(crc: Crc, file: Bytes, ps: seq<nat>, scratch: Bytes)
    requires IsUnfinished(crc, file, ps, scratch)
    ensures ps != []
  {
  }

  // Going on from s with the fragments ps in hand, a record comes from intact fragments
  // alone, those in hand and those right behind them, or from new ones.
  lemma {:induction false} RecordFrom(crc: Crc, file: Bytes, s: Cursor, inFragment: bool, scratch: Bytes, ps: seq<nat>)
    returns (qs: seq<nat>)
    requires LogRoundTrips.Placed(|file|, s) && s.pos <= s.end <= |file|
    requires inFragment ==> IsUnfinished(crc, file, ps, scratch) && s.pos == EndAt(file, ps[|ps| - 1])
    requires ReadLogical(crc, true, file, s, inFragment, scratch).record.Some?
    ensures var r := ReadLogical(crc, true, file, s, inFragment, scratch);
      && IsRecord(crc, file, qs, r.record.value)
      && LogRoundTrips.Placed(|file|, r.at) && r.at.pos == EndAt(file, qs[|qs| - 1])
      && ((inFragment && ps <= qs) || s.pos <= qs[0])
    decreases |file| - s.pos
  {
    hide ReadPhysical, ReadLogical, LogRoundTrips.Placed, IsUnfinished, IsRecord, IsChain, JoinedData;
    StepTakes(crc, file, s);
    ReadLogicalStep(crc, true, file, s, inFragment, scratch);
    var p := ReadPhysical(crc, true, file, s);
    var q := s.pos + Pad(s.pos);
    match TurnOf(p.t, p.fragment, inFragment, scratch)
    case Stop(record, drops) =>
      qs := if p.t == K_FULL_TYPE then [q] else ps + [q];
      TurnEnds(crc, file, q, inFragment, scratch, ps, record.value);
    case Go(more, kept, drops) =>
      var held := if more then (if p.t == K_FIRST_TYPE then [q] else ps + [q]) else [];
      TurnGoes(crc, file, q, inFragment, scratch, ps, more, kept);
      qs := RecordFrom(crc, file, p.at, more, kept, held);
  }

  // ----- A whole file -----

  // The chains are those of the records, one after the other in the file.
  ghost predicate AreRecords(crc: Crc, file: Bytes, chains: seq<seq<nat>>, records: seq<Bytes>, from: nat) {
    && |chains| == |records|
    && (forall i :: 0 <= i < |chains| ==> IsRecord(crc, file, chains[i], records[i]))
    && (forall i :: 0 <= i < |chains| - 1 ==> EndAt(file, chains[i][|chains[i]| - 1]) <= chains[i + 1][0])
    && (chains != [] ==> from <= chains[0][0])
  }

  // On any file, with checksums verified: every record handed out is made of fragments of
  // the file whose stored checksum is that of their bytes, the fragments of a record lie
  // one right behind the other, and none is used twice.
  lemma {:induction false} RecordsAreIntact(crc: Crc, file: Bytes, s: Cursor) returns (chains: seq<seq<nat>>)
    requires LogRoundTrips.Placed(|file|, s) && s.pos <= s.end <= |file|
    ensures AreRecords(crc, file, chains, ReadAll(crc, true, file, s).0, s.pos)
    decreases |file| - s.pos
  {
    hide ReadLogical, LogRoundTrips.Placed, IsRecord;
    var r := ReadLogical(crc, true, file, s, false, []);
    if r.record.None? {
      chains := [];
    } else {
      var qs := RecordFrom(crc, file, s, false, [], []);
      var rest := RecordsAreIntact(crc, file, r.at);
      chains := [qs] + rest;
    }
  }

  // The next header the reader comes to, unless it stops.
  function NextHeader(crc: Crc, file: Bytes, p: nat): nat
    requires HasHeader(file, p)
  {
    if IsIntact(crc, file, p) then Behind(file, p) else BlockEnd(|file|, p)
  }

  // From the first header at p on, the reader comes to those of ps.
  ghost predicate Reaches(crc: Crc, file: Bytes, p: nat, ps: seq<nat>) {
    && ps != [] && ps[0] == p
    && (forall i :: 0 <= i < |ps| ==> HasHeader(file, ps[i]))
    && forall i :: 0 <= i < |ps| - 1 ==>
         ps[i + 1] == NextHeader(crc, file, ps[i]) && !(IsIntact(crc, file, ps[i]) && file[ps[i] + 6] == K_EOF)
  }

  // All that is reported from here on.
  function Reported(crc: Crc, file: Bytes, s: Cursor, inFragment: bool, scratch: Bytes): seq<nat>
    requires s.pos <= s.end <= |file|
  {
    var r := ReadLogical(crc, true, file, s, inFragment, scratch);
    r.drops + if r.record.None? then [] else ReadAll(crc, true, file, r.at).1
  }

  lemma AllReported(crc: Crc, file: Bytes, s: Cursor)
    requires s.pos <= s.end <= |file|
    ensures ReadAll(crc, true, file, s).1 == Reported(crc, file, s, false, [])
  {
    hide ReadLogical;
  }

  lemma ReportedStep(crc: Crc, file: Bytes, s: Cursor, inFragment: bool, scratch: Bytes)
    requires s.pos <= s.end <= |file|
    ensures var p, all := ReadPhysical(crc, true, file, s), Reported(crc, file, s, inFragment, scratch);
      && (forall d :: d in p.drops ==> d in all)
      && match TurnOf(p.t, p.fragment, inFragment, scratch)
         case Stop(record, _) => record.Some? ==> forall d :: d in Reported(crc, file, p.at, false, []) ==> d in all
         case Go(more, kept, _) => forall d :: d in Reported(crc, file, p.at, more, kept) ==> d in all
  {
    hide ReadPhysical, TurnOf, ReadLogical;
    ReadLogicalStep(crc, true, file, s, inFragment, scratch);
  }

  lemma NextPlaced(crc: Crc, file: Bytes, s: Cursor, q: nat)
    requires LogRoundTrips.Placed(|file|, s) && HasHeader(file, s.pos + Pad(s.pos))
    requires q == NextHeader(crc, file, s.pos + Pad(s.pos)) && HasHeader(file, q)
    requires !(IsIntact(crc, file, s.pos + Pad(s.pos)) && file[s.pos + Pad(s.pos) + 6] == K_EOF)
    ensures s.pos <= s.end <= |file|
    ensures var r := ReadPhysical(crc, true, file, s);
      && LogRoundTrips.Placed(|file|, r.at) && r.at.pos + Pad(r.at.pos) == q && r.t != K_EOF
  {
    hide ReadPhysical, LogRoundTrips.Placed, Taken, Pad, HasHeader, IsIntact, NextHeader;
    StepTakes(crc, file, s);
    TakenNext(crc, file, s.pos + Pad(s.pos), q);
  }

  lemma TakenNext(crc: Crc, file: Bytes, p: nat, q: nat)
    requires HasHeader(file, p) && q == NextHeader(crc, file, p) && HasHeader(file, q)
    requires !(IsIntact(crc, file, p) && file[p + 6] == K_EOF)
    ensures var e := Taken(crc, file, p); e.t != K_EOF && p + e.used + Pad(p + e.used) == q
  {
    hide Matches;
    var end := BlockEnd(|file|, p);
    if !IsIntact(crc, file, p) {
      assert end % K_BLOCK_SIZE == 0;
    }
  }

  lemma ReachesNext(crc: Crc, file: Bytes, p: nat, ps: seq<nat>)
    requires Reaches(crc, file, p, ps)
    ensures HasHeader(file, p) && ps != [] && ps[0] == p
    ensures |ps| > 1 ==>
      && HasHeader(file, ps[1]) && ps[1] == NextHeader(crc, file, p) && !(IsIntact(crc, file, p) && file[p + 6] == K_EOF)
      && Reaches(crc, file, ps[1], ps[1..]) && ps[1..][|ps| - 2] == ps[|ps| - 1]
  {
    hide IsIntact, NextHeader, HasHeader;
    if |ps| > 1 {
      var rest := ps[1..];
      assert forall i :: 0 <= i < |rest| ==> rest[i] == ps[i + 1];
    }
  }

  // Every damaged fragment that the reader comes to is reported, with all there is of
  // its block from there on.
  lemma {:induction false} DamageIsReported(crc: Crc, file: Bytes, s: Cursor, inFragment: bool, scratch: Bytes, ps: seq<nat>)
    requires LogRoundTrips.Placed(|file|, s) && s.pos <= s.end <= |file|
    requires Reaches(crc, file, s.pos + Pad(s.pos), ps) && IsDamaged(crc, file, ps[|ps| - 1])
    ensures BlockEnd(|file|, ps[|ps| - 1]) - ps[|ps| - 1] in Reported(crc, file, s, inFragment, scratch)
    decreases |ps|
  {
    hide ReadPhysical, ReadLogical, ReadAll, LogRoundTrips.Placed, IsIntact, IsDamaged, HasHeader, NextHeader, Reported, Reaches, TurnOf,
      BlockEnd, Pad;
    ReachesNext(crc, file, s.pos + Pad(s.pos), ps);
    ReportedStep(crc, file, s, inFragment, scratch);
    var p := ReadPhysical(crc, true, file, s);
    if |ps| == 1 {
      DamageTaken(crc, file, s);
    } else {
      NextPlaced(crc, file, s, ps[1]);
      PlacedEnd(|file|, p.at);
      match TurnOf(p.t, p.fragment, inFragment, scratch)
      case Stop(record, drops) =>
        OnlyEofStops(p.t, p.fragment, inFragment, scratch);
        DamageIsReported(crc, file, p.at, false, [], ps[1..]);
      case Go(more, kept, drops) =>
        DamageIsReported(crc, file, p.at, more, kept, ps[1..]);
    }
  }

  lemma OnlyEofStops(t: Byte, fragment: Bytes, inFragment: bool, scratch: Bytes)
    ensures var turn := TurnOf(t, fragment, inFragment, scratch);
      (turn.Stop? && turn.record.None? <==> t == K_EOF) && (t == K_EOF ==> turn == Stop(None, []))
  {
  }

  lemma DamageTaken(crc: Crc, file: Bytes, s: Cursor)
    requires LogRoundTrips.Placed(|file|, s) && IsDamaged(crc, file, s.pos + Pad(s.pos))
    ensures s.pos <= s.end <= |file|
    ensures var r, q := ReadPhysical(crc, true, file, s), s.pos + Pad(s.pos);
      && r.t == K_BAD_RECORD && r.fragment == [] && r.drops == [BlockEnd(|file|, q) - q]
      && r.at.pos == BlockEnd(|file|, q) && LogRoundTrips.Placed(|file|, r.at)
  {
    hide ReadPhysical, LogRoundTrips.Placed, Matches;
    StepTakes(crc, file, s);
  }

  // There the record under construction ends: its bytes are reported, and reading goes
  // on in the next block with none in hand.
  lemma DamageEndsRecord(crc: Crc, file: Bytes, s: Cursor, inFragment: bool, scratch: Bytes) returns (next: Cursor)
    requires LogRoundTrips.Placed(|file|, s) && IsDamaged(crc, file, s.pos + Pad(s.pos))
    ensures s.pos <= s.end <= |file|
    ensures LogRoundTrips.Placed(|file|, next) && next.pos <= next.end <= |file|
    ensures var q := s.pos + Pad(s.pos);
      && next.pos == BlockEnd(|file|, q)
      && ReadLogical(crc, true, file, s, inFragment, scratch) ==
           After([BlockEnd(|file|, q) - q] + if inFragment then [|scratch|] else [],
                 ReadLogical(crc, true, file, next, false, if inFragment then [] else scratch))
  {
    hide ReadPhysical, ReadLogical, LogRoundTrips.Placed, IsDamaged, After;
    DamageTaken(crc, file, s);
    ReadLogicalStep(crc, true, file, s, inFragment, scratch);
    next := ReadPhysical(crc, true, file, s).at;
  }

  // ----- Every byte is accounted for -----

  function Sum(ns: seq<nat>): nat {
    if ns == [] then 0 else ns[0] + Sum(ns[1..])
  }

  lemma {:induction false} SumJoin(a: seq<nat>, b: seq<nat>)
    ensures Sum(a + b) == Sum(a) + Sum(b)
  {
    if a == [] {
      assert a + b == b;
    } else {
      assert (a + b)[1..] == a[1..] + b;
      SumJoin(a[1..], b);
    }
  }

  function Sizes(records: seq<Bytes>): nat {
    if records == [] then 0 else |records[0]| + Sizes(records[1..])
  }

  // The bytes at stake in a fragment: its payload, or what is left of the block if it is
  // damaged. The reader's own two codes are no types a writer stores.
  function AtStake(crc: Crc, file: Bytes, p: nat): nat
    requires HasHeader(file, p)
  {
    if IsIntact(crc, file, p) then (if file[p + 6] == K_EOF || file[p + 6] == K_BAD_RECORD then 0 else |DataAt(file, p)|)
    else if IsDamaged(crc, file, p) then BlockEnd(|file|, p) - p
    else 0
  }

  // And in all fragments the reader comes to from p on.
  function AllAtStake(crc: Crc, file: Bytes, p: nat): nat
    decreases |file| - p
  {
    if !HasHeader(file, p) || (IsIntact(crc, file, p) && file[p + 6] == K_EOF) then 0
    else AtStake(crc, file, p) + AllAtStake(crc, file, NextHeader(crc, file, p))
  }

  // All records from here on.
  function Handed(crc: Crc, file: Bytes, s: Cursor, inFragment: bool, scratch: Bytes): seq<Bytes>
    requires s.pos <= s.end <= |file|
  {
    var r := ReadLogical(crc, true, file, s, inFragment, scratch);
    if r.record.None? then [] else [r.record.value] + ReadAll(crc, true, file, r.at).0
  }

  // How many bytes of records, and of reports, come out of reading from here on.
  function Yield(crc: Crc, file: Bytes, s: Cursor, inFragment: bool, scratch: Bytes): nat
    requires s.pos <= s.end <= |file|
  {
    Sizes(Handed(crc, file, s, inFragment, scratch)) + Sum(Reported(crc, file, s, inFragment, scratch))
  }

  lemma YieldOfAll(crc: Crc, file: Bytes, s: Cursor)
    requires s.pos <= s.end <= |file|
    ensures Yield(crc, file, s, false, []) == Sizes(ReadAll(crc, true, file, s).0) + Sum(ReadAll(crc, true, file, s).1)
  {
    hide ReadLogical, Sizes, Sum;
    AllReported(crc, file, s);
    assert ReadAll(crc, true, file, s).0 == Handed(crc, file, s, false, []);
    hide ReadAll, Handed, Reported;
  }

  lemma YieldStep(crc: Crc, file: Bytes, s: Cursor, inFragment: bool, scratch: Bytes)
    requires s.pos <= s.end <= |file|
    ensures var p := ReadPhysical(crc, true, file, s);
      Yield(crc, file, s, inFragment, scratch) == Sum(p.drops) +
        match TurnOf(p.t, p.fragment, inFragment, scratch)
        case Stop(record, drops) => Sum(drops) + if record.None? then 0 else |record.value| + Yield(crc, file, p.at, false, [])
        case Go(more, kept, drops) => Sum(drops) + Yield(crc, file, p.at, more, kept)
  {
    hide ReadPhysical, TurnOf, ReadLogical, ReadAll, Yield;
    ReadLogicalStep(crc, true, file, s, inFragment, scratch);
    var p := ReadPhysical(crc, true, file, s);
    match TurnOf(p.t, p.fragment, inFragment, scratch)
    case Stop(record, drops) => YieldStops(crc, file, s, inFragment, scratch, record, p.at, p.drops, drops);
    case Go(more, kept, drops) => YieldGoes(crc, file, s, inFragment, scratch, more, kept, p.at, p.drops, drops);
  }

  lemma YieldStops(crc: Crc, file: Bytes, s: Cursor, inFragment: bool, scratch: Bytes, record: Option<Bytes>, at: Cursor,
                   first: seq<nat>, drops: seq<nat>)
    requires s.pos <= s.end <= |file| && at.pos <= at.end <= |file|
    requires ReadLogical(crc, true, file, s, inFragment, scratch) == RecordRead(record, at, first + drops)
    ensures Yield(crc, file, s, inFragment, scratch) ==
            Sum(first) + (Sum(drops) + if record.None? then 0 else |record.value| + Yield(crc, file, at, false, []))
  {
    hide ReadLogical, ReadAll;
    SumJoin(first, drops);
    if record.None? {
      assert first + drops + [] == first + drops;
    } else {
      YieldOfAll(crc, file, at);
      var (records, more) := ReadAll(crc, true, file, at);
      SumJoin(first + drops, more);
      assert ([record.value] + records)[1..] == records;
    }
  }

  lemma YieldGoes(crc: Crc, file: Bytes, s: Cursor, inFragment: bool, scratch: Bytes, more: bool, kept: Bytes, at: Cursor,
                  first: seq<nat>, drops: seq<nat>)
    requires s.pos <= s.end <= |file| && at.pos <= at.end <= |file|
    requires ReadLogical(crc, true, file, s, inFragment, scratch) == After(first + drops, ReadLogical(crc, true, file, at, more, kept))
    ensures Yield(crc, file, s, inFragment, scratch) == Sum(first) + (Sum(drops) + Yield(crc, file, at, more, kept))
  {
    hide ReadLogical, ReadAll, Sum, Sizes;
    assert Handed(crc, file, s, inFragment, scratch) == Handed(crc, file, at, more, kept);
    ReportedGoes(crc, file, s, inFragment, scratch, more, kept, at, first + drops);
    hide Handed, Reported;
    SumJoin(first, drops);
    SumJoin(first + drops, Reported(crc, file, at, more, kept));
  }

  lemma ReportedGoes(crc: Crc, file: Bytes, s: Cursor, inFragment: bool, scratch: Bytes, more: bool, kept: Bytes, at: Cursor, drops: seq<nat>)
    requires s.pos <= s.end <= |file| && at.pos <= at.end <= |file|
    requires ReadLogical(crc, true, file, s, inFragment, scratch) == After(drops, ReadLogical(crc, true, file, at, more, kept))
    ensures Reported(crc, file, s, inFragment, scratch) == drops + Reported(crc, file, at, more, kept)
  {
    hide ReadLogical, ReadAll;
    var r := ReadLogical(crc, true, file, at, more, kept);
    Regrouped(drops, r.drops, if r.record.None? then [] else ReadAll(crc, true, file, r.at).1);
  }

  lemma Regrouped(a: seq<nat>, b: seq<nat>, c: seq<nat>)
    ensures (a + b) + c == a + (b + c)
  {
  }

  function InHand(inFragment: bool, scratch: Bytes): nat {
    if inFragment then |scratch| else 0
  }

  lemma SumOfOne(n: nat)
    ensures Sum([n]) == n && Sum([]) == 0
  {
  }

  // One turn neither loses nor makes up a byte.
  lemma TurnBalances(crc: Crc, file: Bytes, q: nat, inFragment: bool, scratch: Bytes)
    requires HasHeader(file, q)
    ensures var e := Taken(crc, file, q);
      InHand(inFragment, scratch) + AtStake(crc, file, q) == Sum(e.drops) +
        match TurnOf(e.t, e.fragment, inFragment, scratch)
        case Stop(record, drops) => Sum(drops) + if record.None? then InHand(inFragment, scratch) else |record.value|
        case Go(more, kept, drops) => Sum(drops) + InHand(more, kept)
  {
    hide Matches, Fits;
    var e := Taken(crc, file, q);
    SumOfOne(0);
    SumOfOne(|scratch|);
    SumOfOne(|e.fragment|);
    SumOfOne(BlockEnd(|file|, q) - q);
    SumOfOne(|e.fragment| + |scratch|);
  }

  // Reading on from s, the bytes in hand and those at stake in all fragments to come are
  // in records, in reports, or in a last record that the file does not finish.
  lemma {:induction false} BytesConserved(crc: Crc, file: Bytes, s: Cursor, inFragment: bool, scratch: Bytes, ps: seq<nat>)
    returns (lost: Bytes, ls: seq<nat>)
    requires LogRoundTrips.Placed(|file|, s) && s.pos <= s.end <= |file|
    requires inFragment ==> IsUnfinished(crc, file, ps, scratch) && s.pos == EndAt(file, ps[|ps| - 1])
    ensures InHand(inFragment, scratch) + AllAtStake(crc, file, s.pos + Pad(s.pos)) ==
            Yield(crc, file, s, inFragment, scratch) + |lost|
    ensures lost != [] ==> IsUnfinished(crc, file, ls, lost)
    decreases |file| - s.pos
  {
    hide ReadPhysical, Yield, Taken, LogRoundTrips.Placed, IsUnfinished, IsIntact, TurnOf, AtStake, AllAtStake, Sum, HasHeader, Pad;
    StepTakes(crc, file, s);
    YieldStep(crc, file, s, inFragment, scratch);
    var p, q := ReadPhysical(crc, true, file, s), s.pos + Pad(s.pos);
    OnlyEofStops(p.t, p.fragment, inFragment, scratch);
    if !HasHeader(file, q) {
      NothingAtStake(crc, file, q);
      lost, ls := if inFragment then scratch else [], ps;
    } else {
      TurnBalances(crc, file, q, inFragment, scratch);
      match TurnOf(p.t, p.fragment, inFragment, scratch)
      case Stop(record, drops) =>
        if record.None? {
          EofEnds(crc, file, q);
          lost, ls := if inFragment then scratch else [], ps;
        } else {
          TurnEnds(crc, file, q, inFragment, scratch, ps, record.value);
          GoesBehind(crc, file, q);
          lost, ls := BytesConserved(crc, file, p.at, false, [], []);
        }
      case Go(more, kept, drops) =>
        TurnGoes(crc, file, q, inFragment, scratch, ps, more, kept);
        GoesBehind(crc, file, q);
        var held := if more then (if p.t == K_FIRST_TYPE then [q] else ps + [q]) else [];
        lost, ls := BytesConserved(crc, file, p.at, more, kept, held);
    }
  }

  lemma NothingAtStake(crc: Crc, file: Bytes, q: nat)
    requires !HasHeader(file, q)
    ensures AllAtStake(crc, file, q) == 0 && Sum([]) == 0
  {
  }

  // What is taken for the end of the file has nothing behind it.
  lemma EofEnds(crc: Crc, file: Bytes, q: nat)
    requires HasHeader(file, q) && Taken(crc, file, q).t == K_EOF
    ensures AtStake(crc, file, q) == 0 == AllAtStake(crc, file, q)
    ensures Taken(crc, file, q).drops == [] && Sum([]) == 0
  {
    hide Matches;
    if !IsIntact(crc, file, q) {
      var end := BlockEnd(|file|, q);
      assert end % K_BLOCK_SIZE != 0 && end == |file|;
    }
  }

  lemma GoesBehind(crc: Crc, file: Bytes, q: nat)
    requires HasHeader(file, q) && Taken(crc, file, q).t != K_EOF
    ensures var next := q + Taken(crc, file, q).used;
      AllAtStake(crc, file, q) == AtStake(crc, file, q) + AllAtStake(crc, file, next + Pad(next))
  {
    hide IsIntact, AtStake, Taken, AllAtStake, Pad, BlockEnd, HasHeader;
    TakenUses(crc, file, q);
    AtStakeStep(crc, file, q);
    if !IsIntact(crc, file, q) {
      NothingBehind(crc, file, BlockEnd(|file|, q));
    }
  }

  lemma TakenUses(crc: Crc, file: Bytes, q: nat)
    requires HasHeader(file, q)
    ensures var e, end := Taken(crc, file, q), BlockEnd(|file|, q);
      && (end % K_BLOCK_SIZE == 0 || end == |file|)
      && (if IsIntact(crc, file, q) then q + e.used == EndAt(file, q) && e.t == file[q + 6] else q + e.used == end)
  {
    hide IsIntact, IsDamaged;
    IntactFits(crc, file, [q]);
  }

  lemma AtStakeStep(crc: Crc, file: Bytes, q: nat)
    requires HasHeader(file, q) && !(IsIntact(crc, file, q) && file[q + 6] == K_EOF)
    ensures AllAtStake(crc, file, q) == AtStake(crc, file, q) + AllAtStake(crc, file, NextHeader(crc, file, q))
  {
    hide IsIntact, AtStake, NextHeader, HasHeader;
  }

  lemma NothingBehind(crc: Crc, file: Bytes, end: nat)
    requires end % K_BLOCK_SIZE == 0 || end == |file|
    ensures AllAtStake(crc, file, end) == AllAtStake(crc, file, end + Pad(end))
  {
    hide IsIntact, AtStake, NextHeader;
    if end % K_BLOCK_SIZE == 0 {
      assert Pad(end) == 0;
    } else {
      assert !HasHeader(file, end) && !HasHeader(file, end + Pad(end));
    }
  }

  // Reading the file, the reader comes to a damaged fragment at q.
  ghost predicate MeetsDamage(crc: Crc, file: Bytes, q: nat) {
    IsDamaged(crc, file, q) && exists ps :: Reaches(crc, file, 0, ps) && ps[|ps| - 1] == q
  }

  // From the start of any file: where its records stand, that damage is reported, and that
  // every byte at stake is in a record, in a report, or in a last record without an end.
  lemma WholeFile(crc: Crc, file: Bytes) returns (chains: seq<seq<nat>>, lost: Bytes, ls: seq<nat>)
    ensures AreRecords(crc, file, chains, ReadAll(crc, true, file, START).0, 0)
    ensures forall q: nat :: MeetsDamage(crc, file, q) ==> BlockEnd(|file|, q) - q in ReadAll(crc, true, file, START).1
    ensures var (records, drops) := ReadAll(crc, true, file, START);
      AllAtStake(crc, file, 0) == Sizes(records) + Sum(drops) + |lost| && (lost != [] ==> IsUnfinished(crc, file, ls, lost))
  {
    hide ReadLogical, ReadAll, IsDamaged, AreRecords, Reported, AllAtStake, Yield, IsUnfinished;
    chains := RecordsAreIntact(crc, file, START);
    AllReported(crc, file, START);
    forall q: nat | MeetsDamage(crc, file, q) ensures BlockEnd(|file|, q) - q in ReadAll(crc, true, file, START).1 {
      var ps :| Reaches(crc, file, 0, ps) && ps[|ps| - 1] == q;
      DamageIsReported(crc, file, START, false, [], ps);
    }
    lost, ls := BytesConserved(crc, file, START, false, [], []);
    YieldOfAll(crc, file, START);
  }
}
