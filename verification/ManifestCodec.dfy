// Recovery from the records of a manifest (VersionSet::Recover, leveldb/db/version_set.cc).
// A file's contents are on disk under its number; an internal key is its user key's
// bytes and a trailer.
module ManifestCodecs {
  import opened Powers
  import opened Codings
  import opened Comparators
  import opened EditCodecs
  import opened Wrappers
  import opened InternalKeys
  import opened VersionEdits
  import opened Replays
  import opened Versions

  // The bytes of user keys, and the disk.
  datatype Disk = Disk(name: UserKey -> Bytes, rank: Bytes -> UserKey, contents: nat -> seq<Entry>)

  ghost predicate Named(disk: Disk) {
    forall u :: disk.rank(disk.name(u)) == u
  }

  function KeyBytes(disk: Disk, k: Key): Bytes {
    InternalKey(disk.name(k.user), k.sn, TypeCode(k.kind))
  }

  function KeyOf(disk: Disk, b: Bytes): Key {
    Key(disk.rank(UserPart(b)), Trailer(b) / 256, if Trailer(b) % 256 == 0 then Deletion else Put)
  }

  lemma KeyRoundTrip(disk: Disk, k: Key)
    requires Named(disk) && k.sn <= MAX_SEQUENCE
    ensures KeyOf(disk, KeyBytes(disk, k)) == k
  {
    InternalKeyParts(disk.name(k.user), k.sn, TypeCode(k.kind));
  }

  function RecordOf(disk: Disk, f: FileMeta): FileRecord {
    FileRecord(f.number, f.size, KeyBytes(disk, f.smallest), KeyBytes(disk, f.largest))
  }

  function MetaOf(disk: Disk, r: FileRecord): FileMeta {
    FileMeta(r.number, r.size, KeyOf(disk, r.smallest), KeyOf(disk, r.largest), disk.contents(r.number))
  }

  // The edit that a record's fields make.
  function EditFrom(disk: Disk, e: Fields): VersionEdit {
    VersionEdit(DeletedSet(e.deletedFiles), seq(|e.newFiles|, i requires 0 <= i < |e.newFiles| => (e.newFiles[i].0, MetaOf(disk, e.newFiles[i].1))))
  }

  function DeletedSet(ds: seq<(nat, nat)>): set<(nat, nat)> {
    set d | d in ds
  }

  function EditsFrom(disk: Disk, es: seq<Fields>): (r: seq<VersionEdit>)
    ensures |r| == |es|
  {
    seq(|es|, i requires 0 <= i < |es| => EditFrom(disk, es[i]))
  }

  function RecordsOf(es: seq<Fields>): (r: seq<Bytes>)
    ensures |r| == |es|
  {
    seq(|es|, i requires 0 <= i < |es| => Encoded(ItemsOf(es[i])))
  }

  // Every level an edit names exists.
  ghost predicate LevelsExist(e: Fields) {
    && (forall i :: 0 <= i < |e.deletedFiles| ==> e.deletedFiles[i].0 < NUM_LEVELS)
    && (forall i :: 0 <= i < |e.newFiles| ==> e.newFiles[i].0 < NUM_LEVELS)
  }

  lemma EditIsValid(disk: Disk, e: Fields)
    requires LevelsExist(e)
    ensures ValidEdit(EditFrom(disk, e))
  {
  }

  lemma {:induction false} InsertedPairs(s: seq<(nat, nat)>, p: (nat, nat))
    ensures forall q :: q in InsertPair(s, p) ==> q in s || q == p
  {
    if s != [] && s[0] != p && !PairLess(p, s[0]) {
      InsertedPairs(s[1..], p);
      assert s == [s[0]] + s[1..];
    }
  }

  // GetLevel lets no other level through.
  lemma BodyLevels(tag: nat, s: Bytes, e: Fields)
    requires LevelsExist(e) && DecodeBody(tag, s).Some?
    ensures LevelsExist(PutItem(e, DecodeBody(tag, s).value.value))
  {
    hide GetVarint32, GetVarint64, GetSlice;
    var item := DecodeBody(tag, s).value.value;
    if item.DeletedFile? {
      var ds := InsertPair(e.deletedFiles, (item.level, item.number));
      InsertedPairs(e.deletedFiles, (item.level, item.number));
      forall i | 0 <= i < |ds| ensures ds[i].0 < NUM_LEVELS {
        assert ds[i] in ds;
      }
    }
  }

  lemma {:induction false} DecodedLevels(e: Fields, s: Bytes)
    requires LevelsExist(e)
    ensures DecodeFields(e, s).Some? ==> LevelsExist(DecodeFields(e, s).value)
    decreases |s|
  {
    hide GetVarint32, DecodeBody, PutItem, LevelsExist;
    var tag := GetVarint32(s);
    if tag.Some? {
      TagShrinks(s);
      BodyShrinks(tag.value.value, tag.value.rest);
      var d := DecodeBody(tag.value.value, tag.value.rest);
      if d.Some? {
        BodyLevels(tag.value.value, tag.value.rest, e);
        DecodedLevels(PutItem(e, d.value.value), d.value.rest);
      }
    }
  }

  // The last edit that says something.
  function LastOf(values: seq<Option<nat>>): Option<nat> {
    if values == [] then None
    else if values[|values| - 1].Some? then values[|values| - 1]
    else LastOf(values[..|values| - 1])
  }

  function NextFiles(es: seq<Fields>): seq<Option<nat>> {
    seq(|es|, i requires 0 <= i < |es| => es[i].nextFileNumber)
  }

  function LogNumbers(es: seq<Fields>): seq<Option<nat>> {
    seq(|es|, i requires 0 <= i < |es| => es[i].logNumber)
  }

  function PrevLogNumbers(es: seq<Fields>): seq<Option<nat>> {
    seq(|es|, i requires 0 <= i < |es| => es[i].prevLogNumber)
  }

  function LastSequences(es: seq<Fields>): seq<Option<nat>> {
    seq(|es|, i requires 0 <= i < |es| => es[i].lastSequence)
  }

  const NO_FIELDS := Fields(None, None, None, None, None, [], [], [])

  datatype Recovered =
    | Corruption
    | WrongComparator
    | Recovered(levels: seq<Files>, manifestFile: nat, nextFile: nat, logNumber: nat, prevLogNumber: nat, lastSequence: nat)

  // The records as edits, up to the first that is unreadable or of another comparator.
  datatype Reading = Stopped(status: Recovered) | Edits(edits: seq<Fields>)

  ghost function ReadAll(records: seq<Bytes>, comparator: Bytes): (r: Reading)
    ensures r.Stopped? ==> !r.status.Recovered?
    ensures r.Edits? ==> |r.edits| == |records| && forall i :: 0 <= i < |records| ==> LevelsExist(r.edits[i])
  {
    if records == [] then Edits([])
    else
      match ReadAll(records[..|records| - 1], comparator)
      case Stopped(status) => Stopped(status)
      case Edits(es) =>
        DecodedLevels(NO_FIELDS, records[|records| - 1]);
        match DecodeFields(NO_FIELDS, records[|records| - 1])
        case None => Stopped(Corruption)
        case Some(e) => if e.comparator.Some? && e.comparator.value != comparator then Stopped(WrongComparator) else Edits(es + [e])
  }

  ghost predicate AllLevelsExist(es: seq<Fields>) {
    forall i :: 0 <= i < |es| ==> LevelsExist(es[i])
  }

  lemma EditsAreValid(disk: Disk, es: seq<Fields>)
    requires AllLevelsExist(es)
    ensures ValidEdits(EditsFrom(disk, es))
  {
    forall i | 0 <= i < |es| {
      EditIsValid(disk, es[i]);
    }
  }

  // What recovery answers for edits it could read.
  ghost function Outcome(base: seq<Files>, disk: Disk, es: seq<Fields>): Recovered
    requires |base| == NUM_LEVELS && AllLevelsExist(es)
  {
    EditsAreValid(disk, es);
    var nextFile, log, prev, last := LastOf(NextFiles(es)), LastOf(LogNumbers(es)), LastOf(PrevLogNumbers(es)), LastOf(LastSequences(es));
    if nextFile.None? || log.None? || last.None? then Corruption
    else Recovered(Save(base, Replay(EditsFrom(disk, es))), nextFile.value, nextFile.value + 1, log.value, if prev.Some? then prev.value else 0, last.value)
  }

  // VersionSet::Recover, for the records the log reader hands out.
  method Recover(base: seq<Files>, disk: Disk, comparator: Bytes, records: seq<Bytes>) returns (r: Recovered)
    requires |base| == NUM_LEVELS
    ensures match ReadAll(records, comparator)
            case Stopped(status) => r == status
            case Edits(es) => r == Outcome(base, disk, es)
  {
    hide DecodeFields, Applied, Save, EditFrom, LevelsExist, ReadAll, Replay;
    var nextFile: Option<nat>, log: Option<nat>, prev: Option<nat>, last: Option<nat> := None, None, None, None;
    var builder := new Builder(base);
    ghost var es: seq<Fields> := [];
    var i := 0;
    NothingRead(disk);
    assert records[..0] == [];
    while i < |records|
      invariant i <= |records| && ReadAll(records[..i], comparator) == Edits(es) && AllLevelsExist(es)
      invariant ValidEdits(EditsFrom(disk, es)) && builder.levels == Replay(EditsFrom(disk, es))
      invariant nextFile == LastOf(NextFiles(es)) && log == LastOf(LogNumbers(es))
      invariant prev == LastOf(PrevLogNumbers(es)) && last == LastOf(LastSequences(es))
    {
      ReadNext(records, comparator, i);
      var edit := new EncodedEdit();
      assert Cleared(edit.fields) == NO_FIELDS;
      var ok := edit.DecodeFrom(records[i]);
      if !ok {
        StaysStopped(records, comparator, i + 1);
        return Corruption;
      }
      var fields := edit.fields;
      if fields.comparator.Some? && fields.comparator.value != comparator {
        StaysStopped(records, comparator, i + 1);
        return WrongComparator;
      }
      NothingNamed();
      DecodedLevels(NO_FIELDS, records[i]);
      EditIsValid(disk, fields);
      EditsNext(disk, es, fields);
      builder.Apply(EditFrom(disk, fields));
      LastNext(es, fields);
      if fields.logNumber.Some? {
        log := fields.logNumber;
      }
      if fields.prevLogNumber.Some? {
        prev := fields.prevLogNumber;
      }
      if fields.nextFileNumber.Some? {
        nextFile := fields.nextFileNumber;
      }
      if fields.lastSequence.Some? {
        last := fields.lastSequence;
      }
      es := es + [fields];
      i := i + 1;
    }
    assert records[..i] == records;
    if nextFile.None? || log.None? || last.None? {
      return Corruption;
    }
    var v := builder.SaveTo();
    return Recovered(v, nextFile.value, nextFile.value + 1, log.value, if prev.Some? then prev.value else 0, last.value);
  }

  lemma NothingRead(disk: Disk)
    ensures ValidEdits(EditsFrom(disk, [])) && Replay(EditsFrom(disk, [])) == Fresh()
    ensures forall comparator: Bytes :: ReadAll([], comparator) == Edits([])
    ensures NextFiles([]) == LogNumbers([]) == PrevLogNumbers([]) == LastSequences([]) == []
  {
  }

  lemma ReadNext(records: seq<Bytes>, comparator: Bytes, i: nat)
    requires i < |records| && ReadAll(records[..i], comparator).Edits?
    ensures ReadAll(records[..i + 1], comparator) ==
            match DecodeFields(NO_FIELDS, records[i])
            case None => Stopped(Corruption)
            case Some(e) =>
              if e.comparator.Some? && e.comparator.value != comparator then Stopped(WrongComparator)
              else Edits(ReadAll(records[..i], comparator).edits + [e])
  {
    hide DecodeFields;
    assert records[..i + 1][..i] == records[..i];
  }

  lemma {:induction false} StaysStopped(records: seq<Bytes>, comparator: Bytes, i: nat)
    requires i <= |records| && ReadAll(records[..i], comparator).Stopped?
    ensures ReadAll(records, comparator) == ReadAll(records[..i], comparator)
  {
    if i == |records| {
      assert records[..i] == records;
    } else {
      var n := |records| - 1;
      assert records[..n][..i] == records[..i];
      StaysStopped(records[..n], comparator, i);
    }
  }

  // A record that stops recovery: it does not decode, or names another comparator.
  ghost predicate Stops(record: Bytes, comparator: Bytes) {
    var e := DecodeFields(NO_FIELDS, record);
    e.None? || (e.value.comparator.Some? && e.value.comparator.value != comparator)
  }

  // The first record that stops recovery, and the status it gives.
  ghost predicate FirstStop(records: seq<Bytes>, comparator: Bytes, i: nat, status: Recovered) {
    && i < |records| && Stops(records[i], comparator) && (forall j :: 0 <= j < i ==> !Stops(records[j], comparator))
    && status == if DecodeFields(NO_FIELDS, records[i]).None? then Corruption else WrongComparator
  }

  ghost predicate AllDecode(records: seq<Bytes>, comparator: Bytes, es: seq<Fields>) {
    && |es| == |records|
    && forall i :: 0 <= i < |records| ==> !Stops(records[i], comparator) && DecodeFields(NO_FIELDS, records[i]) == Some(es[i])
  }

  // Recovery reads to the end if no record stops it; else the first that does says why.
  lemma {:induction false} ReadsUntilStopped(records: seq<Bytes>, comparator: Bytes)
    ensures var r := ReadAll(records, comparator);
      if r.Edits? then AllDecode(records, comparator, r.edits) else exists i :: FirstStop(records, comparator, i, r.status)
  {
    hide DecodeFields, Stops;
    if records != [] {
      var n := |records| - 1;
      ReadsUntilStopped(records[..n], comparator);
      var front := ReadAll(records[..n], comparator);
      if front.Stopped? {
        var i :| FirstStop(records[..n], comparator, i, front.status);
        StopStays(records, comparator, n, i, front.status);
      } else {
        OneMoreRecord(records, comparator, front.edits);
      }
    }
  }

  lemma StopStays(records: seq<Bytes>, comparator: Bytes, n: nat, i: nat, status: Recovered)
    requires n <= |records| && FirstStop(records[..n], comparator, i, status)
    ensures FirstStop(records, comparator, i, status)
  {
    hide DecodeFields, Stops;
    assert forall j :: 0 <= j < n ==> records[..n][j] == records[j];
  }

  lemma OneMoreRecord(records: seq<Bytes>, comparator: Bytes, es: seq<Fields>)
    requires records != [] && ReadAll(records[..|records| - 1], comparator) == Edits(es)
    requires AllDecode(records[..|records| - 1], comparator, es)
    ensures var r := ReadAll(records, comparator);
      if r.Edits? then AllDecode(records, comparator, r.edits) else FirstStop(records, comparator, |records| - 1, r.status)
  {
    hide DecodeFields;
    var n := |records| - 1;
    assert forall j :: 0 <= j < n ==> records[..n][j] == records[j];
  }

  // Edit i is the last to tell a number, and tells this one.
  ghost predicate IsLastAt(values: seq<Option<nat>>, v: nat, i: nat) {
    i < |values| && values[i] == Some(v) && forall j :: i < j < |values| ==> values[j] == None
  }

  ghost predicate IsLast(values: seq<Option<nat>>, v: nat) {
    exists i :: IsLastAt(values, v, i)
  }

  lemma {:induction false} LastOfIsLast(values: seq<Option<nat>>)
    ensures LastOf(values).None? <==> forall i :: 0 <= i < |values| ==> values[i] == None
    ensures LastOf(values).Some? ==> IsLast(values, LastOf(values).value)
  {
    if values != [] {
      var n := |values| - 1;
      var front := values[..n];
      assert forall i :: 0 <= i < n ==> front[i] == values[i];
      if values[n].Some? {
        assert IsLastAt(values, values[n].value, n);
      } else {
        LastOfIsLast(front);
        if LastOf(front).Some? {
          var i :| IsLastAt(front, LastOf(front).value, i);
          assert IsLastAt(values, LastOf(values).value, i);
        }
      }
    }
  }

  // It succeeds exactly if some edits tell the next file number, the log number and the
  // last sequence, and takes the last that each was told.
  lemma RecoversIfTold(base: seq<Files>, disk: Disk, es: seq<Fields>)
    requires |base| == NUM_LEVELS && AllLevelsExist(es)
    ensures var r := Outcome(base, disk, es);
      && (r.Recovered? <==>
            && (exists i :: 0 <= i < |es| && es[i].nextFileNumber.Some?)
            && (exists i :: 0 <= i < |es| && es[i].logNumber.Some?)
            && (exists i :: 0 <= i < |es| && es[i].lastSequence.Some?))
      && (!r.Recovered? ==> r == Corruption)
      && (r.Recovered? ==>
            && IsLast(NextFiles(es), r.manifestFile) && r.nextFile == r.manifestFile + 1
            && IsLast(LogNumbers(es), r.logNumber) && IsLast(LastSequences(es), r.lastSequence)
            && (IsLast(PrevLogNumbers(es), r.prevLogNumber) || (r.prevLogNumber == 0 && forall i :: 0 <= i < |es| ==> es[i].prevLogNumber.None?)))
  {
    hide Save, Replay, IsLast, LastOf;
    LastOfIsLast(NextFiles(es));
    LastOfIsLast(LogNumbers(es));
    LastOfIsLast(LastSequences(es));
    LastOfIsLast(PrevLogNumbers(es));
    assert forall i :: 0 <= i < |es| ==>
      NextFiles(es)[i] == es[i].nextFileNumber && LogNumbers(es)[i] == es[i].logNumber
      && LastSequences(es)[i] == es[i].lastSequence && PrevLogNumbers(es)[i] == es[i].prevLogNumber;
  }

  lemma EditsNext(disk: Disk, es: seq<Fields>, e: Fields)
    requires ValidEdits(EditsFrom(disk, es)) && ValidEdit(EditFrom(disk, e))
    ensures ValidEdits(EditsFrom(disk, es + [e]))
    ensures Replay(EditsFrom(disk, es + [e])) == Applied(Replay(EditsFrom(disk, es)), EditFrom(disk, e))
  {
    hide EditFrom, Applied;
    assert EditsFrom(disk, es + [e]) == EditsFrom(disk, es) + [EditFrom(disk, e)];
    assert EditsFrom(disk, es + [e])[..|es|] == EditsFrom(disk, es);
  }

  lemma LastNext(es: seq<Fields>, e: Fields)
    ensures NextFiles(es + [e])[..|es|] == NextFiles(es) && LogNumbers(es + [e])[..|es|] == LogNumbers(es)
    ensures PrevLogNumbers(es + [e])[..|es|] == PrevLogNumbers(es) && LastSequences(es + [e])[..|es|] == LastSequences(es)
  {
  }

  // ----- Reading back what was written -----

  ghost predicate AreEdits(es: seq<Fields>, comparator: Bytes) {
    forall i :: 0 <= i < |es| ==> IsEdit(es[i]) && (es[i].comparator.None? || es[i].comparator.value == comparator)
  }

  lemma {:induction false} RecordsReadBack(es: seq<Fields>, comparator: Bytes)
    requires AreEdits(es, comparator)
    ensures ReadAll(RecordsOf(es), comparator) == Edits(es) && AllLevelsExist(es)
  {
    hide DecodeFields, Encoded, IsEdit, LevelsExist;
    if es != [] {
      var n := |es| - 1;
      RecordsReadBack(es[..n], comparator);
      assert RecordsOf(es)[..n] == RecordsOf(es[..n]);
      FreshRoundTrip(es[n]);
      assert es == es[..n] + [es[n]];
    }
  }

  lemma FreshRoundTrip(e: Fields)
    requires IsEdit(e)
    ensures DecodeFields(NO_FIELDS, Encoded(ItemsOf(e))) == Some(e) && LevelsExist(e)
  {
    hide DecodeFields, Encoded, IsEdit, ItemsOf, LevelsExist;
    assert Cleared(NO_FIELDS) == NO_FIELDS;
    RoundTripNeedsNoPointers(NO_FIELDS, e);
    NothingNamed();
    DecodedLevels(NO_FIELDS, Encoded(ItemsOf(e)));
  }

  lemma NothingNamed()
    ensures LevelsExist(NO_FIELDS)
  {
  }

  // Recovering from the records written for a list of edits, none of which adds a
  // (level, number) again, gives the version that installing them one at a time gave.
  lemma RecoveredIsInstalled(base: seq<Files>, disk: Disk, es: seq<Fields>, comparator: Bytes)
    requires OrderedLevels(base) && AreEdits(es, comparator) && AllLevelsExist(es)
    requires ValidEdits(EditsFrom(disk, es)) && AddsOnce(base, EditsFrom(disk, es))
    ensures ReadAll(RecordsOf(es), comparator) == Edits(es)
    ensures var r := Outcome(base, disk, es); r.Recovered? ==> r.levels == InstallAll(base, EditsFrom(disk, es))
  {
    hide ReadAll, AreEdits, InstallAll, Replay, Save;
    RecordsReadBack(es, comparator);
    BatchedReplay(base, EditsFrom(disk, es));
  }

  // ----- Every edit can be written -----

  // Its numbers fit, its keys are short enough, its files are the ones on disk.
  ghost predicate Writable(disk: Disk, e: VersionEdit) {
    && Named(disk) && ValidEdit(e) && (forall d :: d in e.deleted ==> d.1 < TWO_64)
    && forall i :: 0 <= i < |e.added| ==> WritableFile(disk, e.added[i].1)
  }

  ghost predicate WritableFile(disk: Disk, f: FileMeta) {
    && f.number < TWO_64 && f.size < TWO_64 && f.smallest.sn <= MAX_SEQUENCE && f.largest.sn <= MAX_SEQUENCE
    && |KeyBytes(disk, f.smallest)| < TWO_32 && |KeyBytes(disk, f.largest)| < TWO_32
    && disk.contents(f.number) == f.entries
  }

  ghost predicate PairsAscend(s: seq<(nat, nat)>) {
    forall i, j :: 0 <= i < j < |s| ==> PairLess(s[i], s[j])
  }

  lemma {:induction false} InsertKeepsOrder(s: seq<(nat, nat)>, p: (nat, nat))
    requires PairsAscend(s)
    ensures PairsAscend(InsertPair(s, p)) && DeletedSet(InsertPair(s, p)) == DeletedSet(s) + {p}
  {
    InsertedPairs(s, p);
    if s != [] {
      assert s == [s[0]] + s[1..];
      if s[0] != p && !PairLess(p, s[0]) {
        InsertKeepsOrder(s[1..], p);
        var r := InsertPair(s[1..], p);
        forall i | 0 <= i < |r| ensures PairLess(s[0], r[i]) {
          assert r[i] in DeletedSet(r);
        }
        assert DeletedSet(InsertPair(s, p)) == {s[0]} + DeletedSet(r);
        assert DeletedSet(s) == {s[0]} + DeletedSet(s[1..]);
      } else if s[0] != p {
        assert DeletedSet([p] + s) == {p} + DeletedSet(s);
      }
    }
  }

  // std::set iterates in order.
  method ListPairs(ds: set<(nat, nat)>) returns (s: seq<(nat, nat)>)
    ensures PairsAscend(s) && DeletedSet(s) == ds
  {
    s := [];
    var rest := ds;
    while rest != {}
      invariant PairsAscend(s) && rest <= ds && DeletedSet(s) == ds - rest
      decreases rest
    {
      var d :| d in rest;
      InsertKeepsOrder(s, d);
      s := InsertPair(s, d);
      rest := rest - {d};
    }
  }

  // The numbers that LogAndApply puts into every edit: the log and the one before it,
  // the next file and the last sequence.
  datatype Counters = Counters(log: nat, prevLog: nat, nextFile: nat, lastSequence: nat)

  ghost predicate CountersFit(c: Counters) {
    c.log < TWO_64 && c.prevLog < TWO_64 && c.nextFile < TWO_64 && c.lastSequence < TWO_64
  }

  // The fields of an edit with, or without, these numbers.
  method FieldsOf(disk: Disk, e: VersionEdit, comparator: Option<Bytes>, c: Option<Counters>) returns (f: Fields)
    requires Writable(disk, e) && (comparator.Some? ==> |comparator.value| < TWO_32) && (c.Some? ==> CountersFit(c.value))
    ensures EditFrom(disk, f) == e && IsEdit(f) && f.comparator == comparator && HasCounters(f, c)
  {
    var ds := ListPairs(e.deleted);
    var fs := seq(|e.added|, i requires 0 <= i < |e.added| => (e.added[i].0, RecordOf(disk, e.added[i].1)));
    f := Fields(comparator, None, None, None, None, [], ds, fs);
    if c.Some? {
      f := f.(logNumber := Some(c.value.log), prevLogNumber := Some(c.value.prevLog), nextFileNumber := Some(c.value.nextFile),
              lastSequence := Some(c.value.lastSequence));
    }
    FieldsAre(disk, e, f, ds, fs);
  }

  predicate HasCounters(f: Fields, c: Option<Counters>) {
    match c
    case None => f.logNumber == f.prevLogNumber == f.nextFileNumber == f.lastSequence == None
    case Some(c) =>
      && f.logNumber == Some(c.log) && f.prevLogNumber == Some(c.prevLog)
      && f.nextFileNumber == Some(c.nextFile) && f.lastSequence == Some(c.lastSequence)
  }

  lemma FieldsAre(disk: Disk, e: VersionEdit, f: Fields, ds: seq<(nat, nat)>, fs: seq<(nat, FileRecord)>)
    requires Writable(disk, e) && PairsAscend(ds) && DeletedSet(ds) == e.deleted && |fs| == |e.added|
    requires forall i :: 0 <= i < |fs| ==> fs[i] == (e.added[i].0, RecordOf(disk, e.added[i].1))
    requires f.deletedFiles == ds && f.newFiles == fs && f.compactPointers == []
    requires f.comparator.Some? ==> |f.comparator.value| < TWO_32
    requires (f.logNumber.Some? ==> f.logNumber.value < TWO_64) && (f.prevLogNumber.Some? ==> f.prevLogNumber.value < TWO_64)
    requires (f.nextFileNumber.Some? ==> f.nextFileNumber.value < TWO_64) && (f.lastSequence.Some? ==> f.lastSequence.value < TWO_64)
    ensures EditFrom(disk, f) == e && IsEdit(f)
  {
    hide RecordOf, KeyBytes, KeyOf, MetaOf, Fits, DeletedSet;
    forall i | 0 <= i < |ds| ensures Fits(DeletedFile(ds[i].0, ds[i].1)) {
      DeletionFits(disk, e, ds, i);
    }
    forall i | 0 <= i < |fs| ensures Fits(NewFile(fs[i].0, fs[i].1)) && MetaOf(disk, fs[i].1) == e.added[i].1 {
      AdditionFits(disk, e, i);
    }
    assert EditFrom(disk, f).added == e.added;
    NumbersFit(f);
    ItemsFit(f);
  }

  lemma DeletionFits(disk: Disk, e: VersionEdit, ds: seq<(nat, nat)>, i: nat)
    requires Writable(disk, e) && DeletedSet(ds) == e.deleted && i < |ds|
    ensures Fits(DeletedFile(ds[i].0, ds[i].1))
  {
    assert ds[i] in DeletedSet(ds);
  }

  lemma AdditionFits(disk: Disk, e: VersionEdit, i: nat)
    requires Writable(disk, e) && i < |e.added|
    ensures Fits(NewFile(e.added[i].0, RecordOf(disk, e.added[i].1))) && MetaOf(disk, RecordOf(disk, e.added[i].1)) == e.added[i].1
  {
    hide RecordOf, KeyBytes, KeyOf, MetaOf;
    RecordFits(disk, e.added[i].1);
  }

  lemma NumbersFit(f: Fields)
    requires f.comparator.Some? ==> |f.comparator.value| < TWO_32
    requires (f.logNumber.Some? ==> f.logNumber.value < TWO_64) && (f.prevLogNumber.Some? ==> f.prevLogNumber.value < TWO_64)
    requires (f.nextFileNumber.Some? ==> f.nextFileNumber.value < TWO_64) && (f.lastSequence.Some? ==> f.lastSequence.value < TWO_64)
    ensures forall i :: 0 <= i < |Numbers(f)| ==> Fits(Numbers(f)[i])
  {
  }

  lemma ItemsFit(f: Fields)
    requires f.compactPointers == [] && forall i :: 0 <= i < |Numbers(f)| ==> Fits(Numbers(f)[i])
    requires forall i :: 0 <= i < |f.deletedFiles| ==> Fits(DeletedFile(f.deletedFiles[i].0, f.deletedFiles[i].1))
    requires forall i :: 0 <= i < |f.newFiles| ==> Fits(NewFile(f.newFiles[i].0, f.newFiles[i].1))
    ensures forall i :: 0 <= i < |ItemsOf(f)| ==> Fits(ItemsOf(f)[i])
  {
    hide Fits, Numbers;
  }

  lemma RecordFits(disk: Disk, f: FileMeta)
    requires Named(disk) && WritableFile(disk, f)
    ensures MetaOf(disk, RecordOf(disk, f)) == f
    ensures var r := RecordOf(disk, f); r.number < TWO_64 && r.size < TWO_64 && |r.smallest| < TWO_32 && |r.largest| < TWO_32
  {
    KeyRoundTrip(disk, f.smallest);
    KeyRoundTrip(disk, f.largest);
  }
}
