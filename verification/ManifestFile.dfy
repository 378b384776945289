// The manifest as a log file: what a run of the store writes, and what recovery reads
// from it when the file was cut off anywhere (VersionSet::LogAndApply, WriteSnapshot
// and Recover, leveldb/db/version_set.cc).
module ManifestFiles {
  import opened Powers
  import opened Wrappers
  import opened InternalKeys
  import opened Codings
  import opened Versions
  import opened VersionEdits
  import opened EditCodecs
  import opened ManifestCodecs
  import opened Manifests
  import Store
  import Logs
  import LogRoundTrips
  import LogChecks

  // ----- Recovering from a file -----

  // What has been handed out and reported up to s, and what is still to come.
  ghost predicate SoFar(crc: Logs.Crc, checksum: bool, file: Bytes, s: Logs.Cursor, records: seq<Bytes>, drops: seq<nat>) {
    && s.pos <= s.end <= |file|
    && var rest := Logs.ReadAll(crc, checksum, file, s);
       Logs.ReadAll(crc, checksum, file, Logs.START) == (records + rest.0, drops + rest.1)
  }

  // Everything the log reader hands out, and all it reports.
  method ReadRecords(crc: Logs.Crc, checksum: bool, file: Bytes) returns (records: seq<Bytes>, drops: seq<nat>)
    ensures (records, drops) == Logs.ReadAll(crc, checksum, file, Logs.START)
  {
    hide Logs.ReadLogical, Logs.ReadAll, Logs.Reader.Valid, Logs.Reader.At, SoFar;
    var reader := new Logs.Reader(crc, checksum, file);
    records := [];
    NothingSoFar(crc, checksum, file);
    while true
      invariant reader.Valid() && fresh(reader) && reader.crc == crc && reader.checksum == checksum && reader.file == file
      invariant SoFar(crc, checksum, file, reader.At(), records, reader.drops)
      decreases |file| - reader.At().pos
    {
      OneRecord(crc, checksum, file, reader.At(), records, reader.drops);
      var record := reader.ReadRecord();
      if record.None? {
        break;
      }
      records := records + [record.value];
    }
    drops := reader.drops;
  }

  lemma NothingSoFar(crc: Logs.Crc, checksum: bool, file: Bytes)
    ensures SoFar(crc, checksum, file, Logs.START, [], [])
  {
    hide Logs.ReadAll;
    var rest := Logs.ReadAll(crc, checksum, file, Logs.START);
    assert [] + rest.0 == rest.0 && [] + rest.1 == rest.1;
  }

  lemma OneRecord(crc: Logs.Crc, checksum: bool, file: Bytes, s: Logs.Cursor, records: seq<Bytes>, drops: seq<nat>)
    requires SoFar(crc, checksum, file, s, records, drops)
    ensures s.pos <= s.end <= |file|
    ensures var r := Logs.ReadLogical(crc, checksum, file, s, false, []);
      if r.record.None? then Logs.ReadAll(crc, checksum, file, Logs.START) == (records, drops + r.drops)
      else r.at.pos > s.pos && SoFar(crc, checksum, file, r.at, records + [r.record.value], drops + r.drops)
  {
    hide Logs.ReadLogical, Logs.ReadAll;
    ReadAllStep(crc, checksum, file, s);
    var r, whole := Logs.ReadLogical(crc, checksum, file, s, false, []), Logs.ReadAll(crc, checksum, file, Logs.START);
    if r.record.Some? {
      var rest := Logs.ReadAll(crc, checksum, file, r.at);
      AddedInFront(records, r.record.value, rest.0, drops, r.drops, rest.1);
    } else {
      assert records + [] == records;
    }
  }

  lemma AddedInFront(records: seq<Bytes>, record: Bytes, rest: seq<Bytes>, drops: seq<nat>, lost: seq<nat>, more: seq<nat>)
    ensures records + ([record] + rest) == (records + [record]) + rest && drops + (lost + more) == (drops + lost) + more
  {
  }

  lemma ReadAllStep(crc: Logs.Crc, checksum: bool, file: Bytes, s: Logs.Cursor)
    requires s.pos <= s.end <= |file|
    ensures var r := Logs.ReadLogical(crc, checksum, file, s, false, []);
      if r.record.None? then Logs.ReadAll(crc, checksum, file, s) == ([], r.drops)
      else
        && r.at.pos > s.pos
        && var rest := Logs.ReadAll(crc, checksum, file, r.at);
           Logs.ReadAll(crc, checksum, file, s) == ([r.record.value] + rest.0, r.drops + rest.1)
  {
    hide Logs.ReadLogical;
  }

  // VersionSet::Recover on the manifest's bytes. Corruption that the log reader reports
  // makes it fail; so a damaged fragment that it comes to does, and what is recovered
  // stands in intact ones.
  method RecoverFile(crc: Logs.Crc, base: seq<Files>, disk: Disk, comparator: Bytes, file: Bytes)
    returns (r: Recovered, ghost chains: seq<seq<nat>>)
    requires |base| == NUM_LEVELS
    ensures var (records, drops) := Logs.ReadAll(crc, true, file, Logs.START);
      && LogChecks.AreRecords(crc, file, chains, records, 0)
      && if drops != [] then !r.Recovered?
         else match ReadAll(records, comparator)
              case Stopped(status) => r == status
              case Edits(es) => r == Outcome(base, disk, es)
    ensures (exists q: nat :: LogChecks.MeetsDamage(crc, file, q)) ==> !r.Recovered?
  {
    hide Logs.ReadAll, ReadAll, Outcome, LogChecks.AreRecords, LogChecks.MeetsDamage;
    ghost var lost, ls;
    chains, lost, ls := LogChecks.WholeFile(crc, file);
    var records, drops := ReadRecords(crc, true, file);
    if drops != [] {
      return Corruption, chains;
    }
    r := ManifestCodecs.Recover(base, disk, comparator, records);
  }

  // ----- Writing a manifest -----

  // The counters when the first n actions are over; the log numbers are given.
  function CountersAt(states: seq<Store.State>, logs: seq<(nat, nat)>, n: nat): Counters
    requires n < |states| && n < |logs|
  {
    Counters(logs[n].0, logs[n].1, states[n].nextFile, states[n].lastSequence)
  }

  // The edits of a manifest opened after s actions: first the snapshot, without
  // numbers but with the comparator's name, then those of actions with the numbers.
  ghost predicate IsManifest(disk: Disk, comparator: Bytes, states: seq<Store.State>, actions: seq<Store.Action>, logs: seq<(nat, nat)>,
                             s: nat, n: nat, es: seq<Fields>)
    requires s <= n <= |actions| < |states| && |logs| == |states| && |states[s].levels| == NUM_LEVELS
  {
    if n == s then
      |es| == 1 && EditFrom(disk, es[0]) == SnapshotEdit(states[s].levels) && es[0].comparator == Some(comparator) && HasCounters(es[0], None)
    else
      match EditOf(states[n - 1], actions[n - 1])
      case None => IsManifest(disk, comparator, states, actions, logs, s, n - 1, es)
      case Some(e) =>
        && es != [] && IsManifest(disk, comparator, states, actions, logs, s, n - 1, es[..|es| - 1])
        && EditFrom(disk, es[|es| - 1]) == e && es[|es| - 1].comparator == None
        && HasCounters(es[|es| - 1], Some(CountersAt(states, logs, n)))
  }

  // Every number fits 64 bits, every key its length field, and the disk has the files.
  ghost predicate WritableRun(disk: Disk, states: seq<Store.State>, actions: seq<Store.Action>, logs: seq<(nat, nat)>, s: nat, n: nat)
    requires s <= n <= |actions| < |states| && |logs| == |states| && |states[s].levels| == NUM_LEVELS
  {
    && Writable(disk, SnapshotEdit(states[s].levels))
    && forall i {:trigger states[i], actions[i]} :: s <= i < n && EditOf(states[i], actions[i]).Some? ==>
         Writable(disk, EditOf(states[i], actions[i]).value) && CountersFit(CountersAt(states, logs, i + 1))
  }

  method AppendEdit(writer: Logs.Writer, disk: Disk, e: VersionEdit, comparator: Option<Bytes>, c: Option<Counters>, ghost es: seq<Fields>)
    returns (f: Fields)
    requires Writable(disk, e) && (comparator.Some? ==> |comparator.value| < TWO_32) && (c.Some? ==> CountersFit(c.value))
    requires writer.Valid() && writer.dest == Logs.Written(writer.crc, RecordsOf(es))
    modifies writer
    ensures EditFrom(disk, f) == e && IsEdit(f) && f.comparator == comparator && HasCounters(f, c)
    ensures writer.Valid() && writer.dest == Logs.Written(writer.crc, RecordsOf(es + [f]))
  {
    hide Logs.Emit, IsEdit, HasCounters, Writable, EditFrom, Encoded, ItemsOf;
    f := FieldsOf(disk, e, comparator, c);
    var edit := new EncodedEdit();
    edit.fields := f;
    var record := edit.EncodeTo();
    WrittenNext(writer.crc, es, f);
    writer.AddRecord(record);
  }

  lemma WrittenNext(crc: Logs.Crc, es: seq<Fields>, f: Fields)
    ensures var file := Logs.Written(crc, RecordsOf(es));
      Logs.Written(crc, RecordsOf(es + [f])) == file + Logs.Emit(crc, Encoded(ItemsOf(f)), true, |file|)
  {
    hide Logs.Emit, Encoded, ItemsOf;
    assert RecordsOf(es + [f])[..|es|] == RecordsOf(es);
  }

  // What a run writes from the moment its manifest is opened.
  method WriteManifest(crc: Logs.Crc, disk: Disk, comparator: Bytes, states: seq<Store.State>, actions: seq<Store.Action>,
                       logs: seq<(nat, nat)>, s: nat, n: nat) returns (file: Bytes, ghost es: seq<Fields>)
    requires s <= n <= |actions| < |states| && |logs| == |states| && |states[s].levels| == NUM_LEVELS
    requires WritableRun(disk, states, actions, logs, s, n) && |comparator| < TWO_32
    ensures file == Logs.Written(crc, RecordsOf(es)) && AreEdits(es, comparator)
    ensures IsManifest(disk, comparator, states, actions, logs, s, n, es)
  {
    hide Writable, IsEdit, HasCounters, SnapshotEdit, EditOf, RecordsOf, Logs.Writer.Valid, IsManifest, AreEdits, WritableRun, CountersAt, CountersFit;
    WritableAt(disk, states, actions, logs, s, n, s);
    var writer := new Logs.Writer(crc);
    NothingWritten(crc);
    var f := AppendEdit(writer, disk, SnapshotEdit(states[s].levels), Some(comparator), None, []);
    es := [] + [f];
    ManifestStarts(disk, comparator, states, actions, logs, s, f);
    var i := s;
    while i < n
      invariant s <= i <= n && fresh(writer) && writer.crc == crc && writer.Valid() && writer.dest == Logs.Written(crc, RecordsOf(es))
      invariant IsManifest(disk, comparator, states, actions, logs, s, i, es) && AreEdits(es, comparator)
    {
      WritableAt(disk, states, actions, logs, s, n, i);
      var edit := EditOf(states[i], actions[i]);
      if edit.Some? {
        f := AppendEdit(writer, disk, edit.value, None, Some(CountersAt(states, logs, i + 1)), es);
        ManifestGoesOn(disk, comparator, states, actions, logs, s, i, es, f);
        es := es + [f];
      } else {
        NothingLogged(disk, comparator, states, actions, logs, s, i, es);
      }
      i := i + 1;
    }
    file := writer.dest;
  }

  lemma ManifestStarts(disk: Disk, comparator: Bytes, states: seq<Store.State>, actions: seq<Store.Action>, logs: seq<(nat, nat)>, s: nat, f: Fields)
    requires s <= |actions| < |states| && |logs| == |states| && |states[s].levels| == NUM_LEVELS
    requires EditFrom(disk, f) == SnapshotEdit(states[s].levels) && IsEdit(f) && f.comparator == Some(comparator) && HasCounters(f, None)
    ensures IsManifest(disk, comparator, states, actions, logs, s, s, [] + [f]) && AreEdits([] + [f], comparator)
  {
    hide SnapshotEdit, IsEdit, EditFrom;
  }

  lemma ManifestGoesOn(disk: Disk, comparator: Bytes, states: seq<Store.State>, actions: seq<Store.Action>, logs: seq<(nat, nat)>,
                       s: nat, i: nat, es: seq<Fields>, f: Fields)
    requires s <= i < |actions| < |states| && |logs| == |states| && |states[s].levels| == NUM_LEVELS
    requires IsManifest(disk, comparator, states, actions, logs, s, i, es) && AreEdits(es, comparator)
    requires EditOf(states[i], actions[i]) == Some(EditFrom(disk, f)) && IsEdit(f) && f.comparator == None
    requires HasCounters(f, Some(CountersAt(states, logs, i + 1)))
    ensures IsManifest(disk, comparator, states, actions, logs, s, i + 1, es + [f]) && AreEdits(es + [f], comparator)
  {
    hide SnapshotEdit, IsEdit, EditFrom, EditOf, HasCounters, CountersAt;
    assert (es + [f])[..|es|] == es;
  }

  lemma NothingLogged(disk: Disk, comparator: Bytes, states: seq<Store.State>, actions: seq<Store.Action>, logs: seq<(nat, nat)>,
                      s: nat, i: nat, es: seq<Fields>)
    requires s <= i < |actions| < |states| && |logs| == |states| && |states[s].levels| == NUM_LEVELS
    requires IsManifest(disk, comparator, states, actions, logs, s, i, es) && EditOf(states[i], actions[i]).None?
    ensures IsManifest(disk, comparator, states, actions, logs, s, i + 1, es)
  {
    hide SnapshotEdit, EditFrom, EditOf, HasCounters;
  }

  lemma NothingWritten(crc: Logs.Crc)
    ensures Logs.Written(crc, RecordsOf([])) == []
  {
  }

  lemma WritableAt(disk: Disk, states: seq<Store.State>, actions: seq<Store.Action>, logs: seq<(nat, nat)>, s: nat, n: nat, i: nat)
    requires s <= i <= n <= |actions| < |states| && |logs| == |states| && |states[s].levels| == NUM_LEVELS
    requires WritableRun(disk, states, actions, logs, s, n)
    ensures Writable(disk, SnapshotEdit(states[s].levels))
    ensures i < n && EditOf(states[i], actions[i]).Some? ==>
      Writable(disk, EditOf(states[i], actions[i]).value) && CountersFit(CountersAt(states, logs, i + 1))
  {
  }

  // ----- What recovery makes of it -----

  lemma {:induction false} ManifestEdits(disk: Disk, comparator: Bytes, states: seq<Store.State>, actions: seq<Store.Action>,
                                         logs: seq<(nat, nat)>, s: nat, n: nat, es: seq<Fields>)
    requires s <= n <= |actions| < |states| && |logs| == |states| && |states[s].levels| == NUM_LEVELS
    requires IsManifest(disk, comparator, states, actions, logs, s, n, es)
    ensures es != [] && EditsFrom(disk, es) == EditsSince(states, actions, s, n)
  {
    hide EditFrom, HasCounters, EditOf, SnapshotEdit;
    if n > s {
      match EditOf(states[n - 1], actions[n - 1]) {
        case None =>
          ManifestEdits(disk, comparator, states, actions, logs, s, n - 1, es);
        case Some(e) =>
          ManifestEdits(disk, comparator, states, actions, logs, s, n - 1, es[..|es| - 1]);
          assert EditsFrom(disk, es) == EditsFrom(disk, es[..|es| - 1]) + [EditFrom(disk, es[|es| - 1])];
      }
    }
  }

  // Where the first k records of a manifest end: right after the action that logged
  // the last of them, or at the snapshot.
  lemma {:induction false} ManifestPrefix(disk: Disk, comparator: Bytes, states: seq<Store.State>, actions: seq<Store.Action>,
                                          logs: seq<(nat, nat)>, s: nat, n: nat, es: seq<Fields>, k: nat) returns (m: nat)
    requires s <= n <= |actions| < |states| && |logs| == |states| && |states[s].levels| == NUM_LEVELS
    requires IsManifest(disk, comparator, states, actions, logs, s, n, es) && 1 <= k <= |es|
    ensures s <= m <= n && IsManifest(disk, comparator, states, actions, logs, s, m, es[..k])
    ensures if k == 1 then m == s else m > s && EditOf(states[m - 1], actions[m - 1]).Some?
    ensures k == |es| ==> forall i :: m <= i < n ==> EditOf(states[i], actions[i]).None?
  {
    hide EditFrom, HasCounters, EditOf, SnapshotEdit;
    if n == s {
      m := s;
      assert es[..1] == es;
    } else {
      match EditOf(states[n - 1], actions[n - 1]) {
        case None =>
          m := ManifestPrefix(disk, comparator, states, actions, logs, s, n - 1, es, k);
        case Some(e) =>
          var front := es[..|es| - 1];
          ManifestEdits(disk, comparator, states, actions, logs, s, n - 1, front);
          if k == |es| {
            m := n;
            assert es[..k] == es;
          } else {
            m := ManifestPrefix(disk, comparator, states, actions, logs, s, n - 1, front, k);
            assert front[..k] == es[..k];
          }
      }
    }
  }

  // The numbers recovered are those of the last record.
  lemma LastCounters(es: seq<Fields>, c: Counters)
    requires es != [] && HasCounters(es[|es| - 1], Some(c))
    ensures LastOf(NextFiles(es)) == Some(c.nextFile) && LastOf(LogNumbers(es)) == Some(c.log)
    ensures LastOf(PrevLogNumbers(es)) == Some(c.prevLog) && LastOf(LastSequences(es)) == Some(c.lastSequence)
  {
  }

  // What is recovered at a state: its version and counters.
  function RecoveredAt(st: Store.State, log: (nat, nat)): Recovered {
    Recovered(st.levels, st.nextFile, st.nextFile + 1, log.0, log.1, st.lastSequence)
  }

  lemma ManifestOutcome(disk: Disk, comparator: Bytes, states: seq<Store.State>, actions: seq<Store.Action>,
                        logs: seq<(nat, nat)>, s: nat, m: nat, es: seq<Fields>)
    requires Store.Run(states, actions) && s <= m <= |actions| && |logs| == |states| && |states[s].levels| == NUM_LEVELS
    requires IsManifest(disk, comparator, states, actions, logs, s, m, es) && AreEdits(es, comparator)
    requires m > s ==> EditOf(states[m - 1], actions[m - 1]).Some?
    ensures ReadAll(RecordsOf(es), comparator) == Edits(es) && AllLevelsExist(es)
    ensures Outcome(NoFiles(), disk, es) == if m == s then Corruption else RecoveredAt(states[m], logs[m])
  {
    hide EditFrom, EditOf, SnapshotEdit, Save, Replay, ReadAll, AreEdits, Store.Next;
    RecordsReadBack(es, comparator);
    if m == s {
      OnlySnapshot(es);
    } else {
      ManifestEdits(disk, comparator, states, actions, logs, s, m, es);
      ManifestSinceRebuilds(states, actions, s, m);
      LastCounters(es, CountersAt(states, logs, m));
    }
  }

  lemma OnlySnapshot(es: seq<Fields>)
    requires |es| == 1 && HasCounters(es[0], None)
    ensures LastOf(NextFiles(es)).None?
  {
    assert NextFiles(es)[..0] == [];
  }

  // Over every run of the store, for a manifest opened at any moment of it and cut off
  // at any byte: recovery gives the version and the counters of the state right after
  // the last edit that lies wholly before the cut, and fails if not even one edit does.
  // Uncut, it gives the version of the run's last state.
  method RecoverRun(crc: Logs.Crc, disk: Disk, comparator: Bytes, states: seq<Store.State>, actions: seq<Store.Action>,
                    logs: seq<(nat, nat)>, s: nat, n: nat, cut: nat) returns (r: Recovered, length: nat, ghost m: nat)
    requires Store.Run(states, actions) && s <= n <= |actions| && |logs| == |states| && |states[s].levels| == NUM_LEVELS
    requires WritableRun(disk, states, actions, logs, s, n) && |comparator| < TWO_32
    ensures s <= m <= n && r == if m == s then Corruption else RecoveredAt(states[m], logs[m])
    ensures m > s ==> EditOf(states[m - 1], actions[m - 1]).Some?
    ensures cut >= length ==> (forall i :: m <= i < n ==> EditOf(states[i], actions[i]).None?) && states[n].levels == states[m].levels
  {
    hide Store.Next, WritableRun, IsManifest, EditOf, RecoveredAt, AreEdits, Logs.ReadAll, ReadAll, Outcome;
    ghost var es;
    var file;
    file, es := WriteManifest(crc, disk, comparator, states, actions, logs, s, n);
    length := |file|;
    var kept := if cut < |file| then cut else |file|;
    ghost var chains;
    r, chains := RecoverFile(crc, NoFiles(), disk, comparator, file[..kept]);
    m := CutManifest(crc, disk, comparator, states, actions, logs, s, n, es, kept);
    if cut >= length {
      SameLevels(states, actions, m, n);
    }
  }

  lemma CutManifest(crc: Logs.Crc, disk: Disk, comparator: Bytes, states: seq<Store.State>, actions: seq<Store.Action>,
                    logs: seq<(nat, nat)>, s: nat, n: nat, es: seq<Fields>, cut: nat) returns (m: nat)
    requires Store.Run(states, actions) && s <= n <= |actions| && |logs| == |states| && |states[s].levels| == NUM_LEVELS
    requires IsManifest(disk, comparator, states, actions, logs, s, n, es) && AreEdits(es, comparator)
    requires cut <= |Logs.Written(crc, RecordsOf(es))|
    ensures s <= m <= n && (m > s ==> EditOf(states[m - 1], actions[m - 1]).Some?)
    ensures var (records, drops) := Logs.ReadAll(crc, true, Logs.Written(crc, RecordsOf(es))[..cut], Logs.START);
      && drops == [] && ReadAll(records, comparator).Edits?
      && Outcome(NoFiles(), disk, ReadAll(records, comparator).edits) == if m == s then Corruption else RecoveredAt(states[m], logs[m])
    ensures cut == |Logs.Written(crc, RecordsOf(es))| ==> forall i :: m <= i < n ==> EditOf(states[i], actions[i]).None?
  {
    hide Store.Next, IsManifest, EditOf, RecoveredAt, AreEdits, Logs.ReadAll, ReadAll, Outcome, Logs.Written;
    var k := LogRoundTrips.RoundTripUnderTruncation(crc, true, RecordsOf(es), cut);
    if k == 0 {
      m := s;
      NothingKept(disk, comparator);
      ManifestEdits(disk, comparator, states, actions, logs, s, n, es);
      FirstIsWritten(crc, RecordsOf(es), cut);
    } else {
      m := ManifestPrefix(disk, comparator, states, actions, logs, s, n, es, k);
      assert RecordsOf(es)[..k] == RecordsOf(es[..k]);
      PrefixEdits(es, comparator, k);
      ManifestOutcome(disk, comparator, states, actions, logs, s, m, es[..k]);
      if cut == |Logs.Written(crc, RecordsOf(es))| {
        AllAreWritten(crc, RecordsOf(es), cut, k);
      }
    }
  }

  lemma PrefixEdits(es: seq<Fields>, comparator: Bytes, k: nat)
    requires AreEdits(es, comparator) && k <= |es|
    ensures AreEdits(es[..k], comparator)
  {
    hide IsEdit;
  }

  lemma NothingKept(disk: Disk, comparator: Bytes)
    ensures ReadAll([], comparator) == Edits([]) && AllLevelsExist([]) && Outcome(NoFiles(), disk, []) == Corruption
  {
  }

  // A whole file has all its records.
  lemma FirstIsWritten(crc: Logs.Crc, records: seq<Bytes>, cut: nat)
    requires records != [] && LogRoundTrips.CutAfter(crc, records, cut, 0) && cut <= |Logs.Written(crc, records)|
    ensures cut < |Logs.Written(crc, records)|
  {
    LogRoundTrips.WrittenPrefix(crc, records, 1);
  }

  lemma AllAreWritten(crc: Logs.Crc, records: seq<Bytes>, cut: nat, k: nat)
    requires LogRoundTrips.CutAfter(crc, records, cut, k) && cut == |Logs.Written(crc, records)|
    ensures k == |records|
  {
    if k < |records| {
      LogRoundTrips.WrittenPrefix(crc, records, k + 1);
    }
  }

  lemma {:induction false} SameLevels(states: seq<Store.State>, actions: seq<Store.Action>, m: nat, n: nat)
    requires Store.Run(states, actions) && m <= n <= |actions| && forall i :: m <= i < n ==> EditOf(states[i], actions[i]).None?
    ensures states[n].levels == states[m].levels
  {
    if m < n {
      SameLevels(states, actions, m, n - 1);
      assert Store.Next(states[n - 1], actions[n - 1], states[n]);
      StepKeepsLevels(states[n - 1], actions[n - 1], states[n]);
    }
  }

  lemma StepKeepsLevels(st: Store.State, a: Store.Action, st': Store.State)
    requires Store.Next(st, a, st') && EditOf(st, a).None?
    ensures st'.levels == st.levels
  {
    if a.Write? {
      WriteLeavesFiles(st, a.batch);
    }
  }
}
