// A version: the sorted files of the seven levels, how reads walk them, and the
// range tests that compactions and flushes rely on (version_set.cc).
module Versions {
  import opened Wrappers
  import opened InternalKeys

  const NUM_LEVELS: nat := 7
  const MAX_MEM_COMPACT_LEVEL: nat := 2
  const TARGET_FILE_SIZE: nat := 32 * 1048576
  const MAX_GRAND_PARENT_OVERLAP_BYTES: nat := 20 * TARGET_FILE_SIZE
  const EXPANDED_COMPACTION_BYTE_SIZE_LIMIT: nat := 25 * TARGET_FILE_SIZE

  // The metadata of a table file together with the entries stored in it.
  datatype FileMeta = FileMeta(number: nat, size: nat, smallest: Key, largest: Key, entries: seq<Entry>)

  type Files = seq<FileMeta>

  ghost predicate ValidFile(f: FileMeta) {
    && f.entries != []
    && Sorted(f.entries)
    && f.smallest == f.entries[0].key
    && f.largest == f.entries[|f.entries| - 1].key
    && (forall e :: e in f.entries ==> e.key.sn <= MAX_SEQUENCE)
  }

  ghost predicate ValidFiles(files: Files) {
    forall i :: 0 <= i < |files| ==> ValidFile(files[i])
  }

  // The files of a level above 0: ordered and disjoint by internal key.
  ghost predicate SortedFiles(files: Files) {
    forall i, j :: 0 <= i < j < |files| ==> Less(files[i].largest, files[j].smallest)
  }

  ghost predicate InFiles(files: Files, e: Entry) {
    exists i :: 0 <= i < |files| && e in files[i].entries
  }

  ghost predicate InLevels(levels: seq<Files>, e: Entry) {
    exists l :: 0 <= l < |levels| && InFiles(levels[l], e)
  }

  ghost function LevelEntries(files: Files): iset<Entry> {
    iset e | InFiles(files, e)
  }

  ghost function VersionEntries(levels: seq<Files>): iset<Entry> {
    iset e | InLevels(levels, e)
  }

  // Of two files, f holds only newer entries of any user key they share.
  ghost predicate FileNewer(f: FileMeta, g: FileMeta) {
    forall d, e :: d in f.entries && e in g.entries && d.key.user == e.key.user ==> d.key.sn > e.key.sn
  }

  ghost predicate LevelNewer(a: Files, b: Files) {
    forall i, j :: 0 <= i < |a| && 0 <= j < |b| ==> FileNewer(a[i], b[j])
  }

  // Level-0 files may overlap; a higher number means newer.
  ghost predicate ValidLevelZero(files: Files) {
    forall i, j :: 0 <= i < |files| && 0 <= j < |files| && i != j ==>
      files[i].number != files[j].number && (files[i].number > files[j].number ==> FileNewer(files[i], files[j]))
  }

  // Structure only: what walking the levels needs to be well defined.
  ghost predicate Readable(levels: seq<Files>) {
    && |levels| == NUM_LEVELS
    && (forall l :: 0 <= l < NUM_LEVELS ==> ValidFiles(levels[l]))
    && (forall l :: 1 <= l < NUM_LEVELS ==> SortedFiles(levels[l]))
  }

  ghost predicate ValidVersion(levels: seq<Files>) {
    && Readable(levels)
    && ValidLevelZero(levels[0])
    && (forall l, m :: 0 <= l < m < NUM_LEVELS ==> LevelNewer(levels[l], levels[m]))
  }

  lemma EntryInRange(f: FileMeta, e: Entry)
    requires ValidFile(f) && e in f.entries
    ensures !Less(e.key, f.smallest) && !Less(f.largest, e.key)
    ensures f.smallest.user <= e.key.user <= f.largest.user
  {
    var i :| 0 <= i < |f.entries| && f.entries[i] == e;
    assert i == 0 || Less(f.entries[0].key, f.entries[i].key);
    assert i == |f.entries| - 1 || Less(f.entries[i].key, f.entries[|f.entries| - 1].key);
  }

  // ----- FindFile -----

  ghost predicate IsFileBound(files: Files, key: Key, p: nat) {
    && p <= |files|
    && (forall i :: 0 <= i < p ==> Less(files[i].largest, key))
    && (forall i :: p <= i < |files| ==> !Less(files[i].largest, key))
  }

  // FindFile: the earliest file whose largest key is at or after key.
  method FindFile(files: Files, key: Key) returns (right: nat)
    requires ValidFiles(files) && SortedFiles(files)
    ensures IsFileBound(files, key, right)
  {
    var left := 0;
    right := |files|;
    while left < right
      invariant 0 <= left <= right <= |files|
      invariant forall i :: 0 <= i < left ==> Less(files[i].largest, key)
      invariant forall i :: right <= i < |files| ==> !Less(files[i].largest, key)
    {
      var mid := (left + right) / 2;
      CompareIsLess(files[mid].largest, key);
      LargestAscend(files);
      if Compare(files[mid].largest, key) < 0 {
        left := mid + 1;
      } else {
        right := mid;
      }
    }
  }

  lemma LargestAscend(files: Files)
    requires ValidFiles(files) && SortedFiles(files)
    ensures forall i, j :: 0 <= i < j < |files| ==> Less(files[i].largest, files[j].largest)
    ensures forall i, j :: 0 <= i < j < |files| ==> Less(files[i].smallest, files[j].smallest)
  {
    forall i | 0 <= i < |files| ensures !Less(files[i].largest, files[i].smallest) {
      EntryInRange(files[i], files[i].entries[0]);
    }
  }

  // ----- Overlap with a range of user keys; None is unbounded -----

  predicate AfterFile(user: Option<UserKey>, f: FileMeta) {
    user.Some? && user.value > f.largest.user
  }

  predicate BeforeFile(user: Option<UserKey>, f: FileMeta) {
    user.Some? && user.value < f.smallest.user
  }

  predicate Overlaps(f: FileMeta, lo: Option<UserKey>, hi: Option<UserKey>) {
    !AfterFile(lo, f) && !BeforeFile(hi, f)
  }

  predicate InRange(user: UserKey, lo: Option<UserKey>, hi: Option<UserKey>) {
    (lo.Some? ==> lo.value <= user) && (hi.Some? ==> user <= hi.value)
  }

  // A file meets a range exactly if some user key lies in both.
  lemma OverlapsIsSharing(f: FileMeta, lo: Option<UserKey>, hi: Option<UserKey>)
    requires f.smallest.user <= f.largest.user && (lo.Some? && hi.Some? ==> lo.value <= hi.value)
    ensures Overlaps(f, lo, hi) <==>
      exists user :: InRange(user, lo, hi) && InRange(user, Some(f.smallest.user), Some(f.largest.user))
  {
    if Overlaps(f, lo, hi) {
      var user := if lo.Some? && f.smallest.user < lo.value then lo.value else f.smallest.user;
      assert InRange(user, lo, hi) && InRange(user, Some(f.smallest.user), Some(f.largest.user));
    }
  }

  ghost predicate SomeOverlap(files: Files, lo: Option<UserKey>, hi: Option<UserKey>) {
    exists i :: 0 <= i < |files| && Overlaps(files[i], lo, hi)
  }

  // SomeFileOverlapsRange: on sorted disjoint files the binary search answers
  // exactly what the scan over all files answers.
  method SomeFileOverlapsRange(disjointSortedFiles: bool, files: Files, lo: Option<UserKey>, hi: Option<UserKey>)
    returns (overlap: bool)
    requires disjointSortedFiles ==> ValidFiles(files) && SortedFiles(files)
    ensures overlap <==> SomeOverlap(files, lo, hi)
  {
    if !disjointSortedFiles {
      var i := 0;
      while i < |files|
        invariant i <= |files|
        invariant forall j :: 0 <= j < i ==> !Overlaps(files[j], lo, hi)
      {
        var f := files[i];
        if AfterFile(lo, f) || BeforeFile(hi, f) {
        } else {
          return true;
        }
        i := i + 1;
      }
      return false;
    }

    var index := 0;
    if lo.Some? {
      var small := Key(lo.value, MAX_SEQUENCE, Put);
      index := FindFile(files, small);
    }
    LargestAscend(files);
    forall i | 0 <= i < |files| ensures (i < index) == AfterFile(lo, files[i]) {
      assert files[i].entries[|files[i].entries| - 1] in files[i].entries;
    }
    if index >= |files| {
      return false;
    }
    return !BeforeFile(hi, files[index]);
  }

  // ----- GetOverlappingInputs -----

  function Filter(files: Files, lo: Option<UserKey>, hi: Option<UserKey>): Files {
    if files == [] then []
    else
      var n := |files| - 1;
      Filter(files[..n], lo, hi) + (if Overlaps(files[n], lo, hi) then [files[n]] else [])
  }

  lemma {:induction false} FilterContents(files: Files, lo: Option<UserKey>, hi: Option<UserKey>)
    ensures |Filter(files, lo, hi)| <= |files|
    ensures forall f :: f in Filter(files, lo, hi) <==> f in files && Overlaps(f, lo, hi)
  {
    if files != [] {
      var n := |files| - 1;
      FilterContents(files[..n], lo, hi);
      assert files == files[..n] + [files[n]];
    }
  }

  ghost predicate Within(f: FileMeta, lo: Option<UserKey>, hi: Option<UserKey>) {
    && (lo.Some? ==> lo.value <= f.smallest.user)
    && (hi.Some? ==> f.largest.user <= hi.value)
  }

  // No file sticks out of the range while overlapping it.
  ghost predicate ClosedRange(files: Files, lo: Option<UserKey>, hi: Option<UserKey>) {
    forall i :: 0 <= i < |files| && Overlaps(files[i], lo, hi) ==> Within(files[i], lo, hi)
  }

  ghost predicate RangeContains(lo: Option<UserKey>, hi: Option<UserKey>, lo': Option<UserKey>, hi': Option<UserKey>) {
    && (lo.Some? <==> lo'.Some?) && (hi.Some? <==> hi'.Some?)
    && (lo.Some? ==> lo.value <= lo'.value) && (hi.Some? ==> hi'.value <= hi.value)
  }

  // [lo, hi] is the least range around [begin, end] that no file straddles.
  ghost predicate LeastClosedRange(files: Files, begin: Option<UserKey>, end: Option<UserKey>,
                                   lo: Option<UserKey>, hi: Option<UserKey>) {
    && ClosedRange(files, lo, hi)
    && RangeContains(lo, hi, begin, end)
    && (forall l, h :: ClosedRange(files, l, h) && RangeContains(l, h, begin, end) ==> RangeContains(l, h, lo, hi))
  }

  function UserOf(k: Option<Key>): Option<UserKey> {
    if k.None? then None else Some(k.value.user)
  }

  ghost function StartsBefore(files: Files, lo: Option<UserKey>): set<int> {
    set k | 0 <= k < |files| && lo.Some? && files[k].smallest.user < lo.value
  }

  ghost function EndsAfter(files: Files, hi: Option<UserKey>): set<int> {
    set k | 0 <= k < |files| && hi.Some? && files[k].largest.user > hi.value
  }

  // GetOverlappingInputs. At level 0 a file that sticks out widens the range and
  // restarts the scan; each restart leaves fewer files outside the range.
  method GetOverlappingInputs(level: nat, files: Files, begin: Option<Key>, end: Option<Key>)
    returns (inputs: Files, ghost lo: Option<UserKey>, ghost hi: Option<UserKey>)
    ensures inputs == Filter(files, lo, hi)
    ensures level > 0 ==> inputs == Filter(files, UserOf(begin), UserOf(end))
    ensures level > 0 ==> lo == UserOf(begin) && hi == UserOf(end)
    ensures level == 0 ==> LeastClosedRange(files, UserOf(begin), UserOf(end), lo, hi)
  {
    inputs := [];
    var userBegin, userEnd := UserOf(begin), UserOf(end);
    var i := 0;
    while i < |files|
      invariant i <= |files|
      invariant inputs == Filter(files[..i], userBegin, userEnd)
      invariant level > 0 ==> userBegin == UserOf(begin) && userEnd == UserOf(end)
      invariant RangeContains(userBegin, userEnd, UserOf(begin), UserOf(end))
      invariant level == 0 ==> ClosedRange(files[..i], userBegin, userEnd)
      invariant forall l, h :: ClosedRange(files, l, h) && RangeContains(l, h, UserOf(begin), UserOf(end)) ==>
                  RangeContains(l, h, userBegin, userEnd)
      decreases StartsBefore(files, userBegin), EndsAfter(files, userEnd), |files| - i
    {
      var f := files[i];
      assert files[..i + 1][..i] == files[..i];
      i := i + 1;
      if begin.Some? && f.largest.user < userBegin.value {
      } else if end.Some? && f.smallest.user > userEnd.value {
      } else {
        assert Overlaps(f, userBegin, userEnd);
        inputs := inputs + [f];
        if level == 0 {
          if begin.Some? && f.smallest.user < userBegin.value {
            assert i - 1 in StartsBefore(files, userBegin) && i - 1 !in StartsBefore(files, Some(f.smallest.user));
            userBegin := Some(f.smallest.user);
            inputs := [];
            i := 0;
          } else if end.Some? && f.largest.user > userEnd.value {
            assert i - 1 in EndsAfter(files, userEnd) && i - 1 !in EndsAfter(files, Some(f.largest.user));
            userEnd := Some(f.largest.user);
            inputs := [];
            i := 0;
          }
        }
      }
    }
    assert files[..i] == files;
    lo, hi := userBegin, userEnd;
  }

  // ----- PickLevelForMemTableOutput -----

  function TotalFileSize(files: Files): nat {
    if files == [] then 0 else files[0].size + TotalFileSize(files[1..])
  }

  ghost predicate TooMuchGrandparent(levels: seq<Files>, level: nat, lo: UserKey, hi: UserKey)
    requires |levels| == NUM_LEVELS
  {
    level + 2 < NUM_LEVELS && TotalFileSize(Filter(levels[level + 2], Some(lo), Some(hi))) > MAX_GRAND_PARENT_OVERLAP_BYTES
  }

  // The deepest level that a table of this range may sink to.
  ghost predicate IsOutputLevel(levels: seq<Files>, lo: UserKey, hi: UserKey, level: nat)
    requires Readable(levels)
  {
    && level <= MAX_MEM_COMPACT_LEVEL
    && (level > 0 ==> forall l :: 0 <= l <= level ==> !SomeOverlap(levels[l], Some(lo), Some(hi)))
    && (forall l :: 0 <= l < level ==> !TooMuchGrandparent(levels, l, lo, hi))
    && (level < MAX_MEM_COMPACT_LEVEL ==>
          || (level == 0 && SomeOverlap(levels[0], Some(lo), Some(hi)))
          || SomeOverlap(levels[level + 1], Some(lo), Some(hi))
          || TooMuchGrandparent(levels, level, lo, hi))
  }

  // A flushed memtable skips down past levels it does not overlap.
  method PickLevelForMemTableOutput(levels: seq<Files>, lo: UserKey, hi: UserKey) returns (level: nat)
    requires Readable(levels)
    ensures IsOutputLevel(levels, lo, hi, level)
  {
    hide LeastClosedRange, Filter, TotalFileSize;
    level := 0;
    var overlap := SomeFileOverlapsRange(false, levels[0], Some(lo), Some(hi));
    if !overlap {
      while level < MAX_MEM_COMPACT_LEVEL
        invariant level <= MAX_MEM_COMPACT_LEVEL
        invariant forall l :: 0 <= l <= level ==> !SomeOverlap(levels[l], Some(lo), Some(hi))
        invariant forall l :: 0 <= l < level ==> !TooMuchGrandparent(levels, l, lo, hi)
      {
        overlap := SomeFileOverlapsRange(true, levels[level + 1], Some(lo), Some(hi));
        if overlap {
          break;
        }
        if level + 2 < NUM_LEVELS {
          var start, limit := Key(lo, MAX_SEQUENCE, Put), Key(hi, 0, Deletion);
          var overlaps, _, _ := GetOverlappingInputs(level + 2, levels[level + 2], Some(start), Some(limit));
          if TotalFileSize(overlaps) > MAX_GRAND_PARENT_OVERLAP_BYTES {
            break;
          }
        }
        level := level + 1;
      }
    }
  }

  // ----- Reading -----

  // Table::InternalGet followed by SaveValue: the entry the file yields for user
  // at snapshot s, if any.
  function SeekPosition(es: seq<Entry>, target: Key): (p: nat)
    requires Sorted(es)
    ensures IsLowerBound(es, target, p)
  {
    if es == [] || !Less(es[0].key, target) then 0
    else 1 + SeekPosition(es[1..], target)
  }

  function TableGet(es: seq<Entry>, user: UserKey, s: nat): Option<Entry>
    requires Sorted(es)
  {
    Hit(es, user, SeekPosition(es, LookupKey(user, s)))
  }

  lemma TableGetIsNewest(es: seq<Entry>, user: UserKey, s: nat)
    requires Sorted(es)
    ensures TableGet(es, user, s).Some? ==> IsNewest(Elems(es), user, s, TableGet(es, user, s).value)
    ensures TableGet(es, user, s).None? ==> forall e :: !Visible(Elems(es), user, s, e)
  {
    HitIsNewest(es, user, s, SeekPosition(es, LookupKey(user, s)));
  }

  ghost predicate NewestFirst(files: Files) {
    forall i, j :: 0 <= i < j < |files| ==> files[i].number >= files[j].number
  }

  // std::sort by descending file number.
  function InsertByNumber(f: FileMeta, files: Files): (r: Files)
    requires NewestFirst(files)
    ensures NewestFirst(r) && |r| == |files| + 1
    ensures forall g :: g in r <==> g == f || g in files
  {
    if files == [] || f.number > files[0].number then
      assert forall i :: 0 <= i < |files| ==> files[i].number <= files[0].number;
      [f] + files
    else
      assert files == [files[0]] + files[1..];
      var rest := InsertByNumber(f, files[1..]);
      assert forall g :: g in rest ==> g.number <= files[0].number;
      [files[0]] + rest
  }

  function SortNewestFirst(files: Files): (r: Files)
    ensures NewestFirst(r) && |r| == |files|
    ensures forall g :: g in r <==> g in files
  {
    if files == [] then [] else
      assert files == [files[0]] + files[1..];
      InsertByNumber(files[0], SortNewestFirst(files[1..]))
  }

  // ----- The order in which Version::Get looks -----

  // Files probed in order; the first one with an entry for user decides.
  ghost function Probe(files: Files, user: UserKey, s: nat): Option<Entry>
    requires ValidFiles(files)
  {
    FirstSome(seq(|files|, i requires 0 <= i < |files| => TableGet(files[i].entries, user, s)))
  }

  lemma ValidSubset(some: Files, files: Files)
    requires ValidFiles(files) && forall f :: f in some ==> f in files
    ensures ValidFiles(some)
  {
    forall i | 0 <= i < |some| ensures ValidFile(some[i]) {
      assert some[i] in files;
    }
  }

  // The level-0 files that may hold user, newest first.
  ghost function Candidates(files: Files, user: UserKey): (r: Files)
    requires ValidFiles(files)
    ensures ValidFiles(r)
    ensures forall f :: f in r <==> f in files && Overlaps(f, Some(user), Some(user))
  {
    var probe := SortNewestFirst(Filter(files, Some(user), Some(user)));
    FilterContents(files, Some(user), Some(user));
    ValidSubset(probe, files);
    probe
  }

  ghost function ProbeLevelZero(files: Files, user: UserKey, s: nat): Option<Entry>
    requires ValidFiles(files)
  {
    Probe(Candidates(files, user), user, s)
  }

  ghost function FirstFile(files: Files, key: Key): nat {
    if files == [] || !Less(files[0].largest, key) then 0 else 1 + FirstFile(files[1..], key)
  }

  lemma {:induction false} FirstFileIsBound(files: Files, key: Key, p: nat)
    requires IsFileBound(files, key, p)
    ensures FirstFile(files, key) == p
  {
    if files != [] && Less(files[0].largest, key) {
      assert forall i :: 0 <= i < p - 1 ==> files[1..][i] == files[i + 1];
      FirstFileIsBound(files[1..], key, p - 1);
    }
  }

  ghost function ProbeSortedLevel(files: Files, user: UserKey, s: nat): Option<Entry>
    requires ValidFiles(files) && SortedFiles(files)
  {
    var index := FirstFile(files, LookupKey(user, s));
    if index >= |files| || user < files[index].smallest.user then None
    else TableGet(files[index].entries, user, s)
  }

  ghost function ProbeLevel(levels: seq<Files>, level: nat, user: UserKey, s: nat): Option<Entry>
    requires Readable(levels) && level < NUM_LEVELS
  {
    if level == 0 then ProbeLevelZero(levels[0], user, s) else ProbeSortedLevel(levels[level], user, s)
  }

  ghost function LevelHits(levels: seq<Files>, user: UserKey, s: nat): (r: seq<Option<Entry>>)
    requires Readable(levels)
  {
    seq(NUM_LEVELS, l requires 0 <= l < NUM_LEVELS => ProbeLevel(levels, l, user, s))
  }

  ghost function Walk(levels: seq<Files>, user: UserKey, s: nat): Option<Entry>
    requires Readable(levels)
  {
    FirstSome(LevelHits(levels, user, s))
  }

  method GetFromLevelZero(files: Files, user: UserKey, s: nat) returns (hit: Option<Entry>)
    requires ValidFiles(files)
    ensures hit == ProbeLevelZero(files, user, s)
  {
    var tmp := CollectOverlapping(files, user);
    ghost var candidates := Candidates(files, user);
    hit := ProbeInOrder(SortNewestFirst(tmp), user, s);
  }

  method CollectOverlapping(files: Files, user: UserKey) returns (tmp: Files)
    requires ValidFiles(files)
    ensures tmp == Filter(files, Some(user), Some(user))
    ensures ValidFiles(SortNewestFirst(tmp))
  {
    tmp := [];
    var i := 0;
    while i < |files|
      invariant i <= |files|
      invariant tmp == Filter(files[..i], Some(user), Some(user))
    {
      var f := files[i];
      assert files[..i + 1][..i] == files[..i];
      if user >= f.smallest.user && user <= f.largest.user {
        tmp := tmp + [f];
      }
      i := i + 1;
    }
    assert files[..i] == files;
    assert SortNewestFirst(tmp) == Candidates(files, user);
  }

  method ProbeInOrder(files: Files, user: UserKey, s: nat) returns (hit: Option<Entry>)
    requires ValidFiles(files)
    ensures hit == Probe(files, user, s)
  {
    ghost var hits := seq(|files|, i requires 0 <= i < |files| => TableGet(files[i].entries, user, s));
    var i := 0;
    while i < |files|
      invariant i <= |files|
      invariant FirstSome(hits) == FirstSome(hits[i..])
    {
      hit := TableGet(files[i].entries, user, s);
      assert hits[i..][0] == hit && hits[i..][1..] == hits[i + 1..];
      if hit.Some? {
        return;
      }
      i := i + 1;
    }
    hit := None;
  }

  method GetFromSortedLevel(files: Files, user: UserKey, s: nat) returns (hit: Option<Entry>)
    requires ValidFiles(files) && SortedFiles(files)
    ensures hit == ProbeSortedLevel(files, user, s)
  {
    var target := LookupKey(user, s);
    var index := FindFile(files, target);
    FirstFileIsBound(files, target, index);
    if index >= |files| || user < files[index].smallest.user {
      return None;
    }
    hit := TableGet(files[index].entries, user, s);
  }

  // Version::Get.
  method Get(levels: seq<Files>, user: UserKey, s: nat) returns (hit: Option<Entry>)
    requires Readable(levels)
    ensures hit == Walk(levels, user, s)
  {
    ghost var hits := LevelHits(levels, user, s);
    var level := 0;
    while level < NUM_LEVELS
      invariant level <= NUM_LEVELS
      invariant FirstSome(hits) == FirstSome(hits[level..])
    {
      hit := None;
      if |levels[level]| != 0 {
        if level == 0 {
          hit := GetFromLevelZero(levels[0], user, s);
        } else {
          hit := GetFromSortedLevel(levels[level], user, s);
        }
      } else {
        EmptyLevelMisses(levels[level], user, s);
      }
      assert hits[level..][0] == hit && hits[level..][1..] == hits[level + 1..];
      if hit.Some? {
        return;
      }
      level := level + 1;
    }
    hit := None;
  }

  lemma EmptyLevelMisses(files: Files, user: UserKey, s: nat)
    requires files == []
    ensures ProbeLevelZero(files, user, s) == None && ProbeSortedLevel(files, user, s) == None
  {
    assert Candidates(files, user) == [];
  }

  // ----- On a valid version the walk finds the newest visible entry -----

  ghost function FileLayers(files: Files): seq<iset<Entry>> {
    seq(|files|, i requires 0 <= i < |files| => Elems(files[i].entries))
  }

  lemma FileLayersUnion(files: Files)
    ensures Union(FileLayers(files)) == LevelEntries(files)
  {
    forall e ensures e in Union(FileLayers(files)) <==> InFiles(files, e) {
      if InFiles(files, e) {
        var i :| 0 <= i < |files| && e in files[i].entries;
        assert e in FileLayers(files)[i];
      }
    }
  }

  ghost predicate ProbeOrder(files: Files) {
    forall i, j :: 0 <= i < j < |files| ==> FileNewer(files[i], files[j])
  }

  lemma ProbeFinds(files: Files, user: UserKey, s: nat)
    requires ValidFiles(files) && ProbeOrder(files)
    ensures Finds(LevelEntries(files), user, s, Probe(files, user, s))
  {
    var layers := FileLayers(files);
    var hits := seq(|files|, i requires 0 <= i < |files| => TableGet(files[i].entries, user, s));
    forall i | 0 <= i < |files| ensures Finds(layers[i], user, s, hits[i]) {
      TableGetIsNewest(files[i].entries, user, s);
    }
    forall i, j | 0 <= i < j < |files| ensures Newer(layers[i], layers[j]) {
      assert FileNewer(files[i], files[j]);
    }
    FirstSomeFinds(layers, hits, user, s);
    FileLayersUnion(files);
  }

  ghost predicate DistinctNumbers(files: Files) {
    forall i, j :: 0 <= i < j < |files| ==> files[i].number != files[j].number
  }

  ghost predicate StrictlyNewestFirst(files: Files) {
    forall i, j :: 0 <= i < j < |files| ==> files[i].number > files[j].number
  }

  lemma {:induction false} FilterDistinct(files: Files, lo: Option<UserKey>, hi: Option<UserKey>)
    requires DistinctNumbers(files)
    ensures DistinctNumbers(Filter(files, lo, hi))
  {
    if files != [] {
      var n := |files| - 1;
      FilterDistinct(files[..n], lo, hi);
      FilterContents(files[..n], lo, hi);
      var front := Filter(files[..n], lo, hi);
      forall i | 0 <= i < |front| ensures front[i].number != files[n].number {
        assert front[i] in files[..n];
      }
    }
  }

  lemma {:induction false} SortStrict(files: Files)
    requires DistinctNumbers(files)
    ensures StrictlyNewestFirst(SortNewestFirst(files))
  {
    if files != [] {
      SortStrict(files[1..]);
      var rest := SortNewestFirst(files[1..]);
      forall i | 0 <= i < |rest| ensures rest[i].number != files[0].number {
        assert rest[i] in files[1..];
      }
      InsertStrict(files[0], rest);
    }
  }

  lemma {:induction false} InsertStrict(f: FileMeta, files: Files)
    requires StrictlyNewestFirst(files) && forall i :: 0 <= i < |files| ==> files[i].number != f.number
    ensures StrictlyNewestFirst(InsertByNumber(f, files))
  {
    if files != [] && f.number < files[0].number {
      InsertStrict(f, files[1..]);
      var rest := InsertByNumber(f, files[1..]);
      forall i | 0 <= i < |rest| ensures files[0].number > rest[i].number {
        assert rest[i] in rest;
      }
    }
  }

  lemma CandidatesOrdered(files: Files, user: UserKey)
    requires ValidFiles(files) && ValidLevelZero(files)
    ensures ProbeOrder(Candidates(files, user))
  {
    var probe := Candidates(files, user);
    FilterDistinct(files, Some(user), Some(user));
    SortStrict(Filter(files, Some(user), Some(user)));
    forall k, m | 0 <= k < m < |probe| ensures FileNewer(probe[k], probe[m]) {
      assert probe[k] in files && probe[m] in files;
    }
  }

  lemma CandidatesCover(files: Files, user: UserKey, s: nat, e: Entry)
    requires ValidFiles(files)
    ensures Visible(LevelEntries(files), user, s, e) <==> Visible(LevelEntries(Candidates(files, user)), user, s, e)
  {
    var probe := Candidates(files, user);
    if Visible(LevelEntries(files), user, s, e) {
      var j :| 0 <= j < |files| && e in files[j].entries;
      EntryInRange(files[j], e);
      assert files[j] in probe;
    }
    if InFiles(probe, e) {
      var k :| 0 <= k < |probe| && e in probe[k].entries;
      assert probe[k] in files;
    }
  }

  lemma ProbeLevelZeroFinds(files: Files, user: UserKey, s: nat)
    requires ValidFiles(files) && ValidLevelZero(files)
    ensures Finds(LevelEntries(files), user, s, ProbeLevelZero(files, user, s))
  {
    var probe := Candidates(files, user);
    CandidatesOrdered(files, user);
    ProbeFinds(probe, user, s);
    forall e ensures Visible(LevelEntries(files), user, s, e) <==> Visible(LevelEntries(probe), user, s, e) {
      CandidatesCover(files, user, s, e);
    }
  }

  lemma ProbeSortedLevelFinds(files: Files, user: UserKey, s: nat)
    requires ValidFiles(files) && SortedFiles(files)
    ensures Finds(LevelEntries(files), user, s, ProbeSortedLevel(files, user, s))
  {
    var target := LookupKey(user, s);
    var index := FirstFile(files, target);
    FirstFileExists(files, target);
    LargestAscend(files);
    forall e | Visible(LevelEntries(files), user, s, e)
      ensures index < |files| && user >= files[index].smallest.user
      ensures TableGet(files[index].entries, user, s).Some?
      ensures e.key.sn <= TableGet(files[index].entries, user, s).value.key.sn
    {
      var j :| 0 <= j < |files| && e in files[j].entries;
      EntryInRange(files[j], e);
      assert j >= index;
      VisibleAtIndex(files, user, s, index, j, e);
    }
    if index < |files| {
      TableGetIsNewest(files[index].entries, user, s);
    }
    var hit := ProbeSortedLevel(files, user, s);
    if hit.Some? {
      assert InFiles(files, hit.value);
    }
  }

  lemma {:induction false} FirstFileExists(files: Files, key: Key)
    requires ValidFiles(files) && SortedFiles(files)
    ensures IsFileBound(files, key, FirstFile(files, key))
  {
    LargestAscend(files);
    if files != [] && Less(files[0].largest, key) {
      FirstFileExists(files[1..], key);
      var p := FirstFile(files[1..], key);
      assert forall i :: 1 <= i < |files| ==> files[i] == files[1..][i - 1];
    }
  }

  lemma VisibleAtIndex(files: Files, user: UserKey, s: nat, index: nat, j: nat, e: Entry)
    requires ValidFiles(files) && SortedFiles(files)
    requires index <= j < |files| && e in files[j].entries && e.key.user == user && e.key.sn <= s
    requires IsFileBound(files, LookupKey(user, s), index)
    ensures user >= files[index].smallest.user
    ensures TableGet(files[index].entries, user, s).Some?
    ensures e.key.sn <= TableGet(files[index].entries, user, s).value.key.sn
  {
    var es := files[index].entries;
    var p := SeekPosition(es, LookupKey(user, s));
    EntryInRange(files[j], e);
    assert !Less(es[|es| - 1].key, LookupKey(user, s));
    EntryInRange(files[index], es[p]);
    EntryInRange(files[index], es[0]);
    if j == index {
      TableGetIsNewest(es, user, s);
      assert Visible(Elems(es), user, s, e);
    } else {
      assert Less(files[index].largest, files[j].smallest);
    }
  }

  lemma ProbeLevelFinds(levels: seq<Files>, level: nat, user: UserKey, s: nat)
    requires ValidVersion(levels) && level < NUM_LEVELS
    ensures Finds(LevelEntries(levels[level]), user, s, ProbeLevel(levels, level, user, s))
  {
    if level == 0 {
      ProbeLevelZeroFinds(levels[0], user, s);
    } else {
      ProbeSortedLevelFinds(levels[level], user, s);
    }
  }

  ghost function LevelLayers(levels: seq<Files>): seq<iset<Entry>> {
    seq(|levels|, l requires 0 <= l < |levels| => LevelEntries(levels[l]))
  }

  lemma LevelLayersUnion(levels: seq<Files>)
    ensures Union(LevelLayers(levels)) == VersionEntries(levels)
  {
    forall e ensures e in Union(LevelLayers(levels)) <==> InLevels(levels, e) {
      if InLevels(levels, e) {
        var l :| 0 <= l < |levels| && InFiles(levels[l], e);
        assert e in LevelLayers(levels)[l];
      }
    }
  }

  lemma LevelNewerAt(a: Files, b: Files, d: Entry, e: Entry)
    requires LevelNewer(a, b) && InFiles(a, d) && InFiles(b, e) && d.key.user == e.key.user
    ensures d.key.sn > e.key.sn
  {
    var i :| 0 <= i < |a| && d in a[i].entries;
    var j :| 0 <= j < |b| && e in b[j].entries;
    assert FileNewer(a[i], b[j]);
  }

  lemma LevelsNewer(a: Files, b: Files)
    requires LevelNewer(a, b)
    ensures Newer(LevelEntries(a), LevelEntries(b))
  {
    forall d, e | InFiles(a, d) && InFiles(b, e) && d.key.user == e.key.user ensures d.key.sn > e.key.sn {
      LevelNewerAt(a, b, d, e);
    }
  }

  // Version::Get on a valid version is exact for every key and snapshot.
  lemma WalkFinds(levels: seq<Files>, user: UserKey, s: nat)
    requires ValidVersion(levels)
    ensures Finds(VersionEntries(levels), user, s, Walk(levels, user, s))
  {
    var layers, hits := LevelLayers(levels), LevelHits(levels, user, s);
    forall l | 0 <= l < NUM_LEVELS ensures Finds(layers[l], user, s, hits[l]) {
      ProbeLevelFinds(levels, l, user, s);
    }
    forall l, m | 0 <= l < m < NUM_LEVELS ensures Newer(layers[l], layers[m]) {
      LevelsNewer(levels[l], levels[m]);
    }
    FirstSomeFinds(layers, hits, user, s);
    LevelLayersUnion(levels);
  }
}
