// Choosing the inputs of a compaction and merging them (version_set.cc, db_impl.cc).
module Compactions {
  import opened Wrappers
  import opened InternalKeys
  import opened Versions

  // ----- Which entries a compaction throws away -----

  // No file below the output level covers the user key.
  ghost predicate BaseLevel(levels: seq<Files>, level: nat, user: UserKey)
    requires |levels| == NUM_LEVELS
  {
    forall l :: level + 2 <= l < NUM_LEVELS ==> !SomeOverlap(levels[l], Some(user), Some(user))
  }

  // A newer input entry of the same key is already at or below every live snapshot.
  ghost predicate Shadowed(ins: iset<Entry>, snapshot: nat, e: Entry) {
    exists d :: d in ins && d.key.user == e.key.user && e.key.sn < d.key.sn <= snapshot
  }

  ghost predicate Obsolete(levels: seq<Files>, level: nat, snapshot: nat, e: Entry)
    requires |levels| == NUM_LEVELS
  {
    e.key.kind == Deletion && e.key.sn <= snapshot && BaseLevel(levels, level, e.key.user)
  }

  ghost predicate Dropped(levels: seq<Files>, level: nat, ins: iset<Entry>, snapshot: nat, e: Entry)
    requires |levels| == NUM_LEVELS
  {
    Shadowed(ins, snapshot, e) || Obsolete(levels, level, snapshot, e)
  }

  // No output entry is of use to nobody: a key has one entry at most from before the
  // snapshot, and that is no deletion marker unless a deeper level may hold the key.
  ghost predicate Lean(levels: seq<Files>, level: nat, outs: Files, snapshot: nat)
    requires |levels| == NUM_LEVELS
  {
    && (forall d, e :: InFiles(outs, d) && InFiles(outs, e) && d.key.user == e.key.user && e.key.sn < d.key.sn ==> d.key.sn > snapshot)
    && (forall e :: InFiles(outs, e) && e.key.kind == Deletion && e.key.sn <= snapshot ==>
          exists l :: level + 2 <= l < NUM_LEVELS && SomeOverlap(levels[l], Some(e.key.user), Some(e.key.user)))
  }

  // Dropping entries changes no read at a live snapshot, provided every entry
  // older than an obsolete deletion marker is itself among the inputs.
  lemma DropsAreInvisible(levels: seq<Files>, level: nat, all: iset<Entry>, ins: iset<Entry>, all': iset<Entry>,
                          snapshot: nat, user: UserKey, s: nat, r: Option<Value>)
    requires |levels| == NUM_LEVELS
    requires Unique(all) && ins <= all && snapshot <= s
    requires forall e :: e in all' <==> e in all && !(e in ins && Dropped(levels, level, ins, snapshot, e))
    requires forall d, e :: (e in ins && Obsolete(levels, level, snapshot, e) && d in all && d !in ins
                             && d.key.user == e.key.user) ==> d.key.sn > e.key.sn
    requires Reads(all, user, s, r)
    ensures Reads(all', user, s, r)
  {
    if n :| IsNewest(all, user, s, n) && r == Meaning(Some(n)) {
      if n in all' {
        assert IsNewest(all', user, s, n);
      } else {
        assert !Shadowed(ins, snapshot, n) by {
          if d :| d in ins && d.key.user == n.key.user && n.key.sn < d.key.sn <= snapshot {
            assert Visible(all, user, s, d);
          }
        }
        assert Obsolete(levels, level, snapshot, n);
        assert r == None;
        forall d ensures !Visible(all', user, s, d) {
          if Visible(all, user, s, d) && d != n {
            OlderIsDroppedToo(levels, level, all, ins, snapshot, n, d);
          }
        }
      }
    } else {
      forall e ensures !Visible(all', user, s, e) {
        assert !Visible(all, user, s, e);
      }
    }
  }

  lemma OlderIsDroppedToo(levels: seq<Files>, level: nat, all: iset<Entry>, ins: iset<Entry>, snapshot: nat, n: Entry, d: Entry)
    requires |levels| == NUM_LEVELS && Unique(all) && ins <= all
    requires n in ins && Obsolete(levels, level, snapshot, n)
    requires d in all && d != n && d.key.user == n.key.user && d.key.sn <= n.key.sn
    requires d !in ins ==> d.key.sn > n.key.sn
    ensures d in ins && Dropped(levels, level, ins, snapshot, d)
  {
    assert d.key.sn < n.key.sn <= snapshot;
  }

  // ----- Ranges -----

  // GetRange: the extreme keys of a nonempty list of files.
  method GetRange(inputs: Files) returns (smallest: Key, largest: Key)
    requires inputs != [] && ValidFiles(inputs)
    ensures forall f :: f in inputs ==> !Less(f.smallest, smallest) && !Less(largest, f.largest)
    ensures exists f :: f in inputs && f.smallest == smallest
    ensures exists f :: f in inputs && f.largest == largest
  {
    smallest, largest := inputs[0].smallest, inputs[0].largest;
    var i := 1;
    while i < |inputs|
      invariant 1 <= i <= |inputs|
      invariant forall j :: 0 <= j < i ==> !Less(inputs[j].smallest, smallest) && !Less(largest, inputs[j].largest)
      invariant exists f :: f in inputs && f.smallest == smallest
      invariant exists f :: f in inputs && f.largest == largest
    {
      var f := inputs[i];
      CompareIsLess(f.smallest, smallest);
      CompareIsLess(f.largest, largest);
      if Compare(f.smallest, smallest) < 0 {
        smallest := f.smallest;
      }
      if Compare(f.largest, largest) > 0 {
        largest := f.largest;
      }
      i := i + 1;
    }
  }

  ghost predicate BeforeAll(g: FileMeta, inputs: Files) {
    forall f :: f in inputs ==> g.largest.user < f.smallest.user
  }

  ghost predicate AfterAll(g: FileMeta, inputs: Files) {
    forall f :: f in inputs ==> f.largest.user < g.smallest.user
  }

  // inputs1 is exactly what a compaction of inputs must take along from the next
  // level: all files but those entirely to one side.
  ghost predicate TakesOverlaps(next: Files, inputs: Files, inputs1: Files) {
    && (forall g :: g in inputs1 ==> g in next)
    && (forall g :: g in next ==> (g !in inputs1 <==> BeforeAll(g, inputs) || AfterAll(g, inputs)))
  }

  // No entry left behind in the level is older than an input entry of its user key.
  ghost predicate OlderClosed(files: Files, inputs: Files) {
    forall f, g :: f in inputs && g in files && g !in inputs ==> FileNewer(g, f)
  }

  // At level 0 the restarting search leaves nothing behind that shares a user key.
  lemma LevelZeroClosed(files: Files, lo: Option<UserKey>, hi: Option<UserKey>)
    requires ValidFiles(files) && ClosedRange(files, lo, hi)
    ensures OlderClosed(files, Filter(files, lo, hi))
  {
    FilterContents(files, lo, hi);
    forall f, g | f in Filter(files, lo, hi) && g in files && g !in Filter(files, lo, hi) ensures FileNewer(g, f) {
      var i :| 0 <= i < |files| && files[i] == f;
      var j :| 0 <= j < |files| && files[j] == g;
      assert Within(files[i], lo, hi);
      LeftOutSharesNoKey(f, g, lo, hi);
    }
  }

  lemma LeftOutSharesNoKey(f: FileMeta, g: FileMeta, lo: Option<UserKey>, hi: Option<UserKey>)
    requires ValidFile(f) && ValidFile(g) && Within(f, lo, hi) && !Overlaps(g, lo, hi)
    ensures FileNewer(g, f)
  {
    forall d, e | d in g.entries && e in f.entries ensures d.key.user != e.key.user {
      EntryInRange(f, e);
      EntryInRange(g, d);
    }
  }

  // Above level 0 closure of a run of adjacent files is decided at one
  // boundary: the next file must start with another user key.
  lemma BoundaryDecidesClosure(files: Files, i: nat, j: nat)
    requires i < j <= |files| && ValidFiles(files) && SortedFiles(files) && Unique(LevelEntries(files))
    ensures OlderClosed(files, files[i..j]) <==>
              (j == |files| || files[j - 1].largest.user != files[j].smallest.user)
  {
    if j < |files| && files[j - 1].largest.user == files[j].smallest.user {
      SplitKeyBreaksClosure(files, i, j);
    } else {
      forall f, g | f in files[i..j] && g in files && g !in files[i..j] ensures FileNewer(g, f) {
        LeftBehindIsNewer(files, i, j, f, g);
      }
    }
  }

  lemma LeftBehindIsNewer(files: Files, i: nat, j: nat, f: FileMeta, g: FileMeta)
    requires i < j <= |files| && ValidFiles(files) && SortedFiles(files) && Unique(LevelEntries(files))
    requires j == |files| || files[j - 1].largest.user != files[j].smallest.user
    requires f in files[i..j] && g in files && g !in files[i..j]
    ensures FileNewer(g, f)
  {
    var k := SliceIndex(files, i, j, f);
    forall c | i <= c < j ensures files[c] in files[i..j] {
      assert files[i..j][c - i] == files[c];
    }
    var b :| 0 <= b < |files| && files[b] == g;
    if b < i {
      EarlierFileIsNewer(files, b, k);
    } else {
      LaterFileIsApart(files, k, j, b);
    }
  }

  lemma SliceIndex(files: Files, i: nat, j: nat, f: FileMeta) returns (k: nat)
    requires i <= j <= |files| && f in files[i..j]
    ensures i <= k < j && files[k] == f
  {
    var a :| 0 <= a < |files[i..j]| && files[i..j][a] == f;
    k := i + a;
  }

  lemma SplitKeyBreaksClosure(files: Files, i: nat, j: nat)
    requires i < j < |files| && ValidFiles(files) && SortedFiles(files) && Unique(LevelEntries(files))
    requires files[j - 1].largest.user == files[j].smallest.user
    ensures !OlderClosed(files, files[i..j])
  {
    hide SortedFiles, Unique, LevelEntries, Sorted;
    var f, g := files[j - 1], files[j];
    var d, e := f.entries[|f.entries| - 1], g.entries[0];
    NextFileFollows(files, j);
    assert files[i..j][j - 1 - i] == f;
    NotAnInput(files, i, j, j);
    assert d in f.entries && e in g.entries && !(e.key.sn > d.key.sn);
    assert !FileNewer(g, f);
  }

  lemma NextFileFollows(files: Files, j: nat)
    requires 0 < j < |files| && ValidFiles(files) && SortedFiles(files)
    ensures Less(files[j - 1].entries[|files[j - 1].entries| - 1].key, files[j].entries[0].key)
  {
    assert files[j - 1].largest == files[j - 1].entries[|files[j - 1].entries| - 1].key;
  }

  lemma NotAnInput(files: Files, i: nat, j: nat, b: nat)
    requires i <= j <= b < |files| && ValidFiles(files) && SortedFiles(files)
    ensures files[b] !in files[i..j]
  {
    LargestAscend(files);
    forall a | 0 <= a < |files[i..j]| ensures files[i..j][a] != files[b] {
      assert Less(files[i + a].smallest, files[b].smallest);
    }
  }

  lemma EarlierFileIsNewer(files: Files, b: nat, k: nat)
    requires b < k < |files| && ValidFiles(files) && SortedFiles(files) && Unique(LevelEntries(files))
    ensures FileNewer(files[b], files[k])
  {
    forall d, e | d in files[b].entries && e in files[k].entries && d.key.user == e.key.user ensures d.key.sn > e.key.sn {
      EntryInRange(files[b], d);
      EntryInRange(files[k], e);
      assert Less(files[b].largest, files[k].smallest);
      assert InFiles(files, d) && InFiles(files, e);
    }
  }

  lemma LaterFileIsApart(files: Files, k: nat, j: nat, b: nat)
    requires k < j <= b < |files| && ValidFiles(files) && SortedFiles(files)
    requires files[j - 1].largest.user != files[j].smallest.user
    ensures files[k].largest.user < files[b].smallest.user
    ensures FileNewer(files[b], files[k])
  {
    LargestAscend(files);
    assert Less(files[j - 1].largest, files[j].smallest);
    assert k == j - 1 || Less(files[k].largest, files[j - 1].largest);
    assert b == j || Less(files[j].smallest, files[b].smallest);
    forall d, e | d in files[b].entries && e in files[k].entries ensures d.key.user != e.key.user {
      EntryInRange(files[b], d);
      EntryInRange(files[k], e);
    }
  }

  lemma OverlapsAreTaken(next: Files, inputs: Files, smallest: Key, largest: Key, inputs1: Files)
    requires forall f :: f in inputs ==> !Less(f.smallest, smallest) && !Less(largest, f.largest)
    requires exists f :: f in inputs && f.smallest == smallest
    requires exists f :: f in inputs && f.largest == largest
    requires inputs1 == Filter(next, Some(smallest.user), Some(largest.user))
    ensures TakesOverlaps(next, inputs, inputs1) && IsRange(inputs, smallest, largest) && MeetsRange(next, inputs, inputs1)
  {
    FilterContents(next, Some(smallest.user), Some(largest.user));
    assert IsRange(inputs, smallest, largest);
  }

  lemma ExpansionKeepsInputs(files: Files, inputs: Files, inputs1: Files, allStart: Key, allLimit: Key,
                             lo: Option<UserKey>, hi: Option<UserKey>)
    requires ValidFiles(files) && forall f :: f in inputs ==> f in files
    requires forall f :: f in inputs + inputs1 ==> !Less(f.smallest, allStart) && !Less(allLimit, f.largest)
    requires RangeContains(lo, hi, Some(allStart.user), Some(allLimit.user))
    ensures forall f :: f in inputs ==> f in Filter(files, lo, hi)
  {
    FilterContents(files, lo, hi);
    forall f | f in inputs ensures Overlaps(f, lo, hi) {
      assert f in inputs + inputs1;
      var i :| 0 <= i < |files| && files[i] == f;
      EntryInRange(f, f.entries[0]);
    }
  }

  method GetOverlapping(files: Files, level: nat, smallest: Key, largest: Key) returns (r: Files)
    requires ValidFiles(files) && level > 0
    ensures r == Filter(files, Some(smallest.user), Some(largest.user)) && ValidFiles(r) && PickedFrom(r, files)
  {
    FilterPicked(files, Some(smallest.user), Some(largest.user));
    ghost var lo, hi;
    r, lo, hi := GetOverlappingInputs(level, files, Some(smallest), Some(largest));
    FilterContents(files, lo, hi);
    ValidSubset(r, files);
  }

  // ----- Inputs in the order of their level -----

  ghost predicate IsPicks(at: seq<nat>, inputs: Files, files: Files) {
    && |at| == |inputs| && (forall i, j :: 0 <= i < j < |at| ==> at[i] < at[j])
    && (forall i :: 0 <= i < |at| ==> at[i] < |files| && files[at[i]] == inputs[i])
  }

  // The inputs are some of the files, in the same order.
  ghost predicate PickedFrom(inputs: Files, files: Files) {
    exists at :: IsPicks(at, inputs, files)
  }

  lemma {:induction false} FilterPicked(files: Files, lo: Option<UserKey>, hi: Option<UserKey>)
    ensures PickedFrom(Filter(files, lo, hi), files)
  {
    if files == [] {
      assert IsPicks([], [], files);
    } else {
      var n := |files| - 1;
      FilterPicked(files[..n], lo, hi);
      hide Overlaps;
      var at :| IsPicks(at, Filter(files[..n], lo, hi), files[..n]);
      PicksNext(at, Filter(files[..n], lo, hi), files);
      assert Filter(files[..n], lo, hi) + [] == Filter(files[..n], lo, hi);
    }
  }

  lemma PicksNext(at: seq<nat>, inputs: Files, files: Files)
    requires files != [] && IsPicks(at, inputs, files[..|files| - 1])
    ensures IsPicks(at, inputs, files) && IsPicks(at + [|files| - 1], inputs + [files[|files| - 1]], files)
  {
  }

  lemma OnePicked(files: Files, i: nat)
    requires i < |files|
    ensures PickedFrom([files[i]], files)
  {
    assert IsPicks([i], [files[i]], files);
  }

  lemma FrontPicked(inputs: Files, files: Files, n: nat)
    requires PickedFrom(inputs, files) && n <= |inputs|
    ensures PickedFrom(inputs[..n], files)
  {
    var at :| IsPicks(at, inputs, files);
    assert IsPicks(at[..n], inputs[..n], files);
  }

  lemma PickedSorted(inputs: Files, files: Files)
    requires PickedFrom(inputs, files) && SortedFiles(files)
    ensures SortedFiles(inputs)
  {
    var at :| IsPicks(at, inputs, files);
    forall i, j | 0 <= i < j < |inputs| ensures Less(inputs[i].largest, inputs[j].smallest) {
      assert files[at[i]] == inputs[i] && files[at[j]] == inputs[j];
    }
  }

  lemma PickedApart(inputs: Files, files: Files, i: nat, j: nat)
    requires PickedFrom(inputs, files) && ValidLevelZero(files) && i < j < |inputs|
    ensures FileNewer(inputs[i], inputs[j]) || FileNewer(inputs[j], inputs[i])
  {
    var at :| IsPicks(at, inputs, files);
    assert files[at[i]] == inputs[i] && files[at[j]] == inputs[j];
  }

  // The extreme keys of a set of files.
  ghost predicate IsRange(files: Files, smallest: Key, largest: Key) {
    && (forall f :: f in files ==> !Less(f.smallest, smallest) && !Less(largest, f.largest))
    && (exists f :: f in files && f.smallest == smallest)
    && (exists f :: f in files && f.largest == largest)
  }

  // r is what of the next level meets the range of the inputs.
  ghost predicate MeetsRange(next: Files, inputs: Files, r: Files) {
    exists smallest, largest :: IsRange(inputs, smallest, largest) && r == Filter(next, Some(smallest.user), Some(largest.user))
  }

  // What GetOverlappingInputs takes for a range of user keys.
  ghost predicate AreOverlapping(level: nat, files: Files, begin: UserKey, end: UserKey, r: Files) {
    if level > 0 then r == Filter(files, Some(begin), Some(end))
    else exists lo, hi :: LeastClosedRange(files, Some(begin), Some(end), lo, hi) && r == Filter(files, lo, hi)
  }

  // The first set may grow to r: more files around both sets, below the size limit, and
  // the second set stays what it is.
  ghost predicate GrowsTo(level: nat, files: Files, next: Files, inputs: Files, inputs1: Files, r: Files) {
    && inputs1 != [] && |r| > |inputs|
    && (exists smallest, largest :: IsRange(inputs + inputs1, smallest, largest) && AreOverlapping(level, files, smallest.user, largest.user, r))
    && TotalFileSize(inputs1) + TotalFileSize(r) < EXPANDED_COMPACTION_BYTE_SIZE_LIMIT
    && MeetsRange(next, r, inputs1)
  }

  ghost predicate Chosen(level: nat, files: Files, next: Files, inputs: Files, inputs0: Files, inputs1: Files) {
    && MeetsRange(next, inputs, inputs1)
    && (GrowsTo(level, files, next, inputs, inputs1, inputs0)
        || (inputs0 == inputs && forall r :: !GrowsTo(level, files, next, inputs, inputs1, r)))
  }

  lemma RangeIsUnique(files: Files, a: Key, b: Key, a': Key, b': Key)
    requires IsRange(files, a, b) && IsRange(files, a', b')
    ensures a == a' && b == b'
  {
    var f :| f in files && f.smallest == a;
    var g :| g in files && g.smallest == a';
    var h :| h in files && h.largest == b;
    var i :| i in files && i.largest == b';
    assert !Less(g.smallest, a) && !Less(f.smallest, a');
    assert !Less(b', h.largest) && !Less(b, i.largest);
  }

  lemma OverlappingIsUnique(level: nat, files: Files, begin: UserKey, end: UserKey, r: Files, t: Files)
    requires AreOverlapping(level, files, begin, end, r) && AreOverlapping(level, files, begin, end, t)
    ensures r == t
  {
    if level == 0 {
      var lo, hi :| LeastClosedRange(files, Some(begin), Some(end), lo, hi) && r == Filter(files, lo, hi);
      var lo', hi' :| LeastClosedRange(files, Some(begin), Some(end), lo', hi') && t == Filter(files, lo', hi');
      assert RangeContains(lo, hi, lo', hi') && RangeContains(lo', hi', lo, hi);
    }
  }

  // There is one candidate only.
  lemma OnlyGrowth(level: nat, files: Files, next: Files, inputs: Files, inputs1: Files, start: Key, limit: Key, r: Files, t: Files)
    requires IsRange(inputs + inputs1, start, limit) && AreOverlapping(level, files, start.user, limit.user, r)
    requires GrowsTo(level, files, next, inputs, inputs1, t)
    ensures t == r
  {
    hide MeetsRange, AreOverlapping, IsRange;
    var smallest, largest :| IsRange(inputs + inputs1, smallest, largest) && AreOverlapping(level, files, smallest.user, largest.user, t);
    RangeIsUnique(inputs + inputs1, start, limit, smallest, largest);
    OverlappingIsUnique(level, files, start.user, limit.user, r, t);
  }

  lemma MeetsIsUnique(next: Files, inputs: Files, r: Files, t: Files)
    requires MeetsRange(next, inputs, r) && MeetsRange(next, inputs, t)
    ensures r == t
  {
    hide IsRange;
    var a, b :| IsRange(inputs, a, b) && r == Filter(next, Some(a.user), Some(b.user));
    var a', b' :| IsRange(inputs, a', b') && t == Filter(next, Some(a'.user), Some(b'.user));
    RangeIsUnique(inputs, a, b, a', b');
  }

  lemma {:induction false} WiderRange(files: Files, lo: UserKey, hi: UserKey, lo': UserKey, hi': UserKey)
    requires lo' <= lo && hi <= hi'
    ensures var a, b := Filter(files, Some(lo), Some(hi)), Filter(files, Some(lo'), Some(hi'));
      |a| <= |b| && (|a| == |b| ==> a == b)
  {
    if files != [] {
      WiderRange(files[..|files| - 1], lo, hi, lo', hi');
    }
  }

  lemma RangeOfMore(files: Files, more: Files, lo: Key, hi: Key, lo': Key, hi': Key)
    requires IsRange(files, lo, hi) && IsRange(more, lo', hi') && forall f :: f in files ==> f in more
    ensures lo'.user <= lo.user && hi.user <= hi'.user
  {
  }

  // A wider range that meets no more files meets the same ones.
  lemma SameBelow(next: Files, inputs: Files, more: Files, r: Files, r': Files)
    requires MeetsRange(next, inputs, r) && MeetsRange(next, more, r')
    requires |r'| == |r| && forall f :: f in inputs ==> f in more
    ensures r' == r
  {
    var lo, hi :| IsRange(inputs, lo, hi) && r == Filter(next, Some(lo.user), Some(hi.user));
    var lo', hi' :| IsRange(more, lo', hi') && r' == Filter(next, Some(lo'.user), Some(hi'.user));
    RangeOfMore(inputs, more, lo, hi, lo', hi');
    WiderRange(next, lo.user, hi.user, lo'.user, hi'.user);
  }

  // The attempt to grow the first input set without changing the size of the second.
  method Expand(level: nat, files: Files, next: Files, inputs: Files, inputs1: Files, allStart: Key, allLimit: Key)
    returns (expanded: bool, expanded0: Files, expanded1: Files, newStart: Key, newLimit: Key)
    requires ValidFiles(files) && ValidFiles(next) && forall f :: f in inputs ==> f in files
    requires IsRange(inputs + inputs1, allStart, allLimit) && inputs1 != [] && MeetsRange(next, inputs, inputs1)
    ensures if expanded then GrowsTo(level, files, next, inputs, inputs1, expanded0) && expanded1 == inputs1
            else forall r :: !GrowsTo(level, files, next, inputs, inputs1, r)
    ensures expanded ==> IsRange(expanded0, newStart, newLimit)
    ensures expanded ==> ValidFiles(expanded0) && ValidFiles(expanded1)
    ensures expanded ==> forall f :: f in expanded0 ==> f in files && !Less(newLimit, f.largest)
    ensures expanded ==> forall f :: f in inputs ==> f in expanded0
    ensures expanded ==> TakesOverlaps(next, expanded0, expanded1)
    ensures expanded && level == 0 ==> OlderClosed(files, expanded0)
    ensures expanded ==> MeetsRange(next, expanded0, expanded1) && PickedFrom(expanded0, files) && PickedFrom(expanded1, next)
  {
    hide TakesOverlaps, OlderClosed, ClosedRange, LeastClosedRange, MeetsRange, PickedFrom, Filter;
    expanded, expanded1, newStart, newLimit := false, [], allStart, allLimit;
    ghost var lo, hi;
    expanded0, lo, hi := GetOverlappingInputs(level, files, Some(allStart), Some(allLimit));
    assert AreOverlapping(level, files, allStart.user, allLimit.user, expanded0);
    if |expanded0| > |inputs| &&
       TotalFileSize(inputs1) + TotalFileSize(expanded0) < EXPANDED_COMPACTION_BYTE_SIZE_LIMIT
    {
      FilterContents(files, lo, hi);
      FilterPicked(files, lo, hi);
      ValidSubset(expanded0, files);
      newStart, newLimit := GetRange(expanded0);
      expanded1 := GetOverlapping(next, level + 1, newStart, newLimit);
      OverlapsAreTaken(next, expanded0, newStart, newLimit, expanded1);
      ExpansionKeepsInputs(files, inputs, inputs1, allStart, allLimit, lo, hi);
      if |expanded1| == |inputs1| {
        if level == 0 {
          ClosedAtZero(files, Some(allStart.user), Some(allLimit.user), lo, hi);
        }
        SameBelow(next, inputs, expanded0, inputs1, expanded1);
        expanded := true;
      }
    }
    if !expanded {
      forall r ensures !GrowsTo(level, files, next, inputs, inputs1, r) {
        if GrowsTo(level, files, next, inputs, inputs1, r) {
          OnlyGrowth(level, files, next, inputs, inputs1, allStart, allLimit, expanded0, r);
          MeetsIsUnique(next, expanded0, expanded1, inputs1);
        }
      }
    }
  }

  lemma NoGrowth(level: nat, files: Files, next: Files, inputs: Files)
    ensures forall r :: !GrowsTo(level, files, next, inputs, [], r)
  {
  }

  lemma RangeFound(files: Files, smallest: Key, largest: Key)
    requires forall f :: f in files ==> !Less(f.smallest, smallest) && !Less(largest, f.largest)
    requires exists f :: f in files && f.smallest == smallest
    requires exists f :: f in files && f.largest == largest
    ensures IsRange(files, smallest, largest)
  {
  }

  // The file selection of SetupOtherInputs: take every overlapping file of the
  // next level, then widen the first input set when that costs nothing below: the
  // second set stays what meets the range of the inputs given.
  method ChooseInputs(level: nat, files: Files, next: Files, inputs: Files)
    returns (inputs0: Files, inputs1: Files, largest: Key, allStart: Key, allLimit: Key)
    requires ValidFiles(files) && ValidFiles(next) && inputs != [] && forall f :: f in inputs ==> f in files
    requires PickedFrom(inputs, files) && (level == 0 ==> OlderClosed(files, inputs))
    ensures inputs0 != [] && ValidFiles(inputs0) && ValidFiles(inputs1)
    ensures PickedFrom(inputs0, files) && PickedFrom(inputs1, next)
    ensures forall f :: f in inputs ==> f in inputs0
    ensures forall f :: f in inputs0 ==> f in files && !Less(largest, f.largest)
    ensures TakesOverlaps(next, inputs0, inputs1)
    ensures level == 0 ==> OlderClosed(files, inputs0)
    ensures Chosen(level, files, next, inputs, inputs0, inputs1) && MeetsRange(next, inputs0, inputs1)
    ensures IsRange(inputs0 + inputs1, allStart, allLimit) && exists smallest :: IsRange(inputs0, smallest, largest)
  {
    hide TakesOverlaps, OlderClosed, Filter, MeetsRange, PickedFrom, GrowsTo;
    inputs0 := inputs;
    ValidSubset(inputs, files);
    var smallest;
    smallest, largest := GetRange(inputs0);
    inputs1 := GetOverlapping(next, level + 1, smallest, largest);
    OverlapsAreTaken(next, inputs0, smallest, largest, inputs1);
    allStart, allLimit := GetRange(inputs0 + inputs1);
    assert IsRange(inputs0 + inputs1, allStart, allLimit);
    assert inputs1 == [] ==> forall r :: !GrowsTo(level, files, next, inputs, inputs1, r) by { NoGrowth(level, files, next, inputs); }
    hide IsRange;
    if inputs1 != [] {
      var expanded, expanded0, expanded1, newStart, newLimit :=
        Expand(level, files, next, inputs0, inputs1, allStart, allLimit);
      if expanded {
        smallest, largest := newStart, newLimit;
        inputs0, inputs1 := expanded0, expanded1;
        allStart, allLimit := GetRange(inputs0 + inputs1);
        RangeFound(inputs0 + inputs1, allStart, allLimit);
      }
    }
  }

  class Compaction {
    const level: nat
    const inputVersion: seq<Files>
    var inputs0: Files
    var inputs1: Files
    var grandparents: Files
    var grandparentIndex: nat
    var seenKey: bool
    var overlappedBytes: nat
    const levelPtrs: array<nat>

    ghost predicate Valid()
      reads `inputs0, `inputs1, `grandparents
    {
      && Readable(inputVersion)
      && level + 1 < NUM_LEVELS
      && levelPtrs.Length == NUM_LEVELS
      && inputs0 != []
      && (forall f :: f in inputs0 ==> f in inputVersion[level])
      && PickedFrom(inputs0, inputVersion[level])
      && ValidFiles(inputs0) && ValidFiles(inputs1) && ValidFiles(grandparents)
    }

    constructor (levels: seq<Files>, level: nat, inputs: Files)
      requires Readable(levels) && level + 1 < NUM_LEVELS
      requires inputs != [] && (forall f :: f in inputs ==> f in levels[level]) && PickedFrom(inputs, levels[level])
      ensures Valid() && this.level == level && inputVersion == levels
      ensures inputs0 == inputs && inputs1 == [] && grandparents == []
      ensures fresh(levelPtrs) && AtStart()
    {
      this.level, inputVersion := level, levels;
      inputs0, inputs1, grandparents := inputs, [], [];
      grandparentIndex, seenKey, overlappedBytes := 0, false, 0;
      levelPtrs := new nat[NUM_LEVELS](_ => 0);
      ValidSubset(inputs, levels[level]);
    }

    ghost predicate AtStart()
      reads this, levelPtrs
    {
      && levelPtrs.Length == NUM_LEVELS
      && (forall l :: 0 <= l < NUM_LEVELS ==> levelPtrs[l] == 0)
      && grandparentIndex == 0 && !seenKey && overlappedBytes == 0
    }

    // Everything the level pointers have passed lies before any key still to come.
    ghost predicate PtrsBelow(user: UserKey)
      reads levelPtrs
    {
      && levelPtrs.Length == NUM_LEVELS == |inputVersion|
      && forall l :: 0 <= l < NUM_LEVELS ==>
           levelPtrs[l] <= |inputVersion[l]| && forall i :: 0 <= i < levelPtrs[l] ==> inputVersion[l][i].largest.user < user
    }

    // IsBaseLevelForKey keeps a cursor per level. Asked about keys in
    // nondecreasing order it is exact.
    method IsBaseLevelForKey(user: UserKey) returns (base: bool)
      requires Valid() && PtrsBelow(user)
      modifies levelPtrs
      ensures PtrsBelow(user)
      ensures base <==> BaseLevel(inputVersion, level, user)
    {
      var lvl := level + 2;
      while lvl < NUM_LEVELS
        invariant level + 2 <= lvl <= NUM_LEVELS
        invariant PtrsBelow(user)
        invariant forall l :: level + 2 <= l < lvl ==> !SomeOverlap(inputVersion[l], Some(user), Some(user))
      {
        var files := inputVersion[lvl];
        while levelPtrs[lvl] < |files|
          invariant PtrsBelow(user)
          decreases |files| - levelPtrs[lvl]
        {
          var f := files[levelPtrs[lvl]];
          if user <= f.largest.user {
            if user >= f.smallest.user {
              assert Overlaps(f, Some(user), Some(user));
              return false;
            }
            break;
          }
          levelPtrs[lvl] := levelPtrs[lvl] + 1;
        }
        LargestAscend(files);
        forall i | 0 <= i < |files| ensures !Overlaps(files[i], Some(user), Some(user)) {
          assert i < levelPtrs[lvl] || i == levelPtrs[lvl] || Less(files[levelPtrs[lvl]].smallest, files[i].smallest);
        }
        lvl := lvl + 1;
      }
      return true;
    }

    // What SetupOtherInputs promises about the picked files.
    ghost predicate Picked()
      reads `inputs0, `inputs1, `grandparents
    {
      && Valid()
      && TakesOverlaps(inputVersion[level + 1], inputs0, inputs1)
      && PickedFrom(inputs1, inputVersion[level + 1])
      && (level == 0 ==> OlderClosed(inputVersion[0], inputs0))
    }

    lemma PickedIsValid()
      requires Picked()
      ensures Valid()
    {
    }

    // Both sets were chosen from the files given, the grandparents are what of the level
    // below meets them, and the pointer is where the first set ends.
    ghost predicate SetUpFrom(inputs: Files, pointer: Key)
      requires Readable(inputVersion) && level + 1 < NUM_LEVELS
      reads `inputs0, `inputs1, `grandparents
    {
      && Chosen(level, inputVersion[level], inputVersion[level + 1], inputs, inputs0, inputs1)
      && (level + 2 < NUM_LEVELS ==> MeetsRange(inputVersion[level + 2], inputs0 + inputs1, grandparents))
      && exists smallest :: IsRange(inputs0, smallest, pointer)
    }

    // SetupOtherInputs.
    method SetupOtherInputs() returns (pointer: Key)
      requires Valid()
      requires level == 0 ==> OlderClosed(inputVersion[0], inputs0)
      modifies `inputs0, `inputs1, `grandparents
      ensures Picked() && (old(AtStart()) ==> AtStart())
      ensures SetUpFrom(old(inputs0), pointer)
      ensures level + 2 >= NUM_LEVELS ==> grandparents == old(grandparents)
      ensures forall f :: f in old(inputs0) ==> f in inputs0
    {
      hide TakesOverlaps, OlderClosed, Chosen, PickedFrom, IsRange, Readable, ValidFiles, Filter;
      LevelsValid(inputVersion);
      var allStart, allLimit;
      inputs0, inputs1, pointer, allStart, allLimit :=
        ChooseInputs(level, inputVersion[level], inputVersion[level + 1], inputs0);
      if level + 2 < NUM_LEVELS {
        grandparents := GetOverlapping(inputVersion[level + 2], level + 2, allStart, allLimit);
        RangeIsMet(inputVersion[level + 2], inputs0 + inputs1, allStart, allLimit, grandparents);
      }
    }

    // ShouldStopBefore: skip the grandparents that end before the key; stop the
    // current output once too many of their bytes have gone by.
    method ShouldStopBefore(key: Key) returns (stop: bool)
      requires grandparentIndex <= |grandparents|
      modifies `grandparentIndex, `seenKey, `overlappedBytes
      ensures old(grandparentIndex) <= grandparentIndex <= |grandparents| && seenKey
      ensures forall i :: old(grandparentIndex) <= i < grandparentIndex ==> Less(grandparents[i].largest, key)
      ensures grandparentIndex < |grandparents| ==> !Less(grandparents[grandparentIndex].largest, key)
      ensures
        var passed := TotalFileSize(grandparents[old(grandparentIndex)..grandparentIndex]);
        var bytes := old(overlappedBytes) + if old(seenKey) then passed else 0;
        stop == (bytes > MAX_GRAND_PARENT_OVERLAP_BYTES) && overlappedBytes == if stop then 0 else bytes
    {
      ghost var start, seen := grandparentIndex, seenKey;
      ghost var passed := 0;
      while grandparentIndex < |grandparents| && Compare(key, grandparents[grandparentIndex].largest) > 0
        invariant start <= grandparentIndex <= |grandparents|
        invariant forall i :: start <= i < grandparentIndex ==> Less(grandparents[i].largest, key)
        invariant overlappedBytes == old(overlappedBytes) + if seen then TotalFileSize(grandparents[start..grandparentIndex]) else 0
        invariant seenKey == seen
      {
        CompareIsLess(key, grandparents[grandparentIndex].largest);
        TotalFileSizeAppend(grandparents[start..grandparentIndex], grandparents[grandparentIndex]);
        assert grandparents[start..grandparentIndex] + [grandparents[grandparentIndex]] == grandparents[start..grandparentIndex + 1];
        if seenKey {
          overlappedBytes := overlappedBytes + grandparents[grandparentIndex].size;
        }
        grandparentIndex := grandparentIndex + 1;
      }
      if grandparentIndex < |grandparents| {
        CompareIsLess(key, grandparents[grandparentIndex].largest);
      }
      seenKey := true;
      if overlappedBytes > MAX_GRAND_PARENT_OVERLAP_BYTES {
        overlappedBytes := 0;
        return true;
      } else {
        return false;
      }
    }
  }

  lemma LevelsValid(levels: seq<Files>)
    requires Readable(levels)
    ensures |levels| == NUM_LEVELS && forall l :: 0 <= l < NUM_LEVELS ==> ValidFiles(levels[l])
  {
  }

  lemma RangeIsMet(next: Files, inputs: Files, smallest: Key, largest: Key, r: Files)
    requires IsRange(inputs, smallest, largest) && r == Filter(next, Some(smallest.user), Some(largest.user))
    ensures MeetsRange(next, inputs, r)
  {
  }

  lemma {:induction false} TotalFileSizeAppend(files: Files, f: FileMeta)
    ensures TotalFileSize(files + [f]) == TotalFileSize(files) + f.size
  {
    if files == [] {
      assert [] + [f] == [f];
      assert TotalFileSize([f][1..]) == 0;
    } else {
      TotalFileSizeAppend(files[1..], f);
      assert (files + [f])[1..] == files[1..] + [f];
    }
  }

  predicate IsPast(f: FileMeta, compactPointer: Option<Key>) {
    compactPointer.None? || Compare(f.largest, compactPointer.value) > 0
  }

  // The first file past the compaction pointer, or else the first of all.
  ghost predicate IsFirstPast(files: Files, compactPointer: Option<Key>, i: int) {
    && 0 <= i < |files|
    && if IsPast(files[i], compactPointer) then forall j :: 0 <= j < i ==> !IsPast(files[j], compactPointer)
       else i == 0 && forall j :: 0 <= j < |files| ==> !IsPast(files[j], compactPointer)
  }

  // PickCompaction for a level whose size triggers it: the first file past the
  // compaction pointer, wrapping around; at level 0 everything it overlaps.
  method PickCompaction(levels: seq<Files>, level: nat, compactPointer: Option<Key>)
    returns (c: Compaction, pointer: Key, ghost start: Files)
    requires Readable(levels) && level + 1 < NUM_LEVELS && levels[level] != []
    ensures fresh(c) && fresh(c.levelPtrs) && c.Picked() && c.inputVersion == levels && c.level == level
    ensures c.AtStart()
    ensures exists i :: IsFirstPast(levels[level], compactPointer, i) && StartsWith(level, levels[level], i, start)
    ensures c.SetUpFrom(start, pointer) && (level + 2 >= NUM_LEVELS ==> c.grandparents == [])
    ensures forall f :: f in start ==> f in c.inputs0
  {
    hide TakesOverlaps, OlderClosed, Chosen, PickedFrom, Filter, LeastClosedRange, IsRange, MeetsRange;
    var inputs: Files := [];
    var i := 0;
    while i < |levels[level]| && inputs == []
      invariant i <= |levels[level]|
      invariant inputs == [] ==> forall j :: 0 <= j < i ==> !IsPast(levels[level][j], compactPointer)
      invariant inputs != [] ==> i > 0 && inputs == [levels[level][i - 1]] && IsFirstPast(levels[level], compactPointer, i - 1)
    {
      var f := levels[level][i];
      if compactPointer.None? || Compare(f.largest, compactPointer.value) > 0 {
        inputs := [f];
      }
      i := i + 1;
    }
    ghost var picked := if inputs == [] then 0 else i - 1;
    if inputs == [] {
      inputs := [levels[level][0]];
    }
    assert IsFirstPast(levels[level], compactPointer, picked) && levels[level][picked] in inputs;
    OnePicked(levels[level], picked);
    if level == 0 {
      inputs := CloseLevelZero(levels[0], inputs, picked);
    }
    start := inputs;
    c := new Compaction(levels, level, inputs);
    pointer := c.SetupOtherInputs();
  }

  // One file; at level 0 all that the least closed range around it takes.
  ghost predicate StartsWith(level: nat, files: Files, i: int, start: Files)
    requires 0 <= i < |files|
  {
    && files[i] in start
    && if level > 0 then start == [files[i]]
       else AreOverlapping(0, files, files[i].smallest.user, files[i].largest.user, start)
  }

  method CloseLevelZero(files: Files, inputs: Files, ghost i: nat) returns (r: Files)
    requires ValidFiles(files) && i < |files| && inputs == [files[i]]
    ensures r != [] && StartsWith(0, files, i, r)
    ensures OlderClosed(files, r) && (forall f :: f in r ==> f in files) && PickedFrom(r, files)
  {
    assert inputs[0] in inputs;
    ValidSubset(inputs, files);
    var smallest, largest := GetRange(inputs);
    assert inputs + [] == inputs;
    assert smallest == files[i].smallest && largest == files[i].largest;
    hide ClosedRange, LeastClosedRange, Filter, OlderClosed, PickedFrom;
    ghost var lo, hi;
    r, lo, hi := GetOverlappingInputs(0, files, Some(smallest), Some(largest));
    FilterContents(files, lo, hi);
    FilterPicked(files, lo, hi);
    ClosedAtZero(files, Some(smallest.user), Some(largest.user), lo, hi);
    RangeAround(files, smallest, largest, lo, hi);
    ExpansionKeepsInputs(files, inputs, [], smallest, largest, lo, hi);
  }

  lemma RangeAround(files: Files, smallest: Key, largest: Key, lo: Option<UserKey>, hi: Option<UserKey>)
    requires LeastClosedRange(files, Some(smallest.user), Some(largest.user), lo, hi)
    ensures RangeContains(lo, hi, Some(smallest.user), Some(largest.user))
  {
  }

  lemma ClosureMeetsRange(files: Files, begin: Option<UserKey>, end: Option<UserKey>, lo: Option<UserKey>, hi: Option<UserKey>)
    requires !SomeOverlap(files, begin, end)
    requires (lo == begin && hi == end) || LeastClosedRange(files, begin, end, lo, hi)
    ensures !SomeOverlap(files, lo, hi)
  {
    assert ClosedRange(files, begin, end) && RangeContains(begin, end, begin, end);
  }

  // CompactRange: the files a manual range meets, cut short by size above level 0.
  method CompactRange(levels: seq<Files>, level: nat, begin: Option<Key>, end: Option<Key>)
    returns (c: Compaction?, pointer: Key, ghost start: Files)
    requires Readable(levels) && level + 1 < NUM_LEVELS
    ensures c == null <==> !SomeOverlap(levels[level], UserOf(begin), UserOf(end))
    ensures c != null ==> fresh(c) && fresh(c.levelPtrs) && c.Picked() && c.inputVersion == levels && c.level == level
    ensures c != null ==> c.AtStart() && c.SetUpFrom(start, pointer) && (level + 2 >= NUM_LEVELS ==> c.grandparents == [])
    ensures c != null ==> IsManual(level, levels[level], begin, end, start)
  {
    hide PickedFrom, OlderClosed, ClosedRange, LeastClosedRange, SomeOverlap, Filter, TakesOverlaps, Chosen, IsRange, MeetsRange;
    pointer, start := Key(0, 0, Deletion), [];
    var files := levels[level];
    var inputs, lo, hi := GetOverlappingInputs(level, files, begin, end);
    FilterContents(files, lo, hi);
    FilterPicked(files, lo, hi);
    FilterEmpty(files, UserOf(begin), UserOf(end), lo, hi);
    if inputs == [] {
      return null, pointer, start;
    }
    if level == 0 {
      ClosedAtZero(files, UserOf(begin), UserOf(end), lo, hi);
    } else {
      inputs := CutBySize(inputs, files);
    }
    start := inputs;
    assert IsManual(level, files, begin, end, start);
    c := new Compaction(levels, level, inputs);
    pointer := c.SetupOtherInputs();
  }

  lemma FilterEmpty(files: Files, begin: Option<UserKey>, end: Option<UserKey>, lo: Option<UserKey>, hi: Option<UserKey>)
    requires (lo == begin && hi == end) || LeastClosedRange(files, begin, end, lo, hi)
    ensures Filter(files, lo, hi) == [] <==> !SomeOverlap(files, begin, end)
  {
    hide ClosedRange;
    FilterContents(files, lo, hi);
    if !SomeOverlap(files, begin, end) {
      ClosureMeetsRange(files, begin, end, lo, hi);
      forall f ensures f !in Filter(files, lo, hi) {
      }
      FirstMember(Filter(files, lo, hi));
    } else {
      WiderMeetsMore(files, begin, end, lo, hi);
    }
  }

  lemma FirstMember(files: Files)
    ensures files != [] ==> exists f :: f in files
  {
    if files != [] {
      assert files[0] in files;
    }
  }

  lemma WiderMeetsMore(files: Files, begin: Option<UserKey>, end: Option<UserKey>, lo: Option<UserKey>, hi: Option<UserKey>)
    requires SomeOverlap(files, begin, end) && ((lo == begin && hi == end) || LeastClosedRange(files, begin, end, lo, hi))
    ensures Filter(files, lo, hi) != []
  {
    FilterContents(files, lo, hi);
    var i :| 0 <= i < |files| && Overlaps(files[i], begin, end);
    assert files[i] in files && Overlaps(files[i], lo, hi);
  }

  lemma ClosedAtZero(files: Files, begin: Option<UserKey>, end: Option<UserKey>, lo: Option<UserKey>, hi: Option<UserKey>)
    requires ValidFiles(files) && LeastClosedRange(files, begin, end, lo, hi)
    ensures OlderClosed(files, Filter(files, lo, hi))
  {
    LevelZeroClosed(files, lo, hi);
  }

  // What of the level the range meets, cut by size.
  ghost predicate IsManual(level: nat, files: Files, begin: Option<Key>, end: Option<Key>, start: Files) {
    if level > 0 then IsCutBySize(Filter(files, UserOf(begin), UserOf(end)), start)
    else exists lo, hi :: LeastClosedRange(files, UserOf(begin), UserOf(end), lo, hi) && start == Filter(files, lo, hi)
  }

  // Above level 0 the files up to the one with which they reach the target size.
  ghost predicate IsCutBySize(inputs: Files, r: Files) {
    && r != [] && r <= inputs && TotalFileSize(r[..|r| - 1]) < TARGET_FILE_SIZE
    && (r == inputs || TotalFileSize(r) >= TARGET_FILE_SIZE)
  }

  method CutBySize(inputs: Files, ghost files: Files) returns (r: Files)
    requires inputs != [] && (forall f :: f in inputs ==> f in files) && PickedFrom(inputs, files)
    ensures r != [] && IsCutBySize(inputs, r)
    ensures (forall f :: f in r ==> f in files) && PickedFrom(r, files)
  {
    hide PickedFrom;
    var total, i := 0, 0;
    while i < |inputs|
      invariant i <= |inputs| && total == TotalFileSize(inputs[..i]) && (i > 0 ==> total < TARGET_FILE_SIZE)
    {
      assert inputs[..i + 1] == inputs[..i] + [inputs[i]];
      TotalFileSizeAppend(inputs[..i], inputs[i]);
      total := total + inputs[i].size;
      if total >= TARGET_FILE_SIZE {
        FrontPicked(inputs, files, i + 1);
        assert inputs[..i + 1][..i] == inputs[..i];
        return inputs[..i + 1];
      }
      i := i + 1;
    }
    r := inputs;
    assert inputs[..i] == inputs;
    TotalFileSizeAppend(inputs[..i - 1], inputs[i - 1]);
    assert inputs == inputs[..i - 1] + [inputs[i - 1]];
  }
}
