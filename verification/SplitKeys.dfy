// Output files are cut by size alone, so two versions of one user key can end up
// in adjacent files of a level. Nothing in the choice of inputs keeps such files
// together. This module says exactly when moving one of them is safe.
module SplitKeys {
  import opened Wrappers
  import opened InternalKeys
  import opened Versions
  import opened Compactions
  import opened VersionEdits
  import opened Installs

  ghost predicate SameReads(levels: seq<Files>, levels': seq<Files>)
    requires Readable(levels) && Readable(levels')
  {
    forall user, s: nat :: Walk(levels, user, s) == Walk(levels', user, s)
  }

  // A single file of a level above 0 may be moved down when nothing overlaps it there.
  ghost predicate Movable(levels: seq<Files>, level: nat, f: FileMeta, levels': seq<Files>) {
    && ValidVersion(levels) && Unique(VersionEntries(levels))
    && 1 <= level && level + 1 < NUM_LEVELS
    && f in levels[level]
    && TakesOverlaps(levels[level + 1], [f], [])
    && OrderedLevels(levels') && Replaced(levels, level, [f], [], [f], levels')
  }

  lemma MovedReadable(levels: seq<Files>, level: nat, f: FileMeta, levels': seq<Files>)
    requires Movable(levels, level, f, levels')
    ensures Readable(levels')
  {
    MembersFromVersion(levels);
    assert f in [f];
    forall l: nat, g | l < NUM_LEVELS && g in levels'[l] ensures ValidFile(g) {
      assert InReplaced(levels, level, [f], [], [f], l, g);
    }
    forall l | 0 <= l < NUM_LEVELS ensures ValidFiles(levels'[l]) {
      forall i | 0 <= i < |levels'[l]| ensures ValidFile(levels'[l][i]) {
        assert levels'[l][i] in levels'[l];
      }
    }
    forall l | 1 <= l < NUM_LEVELS ensures SortedFiles(levels'[l]) {
      forall i, j | 0 <= i < j < |levels'[l]| ensures Apart(levels'[l][i], levels'[l][j]) {
        assert BySmallest(levels'[l][i], levels'[l][j]);
        MovedPairApart(levels, level, f, levels', l, levels'[l][i], levels'[l][j]);
      }
      OrderedApartSorted(levels'[l]);
    }
  }

  lemma MovedPairApart(levels: seq<Files>, level: nat, f: FileMeta, levels': seq<Files>, l: nat, g: FileMeta, h: FileMeta)
    requires Movable(levels, level, f, levels') && AllValid(levels) && AllCompatible(levels)
    requires 1 <= l < NUM_LEVELS && g in levels'[l] && h in levels'[l] && g != h
    ensures Apart(g, h)
  {
    assert InReplaced(levels, level, [f], [], [f], l, g) && InReplaced(levels, level, [f], [], [f], l, h);
    assert f in [f] && ValidFile(f);
    forall e | e in f.entries ensures InFiles([f], e) {
      assert [f][0] == f;
    }
    if g in levels[l] && h in levels[l] {
      assert Compatible(l, g, l, h);
    } else if g == f {
      LeftFileIsAside(levels, level, [f], [], h, g);
    } else {
      LeftFileIsAside(levels, level, [f], [], g, h);
    }
  }

  lemma MovedContents(levels: seq<Files>, level: nat, f: FileMeta, levels': seq<Files>)
    requires Movable(levels, level, f, levels')
    ensures VersionEntries(levels') == VersionEntries(levels)
  {
    hide ValidVersion;
    assert f in [f];
    forall e ensures InLevels(levels', e) <==> InLevels(levels, e) {
      ReplacedEntries(levels, level, [f], [], [f], levels', e);
      assert [f][0] == f;
      if e in f.entries {
        MemberHolds(levels[level], f, e);
      }
    }
  }

  lemma SameFinds(all: iset<Entry>, user: UserKey, s: nat, a: Option<Entry>, b: Option<Entry>)
    requires Unique(all) && Finds(all, user, s, a) && Finds(all, user, s, b)
    ensures a == b
  {
  }

  lemma ClosedMoveIsSafe(levels: seq<Files>, level: nat, f: FileMeta, levels': seq<Files>)
    requires Movable(levels, level, f, levels') && OlderClosed(levels[level], [f])
    ensures ValidVersion(levels') && SameReads(levels, levels')
  {
    MembersFromVersion(levels);
    assert f in [f] && ValidFile(f);
    forall e | InFiles([f], e) ensures InFiles([f], e) || InFiles([], e) {}
    ReplaceKeepsVersion(levels, level, [f], [], [f], levels');
    MovedContents(levels, level, f, levels');
    forall user, s: nat ensures Walk(levels, user, s) == Walk(levels', user, s) {
      WalkFinds(levels, user, s);
      WalkFinds(levels', user, s);
      SameFinds(VersionEntries(levels), user, s, Walk(levels, user, s), Walk(levels', user, s));
    }
  }

  // An older version of a key left in the upper level hides the moved one.
  lemma OpenMoveGoesStale(levels: seq<Files>, level: nat, f: FileMeta, levels': seq<Files>, g: FileMeta, d: Entry, e: Entry)
    requires Movable(levels, level, f, levels') && Readable(levels')
    requires g in levels[level] && g != f && d in f.entries && e in g.entries && d.key.user == e.key.user
    requires e.key.sn <= d.key.sn
    ensures Walk(levels, d.key.user, d.key.sn) == Some(d)
    ensures Walk(levels', d.key.user, d.key.sn) != Some(d)
  {
    hide LevelNewer, ValidFiles, SortedFiles, ValidLevelZero, TakesOverlaps, Replaced, Walk;
    var user, s := d.key.user, d.key.sn;
    MemberHolds(levels[level], f, d);
    MemberHolds(levels[level], g, e);
    assert InLevels(levels, d) && InLevels(levels, e);
    WalkFinds(levels, user, s);
    assert Visible(VersionEntries(levels), user, s, d);
    StaleHit(levels, level, f, levels', g, d, e);
  }

  lemma StaleHit(levels: seq<Files>, level: nat, f: FileMeta, levels': seq<Files>, g: FileMeta, d: Entry, e: Entry)
    requires Movable(levels, level, f, levels') && Readable(levels')
    requires g in levels[level] && g != f && d in f.entries && e in g.entries && d.key.user == e.key.user
    requires e.key.sn <= d.key.sn
    ensures Walk(levels', d.key.user, d.key.sn) != Some(d)
  {
    hide ValidVersion, TakesOverlaps, ProbeSortedLevel, Walk, Unique;
    assert InReplaced(levels, level, [f], [], [f], level, g);
    LevelAnswers(levels'[level], g, e, d.key.sn);
    var i := WalkStopsBy(levels', level, d.key.user, d.key.sn);
    HitComesFromLevel(levels', i, d.key.user, d.key.sn);
    MovedOut(levels, level, f, levels', i, d);
  }

  lemma LevelAnswers(files: Files, g: FileMeta, e: Entry, s: nat)
    requires ValidFiles(files) && SortedFiles(files) && g in files && e in g.entries && e.key.sn <= s
    ensures ProbeSortedLevel(files, e.key.user, s).Some?
  {
    MemberHolds(files, g, e);
    ProbeSortedLevelFinds(files, e.key.user, s);
    assert Visible(LevelEntries(files), e.key.user, s, e);
  }

  lemma WalkStopsBy(levels: seq<Files>, level: nat, user: UserKey, s: nat) returns (i: nat)
    requires Readable(levels) && level < NUM_LEVELS && ProbeLevel(levels, level, user, s).Some?
    ensures i <= level && ProbeLevel(levels, i, user, s) == Walk(levels, user, s) && Walk(levels, user, s).Some?
  {
    var hits := LevelHits(levels, user, s);
    FirstSomeIndex(hits);
    assert hits[level].Some?;
    i :| 0 <= i < |hits| && hits[i] == FirstSome(hits) && forall j :: 0 <= j < i ==> hits[j].None?;
  }

  // After the move no entry of f is at or above the level it came from.
  lemma MovedOut(levels: seq<Files>, level: nat, f: FileMeta, levels': seq<Files>, i: nat, d: Entry)
    requires Movable(levels, level, f, levels') && i <= level && d in f.entries
    ensures !InFiles(levels'[i], d)
  {
    if InFiles(levels'[i], d) {
      var h := HolderOf(levels'[i], d);
      assert InReplaced(levels, level, [f], [], [f], i, h);
      MembersFromVersion(levels);
      assert f in [f];
      SoleHolder(levels, i, h, level, f, d);
    }
  }

  lemma {:induction false} ProbeComesFrom(files: Files, user: UserKey, s: nat)
    requires ValidFiles(files) && Probe(files, user, s).Some?
    ensures InFiles(files, Probe(files, user, s).value)
  {
    var hits := seq(|files|, i requires 0 <= i < |files| => TableGet(files[i].entries, user, s));
    FirstSomeIndex(hits);
    var i :| 0 <= i < |hits| && hits[i] == FirstSome(hits);
    TableGetIsNewest(files[i].entries, user, s);
    assert hits[i].value in files[i].entries;
  }

  lemma HitComesFromLevel(levels: seq<Files>, l: nat, user: UserKey, s: nat)
    requires Readable(levels) && l < NUM_LEVELS && ProbeLevel(levels, l, user, s).Some?
    ensures InFiles(levels[l], ProbeLevel(levels, l, user, s).value)
  {
    if l == 0 {
      ProbeComesFrom(Candidates(levels[0], user), user, s);
      var h := HolderOf(Candidates(levels[0], user), ProbeLevel(levels, l, user, s).value);
      MemberHolds(levels[0], h, ProbeLevel(levels, l, user, s).value);
    } else {
      ProbeSortedLevelFinds(levels[l], user, s);
    }
  }

  lemma OpenWitness(files: Files, f: FileMeta) returns (g: FileMeta, d: Entry, e: Entry)
    requires !OlderClosed(files, [f])
    ensures g in files && g != f && d in f.entries && e in g.entries && d.key.user == e.key.user && e.key.sn <= d.key.sn
  {
    var f';
    f', g :| f' in [f] && g in files && g !in [f] && !FileNewer(g, f');
    e, d :| e in g.entries && d in f'.entries && e.key.user == d.key.user && !(e.key.sn > d.key.sn);
    assert f in [f];
  }

  // Moving one file down changes no read exactly when no version of one of its
  // user keys, older than the file's own, stays behind in the level.
  lemma MoveIsSafeIffClosed(levels: seq<Files>, level: nat, f: FileMeta, levels': seq<Files>)
    requires Movable(levels, level, f, levels')
    ensures Readable(levels')
    ensures SameReads(levels, levels') <==> OlderClosed(levels[level], [f])
  {
    MovedReadable(levels, level, f, levels');
    if OlderClosed(levels[level], [f]) {
      ClosedMoveIsSafe(levels, level, f, levels');
    } else {
      var g, d, e := OpenWitness(levels[level], f);
      OpenMoveGoesStale(levels, level, f, levels', g, d, e);
      assert Walk(levels, d.key.user, d.key.sn) != Walk(levels', d.key.user, d.key.sn);
    }
  }

  lemma UniqueInLevel(levels: seq<Files>, level: nat)
    requires Unique(VersionEntries(levels)) && level < |levels|
    ensures Unique(LevelEntries(levels[level]))
  {
    forall d, e | d in LevelEntries(levels[level]) && e in LevelEntries(levels[level]) && d.key.sn == e.key.sn ensures d == e {
      assert InLevels(levels, d) && InLevels(levels, e);
    }
  }

  // The same in terms a caller can check: only the next file of the level matters.
  lemma MoveIsSafeIffBoundaryDiffers(levels: seq<Files>, level: nat, i: nat, levels': seq<Files>)
    requires 1 <= level < |levels| && i < |levels[level]| && Movable(levels, level, levels[level][i], levels')
    ensures Readable(levels')
    ensures SameReads(levels, levels') <==>
              (i + 1 == |levels[level]| || levels[level][i].largest.user != levels[level][i + 1].smallest.user)
  {
    MoveIsSafeIffClosed(levels, level, levels[level][i], levels');
    ClosedAtBoundary(levels, level, i);
  }

  lemma ClosedAtBoundary(levels: seq<Files>, level: nat, i: nat)
    requires Readable(levels) && Unique(VersionEntries(levels)) && 1 <= level < NUM_LEVELS && i < |levels[level]|
    ensures OlderClosed(levels[level], [levels[level][i]]) <==>
              (i + 1 == |levels[level]| || levels[level][i].largest.user != levels[level][i + 1].smallest.user)
  {
    UniqueInLevel(levels, level);
    assert levels[level][i..i + 1] == [levels[level][i]];
    BoundaryDecidesClosure(levels[level], i, i + 1);
  }

  const NEW_ENTRY := Entry(Key(7, 2, Put), "new")
  const OLD_ENTRY := Entry(Key(7, 1, Put), "old")
  const NEW_FILE := FileMeta(3, 1, NEW_ENTRY.key, NEW_ENTRY.key, [NEW_ENTRY])
  const OLD_FILE := FileMeta(4, 1, OLD_ENTRY.key, OLD_ENTRY.key, [OLD_ENTRY])

  function Levels(one: Files, two: Files): seq<Files> {
    [[], one, two, [], [], [], []]
  }

  // Such a level is a legal one: two versions of key 7 in adjacent files of level
  // 1. Moving the newer file makes a read of key 7 return the older value.
  lemma SplitKeyGoesStale()
    ensures Movable(Levels([NEW_FILE, OLD_FILE], []), 1, NEW_FILE, Levels([OLD_FILE], [NEW_FILE]))
    ensures Readable(Levels([OLD_FILE], [NEW_FILE]))
    ensures Walk(Levels([NEW_FILE, OLD_FILE], []), 7, 2) == Some(NEW_ENTRY)
    ensures Walk(Levels([OLD_FILE], [NEW_FILE]), 7, 2) == Some(OLD_ENTRY)
  {
    var levels, levels' := Levels([NEW_FILE, OLD_FILE], []), Levels([OLD_FILE], [NEW_FILE]);
    SplitMovable(levels, levels');
    MovedReadable(levels, 1, NEW_FILE, levels');
    assert OLD_FILE in levels[1];
    assert NEW_ENTRY in NEW_FILE.entries && OLD_ENTRY in OLD_FILE.entries;
    OpenMoveGoesStale(levels, 1, NEW_FILE, levels', OLD_FILE, NEW_ENTRY, OLD_ENTRY);
    OldComesFirst(levels');
  }

  lemma OldAnswers(levels: seq<Files>)
    requires levels == Levels([OLD_FILE], [NEW_FILE]) && Readable(levels)
    ensures ProbeLevel(levels, 1, 7, 2).Some?
  {
    hide Walk, ProbeSortedLevel, LevelEntries, Visible, InFiles;
    assert levels[1] == [OLD_FILE] && OLD_FILE in levels[1] && OLD_ENTRY in OLD_FILE.entries;
    LevelAnswers(levels[1], OLD_FILE, OLD_ENTRY, 2);
  }

  lemma OldComesFirst(levels: seq<Files>)
    requires levels == Levels([OLD_FILE], [NEW_FILE]) && Readable(levels)
    ensures Walk(levels, 7, 2) == Some(OLD_ENTRY)
  {
    hide Walk, ProbeLevel, Readable, ProbeSortedLevel, InFiles;
    OldAnswers(levels);
    var i := WalkStopsBy(levels, 1, 7, 2);
    HitComesFromLevel(levels, i, 7, 2);
    var h := HolderOf(levels[i], Walk(levels, 7, 2).value);
    assert h == OLD_FILE && h.entries == [OLD_ENTRY];
  }

  lemma SplitMovable(levels: seq<Files>, levels': seq<Files>)
    requires levels == Levels([NEW_FILE, OLD_FILE], []) && levels' == Levels([OLD_FILE], [NEW_FILE])
    ensures Movable(levels, 1, NEW_FILE, levels')
  {
    SplitVersionValid();
    assert NEW_FILE in levels[1];
    forall l: nat, f | l < NUM_LEVELS ensures f in levels'[l] <==> InReplaced(levels, 1, [NEW_FILE], [], [NEW_FILE], l, f) {
    }
  }

  lemma SplitVersionValid()
    ensures
      var levels := Levels([NEW_FILE, OLD_FILE], []);
      ValidVersion(levels) && Unique(VersionEntries(levels))
  {
    var levels := Levels([NEW_FILE, OLD_FILE], []);
    assert ValidFile(NEW_FILE) && ValidFile(OLD_FILE);
    assert BySmallest(NEW_FILE, OLD_FILE) && Apart(NEW_FILE, OLD_FILE) && Apart(OLD_FILE, NEW_FILE);
    assert OrderedLevels(levels) && AllValid(levels) && AllCompatible(levels);
    VersionFromMembers(levels);
    forall d | InLevels(levels, d) ensures d == NEW_ENTRY || d == OLD_ENTRY {
      InLevelsMembers(levels, d);
    }
  }
}
