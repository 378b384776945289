// Applying version edits: VersionSet::Builder, installs and manifest replay (version_set.cc).
module VersionEdits {
  import opened InternalKeys
  import opened Versions

  // Files are named by (level, number) in the deletions.
  datatype VersionEdit = VersionEdit(deleted: set<(nat, nat)>, added: seq<(nat, FileMeta)>)

  ghost predicate ValidEdit(e: VersionEdit) {
    && (forall d :: d in e.deleted ==> d.0 < NUM_LEVELS)
    && (forall i :: 0 <= i < |e.added| ==> e.added[i].0 < NUM_LEVELS)
  }

  // BySmallestKey: smallest key first, ties broken by file number.
  predicate BySmallest(f: FileMeta, g: FileMeta) {
    Less(f.smallest, g.smallest) || (f.smallest == g.smallest && f.number < g.number)
  }

  ghost predicate Ordered(files: Files) {
    forall i, j :: 0 <= i < j < |files| ==> BySmallest(files[i], files[j])
  }

  predicate Equivalent(f: FileMeta, g: FileMeta) {
    f.smallest == g.smallest && f.number == g.number
  }

  // ----- One level of a builder -----

  datatype LevelState = LevelState(deletedFiles: set<nat>, addedFiles: Files)

  // Insertion into a std::set ordered by BySmallestKey: an equivalent element wins.
  function InsertFile(f: FileMeta, files: Files): (r: Files)
    requires Ordered(files)
    ensures Ordered(r)
    ensures forall g :: g in files ==> g in r
    ensures forall g :: g in r ==> g == f || g in files
    ensures f in r || exists g :: g in files && Equivalent(f, g)
  {
    if files == [] then [f]
    else if Equivalent(f, files[0]) then files
    else if BySmallest(f, files[0]) then [f] + files
    else
      assert files == [files[0]] + files[1..];
      var rest := InsertFile(f, files[1..]);
      assert forall i :: 0 <= i < |rest| ==> rest[i] in rest;
      [files[0]] + rest
  }

  // SaveTo for one level: merge, keeping what is not deleted.
  function Merge(base: Files, added: Files): Files
    decreases |base| + |added|
  {
    if added == [] then base
    else if base == [] then added
    else if BySmallest(added[0], base[0]) then [added[0]] + Merge(base, added[1..])
    else [base[0]] + Merge(base[1..], added)
  }

  function Undeleted(files: Files, deleted: set<nat>): Files {
    if files == [] then []
    else (if files[0].number in deleted then [] else [files[0]]) + Undeleted(files[1..], deleted)
  }

  function SaveLevel(base: Files, s: LevelState): Files {
    Undeleted(Merge(base, s.addedFiles), s.deletedFiles)
  }

  // ----- Whole builders, as values -----

  type BuilderState = s: seq<LevelState> | |s| == NUM_LEVELS && forall l :: 0 <= l < NUM_LEVELS ==> Ordered(s[l].addedFiles)
    ghost witness seq(NUM_LEVELS, _ => LevelState({}, []))

  function Fresh(): BuilderState {
    seq(NUM_LEVELS, _ => LevelState({}, []))
  }

  function AddFiles(s: BuilderState, added: seq<(nat, FileMeta)>): (r: BuilderState)
    requires forall i :: 0 <= i < |added| ==> added[i].0 < NUM_LEVELS
  {
    if added == [] then s
    else
      var t := AddFiles(s, added[..|added| - 1]);
      var (level, f) := added[|added| - 1];
      t[level := LevelState(t[level].deletedFiles - {f.number}, InsertFile(f, t[level].addedFiles))]
  }

  function DeletedAt(deleted: set<(nat, nat)>, level: nat): set<nat> {
    set d | d in deleted && d.0 == level :: d.1
  }

  function DeleteFiles(s: BuilderState, deleted: set<(nat, nat)>): BuilderState {
    seq(NUM_LEVELS, l requires 0 <= l < NUM_LEVELS =>
      LevelState(s[l].deletedFiles + DeletedAt(deleted, l), s[l].addedFiles))
  }

  function Applied(s: BuilderState, e: VersionEdit): BuilderState
    requires ValidEdit(e)
  {
    AddFiles(DeleteFiles(s, e.deleted), e.added)
  }

  function Save(base: seq<Files>, s: BuilderState): (r: seq<Files>)
    requires |base| == NUM_LEVELS
    ensures |r| == NUM_LEVELS
  {
    seq(NUM_LEVELS, l requires 0 <= l < NUM_LEVELS => SaveLevel(base[l], s[l]))
  }

  // LogAndApply: the version an edit makes out of the current one.
  function Install(levels: seq<Files>, e: VersionEdit): (r: seq<Files>)
    requires |levels| == NUM_LEVELS && ValidEdit(e)
    ensures |r| == NUM_LEVELS
  {
    Save(levels, Applied(Fresh(), e))
  }

  // ----- What the saved level contains -----

  // No two files, one from each side, tie in the order.
  ghost predicate NoTies(a: Files, b: Files) {
    forall i, j :: 0 <= i < |a| && 0 <= j < |b| ==> !Equivalent(a[i], b[j])
  }

  lemma {:induction false} MergeContents(base: Files, added: Files)
    requires Ordered(base) && Ordered(added) && NoTies(base, added)
    ensures forall f :: f in Merge(base, added) <==> f in base || f in added
    ensures Ordered(Merge(base, added))
    decreases |base| + |added|
  {
    if added != [] && base != [] {
      if BySmallest(added[0], base[0]) {
        MergeContents(base, added[1..]);
        assert added == [added[0]] + added[1..];
        forall f | f in Merge(base, added[1..]) ensures BySmallest(added[0], f) {
        }
      } else {
        MergeContents(base[1..], added);
        assert base == [base[0]] + base[1..];
        assert !Equivalent(base[0], added[0]);
        forall f | f in Merge(base[1..], added) ensures BySmallest(base[0], f) {
        }
      }
    }
  }

  lemma {:induction false} UndeletedContents(files: Files, deleted: set<nat>)
    requires Ordered(files)
    ensures forall f :: f in Undeleted(files, deleted) <==> f in files && f.number !in deleted
    ensures Ordered(Undeleted(files, deleted))
  {
    if files != [] {
      UndeletedContents(files[1..], deleted);
      assert files == [files[0]] + files[1..];
      forall f | f in Undeleted(files[1..], deleted) ensures BySmallest(files[0], f) {
      }
    }
  }

  lemma SaveLevelContents(base: Files, s: LevelState)
    requires Ordered(base) && Ordered(s.addedFiles) && NoTies(base, s.addedFiles)
    ensures forall f :: f in SaveLevel(base, s) <==> (f in base || f in s.addedFiles) && f.number !in s.deletedFiles
    ensures Ordered(SaveLevel(base, s))
  {
    MergeContents(base, s.addedFiles);
    UndeletedContents(Merge(base, s.addedFiles), s.deletedFiles);
  }

  // An ordered list is determined by its contents.
  lemma {:induction false} OrderedUnique(a: Files, b: Files)
    requires Ordered(a) && Ordered(b)
    requires forall f :: f in a <==> f in b
    ensures a == b
  {
    if a == [] {
      HasMember(b);
    } else {
      assert a[0] in b && b != [] && b[0] in b;
      assert a[0] == b[0] by {
        var i :| 0 <= i < |b| && b[i] == a[0];
        var j :| 0 <= j < |a| && a[j] == b[0];
      }
      forall f ensures f in a[1..] <==> f in b[1..] {
        TailMembers(a, f);
        TailMembers(b, f);
      }
      OrderedUnique(a[1..], b[1..]);
      assert a == [a[0]] + a[1..] && b == [b[0]] + b[1..];
    }
  }

  lemma HasMember(a: Files)
    ensures a != [] ==> exists f :: f in a
  {
    if a != [] {
      assert a[0] in a;
    }
  }

  lemma TailMembers(a: Files, f: FileMeta)
    requires a != [] && Ordered(a)
    ensures f in a[1..] <==> f in a && f != a[0]
  {
    if f in a && f != a[0] {
      var i :| 0 <= i < |a| && a[i] == f;
      assert a[1..][i - 1] == f;
    }
    if f in a[1..] {
      var i :| 0 <= i < |a[1..]| && a[1..][i] == f;
      assert BySmallest(a[0], a[i + 1]);
    }
  }

  // ----- The builder as the source runs it -----

  class Builder {
    const base: seq<Files>
    var levels: BuilderState

    constructor (base: seq<Files>)
      ensures this.base == base && levels == Fresh()
    {
      this.base, levels := base, Fresh();
    }

    // Deletions first, then additions, each of which cancels a pending deletion.
    method Apply(e: VersionEdit)
      requires ValidEdit(e)
      modifies this
      ensures levels == Applied(old(levels), e)
    {
      var rest := e.deleted;
      DeleteNothing(levels);
      assert e.deleted - rest == {};
      while rest != {}
        invariant rest <= e.deleted
        invariant levels == DeleteFiles(old(levels), e.deleted - rest)
        decreases rest
      {
        var d :| d in rest;
        DeleteOneMore(old(levels), e.deleted - rest, d);
        assert e.deleted - (rest - {d}) == (e.deleted - rest) + {d};
        rest := rest - {d};
        levels := levels[d.0 := LevelState(levels[d.0].deletedFiles + {d.1}, levels[d.0].addedFiles)];
      }
      assert e.deleted - rest == e.deleted;
      var i := 0;
      while i < |e.added|
        invariant i <= |e.added|
        invariant levels == AddFiles(DeleteFiles(old(levels), e.deleted), e.added[..i])
      {
        var (level, f) := e.added[i];
        levels := levels[level := LevelState(levels[level].deletedFiles - {f.number}, InsertFile(f, levels[level].addedFiles))];
        assert e.added[..i + 1][..i] == e.added[..i];
        i := i + 1;
      }
      assert e.added[..i] == e.added;
    }

    // SaveTo.
    method SaveTo() returns (v: seq<Files>)
      requires |base| == NUM_LEVELS
      ensures v == Save(base, levels)
    {
      v := [];
      var level := 0;
      while level < NUM_LEVELS
        invariant level <= NUM_LEVELS && |v| == level
        invariant forall l :: 0 <= l < level ==> v[l] == SaveLevel(base[l], levels[l])
      {
        var files := SaveLevelTo(base[level], levels[level]);
        v := v + [files];
        level := level + 1;
      }
    }

    static method SaveLevelTo(base: Files, s: LevelState) returns (v: Files)
      ensures v == SaveLevel(base, s)
    {
      hide Merge, Undeleted, SaveLevel, Rest;
      v := [];
      var added := s.addedFiles;
      var bi, ai := 0, 0;
      RestEnds(base, s);
      while ai < |added|
        invariant bi <= |base| && ai <= |added|
        invariant SaveLevel(base, s) == v + Rest(base, added, bi, ai, s.deletedFiles)
      {
        // std::upper_bound over the remaining base files
        while bi < |base| && !BySmallest(added[ai], base[bi])
          invariant bi <= |base|
          invariant SaveLevel(base, s) == v + Rest(base, added, bi, ai, s.deletedFiles)
        {
          RestAtBase(base, added, bi, ai, s.deletedFiles);
          v := v + MaybeAddFile(base[bi], s.deletedFiles);
          bi := bi + 1;
        }
        RestAtAdded(base, added, bi, ai, s.deletedFiles);
        v := v + MaybeAddFile(added[ai], s.deletedFiles);
        ai := ai + 1;
      }
      while bi < |base|
        invariant bi <= |base|
        invariant SaveLevel(base, s) == v + Rest(base, added, bi, |added|, s.deletedFiles)
      {
        RestAtBase(base, added, bi, |added|, s.deletedFiles);
        v := v + MaybeAddFile(base[bi], s.deletedFiles);
        bi := bi + 1;
      }
    }
  }

  lemma RestEnds(base: Files, s: LevelState)
    ensures SaveLevel(base, s) == Rest(base, s.addedFiles, 0, 0, s.deletedFiles)
    ensures Rest(base, s.addedFiles, |base|, |s.addedFiles|, s.deletedFiles) == []
  {
    assert base[0..] == base && s.addedFiles[0..] == s.addedFiles;
    assert base[|base|..] == [] && s.addedFiles[|s.addedFiles|..] == [];
  }

  // What SaveTo has still to write.
  function Rest(base: Files, added: Files, bi: nat, ai: nat, deleted: set<nat>): Files
    requires bi <= |base| && ai <= |added|
  {
    Undeleted(Merge(base[bi..], added[ai..]), deleted)
  }

  lemma RestAtBase(base: Files, added: Files, bi: nat, ai: nat, deleted: set<nat>)
    requires bi < |base| && ai <= |added| && (ai < |added| ==> !BySmallest(added[ai], base[bi]))
    ensures Rest(base, added, bi, ai, deleted) == MaybeAddFile(base[bi], deleted) + Rest(base, added, bi + 1, ai, deleted)
  {
    assert base[bi..] == [base[bi]] + base[bi + 1..];
    assert Merge(base[bi..], added[ai..]) == [base[bi]] + Merge(base[bi + 1..], added[ai..]) by {
      if ai < |added| && bi + 1 == |base| {
        assert Merge([], added[ai..]) == added[ai..];
      }
    }
  }

  lemma RestAtAdded(base: Files, added: Files, bi: nat, ai: nat, deleted: set<nat>)
    requires bi <= |base| && ai < |added| && (bi < |base| ==> BySmallest(added[ai], base[bi]))
    ensures Rest(base, added, bi, ai, deleted) == MaybeAddFile(added[ai], deleted) + Rest(base, added, bi, ai + 1, deleted)
  {
    assert added[ai..] == [added[ai]] + added[ai + 1..];
    assert Merge(base[bi..], added[ai..]) == [added[ai]] + Merge(base[bi..], added[ai + 1..]);
  }

  lemma DeleteNothing(s: BuilderState)
    ensures DeleteFiles(s, {}) == s
  {
    var t := DeleteFiles(s, {});
    forall l | 0 <= l < NUM_LEVELS ensures t[l] == s[l] {
      assert DeletedAt({}, l) == {};
    }
  }

  lemma DeleteOneMore(s: BuilderState, done: set<(nat, nat)>, d: (nat, nat))
    requires d.0 < NUM_LEVELS
    ensures
      var t := DeleteFiles(s, done);
      DeleteFiles(s, done + {d}) == t[d.0 := LevelState(t[d.0].deletedFiles + {d.1}, t[d.0].addedFiles)]
  {
    var t, u := DeleteFiles(s, done), DeleteFiles(s, done + {d});
    forall l | 0 <= l < NUM_LEVELS
      ensures u[l] == if l == d.0 then LevelState(t[l].deletedFiles + {d.1}, t[l].addedFiles) else t[l]
    {
      DeletedAtAdd(done, d, l);
      assert l == d.0 ==> s[l].deletedFiles + (DeletedAt(done, l) + {d.1}) == (s[l].deletedFiles + DeletedAt(done, l)) + {d.1};
    }
  }

  function MaybeAddFile(f: FileMeta, deleted: set<nat>): Files {
    if f.number in deleted then [] else [f]
  }

  lemma DeletedAtAdd(done: set<(nat, nat)>, d: (nat, nat), l: nat)
    ensures DeletedAt(done + {d}, l) == DeletedAt(done, l) + if l == d.0 then {d.1} else {}
  {
    if l == d.0 {
      assert d in done + {d};
    }
  }

  // LogAndApply builds the new version with one edit.
  method LogAndApply(levels: seq<Files>, e: VersionEdit) returns (v: seq<Files>)
    requires |levels| == NUM_LEVELS && ValidEdit(e)
    ensures v == Install(levels, e)
  {
    var builder := new Builder(levels);
    builder.Apply(e);
    v := builder.SaveTo();
  }

  // ----- Replaying a manifest -----

  ghost predicate ValidEdits(edits: seq<VersionEdit>) {
    forall i :: 0 <= i < |edits| ==> ValidEdit(edits[i])
  }

  ghost function Replay(edits: seq<VersionEdit>): BuilderState
    requires ValidEdits(edits)
  {
    if edits == [] then Fresh() else Applied(Replay(edits[..|edits| - 1]), edits[|edits| - 1])
  }

  ghost function InstallAll(base: seq<Files>, edits: seq<VersionEdit>): (r: seq<Files>)
    requires |base| == NUM_LEVELS && ValidEdits(edits)
    ensures |r| == NUM_LEVELS
  {
    if edits == [] then base else Install(InstallAll(base, edits[..|edits| - 1]), edits[|edits| - 1])
  }

  ghost predicate AddsFile(added: seq<(nat, FileMeta)>, level: nat, f: FileMeta) {
    exists i :: 0 <= i < |added| && added[i] == (level, f)
  }

  ghost predicate AddsNumber(added: seq<(nat, FileMeta)>, level: nat, number: nat) {
    exists i :: 0 <= i < |added| && added[i].0 == level && added[i].1.number == number
  }

  ghost predicate HasNumber(files: Files, number: nat) {
    exists i :: 0 <= i < |files| && files[i].number == number
  }

  // An edit names each (level, number) it adds once, and none that is there already.
  ghost predicate AddsFresh(base: seq<Files>, s: BuilderState, e: VersionEdit)
    requires |base| == NUM_LEVELS && ValidEdit(e)
  {
    && (forall i, j :: 0 <= i < j < |e.added| ==>
          e.added[i].0 != e.added[j].0 || e.added[i].1.number != e.added[j].1.number)
    && (forall i :: 0 <= i < |e.added| ==>
          !HasNumber(base[e.added[i].0], e.added[i].1.number) && !HasNumber(s[e.added[i].0].addedFiles, e.added[i].1.number))
  }

  ghost predicate OrderedLevels(levels: seq<Files>) {
    |levels| == NUM_LEVELS && forall l :: 0 <= l < NUM_LEVELS ==> Ordered(levels[l])
  }

  // No (level, number) is added twice, nor added where the base already has it.
  ghost predicate AddsOnce(base: seq<Files>, edits: seq<VersionEdit>)
    requires |base| == NUM_LEVELS && ValidEdits(edits)
  {
    edits == [] ||
    (AddsOnce(base, edits[..|edits| - 1]) && AddsFresh(base, Replay(edits[..|edits| - 1]), edits[|edits| - 1]))
  }

  lemma {:induction false} AddFilesContents(s: BuilderState, added: seq<(nat, FileMeta)>, l: nat)
    requires l < NUM_LEVELS && forall i :: 0 <= i < |added| ==> added[i].0 < NUM_LEVELS
    requires forall i, j :: 0 <= i < j < |added| ==> added[i].0 != added[j].0 || added[i].1.number != added[j].1.number
    requires forall i :: 0 <= i < |added| ==> !HasNumber(s[added[i].0].addedFiles, added[i].1.number)
    ensures forall g :: g in AddFiles(s, added)[l].addedFiles <==> g in s[l].addedFiles || AddsFile(added, l, g)
    ensures forall n :: n in AddFiles(s, added)[l].deletedFiles <==> n in s[l].deletedFiles && !AddsNumber(added, l, n)
  {
    if added != [] {
      var n := |added| - 1;
      var front, level, f := added[..n], added[n].0, added[n].1;
      AddFilesContents(s, front, l);
      assert forall i :: 0 <= i < n ==> front[i] == added[i];
      forall g ensures AddsFile(added, l, g) <==> AddsFile(front, l, g) || (l == level && g == f) {
        if AddsFile(front, l, g) {
          var i :| 0 <= i < n && front[i] == (l, g);
          assert added[i] == (l, g);
        }
        if l == level && g == f { assert added[n] == (l, g); }
      }
      forall k ensures AddsNumber(added, l, k) <==> AddsNumber(front, l, k) || (l == level && k == f.number) {
        if AddsNumber(front, l, k) {
          var i :| 0 <= i < n && front[i].0 == l && front[i].1.number == k;
          assert added[i].0 == l && added[i].1.number == k;
        }
        if l == level && k == f.number { assert added[n].0 == l; }
      }
      if l == level {
        var old' := AddFiles(s, front)[l].addedFiles;
        forall g | g in old' ensures g.number != f.number {
          if AddsFile(front, l, g) {
            var i :| 0 <= i < n && front[i] == (l, g);
            assert added[i] == (l, g);
          } else {
            assert !HasNumber(s[added[n].0].addedFiles, f.number);
            var i :| 0 <= i < |s[l].addedFiles| && s[l].addedFiles[i] == g;
          }
        }
      }
    }
  }

  // The contents of a level after an edit, from the level before it.
  lemma InstallContents(levels: seq<Files>, e: VersionEdit, l: nat)
    requires OrderedLevels(levels) && ValidEdit(e) && AddsFresh(levels, Fresh(), e) && l < NUM_LEVELS
    ensures forall f :: f in Install(levels, e)[l] <==>
              (f in levels[l] && f.number !in DeletedAt(e.deleted, l)) || AddsFile(e.added, l, f)
    ensures Ordered(Install(levels, e)[l])
  {
    var d := DeleteFiles(Fresh(), e.deleted);
    AddFilesContents(d, e.added, l);
    var t := AddFiles(d, e.added);
    forall i, j | 0 <= i < |levels[l]| && 0 <= j < |t[l].addedFiles| ensures !Equivalent(levels[l][i], t[l].addedFiles[j]) {
      var g := t[l].addedFiles[j];
      assert g in t[l].addedFiles;
      var k :| 0 <= k < |e.added| && e.added[k] == (l, g);
      assert !HasNumber(levels[e.added[k].0], e.added[k].1.number);
    }
    SaveLevelContents(levels[l], t[l]);
    forall f | AddsFile(e.added, l, f) ensures AddsNumber(e.added, l, f.number) {
      var k :| 0 <= k < |e.added| && e.added[k] == (l, f);
    }
    forall f | f in levels[l] ensures !AddsNumber(e.added, l, f.number) {
      AddedNumberIsNew(levels, Fresh(), e, l, f);
    }
  }

  lemma ApplyContents(s: BuilderState, e: VersionEdit, l: nat)
    requires ValidEdit(e) && l < NUM_LEVELS
    requires forall i, j :: 0 <= i < j < |e.added| ==> e.added[i].0 != e.added[j].0 || e.added[i].1.number != e.added[j].1.number
    requires forall i :: 0 <= i < |e.added| ==> !HasNumber(s[e.added[i].0].addedFiles, e.added[i].1.number)
    ensures forall g :: g in Applied(s, e)[l].addedFiles <==> g in s[l].addedFiles || AddsFile(e.added, l, g)
    ensures forall n :: n in Applied(s, e)[l].deletedFiles <==>
              (n in s[l].deletedFiles || n in DeletedAt(e.deleted, l)) && !AddsNumber(e.added, l, n)
  {
    AddFilesContents(DeleteFiles(s, e.deleted), e.added, l);
  }

  lemma AddedNumberIsNew(base: seq<Files>, s: BuilderState, e: VersionEdit, l: nat, f: FileMeta)
    requires |base| == NUM_LEVELS && ValidEdit(e) && AddsFresh(base, s, e) && l < NUM_LEVELS
    ensures AddsFile(e.added, l, f) ==> AddsNumber(e.added, l, f.number)
    ensures f in base[l] || f in s[l].addedFiles ==> !AddsNumber(e.added, l, f.number)
  {
    if k :| 0 <= k < |e.added| && e.added[k].0 == l && e.added[k].1.number == f.number {
      assert !HasNumber(base[e.added[k].0], e.added[k].1.number) && !HasNumber(s[e.added[k].0].addedFiles, e.added[k].1.number);
    }
    if k :| 0 <= k < |e.added| && e.added[k] == (l, f) {
      assert e.added[k].0 == l && e.added[k].1.number == f.number;
    }
  }

  lemma {:induction false} UndeletedNothing(files: Files)
    ensures Undeleted(files, {}) == files
  {
    if files != [] {
      UndeletedNothing(files[1..]);
    }
  }

  function NoFiles(): seq<Files> {
    seq(NUM_LEVELS, _ => [])
  }

  lemma DeletedAtNone(l: nat)
    ensures DeletedAt({}, l) == {}
  {
  }
}
