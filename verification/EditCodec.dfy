// Version edits as manifest records: VersionEdit::EncodeTo and DecodeFrom
// (leveldb/db/version_edit.cc). Internal keys are bytes here.
module EditCodecs {
  import opened Powers
  import opened Codings
  import opened Wrappers
  import opened InternalKeys
  import Versions

  const K_COMPARATOR := 1
  const K_LOG_NUMBER := 2
  const K_NEXT_FILE_NUMBER := 3
  const K_LAST_SEQUENCE := 4
  const K_COMPACT_POINTER := 5
  const K_DELETED_FILE := 6
  const K_NEW_FILE := 7
  const K_PREV_LOG_NUMBER := 9

  datatype FileRecord = FileRecord(number: nat, size: nat, smallest: Bytes, largest: Bytes)

  // One tagged field of a record.
  datatype Item =
    | Comparator(name: Bytes)
    | LogNumber(number: nat)
    | PrevLogNumber(number: nat)
    | NextFileNumber(number: nat)
    | LastSequence(number: nat)
    | CompactPointer(level: nat, key: Bytes)
    | DeletedFile(level: nat, number: nat)
    | NewFile(level: nat, file: FileRecord)

  // The fields of a VersionEdit; None is a has_ flag that is off. The deletions are in
  // the order std::set iterates.
  datatype Fields = Fields(
    comparator: Option<Bytes>,
    logNumber: Option<nat>,
    prevLogNumber: Option<nat>,
    nextFileNumber: Option<nat>,
    lastSequence: Option<nat>,
    compactPointers: seq<(nat, Bytes)>,
    deletedFiles: seq<(nat, nat)>,
    newFiles: seq<(nat, FileRecord)>
  )

  // VersionEdit::Clear, which leaves the compaction pointers alone.
  function Cleared(e: Fields): Fields {
    Fields(None, None, None, None, None, e.compactPointers, [], [])
  }

  predicate PairLess(a: (nat, nat), b: (nat, nat)) {
    a.0 < b.0 || (a.0 == b.0 && a.1 < b.1)
  }

  // std::set::insert.
  function InsertPair(s: seq<(nat, nat)>, p: (nat, nat)): seq<(nat, nat)> {
    if s == [] then [p]
    else if s[0] == p then s
    else if PairLess(p, s[0]) then [p] + s
    else [s[0]] + InsertPair(s[1..], p)
  }

  // What decoding a field does to the edit.
  function PutItem(e: Fields, i: Item): Fields {
    match i
    case Comparator(name) => e.(comparator := Some(name))
    case LogNumber(n) => e.(logNumber := Some(n))
    case PrevLogNumber(n) => e.(prevLogNumber := Some(n))
    case NextFileNumber(n) => e.(nextFileNumber := Some(n))
    case LastSequence(n) => e.(lastSequence := Some(n))
    case CompactPointer(level, key) => e.(compactPointers := e.compactPointers + [(level, key)])
    case DeletedFile(level, n) => e.(deletedFiles := InsertPair(e.deletedFiles, (level, n)))
    case NewFile(level, f) => e.(newFiles := e.newFiles + [(level, f)])
  }

  function PutAll(e: Fields, items: seq<Item>): Fields
    decreases |items|
  {
    if items == [] then e else PutAll(PutItem(e, items[0]), items[1..])
  }

  // ----- One field -----

  function TagOf(i: Item): nat {
    match i
    case Comparator(_) => K_COMPARATOR
    case LogNumber(_) => K_LOG_NUMBER
    case PrevLogNumber(_) => K_PREV_LOG_NUMBER
    case NextFileNumber(_) => K_NEXT_FILE_NUMBER
    case LastSequence(_) => K_LAST_SEQUENCE
    case CompactPointer(_, _) => K_COMPACT_POINTER
    case DeletedFile(_, _) => K_DELETED_FILE
    case NewFile(_, _) => K_NEW_FILE
  }

  function EncodeBody(i: Item): Bytes {
    match i
    case Comparator(name) => EncodeSlice(name)
    case LogNumber(n) => EncodeVarint(n)
    case PrevLogNumber(n) => EncodeVarint(n)
    case NextFileNumber(n) => EncodeVarint(n)
    case LastSequence(n) => EncodeVarint(n)
    case CompactPointer(level, key) => EncodeVarint(level) + EncodeSlice(key)
    case DeletedFile(level, n) => EncodeVarint(level) + EncodeVarint(n)
    case NewFile(level, f) =>
      EncodeVarint(level) + (EncodeVarint(f.number) + (EncodeVarint(f.size) + (EncodeSlice(f.smallest) + EncodeSlice(f.largest))))
  }

  function EncodeItem(i: Item): Bytes {
    EncodeVarint(TagOf(i)) + EncodeBody(i)
  }

  // GetLevel.
  function GetLevel(s: Bytes): Option<Decoded<nat>> {
    match GetVarint32(s)
    case None => None
    case Some(d) => if d.value < Versions.NUM_LEVELS then Some(d) else None
  }

  // What follows a tag; None is one of the parse errors.
  function DecodeBody(tag: nat, s: Bytes): Option<Decoded<Item>> {
    if tag == K_COMPARATOR then
      match GetSlice(s) case None => None case Some(d) => Some(Decoded(Comparator(d.value), d.rest))
    else if tag == K_LOG_NUMBER then
      match GetVarint64(s) case None => None case Some(d) => Some(Decoded(LogNumber(d.value), d.rest))
    else if tag == K_PREV_LOG_NUMBER then
      match GetVarint64(s) case None => None case Some(d) => Some(Decoded(PrevLogNumber(d.value), d.rest))
    else if tag == K_NEXT_FILE_NUMBER then
      match GetVarint64(s) case None => None case Some(d) => Some(Decoded(NextFileNumber(d.value), d.rest))
    else if tag == K_LAST_SEQUENCE then
      match GetVarint64(s) case None => None case Some(d) => Some(Decoded(LastSequence(d.value), d.rest))
    else if tag == K_COMPACT_POINTER then DecodePointer(s)
    else if tag == K_DELETED_FILE then DecodeDeleted(s)
    else if tag == K_NEW_FILE then DecodeNewFile(s)
    else None
  }

  function DecodePointer(s: Bytes): Option<Decoded<Item>> {
    match GetLevel(s)
    case None => None
    case Some(level) =>
      match GetSlice(level.rest)
      case None => None
      case Some(key) => Some(Decoded(CompactPointer(level.value, key.value), key.rest))
  }

  function DecodeDeleted(s: Bytes): Option<Decoded<Item>> {
    match GetLevel(s)
    case None => None
    case Some(level) =>
      match GetVarint64(level.rest)
      case None => None
      case Some(n) => Some(Decoded(DeletedFile(level.value, n.value), n.rest))
  }

  function DecodeNewFile(s: Bytes): Option<Decoded<Item>> {
    match GetLevel(s)
    case None => None
    case Some(level) =>
      match GetVarint64(level.rest)
      case None => None
      case Some(number) =>
        match GetVarint64(number.rest)
        case None => None
        case Some(size) =>
          match GetSlice(size.rest)
          case None => None
          case Some(smallest) =>
            match GetSlice(smallest.rest)
            case None => None
            case Some(largest) =>
              Some(Decoded(NewFile(level.value, FileRecord(number.value, size.value, smallest.value, largest.value)), largest.rest))
  }

  // Levels exist, numbers fit 64 bits, slices 32 bits of length.
  predicate Fits(i: Item) {
    match i
    case Comparator(name) => |name| < TWO_32
    case LogNumber(n) => n < TWO_64
    case PrevLogNumber(n) => n < TWO_64
    case NextFileNumber(n) => n < TWO_64
    case LastSequence(n) => n < TWO_64
    case CompactPointer(level, key) => level < Versions.NUM_LEVELS && |key| < TWO_32
    case DeletedFile(level, n) => level < Versions.NUM_LEVELS && n < TWO_64
    case NewFile(level, f) =>
      level < Versions.NUM_LEVELS && f.number < TWO_64 && f.size < TWO_64 && |f.smallest| < TWO_32 && |f.largest| < TWO_32
  }

  lemma LevelRoundTrip(level: nat, rest: Bytes)
    requires level < Versions.NUM_LEVELS
    ensures GetLevel(EncodeVarint(level) + rest) == Some(Decoded(level, rest))
  {
    Varint32RoundTrip(level, rest);
  }

  lemma BodyRoundTrip(i: Item, rest: Bytes)
    requires Fits(i)
    ensures DecodeBody(TagOf(i), EncodeBody(i) + rest) == Some(Decoded(i, rest))
  {
    hide EncodeVarint, EncodeSlice, GetVarint32, GetVarint64, GetSlice, GetLevel, DecodePointer, DecodeDeleted, DecodeNewFile;
    match i
    case Comparator(name) => SliceRoundTrip(name, rest);
    case LogNumber(n) => Varint64RoundTrip(n, rest);
    case PrevLogNumber(n) => Varint64RoundTrip(n, rest);
    case NextFileNumber(n) => Varint64RoundTrip(n, rest);
    case LastSequence(n) => Varint64RoundTrip(n, rest);
    case CompactPointer(level, key) => PointerRoundTrip(level, key, rest);
    case DeletedFile(level, n) => DeletedRoundTrip(level, n, rest);
    case NewFile(level, f) => NewFileRoundTrip(level, f, rest);
  }

  lemma PointerRoundTrip(level: nat, key: Bytes, rest: Bytes)
    requires Fits(CompactPointer(level, key))
    ensures DecodePointer(EncodeBody(CompactPointer(level, key)) + rest) == Some(Decoded(CompactPointer(level, key), rest))
  {
    hide EncodeVarint, EncodeSlice, GetLevel, GetSlice;
    assert EncodeBody(CompactPointer(level, key)) + rest == EncodeVarint(level) + (EncodeSlice(key) + rest);
    LevelRoundTrip(level, EncodeSlice(key) + rest);
    SliceRoundTrip(key, rest);
  }

  lemma DeletedRoundTrip(level: nat, n: nat, rest: Bytes)
    requires Fits(DeletedFile(level, n))
    ensures DecodeDeleted(EncodeBody(DeletedFile(level, n)) + rest) == Some(Decoded(DeletedFile(level, n), rest))
  {
    hide EncodeVarint, GetLevel, GetVarint64;
    assert EncodeBody(DeletedFile(level, n)) + rest == EncodeVarint(level) + (EncodeVarint(n) + rest);
    LevelRoundTrip(level, EncodeVarint(n) + rest);
    Varint64RoundTrip(n, rest);
  }

  lemma NewFileRoundTrip(level: nat, f: FileRecord, rest: Bytes)
    requires Fits(NewFile(level, f))
    ensures DecodeNewFile(EncodeBody(NewFile(level, f)) + rest) == Some(Decoded(NewFile(level, f), rest))
  {
    hide EncodeVarint, EncodeSlice, GetLevel, GetVarint64, GetSlice;
    var s4 := EncodeSlice(f.largest) + rest;
    var s3 := EncodeSlice(f.smallest) + s4;
    var s2 := EncodeVarint(f.size) + s3;
    var s1 := EncodeVarint(f.number) + s2;
    assert EncodeBody(NewFile(level, f)) + rest == EncodeVarint(level) + s1;
    LevelRoundTrip(level, s1);
    Varint64RoundTrip(f.number, s2);
    Varint64RoundTrip(f.size, s3);
    SliceRoundTrip(f.smallest, s4);
    SliceRoundTrip(f.largest, rest);
  }

  // Every field read is shorter than its input.
  lemma BodyShrinks(tag: nat, s: Bytes)
    ensures DecodeBody(tag, s).Some? ==> |DecodeBody(tag, s).value.rest| < |s|
  {
    hide GetVarint32, GetVarint64, GetSlice, DecodePointer, DecodeDeleted, DecodeNewFile;
    NumberShrinks(s);
    SliceShrinks(s);
    PartsShrink(s);
  }

  lemma NumberShrinks(s: Bytes)
    ensures GetVarint64(s).Some? ==> |GetVarint64(s).value.rest| < |s|
    ensures GetLevel(s).Some? ==> |GetLevel(s).value.rest| < |s|
  {
    GetShrinks(s, GROUPS_64);
    GetShrinks(s, GROUPS_32);
  }

  lemma PartsShrink(s: Bytes)
    ensures DecodePointer(s).Some? ==> |DecodePointer(s).value.rest| < |s|
    ensures DecodeDeleted(s).Some? ==> |DecodeDeleted(s).value.rest| < |s|
    ensures DecodeNewFile(s).Some? ==> |DecodeNewFile(s).value.rest| < |s|
  {
    hide GetVarint64, GetSlice, GetLevel;
    NumberShrinks(s);
    if GetLevel(s).Some? {
      var t := GetLevel(s).value.rest;
      SliceShrinks(t);
      NumberShrinks(t);
      if GetVarint64(t).Some? {
        var u := GetVarint64(t).value.rest;
        NumberShrinks(u);
        if GetVarint64(u).Some? {
          var v := GetVarint64(u).value.rest;
          SliceShrinks(v);
          if GetSlice(v).Some? {
            SliceShrinks(GetSlice(v).value.rest);
          }
        }
      }
    }
  }

  // ----- Whole records -----

  function Encoded(items: seq<Item>): Bytes {
    if items == [] then [] else EncodeItem(items[0]) + Encoded(items[1..])
  }

  // Fields until the input is used up; None is corruption.
  function DecodeFields(e: Fields, s: Bytes): Option<Fields>
    decreases |s|
  {
    match GetVarint32(s)
    case None => if s == [] then Some(e) else None
    case Some(tag) =>
      GetShrinks(s, GROUPS_32);
      BodyShrinks(tag.value, tag.rest);
      match DecodeBody(tag.value, tag.rest)
      case None => None
      case Some(d) => DecodeFields(PutItem(e, d.value), d.rest)
  }

  lemma {:induction false} FieldsRoundTrip(e: Fields, items: seq<Item>)
    requires forall i :: 0 <= i < |items| ==> Fits(items[i])
    ensures DecodeFields(e, Encoded(items)) == Some(PutAll(e, items))
    decreases |items|
  {
    hide EncodeVarint, EncodeBody, DecodeBody, GetVarint32, PutItem;
    if items == [] {
      NoTag();
    } else {
      var i, rest := items[0], Encoded(items[1..]);
      assert Encoded(items) == EncodeVarint(TagOf(i)) + (EncodeBody(i) + rest);
      Varint32RoundTrip(TagOf(i), EncodeBody(i) + rest);
      BodyRoundTrip(i, rest);
      Longer(TagOf(i), EncodeBody(i), rest);
      FieldsRoundTrip(PutItem(e, i), items[1..]);
    }
  }

  lemma NoTag()
    ensures GetVarint32([]) == None
  {
  }

  lemma Longer(v: nat, body: Bytes, rest: Bytes)
    ensures |rest| < |EncodeVarint(v) + (body + rest)|
  {
  }

  // ----- Edits -----

  // The fields in the order EncodeTo writes them.
  function ItemsOf(e: Fields): seq<Item> {
    Numbers(e) + Pointers(e.compactPointers) + Deletions(e.deletedFiles) + Additions(e.newFiles)
  }

  function Numbers(e: Fields): seq<Item> {
    (if e.comparator.Some? then [Comparator(e.comparator.value)] else []) +
    (if e.logNumber.Some? then [LogNumber(e.logNumber.value)] else []) +
    (if e.prevLogNumber.Some? then [PrevLogNumber(e.prevLogNumber.value)] else []) +
    (if e.nextFileNumber.Some? then [NextFileNumber(e.nextFileNumber.value)] else []) +
    (if e.lastSequence.Some? then [LastSequence(e.lastSequence.value)] else [])
  }

  function Pointers(ps: seq<(nat, Bytes)>): (r: seq<Item>)
    ensures |r| == |ps|
  {
    seq(|ps|, i requires 0 <= i < |ps| => CompactPointer(ps[i].0, ps[i].1))
  }

  function Deletions(ds: seq<(nat, nat)>): (r: seq<Item>)
    ensures |r| == |ds|
  {
    seq(|ds|, i requires 0 <= i < |ds| => DeletedFile(ds[i].0, ds[i].1))
  }

  function Additions(fs: seq<(nat, FileRecord)>): (r: seq<Item>)
    ensures |r| == |fs|
  {
    seq(|fs|, i requires 0 <= i < |fs| => NewFile(fs[i].0, fs[i].1))
  }

  ghost predicate IsEdit(e: Fields) {
    && (forall i, j :: 0 <= i < j < |e.deletedFiles| ==> PairLess(e.deletedFiles[i], e.deletedFiles[j]))
    && (forall i :: 0 <= i < |ItemsOf(e)| ==> Fits(ItemsOf(e)[i]))
  }

  lemma {:induction false} PutJoin(e: Fields, a: seq<Item>, b: seq<Item>)
    ensures PutAll(e, a + b) == PutAll(PutAll(e, a), b)
    decreases |a|
  {
    hide PutItem;
    if a == [] {
      assert a + b == b;
    } else {
      assert (a + b)[0] == a[0] && (a + b)[1..] == a[1..] + b;
      PutJoin(PutItem(e, a[0]), a[1..], b);
    }
  }

  lemma PutOne(e: Fields, i: Item)
    ensures PutAll(e, [i]) == PutItem(e, i)
  {
    assert PutAll(e, [i]) == PutAll(PutItem(e, i), [i][1..]);
  }

  lemma {:induction false} PutPointers(e: Fields, ps: seq<(nat, Bytes)>)
    ensures PutAll(e, Pointers(ps)) == e.(compactPointers := e.compactPointers + ps)
    decreases |ps|
  {
    if ps == [] {
      assert e.compactPointers + ps == e.compactPointers;
    } else {
      assert Pointers(ps)[1..] == Pointers(ps[1..]);
      PutPointers(PutItem(e, CompactPointer(ps[0].0, ps[0].1)), ps[1..]);
      assert e.compactPointers + [ps[0]] + ps[1..] == e.compactPointers + ps;
    }
  }

  lemma {:induction false} PutAdditions(e: Fields, fs: seq<(nat, FileRecord)>)
    ensures PutAll(e, Additions(fs)) == e.(newFiles := e.newFiles + fs)
    decreases |fs|
  {
    if fs == [] {
      assert e.newFiles + fs == e.newFiles;
    } else {
      assert Additions(fs)[1..] == Additions(fs[1..]);
      PutAdditions(PutItem(e, NewFile(fs[0].0, fs[0].1)), fs[1..]);
      assert e.newFiles + [fs[0]] + fs[1..] == e.newFiles + fs;
    }
  }

  lemma {:induction false} InsertLast(s: seq<(nat, nat)>, p: (nat, nat))
    requires forall i :: 0 <= i < |s| ==> PairLess(s[i], p)
    ensures InsertPair(s, p) == s + [p]
  {
    if s != [] {
      assert PairLess(s[0], p);
      InsertLast(s[1..], p);
      assert s == [s[0]] + s[1..];
    }
  }

  // Deletions read back in order are the set they were read from.
  lemma {:induction false} PutDeletions(e: Fields, ds: seq<(nat, nat)>)
    requires forall i, j :: 0 <= i < j < |e.deletedFiles + ds| ==> PairLess((e.deletedFiles + ds)[i], (e.deletedFiles + ds)[j])
    ensures PutAll(e, Deletions(ds)) == e.(deletedFiles := e.deletedFiles + ds)
    decreases |ds|
  {
    var all, n := e.deletedFiles + ds, |e.deletedFiles|;
    if ds == [] {
      assert all == e.deletedFiles;
    } else {
      forall i | 0 <= i < n ensures PairLess(e.deletedFiles[i], ds[0]) {
        assert PairLess(all[i], all[n]);
      }
      InsertLast(e.deletedFiles, ds[0]);
      assert Deletions(ds)[1..] == Deletions(ds[1..]);
      assert e.deletedFiles + [ds[0]] + ds[1..] == all;
      PutDeletions(PutItem(e, DeletedFile(ds[0].0, ds[0].1)), ds[1..]);
    }
  }

  lemma PutAtMostOne(e: Fields, items: seq<Item>)
    requires |items| <= 1
    ensures PutAll(e, items) == if items == [] then e else PutItem(e, items[0])
  {
    if items != [] {
      assert items == [items[0]];
      PutOne(e, items[0]);
    }
  }

  lemma PutNumbers(x: Fields, e: Fields)
    ensures PutAll(Cleared(x), Numbers(e)) ==
            Fields(e.comparator, e.logNumber, e.prevLogNumber, e.nextFileNumber, e.lastSequence, x.compactPointers, [], [])
  {
    var a := if e.comparator.Some? then [Comparator(e.comparator.value)] else [];
    var b := if e.logNumber.Some? then [LogNumber(e.logNumber.value)] else [];
    var c := if e.prevLogNumber.Some? then [PrevLogNumber(e.prevLogNumber.value)] else [];
    var d := if e.nextFileNumber.Some? then [NextFileNumber(e.nextFileNumber.value)] else [];
    var f := if e.lastSequence.Some? then [LastSequence(e.lastSequence.value)] else [];
    var x0 := Cleared(x);
    var x1 := PutAll(x0, a);
    var x2 := PutAll(x1, b);
    var x3 := PutAll(x2, c);
    var x4 := PutAll(x3, d);
    PutJoin(x0, a, b);
    PutJoin(x0, a + b, c);
    PutJoin(x0, a + b + c, d);
    PutJoin(x0, a + b + c + d, f);
    PutAtMostOne(x0, a);
    PutAtMostOne(x1, b);
    PutAtMostOne(x2, c);
    PutAtMostOne(x3, d);
    PutAtMostOne(x4, f);
    hide PutAll;
  }

  // Decoding starts from a cleared edit, but for its compaction pointers.
  lemma EditRoundTrip(x: Fields, e: Fields)
    requires IsEdit(e)
    ensures DecodeFields(Cleared(x), Encoded(ItemsOf(e))) == Some(e.(compactPointers := x.compactPointers + e.compactPointers))
  {
    hide Encoded, DecodeFields, Fits, Numbers, Pointers, Deletions, Additions;
    var x0 := Cleared(x);
    FieldsRoundTrip(x0, ItemsOf(e));
    var a, b, c, d := Numbers(e), Pointers(e.compactPointers), Deletions(e.deletedFiles), Additions(e.newFiles);
    PutJoin(x0, a, b);
    PutJoin(x0, a + b, c);
    PutJoin(x0, a + b + c, d);
    PutNumbers(x, e);
    var x1 := PutAll(x0, a);
    PutPointers(x1, e.compactPointers);
    var x2 := PutAll(x1, b);
    assert x2.deletedFiles + e.deletedFiles == e.deletedFiles;
    PutDeletions(x2, e.deletedFiles);
    var x3 := PutAll(x2, c);
    PutAdditions(x3, e.newFiles);
    assert x3.newFiles + e.newFiles == e.newFiles;
    hide PutAll;
  }

  // The edit read is the edit written exactly if the one read into has no compaction
  // pointers.
  lemma RoundTripNeedsNoPointers(x: Fields, e: Fields)
    requires IsEdit(e)
    ensures DecodeFields(Cleared(x), Encoded(ItemsOf(e))) == Some(e) <==> x.compactPointers == []
  {
    hide IsEdit, Encoded, DecodeFields, ItemsOf, Cleared;
    EditRoundTrip(x, e);
    if x.compactPointers == [] {
      assert x.compactPointers + e.compactPointers == e.compactPointers;
    } else {
      assert |x.compactPointers + e.compactPointers| > |e.compactPointers|;
    }
  }

  // VersionEdit as it is built, written and read.
  class EncodedEdit {
    var fields: Fields

    constructor ()
      ensures fields == Fields(None, None, None, None, None, [], [], [])
    {
      fields := Fields(None, None, None, None, None, [], [], []);
    }

    method EncodeTo() returns (dst: Bytes)
      ensures dst == Encoded(ItemsOf(fields))
    {
      hide EncodeItem, Encoded;
      dst := EncodeNumbers();
      ghost var items := Numbers(fields);
      var i := 0;
      var ps, ds, fs := fields.compactPointers, fields.deletedFiles, fields.newFiles;
      NothingEncoded();
      while i < |ps|
        invariant i <= |ps| && dst == Encoded(items + Pointers(ps)[..i])
      {
        EncodedNext(items, Pointers(ps), i);
        dst := dst + EncodeItem(CompactPointer(ps[i].0, ps[i].1));
        i := i + 1;
      }
      assert Pointers(ps)[..i] == Pointers(ps);
      items := items + Pointers(ps);
      i := 0;
      assert items + Deletions(ds)[..0] == items;
      while i < |ds|
        invariant i <= |ds| && dst == Encoded(items + Deletions(ds)[..i])
      {
        EncodedNext(items, Deletions(ds), i);
        dst := dst + EncodeItem(DeletedFile(ds[i].0, ds[i].1));
        i := i + 1;
      }
      assert Deletions(ds)[..i] == Deletions(ds);
      items := items + Deletions(ds);
      i := 0;
      assert items + Additions(fs)[..0] == items;
      while i < |fs|
        invariant i <= |fs| && dst == Encoded(items + Additions(fs)[..i])
      {
        EncodedNext(items, Additions(fs), i);
        dst := dst + EncodeItem(NewFile(fs[i].0, fs[i].1));
        i := i + 1;
      }
      assert Additions(fs)[..i] == Additions(fs);
    }

    method EncodeNumbers() returns (dst: Bytes)
      ensures dst == Encoded(Numbers(fields) + Pointers(fields.compactPointers)[..0])
    {
      hide EncodeItem, Encoded;
      dst := [];
      ghost var items := [];
      NothingEncoded();
      if fields.comparator.Some? {
        EncodedSnoc(items, Comparator(fields.comparator.value));
        items := items + [Comparator(fields.comparator.value)];
        dst := dst + EncodeItem(Comparator(fields.comparator.value));
      }
      if fields.logNumber.Some? {
        EncodedSnoc(items, LogNumber(fields.logNumber.value));
        items := items + [LogNumber(fields.logNumber.value)];
        dst := dst + EncodeItem(LogNumber(fields.logNumber.value));
      }
      if fields.prevLogNumber.Some? {
        EncodedSnoc(items, PrevLogNumber(fields.prevLogNumber.value));
        items := items + [PrevLogNumber(fields.prevLogNumber.value)];
        dst := dst + EncodeItem(PrevLogNumber(fields.prevLogNumber.value));
      }
      if fields.nextFileNumber.Some? {
        EncodedSnoc(items, NextFileNumber(fields.nextFileNumber.value));
        items := items + [NextFileNumber(fields.nextFileNumber.value)];
        dst := dst + EncodeItem(NextFileNumber(fields.nextFileNumber.value));
      }
      if fields.lastSequence.Some? {
        EncodedSnoc(items, LastSequence(fields.lastSequence.value));
        items := items + [LastSequence(fields.lastSequence.value)];
        dst := dst + EncodeItem(LastSequence(fields.lastSequence.value));
      }
      assert items == Numbers(fields);
      assert items + Pointers(fields.compactPointers)[..0] == items;
    }

    // ok is the status; on corruption some fields have been set.
    method DecodeFrom(src: Bytes) returns (ok: bool)
      modifies this
      ensures ok <==> DecodeFields(Cleared(old(fields)), src).Some?
      ensures ok ==> DecodeFields(Cleared(old(fields)), src) == Some(fields)
    {
      hide DecodeBody, GetVarint32, PutItem;
      fields := Cleared(fields);
      ghost var first := fields;
      var input := src;
      var tag := GetVarint32(input);
      while tag.Some?
        invariant tag == GetVarint32(input)
        invariant DecodeFields(first, src) == DecodeFields(fields, input)
        decreases |input|
      {
        var item := DecodeBody(tag.value.value, tag.value.rest);
        TagShrinks(input);
        BodyShrinks(tag.value.value, tag.value.rest);
        if item.None? {
          return false;
        }
        fields := PutItem(fields, item.value.value);
        input := item.value.rest;
        tag := GetVarint32(input);
      }
      ok := input == [];
    }
  }

  lemma TagShrinks(s: Bytes)
    ensures GetVarint32(s).Some? ==> |GetVarint32(s).value.rest| < |s|
  {
    GetShrinks(s, GROUPS_32);
  }

  lemma NothingEncoded()
    ensures Encoded([]) == []
  {
  }

  lemma {:induction false} EncodedSnoc(items: seq<Item>, i: Item)
    ensures Encoded(items + [i]) == Encoded(items) + EncodeItem(i)
  {
    hide EncodeItem;
    if items == [] {
      assert items + [i] == [i] && [i][1..] == [];
    } else {
      assert (items + [i])[1..] == items[1..] + [i];
      EncodedSnoc(items[1..], i);
    }
  }

  lemma EncodedNext(items: seq<Item>, more: seq<Item>, i: nat)
    requires i < |more|
    ensures Encoded(items + more[..i + 1]) == Encoded(items + more[..i]) + EncodeItem(more[i])
  {
    hide EncodeItem, Encoded;
    EncodedSnoc(items + more[..i], more[i]);
    assert items + more[..i + 1] == items + more[..i] + [more[i]];
  }
}
