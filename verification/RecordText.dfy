// The records of write batches and of manifests as texts: for any bytes, readable or not,
// what reading them yields (leveldb/db/write_batch.cc, leveldb/db/version_edit.cc).
module RecordTexts {
  import opened Powers
  import opened Wrappers
  import opened Codings
  import opened Texts
  import opened EditCodecs
  import Versions
  import WriteBatches

  // ----- Write batches -----

  predicate IsUpdateIn(s: Bytes, p: nat, e: nat, op: WriteBatches.Op) {
    && p < e <= |s|
    && match op
       case Put(key, value) =>
         s[p] == WriteBatches.K_TYPE_VALUE && exists i :: p < i <= e && IsSliceIn(s, p + 1, i, key) && IsSliceIn(s, i, e, value)
       case Delete(key) => s[p] == WriteBatches.K_TYPE_DELETION && IsSliceIn(s, p + 1, e, key)
  }

  function WhyBad(s: Bytes, p: nat): WriteBatches.Error
    requires p < |s|
  {
    if s[p] == WriteBatches.K_TYPE_VALUE then WriteBatches.BadPut
    else if s[p] == WriteBatches.K_TYPE_DELETION then WriteBatches.BadDelete
    else WriteBatches.UnknownTag
  }

  // An update is read exactly where there is one; if there is none the tag says why.
  lemma UpdateAt(s: Bytes, p: nat)
    requires p < |s|
    ensures match WriteBatches.ParseOne(s[p..])
            case One(op, rest) => p < |s| - |rest| <= |s| && rest == s[|s| - |rest|..] && IsUpdateIn(s, p, |s| - |rest|, op)
            case Bad(error) => error == WhyBad(s, p)
    ensures forall e: nat, op :: IsUpdateIn(s, p, e, op) ==>
      WriteBatches.ParseOne(s[p..]) == WriteBatches.One(op, s[e..])
  {
    hide IsSliceIn, GetSlice;
    assert s[p..][1..] == s[p + 1..];
    SliceAt(s, p + 1);
    var d := GetSlice(s[p + 1..]);
    if d.Some? {
      SliceAt(s, EndOf(s, d));
    }
  }

  // Update after update.
  ghost predicate AreUpdatesIn(s: Bytes, cuts: seq<nat>, ops: seq<WriteBatches.Op>) {
    |cuts| == |ops| + 1 && forall i :: 0 <= i < |ops| ==> IsUpdateIn(s, cuts[i], cuts[i + 1], ops[i])
  }

  // Reading yields the updates that stand there one after another, and goes on until the
  // end or until there is no update.
  lemma {:induction false} ParseStops(s: Bytes, p: nat) returns (cuts: seq<nat>)
    requires p <= |s|
    ensures var r := WriteBatches.Parse(s[p..]);
      && AreUpdatesIn(s, cuts, r.ops) && cuts[0] == p
      && var end := cuts[|r.ops|];
         if r.error.None? then end == |s|
         else end < |s| && r.error == Some(WhyBad(s, end)) && forall e: nat, op :: !IsUpdateIn(s, end, e, op)
    decreases |s| - p
  {
    hide IsUpdateIn, WriteBatches.ParseOne;
    if p == |s| {
      cuts := [p];
    } else {
      UpdateAt(s, p);
      match WriteBatches.ParseOne(s[p..])
      case Bad(_) => cuts := [p];
      case One(_, rest) =>
        var more := ParseStops(s, |s| - |rest|);
        cuts := [p] + more;
    }
  }

  // ----- Manifest records -----

  ghost predicate IsLevelIn(s: Bytes, p: nat, e: nat, level: nat) {
    level < Versions.NUM_LEVELS && IsWord32In(s, p, e, level)
  }

  ghost predicate IsBodyIn(s: Bytes, p: nat, e: nat, item: Item) {
    match item
    case Comparator(name) => IsSliceIn(s, p, e, name)
    case LogNumber(n) => IsWord64In(s, p, e, n)
    case PrevLogNumber(n) => IsWord64In(s, p, e, n)
    case NextFileNumber(n) => IsWord64In(s, p, e, n)
    case LastSequence(n) => IsWord64In(s, p, e, n)
    case CompactPointer(level, key) => exists i :: p <= i <= e && IsLevelIn(s, p, i, level) && IsSliceIn(s, i, e, key)
    case DeletedFile(level, n) => exists i :: p <= i <= e && IsLevelIn(s, p, i, level) && IsWord64In(s, i, e, n)
    case NewFile(level, f) => exists i :: p <= i <= e && IsLevelIn(s, p, i, level) && IsFileIn(s, i, e, f)
  }

  ghost predicate IsFileIn(s: Bytes, p: nat, e: nat, f: FileRecord) {
    exists i, j, k :: p <= i <= j <= k <= e && IsWord64In(s, p, i, f.number) && IsWord64In(s, i, j, f.size)
      && IsSliceIn(s, j, k, f.smallest) && IsSliceIn(s, k, e, f.largest)
  }

  ghost predicate IsItemIn(s: Bytes, p: nat, e: nat, item: Item) {
    exists i :: p <= i <= e && IsWord32In(s, p, i, TagOf(item)) && IsBodyIn(s, i, e, item)
  }

  lemma LevelAt(s: Bytes, p: nat)
    requires p <= |s|
    ensures var d := GetLevel(s[p..]);
      && (d.Some? ==> p < EndOf(s, d) <= |s| && d.value.rest == s[EndOf(s, d)..] && IsLevelIn(s, p, EndOf(s, d), d.value.value))
      && forall e: nat, v: nat :: IsLevelIn(s, p, e, v) ==> d.Some? && e == EndOf(s, d) && v == d.value.value
  {
    hide GetVarint32, IsWord32In;
    WordAt(s, p);
  }

  // The body of a field is read exactly where there is one for its tag.
  lemma BodyAt(tag: nat, s: Bytes, p: nat)
    requires p <= |s|
    ensures var d := DecodeBody(tag, s[p..]);
      && (d.Some? ==> p < EndOf(s, d) <= |s| && d.value.rest == s[EndOf(s, d)..]
                      && TagOf(d.value.value) == tag && IsBodyIn(s, p, EndOf(s, d), d.value.value))
      && forall e: nat, item: Item :: TagOf(item) == tag && IsBodyIn(s, p, e, item) ==> d.Some? && e == EndOf(s, d) && item == d.value.value
  {
    hide GetVarint64, GetSlice, IsBodyIn, DecodePointer, DecodeDeleted, DecodeNewFile;
    if tag == K_COMPACT_POINTER {
      PointerAt(s, p);
    } else if tag == K_DELETED_FILE {
      DeletedAt(s, p);
    } else if tag == K_NEW_FILE {
      NewFileAt(s, p);
    } else {
      SimpleAt(tag, s, p);
    }
  }

  // A name or a number.
  lemma SimpleAt(tag: nat, s: Bytes, p: nat)
    requires p <= |s| && tag != K_COMPACT_POINTER && tag != K_DELETED_FILE && tag != K_NEW_FILE
    ensures var d := DecodeBody(tag, s[p..]);
      && (d.Some? ==> p < EndOf(s, d) <= |s| && d.value.rest == s[EndOf(s, d)..]
                      && TagOf(d.value.value) == tag && IsBodyIn(s, p, EndOf(s, d), d.value.value))
      && forall e: nat, item: Item :: TagOf(item) == tag && IsBodyIn(s, p, e, item) ==> d.Some? && e == EndOf(s, d) && item == d.value.value
  {
    hide GetVarint64, GetSlice, IsWord64In, IsSliceIn, IsLevelIn, IsFileIn;
    WordAt(s, p);
    SliceAt(s, p);
  }

  lemma PointerAt(s: Bytes, p: nat)
    requires p <= |s|
    ensures var d := DecodePointer(s[p..]);
      && (d.Some? ==> p < EndOf(s, d) <= |s| && d.value.rest == s[EndOf(s, d)..] && d.value.value.CompactPointer?
                      && IsBodyIn(s, p, EndOf(s, d), d.value.value))
      && forall e: nat, item: Item :: item.CompactPointer? && IsBodyIn(s, p, e, item) ==> d.Some? && e == EndOf(s, d) && item == d.value.value
  {
    hide GetSlice, GetLevel, IsSliceIn, IsLevelIn;
    LevelAt(s, p);
    var level := GetLevel(s[p..]);
    if level.Some? {
      SliceAt(s, EndOf(s, level));
    }
  }

  lemma DeletedAt(s: Bytes, p: nat)
    requires p <= |s|
    ensures var d := DecodeDeleted(s[p..]);
      && (d.Some? ==> p < EndOf(s, d) <= |s| && d.value.rest == s[EndOf(s, d)..] && d.value.value.DeletedFile?
                      && IsBodyIn(s, p, EndOf(s, d), d.value.value))
      && forall e: nat, item: Item :: item.DeletedFile? && IsBodyIn(s, p, e, item) ==> d.Some? && e == EndOf(s, d) && item == d.value.value
  {
    hide GetVarint64, GetLevel, IsWord64In, IsLevelIn;
    LevelAt(s, p);
    var level := GetLevel(s[p..]);
    if level.Some? {
      WordAt(s, EndOf(s, level));
    }
  }

  lemma NewFileAt(s: Bytes, p: nat)
    requires p <= |s|
    ensures var d := DecodeNewFile(s[p..]);
      && (d.Some? ==> p < EndOf(s, d) <= |s| && d.value.rest == s[EndOf(s, d)..] && d.value.value.NewFile?
                      && IsBodyIn(s, p, EndOf(s, d), d.value.value))
      && forall e: nat, item: Item :: item.NewFile? && IsBodyIn(s, p, e, item) ==> d.Some? && e == EndOf(s, d) && item == d.value.value
  {
    hide GetVarint64, GetSlice, GetLevel, IsWord64In, IsSliceIn, IsLevelIn;
    LevelAt(s, p);
    var level := GetLevel(s[p..]);
    if level.Some? {
      var i := EndOf(s, level);
      WordAt(s, i);
      var number := GetVarint64(s[i..]);
      if number.Some? {
        var j := EndOf(s, number);
        WordAt(s, j);
        var size := GetVarint64(s[j..]);
        if size.Some? {
          var k := EndOf(s, size);
          SliceAt(s, k);
          var smallest := GetSlice(s[k..]);
          if smallest.Some? {
            SliceAt(s, EndOf(s, smallest));
          }
        }
      }
    }
  }

  // Field after field, to the end.
  ghost predicate AreItemsIn(s: Bytes, p: nat, cuts: seq<nat>, items: seq<Item>) {
    && |cuts| == |items| + 1 && cuts[0] == p && cuts[|items|] == |s|
    && forall i :: 0 <= i < |items| ==> IsItemIn(s, cuts[i], cuts[i + 1], items[i])
  }

  // A field is read exactly where there is one.
  lemma ItemAt(s: Bytes, p: nat)
    requires p <= |s|
    ensures var tag := GetVarint32(s[p..]);
      if tag.None? then forall e: nat, item: Item :: !IsItemIn(s, p, e, item)
      else
        var d := DecodeBody(tag.value.value, tag.value.rest);
        && (d.Some? ==> p < EndOf(s, d) <= |s| && d.value.rest == s[EndOf(s, d)..] && IsItemIn(s, p, EndOf(s, d), d.value.value))
        && forall e: nat, item: Item :: IsItemIn(s, p, e, item) ==> d.Some? && e == EndOf(s, d) && item == d.value.value
  {
    hide GetVarint32, GetVarint64, IsWord32In, IsWord64In, IsBodyIn, DecodeBody, TagOf;
    WordAt(s, p);
    var tag := GetVarint32(s[p..]);
    if tag.Some? {
      BodyAt(tag.value.value, s, EndOf(s, tag));
    }
  }

  lemma FieldsStep(e: Fields, s: Bytes)
    ensures var tag := GetVarint32(s);
      DecodeFields(e, s) ==
        if tag.None? then if s == [] then Some(e) else None
        else
          var d := DecodeBody(tag.value.value, tag.value.rest);
          if d.None? then None
          else DecodeFields(PutItem(e, d.value.value), d.value.rest)
  {
    hide GetVarint32, DecodeBody, PutItem;
  }

  // A record that decodes is one field after another, and the edit has them all.
  lemma {:induction false} DecodesOnlyFields(e: Fields, s: Bytes, p: nat) returns (cuts: seq<nat>, items: seq<Item>)
    requires p <= |s| && DecodeFields(e, s[p..]).Some?
    ensures AreItemsIn(s, p, cuts, items) && DecodeFields(e, s[p..]) == Some(PutAll(e, items))
    decreases |s| - p
  {
    hide GetVarint32, DecodeBody, PutItem, IsItemIn, DecodeFields;
    FieldsStep(e, s[p..]);
    ItemAt(s, p);
    var tag := GetVarint32(s[p..]);
    if tag.None? {
      cuts, items := [p], [];
    } else {
      var d := DecodeBody(tag.value.value, tag.value.rest);
      var more, rest := DecodesOnlyFields(PutItem(e, d.value.value), s, EndOf(s, d));
      cuts, items := [p] + more, [d.value.value] + rest;
    }
  }

  lemma ItemsTail(s: Bytes, p: nat, cuts: seq<nat>, items: seq<Item>)
    requires AreItemsIn(s, p, cuts, items) && items != []
    ensures AreItemsIn(s, cuts[1], cuts[1..], items[1..])
  {
    hide IsItemIn;
    var more, rest := cuts[1..], items[1..];
    forall i | 0 <= i < |rest| ensures IsItemIn(s, more[i], more[i + 1], rest[i]) {
      assert IsItemIn(s, cuts[i + 1], cuts[i + 2], items[i + 1]);
    }
  }

  // And one field after another decodes.
  lemma {:induction false} DecodesAllFields(e: Fields, s: Bytes, p: nat, cuts: seq<nat>, items: seq<Item>)
    requires p <= |s| && AreItemsIn(s, p, cuts, items)
    ensures DecodeFields(e, s[p..]) == Some(PutAll(e, items))
    decreases |items|
  {
    hide GetVarint32, DecodeBody, PutItem, DecodeFields;
    FieldsStep(e, s[p..]);
    ItemAt(s, p);
    if items == [] {
      assert s[p..] == [];
      NoTag();
    } else {
      assert IsItemIn(s, cuts[0], cuts[1], items[0]);
      ItemsTail(s, p, cuts, items);
      hide IsItemIn, AreItemsIn;
      DecodesAllFields(PutItem(e, items[0]), s, cuts[1], cuts[1..], items[1..]);
    }
  }

  // So DecodeFields succeeds exactly on sequences of fields.
  lemma DecodesFields(e: Fields, s: Bytes)
    ensures DecodeFields(e, s).Some? <==> exists cuts, items :: AreItemsIn(s, 0, cuts, items)
    ensures forall cuts, items :: AreItemsIn(s, 0, cuts, items) ==> DecodeFields(e, s) == Some(PutAll(e, items))
  {
    hide DecodeFields, AreItemsIn, PutAll;
    assert s[0..] == s;
    if DecodeFields(e, s).Some? {
      var cuts, items := DecodesOnlyFields(e, s, 0);
    }
    forall cuts, items | AreItemsIn(s, 0, cuts, items) ensures DecodeFields(e, s) == Some(PutAll(e, items)) {
      DecodesAllFields(e, s, 0, cuts, items);
    }
  }
}
