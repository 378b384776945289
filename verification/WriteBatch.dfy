// WriteBatch: a header of sequence number and count, then one record per update
// (leveldb/db/write_batch.cc).
module WriteBatches {
  import opened Powers
  import opened Wrappers
  import opened InternalKeys
  import opened Codings

  const K_HEADER := 12
  const K_TYPE_DELETION: Byte := 0
  const K_TYPE_VALUE: Byte := 1

  datatype Op = Put(key: Bytes, value: Bytes) | Delete(key: Bytes)

  // What MemTable::Add is given.
  datatype MemEntry = MemEntry(sn: nat, op: Op)

  // ----- Records -----

  function Record(op: Op): Bytes {
    match op
    case Put(key, value) => [K_TYPE_VALUE] + (EncodeSlice(key) + EncodeSlice(value))
    case Delete(key) => [K_TYPE_DELETION] + EncodeSlice(key)
  }

  function Records(ops: seq<Op>): Bytes {
    if ops == [] then [] else Record(ops[0]) + Records(ops[1..])
  }

  lemma {:induction false} RecordsJoin(a: seq<Op>, b: seq<Op>)
    ensures Records(a + b) == Records(a) + Records(b)
  {
    if a == [] {
      assert a + b == b;
    } else {
      assert (a + b)[1..] == a[1..] + b;
      RecordsJoin(a[1..], b);
    }
  }

  // Lengths are stored in 32 bits.
  predicate Fits(op: Op) {
    |op.key| < TWO_32 && (op.Put? ==> |op.value| < TWO_32)
  }

  predicate AllFit(ops: seq<Op>) {
    forall i :: 0 <= i < |ops| ==> Fits(ops[i])
  }

  // ----- Reading them back -----

  datatype Error = TooSmall | BadPut | BadDelete | UnknownTag | WrongCount

  datatype OneRecord = One(op: Op, rest: Bytes) | Bad(error: Error)

  function ParseOne(input: Bytes): OneRecord
    requires input != []
  {
    if input[0] == K_TYPE_VALUE then
      match GetSlice(input[1..])
      case None => Bad(BadPut)
      case Some(key) =>
        match GetSlice(key.rest)
        case None => Bad(BadPut)
        case Some(value) => One(Op.Put(key.value, value.value), value.rest)
    else if input[0] == K_TYPE_DELETION then
      match GetSlice(input[1..])
      case None => Bad(BadDelete)
      case Some(key) => One(Op.Delete(key.value), key.rest)
    else Bad(UnknownTag)
  }

  lemma ParseOneShrinks(input: Bytes)
    requires input != []
    ensures ParseOne(input).One? ==> |ParseOne(input).rest| < |input|
  {
    SliceShrinks(input[1..]);
    if GetSlice(input[1..]).Some? {
      SliceShrinks(GetSlice(input[1..]).value.rest);
    }
  }

  // The updates handed to the handler, and the error that stopped the reading.
  datatype Parsed = Parsed(ops: seq<Op>, error: Option<Error>)

  function Parse(input: Bytes): Parsed
    decreases |input|
  {
    if input == [] then Parsed([], None)
    else
      ParseOneShrinks(input);
      match ParseOne(input)
      case Bad(error) => Parsed([], Some(error))
      case One(op, rest) => var p := Parse(rest); Parsed([op] + p.ops, p.error)
  }

  lemma ParseOneRecord(op: Op, rest: Bytes)
    requires Fits(op)
    ensures Record(op) != [] && ParseOne(Record(op) + rest) == One(op, rest)
  {
    if op.Put? {
      ParsePut(op.key, op.value, rest);
    } else {
      ParseDelete(op.key, rest);
    }
  }

  lemma ParsePut(key: Bytes, value: Bytes, rest: Bytes)
    requires |key| < TWO_32 && |value| < TWO_32
    ensures ParseOne(Record(Op.Put(key, value)) + rest) == One(Op.Put(key, value), rest)
  {
    hide EncodeSlice, GetSlice;
    var a, b := EncodeSlice(key), EncodeSlice(value);
    SliceRoundTrip(key, b + rest);
    SliceRoundTrip(value, rest);
    Tail(K_TYPE_VALUE, a + b, rest);
    assert a + b + rest == a + (b + rest);
  }

  lemma ParseDelete(key: Bytes, rest: Bytes)
    requires |key| < TWO_32
    ensures ParseOne(Record(Op.Delete(key)) + rest) == One(Op.Delete(key), rest)
  {
    hide EncodeSlice, GetSlice;
    SliceRoundTrip(key, rest);
    Tail(K_TYPE_DELETION, EncodeSlice(key), rest);
  }

  lemma Tail(tag: Byte, a: Bytes, rest: Bytes)
    ensures ([tag] + a + rest)[0] == tag && ([tag] + a + rest)[1..] == a + rest
  {
  }

  lemma {:induction false} ParseRecords(ops: seq<Op>)
    requires AllFit(ops)
    ensures Parse(Records(ops)) == Parsed(ops, None)
  {
    hide ParseOne, Record;
    if ops != [] {
      ParseOneRecord(ops[0], Records(ops[1..]));
      ParseRecords(ops[1..]);
      assert ops == [ops[0]] + ops[1..];
    }
  }

  // ----- The batch -----

  function Numbered(ops: seq<Op>, sn: nat): (r: seq<MemEntry>)
    ensures |r| == |ops|
  {
    seq(|ops|, i requires 0 <= i < |ops| => MemEntry(sn + i, ops[i]))
  }

  lemma NumberedJoin(a: seq<Op>, b: seq<Op>, sn: nat)
    ensures Numbered(a + b, sn) == Numbered(a, sn) + Numbered(b, sn + |a|)
  {
  }

  function Rep(sn: nat, ops: seq<Op>): Bytes {
    EncodeFixed(sn, 8) + EncodeFixed(|ops| % TWO_32, 4) + Records(ops)
  }

  // ByteSize of a batch that holds the given updates.
  function ByteSize(ops: seq<Op>): nat {
    K_HEADER + |Records(ops)|
  }

  lemma CountsAdd(a: nat, b: nat)
    ensures (a % TWO_32 + b % TWO_32) % TWO_32 == (a + b) % TWO_32
  {
  }

  lemma ExtendedRep(sn: nat, ops: seq<Op>, added: seq<Op>)
    requires |EncodeFixed(sn, 8)| == 8
    ensures var rep := Rep(sn, ops);
      Rep(sn, ops + added) ==
        rep[..8] + EncodeFixed((|ops| % TWO_32 + |added| % TWO_32) % TWO_32, 4) + rep[12..] + Records(added)
    ensures Rep(sn, ops)[..8] == EncodeFixed(sn, 8) == Rep(sn, ops + added)[..8]
  {
    hide EncodeFixed, Records;
    RecordsJoin(ops, added);
    var count := (|ops| % TWO_32 + |added| % TWO_32) % TWO_32;
    assert count == |ops + added| % TWO_32 by { CountsAdd(|ops|, |added|); }
    ThreeParts(EncodeFixed(sn, 8), EncodeFixed(|ops| % TWO_32, 4), Records(ops));
    ThreeParts(EncodeFixed(sn, 8), EncodeFixed(count, 4), Records(ops + added));
  }

  lemma ThreeParts(a: Bytes, b: Bytes, c: Bytes)
    requires |a| == 8 && |b| == 4
    ensures (a + b + c)[..8] == a && (a + b + c)[12..] == c
  {
  }

  class WriteBatch {
    var rep: Bytes
    ghost var ops: seq<Op>

    ghost predicate Valid()
      reads this
    {
      |rep| >= K_HEADER && rep == Rep(Sequence(), ops) && AllFit(ops)
    }

    constructor ()
      ensures Valid() && ops == []
    {
      ops := [];
      rep := seq(K_HEADER, i => 0);
      new;
      assert DecodeFixed(rep[..8]) == 0 by { ZeroSequence(); assert rep[..8] == seq(8, i => 0); }
      assert rep == EncodeFixed(0, 8) + EncodeFixed(0, 4) + [] by { ZeroHeader(); }
    }

    function Sequence(): nat
      requires |rep| >= K_HEADER
      reads this
    {
      DecodeFixed(rep[..8])
    }

    function Count(): nat
      requires |rep| >= K_HEADER
      reads this
    {
      DecodeFixed(rep[8..12])
    }

    // The fields of a batch built by this class hold what was put into them.
    lemma Fields()
      requires Valid()
      ensures Count() == |ops| % TWO_32 && rep[K_HEADER..] == Records(ops) && |rep| == ByteSize(ops)
      ensures Sequence() < TWO_64
    {
      var head, count := EncodeFixed(Sequence(), 8), EncodeFixed(|ops| % TWO_32, 4);
      assert rep == head + count + Records(ops);
      assert rep[8..12] == count && rep[K_HEADER..] == Records(ops);
      FixedWidths();
      FixedRoundTrip(|ops| % TWO_32, 4);
      FixedRoundTripBack(rep[..8]);
    }

    method SetCount(n: nat)
      requires |rep| >= K_HEADER
      modifies `rep
      ensures rep == old(rep)[..8] + EncodeFixed(n % TWO_32, 4) + old(rep)[12..]
    {
      rep := rep[..8] + EncodeFixed(n % TWO_32, 4) + rep[12..];
    }

    method SetSequence(sn: nat)
      requires Valid() && sn < TWO_64
      modifies this
      ensures Valid() && ops == old(ops) && Sequence() == sn
    {
      Fields();
      rep := EncodeFixed(sn, 8) + rep[8..];
      FixedWidths();
      FixedRoundTrip(sn, 8);
      assert rep[..8] == EncodeFixed(sn, 8);
      assert rep == Rep(sn, ops);
    }

    // Counts and records of one more batch of updates follow the present ones.
    method Add(more: nat, records: Bytes, ghost added: seq<Op>)
      requires Valid() && AllFit(added) && more == |added| % TWO_32 && records == Records(added)
      modifies this
      ensures Valid() && ops == old(ops) + added && Sequence() == old(Sequence())
    {
      Fields();
      ExtendedRep(Sequence(), ops, added);
      SetCount(Count() + more);
      rep := rep + records;
      ops := ops + added;
    }

    method Put(key: Bytes, value: Bytes)
      requires Valid() && Fits(Op.Put(key, value))
      modifies this
      ensures Valid() && ops == old(ops) + [Op.Put(key, value)] && Sequence() == old(Sequence())
    {
      Add(1, [K_TYPE_VALUE] + (EncodeSlice(key) + EncodeSlice(value)), [Op.Put(key, value)]);
    }

    method Delete(key: Bytes)
      requires Valid() && Fits(Op.Delete(key))
      modifies this
      ensures Valid() && ops == old(ops) + [Op.Delete(key)] && Sequence() == old(Sequence())
    {
      Add(1, [K_TYPE_DELETION] + EncodeSlice(key), [Op.Delete(key)]);
    }

    method Append(src: WriteBatch)
      requires Valid() && src.Valid()
      modifies this
      ensures Valid() && ops == old(ops) + old(src.ops) && Sequence() == old(Sequence())
    {
      src.Fields();
      Add(src.Count(), src.rep[K_HEADER..], src.ops);
    }

    // Iterate with a MemTableInserter: what reaches the memtable, and the status.
    // Nothing is taken back when the reading fails.
    method InsertInto() returns (entries: seq<MemEntry>, error: Option<Error>)
      ensures |rep| < K_HEADER ==> entries == [] && error == Some(TooSmall)
      ensures |rep| >= K_HEADER ==>
        && entries == Numbered(Parse(rep[K_HEADER..]).ops, Sequence())
        && error == (if Parse(rep[K_HEADER..]).error.Some? then Parse(rep[K_HEADER..]).error
                     else if |entries| != Count() then Some(WrongCount) else None)
    {
      hide ParseOne, DecodeFixed;
      if |rep| < K_HEADER {
        return [], Some(TooSmall);
      }
      var input, found := rep[K_HEADER..], 0;
      ghost var whole := Parse(input);
      ghost var seen: seq<Op> := [];
      entries := [];
      while input != []
        invariant found == |seen| == |entries| && entries == Numbered(seen, Sequence())
        invariant whole.ops == seen + Parse(input).ops && whole.error == Parse(input).error
        decreases |input|
      {
        ParseOneShrinks(input);
        match ParseOne(input) {
          case Bad(e) => return entries, Some(e);
          case One(op, rest) =>
            entries := entries + [MemEntry(Sequence() + found, op)];
            seen := seen + [op];
            found := found + 1;
            input := rest;
        }
      }
      error := if found != Count() then Some(WrongCount) else None;
    }
  }

  lemma ZeroSequence()
    ensures DecodeFixed(seq(8, i => 0)) == 0
  {
    var s: Bytes := seq(8, i => 0);
    ZeroDecodes(s);
  }

  lemma {:induction false} ZeroDecodes(s: Bytes)
    requires forall i :: 0 <= i < |s| ==> s[i] == 0
    ensures DecodeFixed(s) == 0 && EncodeFixed(0, |s|) == s
  {
    if s != [] {
      ZeroDecodes(s[1..]);
    }
  }

  lemma ZeroHeader()
    ensures EncodeFixed(0, 8) + EncodeFixed(0, 4) + [] == seq(K_HEADER, i => 0)
  {
    var a: Bytes, b: Bytes := seq(8, i => 0), seq(4, i => 0);
    ZeroDecodes(a);
    ZeroDecodes(b);
  }

  // A batch built by Put, Delete and Append is read back whole: every update, in
  // order, numbered from the batch's sequence number.
  lemma InsertIntoDeliversAll(sn: nat, ops: seq<Op>)
    requires AllFit(ops)
    ensures |Rep(sn, ops)| >= K_HEADER
    ensures Parse(Rep(sn, ops)[K_HEADER..]) == Parsed(ops, None)
  {
    assert Rep(sn, ops)[K_HEADER..] == Records(ops);
    ParseRecords(ops);
  }
}
