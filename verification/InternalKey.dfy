// Internal keys and the meaning of a collection of entries.
//
// User keys are modelled by their rank in the user comparator's total order: a
// run of the store meets finitely many user keys, and every finite total order
// is a suborder of the integers, so nothing below depends on which comparator
// the rank came from.
module InternalKeys {

  import opened Wrappers

  type UserKey = int
  type Value = string

  // The numbering of the two constructors is part of the on-disk format.
  datatype ValueType = Deletion | Put

  datatype Key = Key(user: UserKey, sn: nat, kind: ValueType)

  datatype Entry = Entry(key: Key, value: Value)

  const MAX_SEQUENCE: nat := 0xFF_FFFF_FFFF_FFFF

  function TypeCode(t: ValueType): (c: nat)
  {
    match t
    case Deletion => 0
    case Put => 1
  }

  // The eight-byte trailer of an internal key, as an unsigned number.
  function PackSequenceAndType(sn: nat, t: ValueType): nat {
    sn * 256 + TypeCode(t)
  }

  // InternalKeyComparator::Compare: user keys ascending, packed trailers descending.
  function Compare(a: Key, b: Key): int {
    if a.user < b.user then -1
    else if a.user > b.user then 1
    else
      var anum := PackSequenceAndType(a.sn, a.kind);
      var bnum := PackSequenceAndType(b.sn, b.kind);
      if anum > bnum then -1 else if anum < bnum then 1 else 0
  }

  // The order the rest of the model reasons with.
  predicate Less(a: Key, b: Key) {
    || a.user < b.user
    || (a.user == b.user && (a.sn > b.sn || (a.sn == b.sn && a.kind == Put && b.kind == Deletion)))
  }

  lemma CompareIsLess(a: Key, b: Key)
    ensures Compare(a, b) < 0 <==> Less(a, b)
    ensures Compare(a, b) == 0 <==> a == b
    ensures Compare(a, b) > 0 <==> Less(b, a)
  {
    if a.user == b.user && a.sn != b.sn {
      assert PackSequenceAndType(a.sn, a.kind) < PackSequenceAndType(b.sn, b.kind) <==> a.sn < b.sn;
    }
  }

  // The key LookupKey builds: it sorts before every entry of user with sequence <= s.
  function LookupKey(user: UserKey, s: nat): Key {
    Key(user, s, Put)
  }

  predicate Sorted(es: seq<Entry>) {
    forall i, j :: 0 <= i < j < |es| ==> Less(es[i].key, es[j].key)
  }

  // Position of the first entry at or after target: what a memtable's or a
  // table's Seek lands on.
  ghost predicate IsLowerBound(es: seq<Entry>, target: Key, p: nat) {
    && p <= |es|
    && (forall i :: 0 <= i < p ==> Less(es[i].key, target))
    && (forall i :: p <= i < |es| ==> !Less(es[i].key, target))
  }

  ghost function Elems(es: seq<Entry>): iset<Entry> {
    iset e | e in es
  }

  // ----- What a collection of entries says about a key at a snapshot -----

  ghost predicate Visible(all: iset<Entry>, user: UserKey, s: nat, e: Entry) {
    e in all && e.key.user == user && e.key.sn <= s
  }

  ghost predicate IsNewest(all: iset<Entry>, user: UserKey, s: nat, e: Entry) {
    && Visible(all, user, s, e)
    && (forall f :: Visible(all, user, s, f) ==> f.key.sn <= e.key.sn)
  }

  // No two different entries share a sequence number.
  ghost predicate Unique(all: iset<Entry>) {
    forall e, f :: e in all && f in all && e.key.sn == f.key.sn ==> e == f
  }

  function Meaning(o: Option<Entry>): Option<Value> {
    match o
    case None => None
    case Some(e) => if e.key.kind == Put then Some(e.value) else None
  }

  // r is what a reader at snapshot s must be told about user.
  ghost predicate Reads(all: iset<Entry>, user: UserKey, s: nat, r: Option<Value>) {
    || ((forall e :: !Visible(all, user, s, e)) && r == None)
    || (exists e :: IsNewest(all, user, s, e) && r == Meaning(Some(e)))
  }

  lemma ReadsIsAFunction(all: iset<Entry>, user: UserKey, s: nat, r: Option<Value>, t: Option<Value>)
    requires Unique(all)
    requires Reads(all, user, s, r) && Reads(all, user, s, t)
    ensures r == t
  {
    if e, f :| IsNewest(all, user, s, e) && r == Meaning(Some(e)) && IsNewest(all, user, s, f) && t == Meaning(Some(f)) {
      assert e.key.sn == f.key.sn;
    }
  }

  // Reads depends only on the entries at or above some newest surviving one.
  lemma ReadsTransfer(all: iset<Entry>, all': iset<Entry>, user: UserKey, s: nat, r: Option<Value>)
    requires Reads(all, user, s, r)
    requires forall e :: IsNewest(all, user, s, e) ==> IsNewest(all', user, s, e)
    requires (forall e :: !Visible(all, user, s, e)) ==> (forall e :: !Visible(all', user, s, e))
    ensures Reads(all', user, s, r)
  {
  }

  // Looking up (user, s) in one sorted run of entries.
  function Hit(es: seq<Entry>, user: UserKey, p: nat): Option<Entry>
    requires p <= |es|
  {
    if p < |es| && es[p].key.user == user then Some(es[p]) else None
  }

  lemma HitIsNewest(es: seq<Entry>, user: UserKey, s: nat, p: nat)
    requires Sorted(es) && IsLowerBound(es, LookupKey(user, s), p)
    ensures Hit(es, user, p).Some? ==> IsNewest(Elems(es), user, s, Hit(es, user, p).value)
    ensures Hit(es, user, p).None? ==> forall e :: !Visible(Elems(es), user, s, e)
  {
    forall e | Visible(Elems(es), user, s, e)
      ensures Hit(es, user, p).Some? && e.key.sn <= Hit(es, user, p).value.key.sn
    {
      var i :| 0 <= i < |es| && es[i] == e;
      assert !Less(es[i].key, LookupKey(user, s));
      assert p <= i;
      assert p == i || Less(es[p].key, es[i].key);
    }
  }

  // ----- Looking through layers, newest first -----

  ghost predicate Finds(all: iset<Entry>, user: UserKey, s: nat, hit: Option<Entry>) {
    && (hit.Some? ==> IsNewest(all, user, s, hit.value))
    && (hit.None? ==> forall e :: !Visible(all, user, s, e))
  }

  ghost predicate Newer(a: iset<Entry>, b: iset<Entry>) {
    forall d, e :: d in a && e in b && d.key.user == e.key.user ==> d.key.sn > e.key.sn
  }

  ghost predicate InSomeLayer(layers: seq<iset<Entry>>, e: Entry) {
    exists i :: 0 <= i < |layers| && e in layers[i]
  }

  ghost function Union(layers: seq<iset<Entry>>): iset<Entry> {
    iset e | InSomeLayer(layers, e)
  }

  function FirstSome(hits: seq<Option<Entry>>): Option<Entry> {
    if hits == [] then None else if hits[0].Some? then hits[0] else FirstSome(hits[1..])
  }

  lemma {:induction false} FirstSomeIndex(hits: seq<Option<Entry>>)
    ensures FirstSome(hits).None? ==> forall i :: 0 <= i < |hits| ==> hits[i].None?
    ensures FirstSome(hits).Some? ==>
              exists i :: 0 <= i < |hits| && hits[i] == FirstSome(hits) && forall j :: 0 <= j < i ==> hits[j].None?
  {
    if hits != [] && hits[0].None? {
      FirstSomeIndex(hits[1..]);
      assert forall i :: 1 <= i < |hits| ==> hits[i] == hits[1..][i - 1];
      if FirstSome(hits).Some? {
        var i :| 0 <= i < |hits[1..]| && hits[1..][i] == FirstSome(hits) && forall j :: 0 <= j < i ==> hits[1..][j].None?;
        assert hits[i + 1] == FirstSome(hits);
      }
    }
  }

  // When every layer is newer than the layers after it, the first hit is the
  // newest visible entry of them all.
  lemma FirstSomeFinds(layers: seq<iset<Entry>>, hits: seq<Option<Entry>>, user: UserKey, s: nat)
    requires |layers| == |hits|
    requires forall i :: 0 <= i < |layers| ==> Finds(layers[i], user, s, hits[i])
    requires forall i, j :: 0 <= i < j < |layers| ==> Newer(layers[i], layers[j])
    ensures Finds(Union(layers), user, s, FirstSome(hits))
  {
    FirstSomeIndex(hits);
    var all := Union(layers);
    if FirstSome(hits).Some? {
      var i :| 0 <= i < |hits| && hits[i] == FirstSome(hits) && forall j :: 0 <= j < i ==> hits[j].None?;
      var hit := hits[i].value;
      assert Finds(layers[i], user, s, hits[i]);
      forall f | Visible(all, user, s, f) ensures f.key.sn <= hit.key.sn {
        var j :| 0 <= j < |layers| && f in layers[j];
        assert Visible(layers[j], user, s, f) && Finds(layers[j], user, s, hits[j]);
        assert i < j ==> Newer(layers[i], layers[j]);
      }
    } else {
      forall f ensures !Visible(all, user, s, f) {
        if j :| 0 <= j < |layers| && f in layers[j] {
          assert Finds(layers[j], user, s, hits[j]);
          assert !Visible(layers[j], user, s, f);
        }
      }
    }
  }
}
