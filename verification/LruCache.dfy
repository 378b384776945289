// A write-back cache: a fixed array of entries linked in order of use, and a map
// from keys to entries (src/LRUCache.hpp).
module LruCaches {

  import opened Sequences
  import opened Wrappers

  // ----- What the cache is: entries from the most to the least recently used -----

  datatype Entry<T> = Entry(key: nat, value: T, dirty: bool)

  function IndexOf<T>(es: seq<Entry<T>>, key: nat): (i: nat)
    ensures i <= |es| && (i < |es| ==> es[i].key == key)
    ensures forall j :: 0 <= j < i ==> es[j].key != key
  {
    if es == [] || es[0].key == key then 0 else 1 + IndexOf(es[1..], key)
  }

  predicate Cached<T>(es: seq<Entry<T>>, key: nat) {
    IndexOf(es, key) < |es|
  }

  function Without<T>(es: seq<Entry<T>>, i: nat): seq<Entry<T>>
    requires i < |es|
  {
    es[..i] + es[i + 1..]
  }

  // A hit becomes the most recent entry.
  function Touched<T>(es: seq<Entry<T>>, key: nat): seq<Entry<T>> {
    if Cached(es, key) then [es[IndexOf(es, key)]] + Without(es, IndexOf(es, key)) else es
  }

  // What put leaves in the cache, and what it hands to the eviction callback.
  function PutEntries<T>(es: seq<Entry<T>>, size: nat, e: Entry<T>): seq<Entry<T>>
    requires size > 0
  {
    if Cached(es, e.key) then [e] + Without(es, IndexOf(es, e.key))
    else if |es| >= size then [e] + es[..|es| - 1]
    else [e] + es
  }

  function Evicted<T>(es: seq<Entry<T>>, size: nat, key: nat): Option<Entry<T>>
    requires size > 0
  {
    if !Cached(es, key) && |es| >= size && es[|es| - 1].dirty then Some(es[|es| - 1]) else None
  }

  function StoreEvicted<T>(store: map<nat, T>, e: Option<Entry<T>>): map<nat, T> {
    if e.Some? then store[e.value.key := e.value.value] else store
  }

  ghost predicate DistinctKeys<T>(es: seq<Entry<T>>) {
    forall i, j :: 0 <= i < j < |es| ==> es[i].key != es[j].key
  }

  // An entry that is not dirty holds what the store holds.
  ghost predicate CleanMatches<T(!new)>(es: seq<Entry<T>>, store: map<nat, T>) {
    forall i :: 0 <= i < |es| && !es[i].dirty ==> es[i].key in store && store[es[i].key] == es[i].value
  }

  // The cached value, else the stored one.
  function Current<T>(es: seq<Entry<T>>, store: map<nat, T>, key: nat): Option<T> {
    if Cached(es, key) then Some(es[IndexOf(es, key)].value)
    else if key in store then Some(store[key]) else None
  }

  lemma {:induction false} FindsEntry<T>(es: seq<Entry<T>>, i: nat)
    requires DistinctKeys(es) && i < |es|
    ensures IndexOf(es, es[i].key) == i
  {
    if IndexOf(es, es[i].key) < i {
      assert false;
    }
  }

  lemma NotCached<T>(es: seq<Entry<T>>, key: nat)
    requires forall i :: 0 <= i < |es| ==> es[i].key != key
    ensures !Cached(es, key)
  {
  }

  // A cache whose entries are those of another, but for one key.
  lemma CurrentTransfers<T>(a: seq<Entry<T>>, b: seq<Entry<T>>, store: map<nat, T>, key: nat)
    requires DistinctKeys(a) && DistinctKeys(b)
    requires forall e: Entry<T> :: e.key == key ==> (e in a <==> e in b)
    ensures Current(a, store, key) == Current(b, store, key)
  {
    if Cached(a, key) {
      var e := a[IndexOf(a, key)];
      assert e in a && e in b;
      var j :| 0 <= j < |b| && b[j] == e;
      FindsEntry(b, j);
    }
  }

  lemma WithoutEntry<T>(es: seq<Entry<T>>, i: nat)
    requires DistinctKeys(es) && i < |es|
    ensures DistinctKeys(Without(es, i)) && forall e :: e in Without(es, i) <==> e in es && e.key != es[i].key
  {
    var r := Without(es, i);
    assert forall j :: 0 <= j < |r| ==> r[j] == es[if j < i then j else j + 1];
    forall e | e in es && e.key != es[i].key ensures e in r {
      var j :| 0 <= j < |es| && es[j] == e;
      assert r[if j < i then j else j - 1] == e;
    }
  }

  // Putting an entry: its key has the new value, and no other key's value is lost,
  // not even that of the entry pushed out.
  lemma PutKeepsOthers<T(!new)>(es: seq<Entry<T>>, store: map<nat, T>, size: nat, e: Entry<T>, key: nat)
    requires size > 0 && DistinctKeys(es) && CleanMatches(es, store)
    ensures var es', store' := PutEntries(es, size, e), StoreEvicted(store, Evicted(es, size, e.key));
      && DistinctKeys(es')
      && Current(es', store', e.key) == Some(e.value)
      && (key != e.key ==> Current(es', store', key) == Current(es, store, key))
  {
    var es', store' := PutEntries(es, size, e), StoreEvicted(store, Evicted(es, size, e.key));
    var i, n := IndexOf(es, e.key), |es| - 1;
    if i < |es| {
      WithoutEntry(es, i);
      DistinctFront(e, Without(es, i));
    } else if |es| >= size {
      WithoutEntry(es, n);
      assert Without(es, n) == es[..n];
      DistinctFront(e, es[..n]);
    } else {
      DistinctFront(e, es);
    }
    FindsEntry(es', 0);
    if key != e.key {
      if i == |es| && |es| >= size && key == es[n].key {
        FindsEntry(es, n);
        NotCached(es', key);
      } else {
        CurrentTransfers(es, es', store, key);
      }
    }
  }

  lemma DistinctFront<T>(e: Entry<T>, es: seq<Entry<T>>)
    requires DistinctKeys(es) && forall d :: d in es ==> d.key != e.key
    ensures DistinctKeys([e] + es)
  {
  }

  lemma PutKeepsClean<T(!new)>(es: seq<Entry<T>>, store: map<nat, T>, size: nat, e: Entry<T>)
    requires size > 0 && DistinctKeys(es) && CleanMatches(es, store) && e.dirty
    ensures CleanMatches(PutEntries(es, size, e), StoreEvicted(store, Evicted(es, size, e.key)))
  {
    var es', store' := PutEntries(es, size, e), StoreEvicted(store, Evicted(es, size, e.key));
    forall j | 0 <= j < |es'| && !es'[j].dirty ensures es'[j].key in store' && store'[es'[j].key] == es'[j].value {
      var i := IndexOf(es, e.key);
      var k := if i < |es| then (if j - 1 < i then j - 1 else j) else j - 1;
      assert es'[j] == es[k];
    }
  }

  lemma TouchedEntries<T>(es: seq<Entry<T>>, touched: nat)
    requires DistinctKeys(es) && Cached(es, touched)
    ensures DistinctKeys(Touched(es, touched)) && |Touched(es, touched)| == |es|
    ensures forall e :: e in Touched(es, touched) <==> e in es
  {
    var i := IndexOf(es, touched);
    WithoutEntry(es, i);
    DistinctFront(es[i], Without(es, i));
    forall e ensures e in Touched(es, touched) <==> e in es {
      if e in es && e.key == touched {
        var j :| 0 <= j < |es| && es[j] == e;
        FindsEntry(es, j);
      }
    }
  }

  lemma SameEntriesClean<T(!new)>(a: seq<Entry<T>>, b: seq<Entry<T>>, store: map<nat, T>)
    requires CleanMatches(a, store) && forall e :: e in b ==> e in a
    ensures CleanMatches(b, store)
  {
    forall j | 0 <= j < |b| && !b[j].dirty ensures b[j].key in store && store[b[j].key] == b[j].value {
      assert b[j] in b;
      var i :| 0 <= i < |a| && a[i] == b[j];
    }
  }

  lemma TouchKeeps<T(!new)>(es: seq<Entry<T>>, store: map<nat, T>, touched: nat, key: nat)
    requires DistinctKeys(es)
    ensures DistinctKeys(Touched(es, touched)) && |Touched(es, touched)| == |es|
    ensures Current(Touched(es, touched), store, key) == Current(es, store, key)
    ensures CleanMatches(es, store) ==> CleanMatches(Touched(es, touched), store)
  {
    if Cached(es, touched) {
      TouchedEntries(es, touched);
      hide Touched, CleanMatches;
      CurrentTransfers(es, Touched(es, touched), store, key);
      if CleanMatches(es, store) {
        SameEntriesClean(es, Touched(es, touched), store);
      }
    }
  }

  // Writing every dirty entry back, the least recently used first.
  function WriteBack<T>(es: seq<Entry<T>>, store: map<nat, T>): map<nat, T> {
    if es == [] then store
    else
      var e := es[|es| - 1];
      WriteBack(es[..|es| - 1], if e.dirty then store[e.key := e.value] else store)
  }

  lemma WriteBackLast<T>(es: seq<Entry<T>>, i: nat, store: map<nat, T>)
    requires 0 < i <= |es|
    ensures var e := es[i - 1];
      WriteBack(es[..i], store) == WriteBack(es[..i - 1], if e.dirty then store[e.key := e.value] else store)
  {
    assert es[..i][..i - 1] == es[..i - 1];
  }

  lemma WriteBackNone<T>(es: seq<Entry<T>>, store: map<nat, T>)
    ensures WriteBack(es[..0], store) == store
  {
  }

  lemma {:induction false} WriteBackAt<T(!new)>(es: seq<Entry<T>>, store: map<nat, T>, key: nat)
    requires DistinctKeys(es) && CleanMatches(es, store)
    ensures var w := WriteBack(es, store);
      if Cached(es, key) then key in w && w[key] == es[IndexOf(es, key)].value
      else (key in w <==> key in store) && (key in w ==> w[key] == store[key])
  {
    if es != [] {
      var n := |es| - 1;
      var e, front := es[n], es[..n];
      var store' := if e.dirty then store[e.key := e.value] else store;
      WriteBackAt(front, store', key);
      if Cached(es, key) {
        var i := IndexOf(es, key);
        if i < n {
          FindsEntry(front, i);
        } else {
          NotCached(front, key);
        }
      } else {
        NotCached(front, key);
      }
    }
  }

  // Then the store alone has every current value.
  lemma WriteBackKeepsCurrent<T(!new)>(es: seq<Entry<T>>, store: map<nat, T>, key: nat)
    requires DistinctKeys(es) && CleanMatches(es, store)
    ensures Current([], WriteBack(es, store), key) == Current(es, store, key)
  {
    WriteBackAt(es, store, key);
    hide WriteBack;
  }

  // ----- The linked list -----

  // Where evicted values go.
  class Callback<T> {
    var store: map<nat, T>

    constructor ()
      ensures store == map[]
    {
      store := map[];
    }

    method Evict(key: nat, value: T)
      modifies this
      ensures store == old(store)[key := value]
    {
      store := store[key := value];
    }
  }

  // Entries are numbered from 0; the numbers size and size + 1 are head and tail.
  ghost function Chain(size: nat, order: seq<nat>): seq<nat> {
    [size] + order + [size + 1]
  }

  ghost predicate Linked(size: nat, prev: seq<nat>, next: seq<nat>, c: seq<nat>) {
    && |prev| == |next| == size + 2 && (forall i :: 0 <= i < |c| ==> c[i] < size + 2)
    && forall i :: 0 <= i < |c| - 1 ==> next[c[i]] == c[i + 1] && prev[c[i + 1]] == c[i]
  }

  // order lists the used entries; from head to tail the links run through them.
  ghost predicate IsList(size: nat, prev: seq<nat>, next: seq<nat>, order: seq<nat>) {
    && NoRepeats(order) && (forall i :: 0 <= i < |order| ==> order[i] < size)
    && Linked(size, prev, next, Chain(size, order))
  }

  ghost predicate IsMapped(keys: seq<nat>, mapping: map<nat, nat>, order: seq<nat>) {
    && (forall n :: n in order ==> n < |keys| && keys[n] in mapping && mapping[keys[n]] == n)
    && forall k :: k in mapping ==> mapping[k] in order && mapping[k] < |keys| && keys[mapping[k]] == k
  }

  ghost predicate IsFree(size: nat, free: seq<nat>, order: seq<nat>) {
    && |order| + |free| == size && NoRepeats(free)
    && forall i :: 0 <= i < |free| ==> free[i] < size && free[i] !in order
  }

  ghost function EntriesOf<T>(keys: seq<nat>, values: seq<T>, dirty: seq<bool>, order: seq<nat>): (es: seq<Entry<T>>)
    requires |keys| == |values| == |dirty| && forall i :: 0 <= i < |order| ==> order[i] < |keys|
    ensures |es| == |order|
  {
    seq(|order|, i requires 0 <= i < |order| => Entry(keys[order[i]], values[order[i]], dirty[order[i]]))
  }

  function Dropped(order: seq<nat>, i: nat): seq<nat>
    requires i < |order|
  {
    order[..i] + order[i + 1..]
  }

  lemma ChainDistinct(size: nat, order: seq<nat>)
    requires NoRepeats(order) && forall i :: 0 <= i < |order| ==> order[i] < size
    ensures NoRepeats(Chain(size, order))
  {
  }

  lemma DetachKeeps(size: nat, prev: seq<nat>, next: seq<nat>, order: seq<nat>, i: nat)
    requires IsList(size, prev, next, order) && i < |order|
    ensures prev[order[i]] < size + 2 && next[order[i]] < size + 2
    ensures var next' := next[prev[order[i]] := next[order[i]]];
      var prev' := prev[next'[order[i]] := prev[order[i]]];
      next'[order[i]] == next[order[i]] && IsList(size, prev', next', Dropped(order, i))
    ensures order[i] !in Dropped(order, i)
  {
    var c := Chain(size, order);
    ChainDistinct(size, order);
    assert c[i + 1] == order[i] && next[c[i + 1]] == c[i + 2] && prev[c[i + 1]] == c[i] && next[c[i]] == c[i + 1];
    var next' := next[c[i] := c[i + 2]];
    var prev' := prev[c[i + 2] := c[i]];
    var d := Chain(size, Dropped(order, i));
    assert |d| == |c| - 1 && forall j :: 0 <= j < |d| ==> d[j] == c[if j <= i then j else j + 1];
    forall j | 0 <= j < |d| - 1 ensures next'[d[j]] == d[j + 1] && prev'[d[j + 1]] == d[j] {
      assert next[c[if j <= i then j else j + 1]] == c[(if j <= i then j else j + 1) + 1];
      assert j < i ==> prev[c[j + 1]] == c[j];
      assert j > i ==> prev[c[j + 2]] == c[j + 1];
    }
    var r := Dropped(order, i);
    assert forall j :: 0 <= j < |r| ==> r[j] == order[if j < i then j else j + 1];
  }

  lemma AttachKeeps(size: nat, prev: seq<nat>, next: seq<nat>, order: seq<nat>, node: nat)
    requires IsList(size, prev, next, order) && node < size && node !in order
    ensures next[size] < size + 2
    ensures var next' := next[node := next[size]][size := node];
      var prev' := prev[node := size][next[size] := node];
      next'[node] == next[size] && IsList(size, prev', next', [node] + order)
  {
    var c := Chain(size, order);
    ChainDistinct(size, order);
    assert next[c[0]] == c[1] && c[0] == size;
    var d := Chain(size, [node] + order);
    assert |d| == |c| + 1 && d[0] == size && d[1] == node && forall j :: 2 <= j < |d| ==> d[j] == c[j - 1];
    var next' := next[node := next[size]][size := node];
    var prev' := prev[node := size][next[size] := node];
    forall j | 0 <= j < |d| - 1 ensures next'[d[j]] == d[j + 1] && prev'[d[j + 1]] == d[j] {
      if j >= 2 {
        assert next[c[j - 1]] == c[j] && prev[c[j]] == c[j - 1];
      }
    }
  }

  lemma EntriesDropped<T>(keys: seq<nat>, values: seq<T>, dirty: seq<bool>, order: seq<nat>, i: nat)
    requires |keys| == |values| == |dirty| && (forall j :: 0 <= j < |order| ==> order[j] < |keys|) && i < |order|
    ensures forall j :: 0 <= j < |order| - 1 ==> Dropped(order, i)[j] < |keys|
    ensures EntriesOf(keys, values, dirty, Dropped(order, i)) == Without(EntriesOf(keys, values, dirty, order), i)
  {
    var r := Dropped(order, i);
    assert forall j :: 0 <= j < |r| ==> r[j] == order[if j < i then j else j + 1];
  }

  // Filling an entry and putting it first.
  lemma EntriesFront<T>(keys: seq<nat>, values: seq<T>, dirty: seq<bool>, order: seq<nat>, node: nat, k: nat, v: T, d: bool)
    requires |keys| == |values| == |dirty| && node < |keys| && node !in order && forall j :: 0 <= j < |order| ==> order[j] < |keys|
    ensures forall j :: 0 <= j < |order| + 1 ==> ([node] + order)[j] < |keys|
    ensures EntriesOf(keys[node := k], values[node := v], dirty[node := d], [node] + order) ==
            [Entry(k, v, d)] + EntriesOf(keys, values, dirty, order)
  {
  }

  // The map finds the entry that the list holds.
  lemma MappingFinds<T>(keys: seq<nat>, values: seq<T>, dirty: seq<bool>, mapping: map<nat, nat>, order: seq<nat>, key: nat)
    requires |keys| == |values| == |dirty| && IsMapped(keys, mapping, order) && NoRepeats(order)
    requires forall j :: 0 <= j < |order| ==> order[j] < |keys|
    ensures var es := EntriesOf(keys, values, dirty, order);
      && DistinctKeys(es) && (Cached(es, key) <==> key in mapping)
      && (key in mapping ==> order[IndexOf(es, key)] == mapping[key])
  {
    var es := EntriesOf(keys, values, dirty, order);
    forall i | 0 <= i < |order| ensures keys[order[i]] in mapping && mapping[keys[order[i]]] == order[i] {
      assert order[i] in order;
    }
    if key in mapping {
      var i :| 0 <= i < |order| && order[i] == mapping[key];
      assert es[i].key == key;
      FindsEntry(es, i);
    }
  }

  lemma DroppedIn(order: seq<nat>, i: nat, n: nat)
    requires NoRepeats(order) && i < |order|
    ensures n in Dropped(order, i) <==> n in order && n != order[i]
  {
    var r := Dropped(order, i);
    assert forall j :: 0 <= j < |r| ==> r[j] == order[if j < i then j else j + 1];
    if n in order && n != order[i] {
      var j :| 0 <= j < |order| && order[j] == n;
      assert r[if j < i then j else j - 1] == n;
    }
  }

  lemma MappedDropped(keys: seq<nat>, mapping: map<nat, nat>, order: seq<nat>, i: nat)
    requires IsMapped(keys, mapping, order) && NoRepeats(order) && i < |order|
    ensures order[i] < |keys| && IsMapped(keys, mapping - {keys[order[i]]}, Dropped(order, i))
  {
    assert order[i] in order;
    hide NoRepeats, Dropped;
    forall n ensures n in Dropped(order, i) <==> n in order && n != order[i] {
      DroppedIn(order, i, n);
    }
  }

  lemma MappedFront(keys: seq<nat>, mapping: map<nat, nat>, order: seq<nat>, node: nat, k: nat)
    requires IsMapped(keys, mapping, order) && node < |keys| && node !in order && k !in mapping
    ensures IsMapped(keys[node := k], mapping[k := node], [node] + order)
  {
    var all := [node] + order;
    assert forall n :: n in all <==> n == node || n in order;
  }

  // A used entry moved to the front stays in use.
  lemma TouchedIn(order: seq<nat>, i: nat, n: nat)
    requires NoRepeats(order) && i < |order|
    ensures n in [order[i]] + Dropped(order, i) <==> n in order
    ensures |[order[i]] + Dropped(order, i)| == |order|
  {
    DroppedIn(order, i, n);
    assert order[i] in order;
  }

  lemma SameUse(keys: seq<nat>, mapping: map<nat, nat>, size: nat, free: seq<nat>, a: seq<nat>, b: seq<nat>)
    requires IsMapped(keys, mapping, a) && IsFree(size, free, a) && |a| == |b| && forall n :: n in a <==> n in b
    ensures IsMapped(keys, mapping, b) && IsFree(size, free, b)
  {
  }

  // An entry in use comes to the front, its value and mark possibly new.
  lemma MovedFront<T>(size: nat, keys: seq<nat>, values: seq<T>, dirty: seq<bool>, mapping: map<nat, nat>, free: seq<nat>,
                      order: seq<nat>, i: nat, v: T, d: bool)
    requires |keys| == |values| == |dirty| == size && NoRepeats(order) && (forall j :: 0 <= j < |order| ==> order[j] < size)
    requires IsMapped(keys, mapping, order) && IsFree(size, free, order) && i < |order|
    ensures var order' := [order[i]] + Dropped(order, i);
      && (forall j :: 0 <= j < |order'| ==> order'[j] < size) && IsMapped(keys, mapping, order') && IsFree(size, free, order')
      && EntriesOf(keys, values[order[i] := v], dirty[order[i] := d], order') ==
           [Entry(keys[order[i]], v, d)] + Without(EntriesOf(keys, values, dirty, order), i)
  {
    var node := order[i];
    EntriesDropped(keys, values, dirty, order, i);
    forall n ensures n in [node] + Dropped(order, i) <==> n in order {
      TouchedIn(order, i, n);
    }
    TouchedIn(order, i, node);
    DroppedIn(order, i, node);
    SameUse(keys, mapping, size, free, order, [node] + Dropped(order, i));
    EntriesFront(keys, values, dirty, Dropped(order, i), node, keys[node], v, d);
    Unchanged(keys, node);
  }

  lemma Unchanged<U>(s: seq<U>, i: nat)
    requires i < |s|
    ensures s[i := s[i]] == s
  {
  }

  lemma ListFacts(size: nat, prev: seq<nat>, next: seq<nat>, order: seq<nat>)
    requires IsList(size, prev, next, order)
    ensures NoRepeats(order) && forall i :: 0 <= i < |order| ==> order[i] < size
  {
  }

  class LRUCache<T> {
    const size: nat
    const callback: Callback<T>
    var keys: seq<nat>
    var values: seq<T>
    var dirty: seq<bool>
    var prev: seq<nat>
    var next: seq<nat>
    var mapping: map<nat, nat>
    var freeEntries: seq<nat>
    // The entries in use, most recent first.
    ghost var order: seq<nat>

    ghost predicate Valid()
      reads this
    {
      && size > 0 && |keys| == |values| == |dirty| == size && IsList(size, prev, next, order)
      && IsMapped(keys, mapping, order) && IsFree(size, freeEntries, order)
    }

    ghost function Entries(): (es: seq<Entry<T>>)
      requires Valid()
      reads this
    {
      EntriesOf(keys, values, dirty, order)
    }

    constructor (size: nat, callback: Callback<T>, blank: T)
      requires size > 0
      ensures Valid() && Entries() == [] && this.size == size && this.callback == callback
    {
      this.size, this.callback := size, callback;
      keys := seq(size, i => 0);
      values := seq(size, i => blank);
      dirty := seq(size, i => false);
      prev := seq(size + 2, i => size);
      next := seq(size + 2, i => size + 1);
      mapping := map[];
      freeEntries := seq(size, i => i);
      order := [];
    }

    // Unlinks an entry, the one at position i of the list.
    method Detach(node: nat, ghost i: nat)
      requires IsList(size, prev, next, order) && i < |order| && order[i] == node
      modifies `prev, `next, `order
      ensures IsList(size, prev, next, order) && order == Dropped(old(order), i) && node !in order
    {
      DetachKeeps(size, prev, next, order, i);
      hide IsList;
      next := next[prev[node] := next[node]];
      prev := prev[next[node] := prev[node]];
      order := Dropped(order, i);
    }

    // Links an entry in behind the head.
    method Attach(node: nat)
      requires IsList(size, prev, next, order) && node < size && node !in order
      modifies `prev, `next, `order
      ensures IsList(size, prev, next, order) && order == [node] + old(order)
    {
      AttachKeeps(size, prev, next, order, node);
      assert |next| == |prev| == size + 2;
      hide IsList;
      next := next[node := next[size]];
      prev := prev[node := size];
      next := next[size := node];
      prev := prev[next[node] := node];
      order := [node] + order;
    }

    method Get(key: nat) returns (r: Option<T>)
      requires Valid()
      modifies `prev, `next, `order
      ensures Valid() && Entries() == Touched(old(Entries()), key)
      ensures r == if Cached(old(Entries()), key) then Some(old(Entries())[IndexOf(old(Entries()), key)].value) else None
    {
      MappingFinds(keys, values, dirty, mapping, order, key);
      if key in mapping {
        var node := mapping[key];
        ghost var i := IndexOf(Entries(), key);
        Refresh(node, i);
        r := Some(values[node]);
      } else {
        r := None;
      }
    }

    // Moves a used entry to the front of the list.
    method Refresh(node: nat, ghost i: nat)
      requires Valid() && i < |order| && order[i] == node
      modifies `prev, `next, `order
      ensures Valid() && order == [node] + Dropped(old(order), i)
      ensures Entries() == [old(Entries())[i]] + Without(old(Entries()), i)
    {
      ListFacts(size, prev, next, order);
      EntryAt(keys, values, dirty, order, i);
      MovedFront(size, keys, values, dirty, mapping, freeEntries, order, i, values[node], dirty[node]);
      Unchanged(values, node);
      Unchanged(dirty, node);
      hide IsList, IsMapped, IsFree, EntriesOf, Dropped, Without;
      Detach(node, i);
      Attach(node);
    }

    // Fills an entry that is not in use and puts it first.
    method Fill(node: nat, key: nat, data: T, asDirty: bool)
      requires |keys| == |values| == |dirty| == size > 0 && IsList(size, prev, next, order) && IsMapped(keys, mapping, order)
      requires node < size && node !in order && key !in mapping && IsFree(size, freeEntries, [node] + order)
      modifies `keys, `values, `dirty, `mapping, `prev, `next, `order
      ensures Valid()
      ensures (forall j :: 0 <= j < |old(order)| ==> old(order)[j] < size) && |old(keys)| == |old(values)| == |old(dirty)| == size
      ensures Entries() == [Entry(key, data, asDirty)] + old(EntriesOf(keys, values, dirty, order))
    {
      ListFacts(size, prev, next, order);
      MappedFront(keys, mapping, order, node, key);
      EntriesFront(keys, values, dirty, order, node, key, data, asDirty);
      hide IsList, IsMapped, IsFree, EntriesOf;
      keys := keys[node := key];
      values := values[node := data];
      dirty := dirty[node := asDirty];
      mapping := mapping[key := node];
      Attach(node);
    }

    // Unlinks and writes back the least recently used entry.
    method EvictLast() returns (node: nat)
      requires Valid() && |freeEntries| == 0
      modifies `prev, `next, `order, `mapping, callback
      ensures IsList(size, prev, next, order) && IsMapped(keys, mapping, order) && IsFree(size, freeEntries, [node] + order)
      ensures node < size && node !in order && forall k :: k in mapping ==> k in old(mapping)
      ensures |old(order)| > 0 && |keys| == |values| == |dirty| == size && forall j :: 0 <= j < |order| ==> order[j] < size
      ensures EntriesOf(keys, values, dirty, order) == old(Entries())[..|old(order)| - 1]
      ensures callback.store ==
              var last := old(Entries())[|old(order)| - 1]; StoreEvicted(old(callback.store), if last.dirty then Some(last) else None)
    {
      ghost var n, es := |order| - 1, Entries();
      LastInList(size, prev, next, order);
      MappedDropped(keys, mapping, order, n);
      EntriesDropped(keys, values, dirty, order, n);
      assert Dropped(order, n) == order[..n] && Without(es, n) == es[..n];
      assert IsFree(size, freeEntries, [order[n]] + order[..n]);
      hide IsList, IsMapped, IsFree;
      node := prev[size + 1];
      Detach(node, n);
      mapping := mapping - {keys[node]};
      if dirty[node] {
        callback.Evict(keys[node], values[node]);
      }
    }

    // A key that is not cached takes a free entry, or else the least recently used one.
    method PutOld(key: nat, data: T, asDirty: bool)
      requires Valid() && key !in mapping && !Cached(Entries(), key)
      modifies this, callback
      ensures Valid() && Entries() == PutEntries(old(Entries()), size, Entry(key, data, asDirty))
      ensures callback.store == StoreEvicted(old(callback.store), Evicted(old(Entries()), size, key))
    {
      var node: nat;
      PutMiss(Entries(), size, Entry(key, data, asDirty));
      hide PutEntries, Evicted, StoreEvicted;
      if |freeEntries| == 0 {
        hide IsList, IsMapped, EntriesOf, Cached, IndexOf;
        node := EvictLast();
      } else {
        node := freeEntries[|freeEntries| - 1];
        TakeFree(size, freeEntries, order);
        hide IsList, IsMapped, IsFree, EntriesOf, Cached, IndexOf;
        freeEntries := freeEntries[..|freeEntries| - 1];
      }
      Fill(node, key, data, asDirty);
    }

    // A hit: the entry moves to the front with a new value.
    method Replace(node: nat, key: nat, data: T, asDirty: bool, ghost i: nat)
      requires Valid() && i < |order| && order[i] == node < size && keys[node] == key
      modifies `prev, `next, `order, `values, `dirty
      ensures Valid() && Entries() == [Entry(key, data, asDirty)] + Without(old(Entries()), i)
    {
      ListFacts(size, prev, next, order);
      MovedFront(size, keys, values, dirty, mapping, freeEntries, order, i, data, asDirty);
      hide IsList, IsMapped, IsFree, EntriesOf, Dropped, Without;
      Detach(node, i);
      values := values[node := data];
      dirty := dirty[node := asDirty];
      Attach(node);
    }

    method Put(key: nat, data: T, asDirty: bool)
      requires Valid()
      modifies this, callback
      ensures Valid() && Entries() == PutEntries(old(Entries()), size, Entry(key, data, asDirty))
      ensures callback.store == StoreEvicted(old(callback.store), Evicted(old(Entries()), size, key))
    {
      ListFacts(size, prev, next, order);
      MappingFinds(keys, values, dirty, mapping, order, key);
      assert key in mapping ==> keys[mapping[key]] == key;
      hide IsList, IsMapped, IsFree, EntriesOf, IndexOf, Without;
      if key in mapping {
        Replace(mapping[key], key, data, asDirty, IndexOf(Entries(), key));
      } else {
        PutOld(key, data, asDirty);
      }
    }

    // Writes one entry back if it is dirty, and steps to the one before it.
    method WriteBackOne(node: nat, ghost i: nat) returns (before: nat)
      requires Valid() && i < |order| && order[i] == node
      modifies callback
      ensures callback.store == var e := Entries()[i]; if e.dirty then old(callback.store)[e.key := e.value] else old(callback.store)
      ensures before == if i == 0 then size else order[i - 1]
    {
      PrevInList(size, prev, next, order, i);
      EntryAt(keys, values, dirty, order, i);
      hide IsList, IsMapped, IsFree, EntriesOf;
      if dirty[node] {
        callback.Evict(keys[node], values[node]);
      }
      before := prev[node];
    }

    // Where the list ends.
    method LastEntry() returns (node: nat)
      requires Valid()
      ensures node == if |order| == 0 then size else order[|order| - 1]
      ensures forall i :: 0 <= i < |order| ==> order[i] != size
    {
      ListFacts(size, prev, next, order);
      if order == [] {
        EmptyList(size, prev, next, order);
      } else {
        LastInList(size, prev, next, order);
      }
      node := prev[size + 1];
    }

    method EvictAll()
      requires Valid()
      modifies callback
      ensures callback.store == WriteBack(Entries(), old(callback.store))
    {
      ghost var es, i: nat := Entries(), |order|;
      assert |es| == |order| && es[..i] == es;
      var node := LastEntry();
      hide Valid, Entries, WriteBack;
      while node != size
        invariant i <= |order| && node == if i == 0 then size else order[i - 1]
        invariant Valid() && Entries() == es && WriteBack(es[..i], callback.store) == WriteBack(es, old(callback.store))
        decreases i
      {
        WriteBackLast(es, i, callback.store);
        node := WriteBackOne(node, i - 1);
        i := i - 1;
      }
      WriteBackNone(es, callback.store);
    }
  }

  lemma EmptyList(size: nat, prev: seq<nat>, next: seq<nat>, order: seq<nat>)
    requires IsList(size, prev, next, order) && order == []
    ensures size + 1 < |prev| && prev[size + 1] == size
  {
    var c := Chain(size, order);
    assert c[0] == size && c[1] == size + 1;
  }

  lemma PrevInList(size: nat, prev: seq<nat>, next: seq<nat>, order: seq<nat>, i: nat)
    requires IsList(size, prev, next, order) && i < |order|
    ensures order[i] < size < |prev| && prev[order[i]] == if i == 0 then size else order[i - 1]
  {
    var c := Chain(size, order);
    assert c[i + 1] == order[i] && c[i] == if i == 0 then size else order[i - 1];
  }

  lemma EntryAt<T>(keys: seq<nat>, values: seq<T>, dirty: seq<bool>, order: seq<nat>, i: nat)
    requires |keys| == |values| == |dirty| && (forall j :: 0 <= j < |order| ==> order[j] < |keys|) && i < |order|
    ensures EntriesOf(keys, values, dirty, order)[i] == Entry(keys[order[i]], values[order[i]], dirty[order[i]])
  {
  }

  lemma PutMiss<T>(es: seq<Entry<T>>, size: nat, e: Entry<T>)
    requires size > 0 && !Cached(es, e.key)
    ensures |es| >= size ==> PutEntries(es, size, e) == [e] + es[..|es| - 1]
    ensures |es| >= size ==> Evicted(es, size, e.key) == if es[|es| - 1].dirty then Some(es[|es| - 1]) else None
    ensures |es| < size ==> PutEntries(es, size, e) == [e] + es && Evicted(es, size, e.key) == None
    ensures forall store: map<nat, T> :: StoreEvicted(store, None) == store
  {
  }

  lemma TakeFree(size: nat, free: seq<nat>, order: seq<nat>)
    requires IsFree(size, free, order) && free != []
    ensures var n := |free| - 1;
      free[n] < size && free[n] !in order && |order| < size && IsFree(size, free[..n], [free[n]] + order)
  {
  }

  lemma LastInList(size: nat, prev: seq<nat>, next: seq<nat>, order: seq<nat>)
    requires IsList(size, prev, next, order) && order != []
    ensures size + 1 < |prev| && prev[size + 1] == order[|order| - 1]
  {
    var c := Chain(size, order);
    assert c[|order|] == order[|order| - 1] && c[|order| + 1] == size + 1;
  }
}
