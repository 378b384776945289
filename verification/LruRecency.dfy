// What is in the cache, told from the calls made on it (src/LRUCache.hpp): the keys
// used last, up to the size of the cache.
module LruRecency {
  import opened Wrappers
  import opened LruCaches

  datatype Call<T> = Get(key: nat) | Put(key: nat, value: T, dirty: bool)

  // The keys used since the last use of a key.
  function Later(uses: seq<nat>, key: nat): set<nat> {
    if uses == [] || uses[|uses| - 1] == key then {}
    else Later(uses[..|uses| - 1], key) + {uses[|uses| - 1]}
  }

  // Fewer than size other keys have been used since.
  predicate IsRecent(uses: seq<nat>, size: nat, key: nat) {
    key in uses && |Later(uses, key)| < size
  }

  // The keys used, oldest first: by a put, or by a get that finds its key.
  function Uses<T>(calls: seq<Call<T>>, size: nat): seq<nat> {
    if calls == [] then []
    else
      var before, call := Uses(calls[..|calls| - 1], size), calls[|calls| - 1];
      if call.Put? || IsRecent(before, size, call.key) then before + [call.key] else before
  }

  // What the last put of a key put.
  function LastPut<T>(calls: seq<Call<T>>, key: nat): Option<Entry<T>> {
    if calls == [] then None
    else
      var call := calls[|calls| - 1];
      if call.Put? && call.key == key then Some(Entry(key, call.value, call.dirty)) else LastPut(calls[..|calls| - 1], key)
  }

  // What a get returns after these calls.
  function Found<T>(calls: seq<Call<T>>, size: nat, key: nat): Option<T> {
    if !IsRecent(Uses(calls, size), size, key) then None
    else match LastPut(calls, key) case None => None case Some(e) => Some(e.value)
  }

  // The entries are those of the recent keys, the key used last in front.
  ghost predicate ByRecency<T>(es: seq<Entry<T>>, uses: seq<nat>, size: nat) {
    && |es| <= size
    && (forall key :: Cached(es, key) <==> IsRecent(uses, size, key))
    && forall i :: 0 <= i < |es| ==> |Later(uses, es[i].key)| == i
  }

  ghost predicate HasLastPuts<T>(es: seq<Entry<T>>, calls: seq<Call<T>>) {
    forall i :: 0 <= i < |es| ==> LastPut(calls, es[i].key) == Some(es[i])
  }

  // A dirty value that is out of the cache is in the store, and what the store has was
  // put there dirty.
  ghost predicate IsSaved<T(!new)>(es: seq<Entry<T>>, calls: seq<Call<T>>, store: map<nat, T>) {
    && (forall key :: !Cached(es, key) && LastPut(calls, key).Some? && LastPut(calls, key).value.dirty ==>
          key in store && store[key] == LastPut(calls, key).value.value)
    && forall key :: key in store ==> Put(key, store[key], true) in calls
  }

  // ----- Ages -----

  lemma {:induction false} LaterIsUsed(uses: seq<nat>, key: nat)
    ensures key !in Later(uses, key) && forall k :: k in Later(uses, key) ==> k in uses
  {
    if uses != [] {
      LaterIsUsed(uses[..|uses| - 1], key);
    }
  }

  // Of two used keys one was used last after the other.
  lemma {:induction false} LaterOrders(uses: seq<nat>, j: nat, k: nat)
    requires j in uses && k in uses && j != k
    ensures k in Later(uses, j) <==> j !in Later(uses, k)
    ensures k in Later(uses, j) ==> Later(uses, k) < Later(uses, j)
  {
    var n := |uses| - 1;
    var front := uses[..n];
    assert uses == front + [uses[n]];
    LaterIsUsed(uses, j);
    LaterIsUsed(uses, k);
    if uses[n] != j && uses[n] != k {
      LaterOrders(front, j, k);
    }
  }

  lemma Smaller(a: set<nat>, b: set<nat>)
    requires a < b
    ensures |a| < |b|
  {
    assert b == a + (b - a);
  }

  // Using k makes it the youngest, and by one older what was used after it.
  lemma AgeAfter(uses: seq<nat>, k: nat, j: nat)
    ensures Later(uses + [k], k) == {}
    ensures j != k ==> Later(uses + [k], j) == Later(uses, j) + {k}
    ensures j != k && k !in uses ==> |Later(uses + [k], j)| == |Later(uses, j)| + 1
    ensures j != k && k in uses && j in uses ==>
      |Later(uses, j)| != |Later(uses, k)| &&
      |Later(uses + [k], j)| == |Later(uses, j)| + if |Later(uses, j)| < |Later(uses, k)| then 1 else 0
  {
    assert (uses + [k])[..|uses|] == uses;
    LaterIsUsed(uses, j);
    if j != k && k in uses && j in uses {
      LaterOrders(uses, j, k);
      if k in Later(uses, j) {
        Smaller(Later(uses, k), Later(uses, j));
        assert Later(uses, j) + {k} == Later(uses, j);
      } else {
        LaterOrders(uses, k, j);
        Smaller(Later(uses, j), Later(uses, k));
      }
    }
  }

  lemma RecencyIsDistinct<T>(es: seq<Entry<T>>, uses: seq<nat>, size: nat)
    requires ByRecency(es, uses, size)
    ensures DistinctKeys(es) && forall i :: 0 <= i < |es| ==> IndexOf(es, es[i].key) == i && IsRecent(uses, size, es[i].key)
  {
    forall i | 0 <= i < |es| ensures IndexOf(es, es[i].key) == i && IsRecent(uses, size, es[i].key) {
      FindsEntry(es, i);
      assert Cached(es, es[i].key);
    }
  }

  // ----- One call -----

  // A key that is cached is used: its entry, or a new one, goes to the front.
  lemma HitKeepsRecency<T>(es: seq<Entry<T>>, uses: seq<nat>, size: nat, e: Entry<T>)
    requires ByRecency(es, uses, size) && Cached(es, e.key)
    ensures ByRecency([e] + Without(es, IndexOf(es, e.key)), uses + [e.key], size)
  {
    var k, i := e.key, IndexOf(es, e.key);
    var es' := [e] + Without(es, i);
    RecencyIsDistinct(es, uses, size);
    forall m | 0 <= m < |es'| ensures |Later(uses + [k], es'[m].key)| == m {
      var j := es'[m].key;
      AgeAfter(uses, k, j);
      assert m > 0 ==> es'[m] == es[if m <= i then m - 1 else m];
    }
    forall j ensures Cached(es', j) <==> IsRecent(uses + [k], size, j) {
      AgeAfter(uses, k, j);
      assert IsRecent(uses, size, k);
      HitKeys(es, e, j);
    }
  }

  lemma HitKeys<T>(es: seq<Entry<T>>, e: Entry<T>, key: nat)
    requires DistinctKeys(es) && Cached(es, e.key)
    ensures Cached([e] + Without(es, IndexOf(es, e.key)), key) <==> Cached(es, key)
  {
    var i := IndexOf(es, e.key);
    var es' := [e] + Without(es, i);
    CachedIsMember(es, key);
    CachedIsMember(es', key);
    WithoutEntry(es, i);
    assert forall d :: d in es' <==> d == e || d in Without(es, i);
  }

  lemma CachedIsMember<T>(es: seq<Entry<T>>, key: nat)
    ensures Cached(es, key) <==> exists e :: e in es && e.key == key
  {
    if Cached(es, key) {
      assert es[IndexOf(es, key)] in es;
    }
  }

  // A key that is not: the key used longest ago has to go if the cache is full.
  lemma MissKeepsRecency<T>(es: seq<Entry<T>>, uses: seq<nat>, size: nat, e: Entry<T>)
    requires size > 0 && ByRecency(es, uses, size) && !Cached(es, e.key)
    ensures ByRecency(PutEntries(es, size, e), uses + [e.key], size)
  {
    var k := e.key;
    var es' := PutEntries(es, size, e);
    RecencyIsDistinct(es, uses, size);
    assert forall m :: 0 < m < |es'| ==> es'[m] == es[m - 1];
    forall m | 0 <= m < |es'| ensures |Later(uses + [k], es'[m].key)| == m {
      AgeAfter(uses, k, es'[m].key);
    }
    forall j ensures Cached(es', j) <==> IsRecent(uses + [k], size, j) {
      AgeAfter(uses, k, j);
      MissKeys(es, size, e, j);
      if Cached(es, j) {
        assert es[IndexOf(es, j)].key == j;
      }
    }
  }

  lemma MissKeys<T>(es: seq<Entry<T>>, size: nat, e: Entry<T>, key: nat)
    requires size > 0 && !Cached(es, e.key) && DistinctKeys(es)
    ensures Cached(PutEntries(es, size, e), key) <==>
      key == e.key || (Cached(es, key) && (|es| < size || IndexOf(es, key) < |es| - 1))
  {
    var es' := PutEntries(es, size, e);
    if key != e.key {
      assert forall m :: 0 < m < |es'| ==> es'[m] == es[m - 1];
      if Cached(es, key) && IndexOf(es, key) + 1 < |es'| {
        assert es'[IndexOf(es, key) + 1].key == key;
      }
      if Cached(es', key) {
        assert es[IndexOf(es', key) - 1].key == key;
        FindsEntry(es, IndexOf(es', key) - 1);
      }
    }
  }

  lemma PutKeepsLastPuts<T>(es: seq<Entry<T>>, calls: seq<Call<T>>, size: nat, e: Entry<T>)
    requires size > 0 && DistinctKeys(es) && HasLastPuts(es, calls)
    ensures HasLastPuts(PutEntries(es, size, e), calls + [Put(e.key, e.value, e.dirty)])
  {
    var es', calls' := PutEntries(es, size, e), calls + [Put(e.key, e.value, e.dirty)];
    assert calls'[..|calls|] == calls;
    var i := IndexOf(es, e.key);
    forall m | 0 <= m < |es'| ensures LastPut(calls', es'[m].key) == Some(es'[m]) {
      if m > 0 {
        var j := if i < |es| && m > i then m else m - 1;
        assert es'[m] == es[j];
        FindsEntry(es, j);
      }
    }
  }

  lemma GetKeepsLastPuts<T>(es: seq<Entry<T>>, calls: seq<Call<T>>, key: nat)
    requires DistinctKeys(es) && HasLastPuts(es, calls)
    ensures HasLastPuts(Touched(es, key), calls + [Get(key)])
  {
    var es', calls' := Touched(es, key), calls + [Get(key)];
    assert calls'[..|calls|] == calls;
    if Cached(es, key) {
      TouchedEntries(es, key);
      forall m | 0 <= m < |es'| ensures LastPut(calls', es'[m].key) == Some(es'[m]) {
        assert es'[m] in es;
      }
    }
  }

  // The put that pushes an entry out saves it if it is dirty.
  lemma PutSaves<T(!new)>(es: seq<Entry<T>>, calls: seq<Call<T>>, store: map<nat, T>, size: nat, e: Entry<T>)
    requires size > 0 && DistinctKeys(es) && HasLastPuts(es, calls) && HasPuts(es, calls) && IsSaved(es, calls, store)
    ensures var calls' := calls + [Put(e.key, e.value, e.dirty)];
      IsSaved(PutEntries(es, size, e), calls', StoreEvicted(store, Evicted(es, size, e.key)))
  {
    var es', calls' := PutEntries(es, size, e), calls + [Put(e.key, e.value, e.dirty)];
    var store' := StoreEvicted(store, Evicted(es, size, e.key));
    assert calls'[..|calls|] == calls && es'[0] == e;
    forall key | !Cached(es', key) && LastPut(calls', key).Some? && LastPut(calls', key).value.dirty
      ensures key in store' && store'[key] == LastPut(calls', key).value.value
    {
      PutKeys(es, size, e, key);
    }
    forall key | key in store' ensures Put(key, store'[key], true) in calls' {
      assert key in store && store'[key] == store[key] ==> Put(key, store[key], true) in calls;
    }
  }

  // Every entry was put.
  ghost predicate HasPuts<T>(es: seq<Entry<T>>, calls: seq<Call<T>>) {
    forall i :: 0 <= i < |es| ==> Put(es[i].key, es[i].value, es[i].dirty) in calls
  }

  lemma {:induction false} LastPutIsPut<T>(calls: seq<Call<T>>, key: nat)
    ensures LastPut(calls, key).Some? ==>
      var e := LastPut(calls, key).value; e.key == key && Put(key, e.value, e.dirty) in calls
  {
    if calls != [] {
      LastPutIsPut(calls[..|calls| - 1], key);
    }
  }

  lemma LastPutsArePuts<T>(es: seq<Entry<T>>, calls: seq<Call<T>>)
    requires HasLastPuts(es, calls)
    ensures HasPuts(es, calls)
  {
    forall i | 0 <= i < |es| ensures Put(es[i].key, es[i].value, es[i].dirty) in calls {
      LastPutIsPut(calls, es[i].key);
    }
  }

  // The keys after a put: a key is missing if it was before, or is the one pushed out.
  lemma PutKeys<T>(es: seq<Entry<T>>, size: nat, e: Entry<T>, key: nat)
    requires size > 0 && DistinctKeys(es) && !Cached(PutEntries(es, size, e), key)
    ensures key != e.key
    ensures !Cached(es, key) || (!Cached(es, e.key) && |es| >= size && es[|es| - 1].key == key)
  {
    assert PutEntries(es, size, e)[0] == e;
    if Cached(es, e.key) {
      HitKeys(es, e, key);
    } else {
      MissKeys(es, size, e, key);
    }
  }

  lemma GetSaves<T(!new)>(es: seq<Entry<T>>, calls: seq<Call<T>>, store: map<nat, T>, key: nat)
    requires DistinctKeys(es) && IsSaved(es, calls, store)
    ensures IsSaved(Touched(es, key), calls + [Get(key)], store)
  {
    var es', calls' := Touched(es, key), calls + [Get(key)];
    assert calls'[..|calls|] == calls;
    forall k ensures Cached(es', k) <==> Cached(es, k) {
      if Cached(es, key) {
        HitKeys(es, es[IndexOf(es, key)], k);
      }
    }
  }

  // ----- Any list of calls -----

  // The cache after the calls, and what each get returned.
  method Run<T(!new)>(calls: seq<Call<T>>, size: nat, blank: T) returns (cache: LRUCache<T>, results: seq<Option<T>>)
    requires size > 0
    ensures fresh(cache) && cache.Valid()
    ensures ByRecency(cache.Entries(), Uses(calls, size), size) && HasLastPuts(cache.Entries(), calls)
    ensures IsSaved(cache.Entries(), calls, cache.callback.store)
    ensures |results| == |calls|
    ensures forall i :: 0 <= i < |calls| && calls[i].Get? ==> results[i] == Found(calls[..i], size, calls[i].key)
  {
    hide LRUCache.Valid, ByRecency, HasLastPuts, Uses, Found, IsSaved;
    var callback := new Callback<T>();
    cache := new LRUCache(size, callback, blank);
    results := [];
    NothingUsed<T>(size);
    assert calls[..0] == [];
    var i := 0;
    while i < |calls|
      invariant i == |results| <= |calls| && fresh(cache) && fresh(cache.callback) && cache.Valid() && cache.size == size
      invariant ByRecency(cache.Entries(), Uses(calls[..i], size), size) && HasLastPuts(cache.Entries(), calls[..i])
      invariant IsSaved(cache.Entries(), calls[..i], cache.callback.store)
      invariant forall j :: 0 <= j < i && calls[j].Get? ==> results[j] == Found(calls[..j], size, calls[j].key)
    {
      assert calls[..i + 1] == calls[..i] + [calls[i]];
      var r := Use(cache, calls[i], calls[..i]);
      results := results + [r];
      i := i + 1;
    }
    assert calls[..i] == calls;
  }

  method Use<T(!new)>(cache: LRUCache<T>, call: Call<T>, ghost calls: seq<Call<T>>) returns (r: Option<T>)
    requires cache.Valid() && ByRecency(cache.Entries(), Uses(calls, cache.size), cache.size) && HasLastPuts(cache.Entries(), calls)
    requires IsSaved(cache.Entries(), calls, cache.callback.store) && cache.size > 0
    modifies cache, cache.callback
    ensures cache.Valid()
    ensures ByRecency(cache.Entries(), Uses(calls + [call], cache.size), cache.size) && HasLastPuts(cache.Entries(), calls + [call])
    ensures IsSaved(cache.Entries(), calls + [call], cache.callback.store)
    ensures call.Get? ==> r == Found(calls, cache.size, call.key)
  {
    CallSaves(cache.Entries(), calls, cache.callback.store, cache.size, call);
    hide IsSaved, LRUCache.Valid, ByRecency, HasLastPuts, Uses, Found, Touched, PutEntries, Evicted, StoreEvicted;
    CallKeeps(cache.Entries(), calls, cache.size, call);
    match call {
      case Get(key) => r := cache.Get(key);
      case Put(key, value, dirty) =>
        cache.Put(key, value, dirty);
        r := None;
    }
  }

  lemma NothingUsed<T(!new)>(size: nat)
    ensures ByRecency<T>([], Uses<T>([], size), size) && HasLastPuts<T>([], [])
    ensures IsSaved<T>([], [], map[])
  {
  }

  lemma CallSaves<T(!new)>(es: seq<Entry<T>>, calls: seq<Call<T>>, store: map<nat, T>, size: nat, call: Call<T>)
    requires size > 0 && ByRecency(es, Uses(calls, size), size) && HasLastPuts(es, calls) && IsSaved(es, calls, store)
    ensures call.Get? ==> IsSaved(Touched(es, call.key), calls + [call], store)
    ensures call.Put? ==>
      IsSaved(PutEntries(es, size, Entry(call.key, call.value, call.dirty)), calls + [call],
              StoreEvicted(store, Evicted(es, size, call.key)))
  {
    RecencyIsDistinct(es, Uses(calls, size), size);
    LastPutsArePuts(es, calls);
    hide IsSaved, ByRecency, HasLastPuts, HasPuts;
    match call
    case Get(key) => GetSaves(es, calls, store, key);
    case Put(key, value, dirty) => PutSaves(es, calls, store, size, Entry(key, value, dirty));
  }

  lemma CallKeeps<T>(es: seq<Entry<T>>, calls: seq<Call<T>>, size: nat, call: Call<T>)
    requires size > 0 && ByRecency(es, Uses(calls, size), size) && HasLastPuts(es, calls)
    ensures var es' := if call.Get? then Touched(es, call.key) else PutEntries(es, size, Entry(call.key, call.value, call.dirty));
      ByRecency(es', Uses(calls + [call], size), size) && HasLastPuts(es', calls + [call])
    ensures Found(calls, size, call.key) == if Cached(es, call.key) then Some(es[IndexOf(es, call.key)].value) else None
  {
    var uses := Uses(calls, size);
    assert (calls + [call])[..|calls|] == calls;
    RecencyIsDistinct(es, uses, size);
    if Cached(es, call.key) {
      assert LastPut(calls, es[IndexOf(es, call.key)].key) == Some(es[IndexOf(es, call.key)]);
    }
    hide ByRecency, HasLastPuts;
    match call {
      case Get(key) =>
        GetKeepsLastPuts(es, calls, key);
        if Cached(es, key) {
          HitKeepsRecency(es, uses, size, es[IndexOf(es, key)]);
        }
      case Put(key, value, dirty) =>
        var e := Entry(key, value, dirty);
        PutKeepsLastPuts(es, calls, size, e);
        if Cached(es, key) {
          HitKeepsRecency(es, uses, size, e);
        } else {
          MissKeepsRecency(es, uses, size, e);
        }
    }
  }
}
