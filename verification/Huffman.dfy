// Binary code trees and the least weighted path length there can be
// (src/trie/huffman.hpp). Frequencies are whole numbers that do not overflow.
module Huffmans {

  import opened Powers

  datatype Tree = Leaf(symbol: nat) | Node(left: Tree, right: Tree)

  type Freqs = seq<nat>

  function FreqOf(f: Freqs, symbol: nat): nat {
    if symbol < |f| then f[symbol] else 0
  }

  function Weight(t: Tree, f: Freqs): nat {
    match t
    case Leaf(s) => FreqOf(f, s)
    case Node(l, r) => Weight(l, f) + Weight(r, f)
  }

  // Frequency times depth, summed over the leaves; t hangs at the given depth.
  function PathLength(t: Tree, f: Freqs, depth: nat): nat {
    match t
    case Leaf(s) => FreqOf(f, s) * depth
    case Node(l, r) => PathLength(l, f, depth + 1) + PathLength(r, f, depth + 1)
  }

  // The same sum, counted at the inner nodes.
  function InnerWeight(t: Tree, f: Freqs): nat {
    match t
    case Leaf(s) => 0
    case Node(l, r) => Weight(t, f) + InnerWeight(l, f) + InnerWeight(r, f)
  }

  lemma {:induction false} PathLengthIsInnerWeight(t: Tree, f: Freqs, depth: nat)
    ensures PathLength(t, f, depth) == InnerWeight(t, f) + Weight(t, f) * depth
  {
    match t
    case Leaf(s) =>
    case Node(l, r) =>
      PathLengthIsInnerWeight(l, f, depth + 1);
      PathLengthIsInnerWeight(r, f, depth + 1);
      Distribute(Weight(l, f), Weight(r, f), depth);
  }

  lemma Distribute(a: nat, b: nat, d: nat)
    ensures a * (d + 1) + b * (d + 1) == (a + b) + (a + b) * d
  {
  }

  function Symbols(t: Tree): seq<nat> {
    match t
    case Leaf(s) => [s]
    case Node(l, r) => Symbols(l) + Symbols(r)
  }

  // ----- Sorted weights -----

  ghost predicate Sorted(ws: seq<nat>) {
    forall i, j :: 0 <= i < j < |ws| ==> ws[i] <= ws[j]
  }

  // Behind equal elements, as a multimap inserts.
  function Insert(w: nat, ws: seq<nat>): (r: seq<nat>)
    ensures |r| == |ws| + 1
  {
    if ws == [] || w < ws[0] then [w] + ws else [ws[0]] + Insert(w, ws[1..])
  }

  lemma {:induction false} InsertSorted(w: nat, ws: seq<nat>)
    requires Sorted(ws)
    ensures Sorted(Insert(w, ws))
    ensures forall x :: x in Insert(w, ws) ==> x == w || x in ws
  {
    if ws != [] && w >= ws[0] {
      InsertSorted(w, ws[1..]);
      var r := Insert(w, ws[1..]);
      forall j | 0 <= j < |r| ensures ws[0] <= r[j] {
        assert r[j] in r;
      }
    }
  }

  lemma {:induction false} InsertContents(w: nat, ws: seq<nat>)
    ensures multiset(Insert(w, ws)) == multiset(ws) + multiset{w}
  {
    if ws != [] && w >= ws[0] {
      InsertContents(w, ws[1..]);
      assert ws == [ws[0]] + ws[1..];
    }
  }

  function Sort(ws: seq<nat>): (r: seq<nat>)
    ensures |r| == |ws|
  {
    if ws == [] then [] else Insert(ws[|ws| - 1], Sort(ws[..|ws| - 1]))
  }

  lemma {:induction false} SortSorts(ws: seq<nat>)
    ensures Sorted(Sort(ws)) && multiset(Sort(ws)) == multiset(ws)
  {
    if ws != [] {
      var n := |ws| - 1;
      SortSorts(ws[..n]);
      InsertSorted(ws[n], Sort(ws[..n]));
      InsertContents(ws[n], Sort(ws[..n]));
      assert ws == ws[..n] + [ws[n]];
    }
  }

  lemma FirstIsLeast(a: seq<nat>, x: nat)
    requires Sorted(a) && x in multiset(a)
    ensures a != [] && a[0] <= x && a[0] in multiset(a)
    ensures Sorted(a[1..]) && multiset(a[1..]) == multiset(a) - multiset{a[0]}
  {
    assert a == [a[0]] + a[1..];
  }

  lemma SameHead(a: seq<nat>, b: seq<nat>)
    requires Sorted(a) && Sorted(b) && multiset(a) == multiset(b) && a != [] && b != []
    ensures a[0] == b[0] && multiset(a[1..]) == multiset(b[1..]) && Sorted(a[1..]) && Sorted(b[1..])
  {
    hide Sorted;
    assert a[0] in multiset(a) && b[0] in multiset(b);
    FirstIsLeast(a, a[0]);
    FirstIsLeast(b, a[0]);
    FirstIsLeast(a, b[0]);
  }

  lemma {:induction false} SortedIsUnique(a: seq<nat>, b: seq<nat>)
    requires Sorted(a) && Sorted(b) && multiset(a) == multiset(b)
    ensures a == b
  {
    hide Sorted;
    assert |a| == |multiset(a)| && |b| == |multiset(b)|;
    if |a| > 0 {
      SameHead(a, b);
      SortedIsUnique(a[1..], b[1..]);
      assert a == [a[0]] + a[1..] && b == [b[0]] + b[1..];
    }
  }

  // ----- Huffman's cost -----

  // Merging the two smallest weights until one is left: the sum of the merged ones.
  function Merging(ws: seq<nat>): nat
    decreases |ws|
  {
    if |ws| <= 1 then 0 else ws[0] + ws[1] + Merging(Insert(ws[0] + ws[1], ws[2..]))
  }

  // ----- Depths that fit in a binary tree -----

  ghost predicate Within(ds: seq<nat>, m: nat) {
    forall i :: 0 <= i < |ds| ==> ds[i] <= m
  }

  // The leaves at the given depths, counted in leaves of depth m.
  function Kraft(ds: seq<nat>, m: nat): nat
    requires Within(ds, m)
  {
    if ds == [] then 0 else Pow(2, m - ds[0]) + Kraft(ds[1..], m)
  }

  function Dot(ws: seq<nat>, ds: seq<nat>): nat
    requires |ws| == |ds|
  {
    if ws == [] then 0 else ws[0] * ds[0] + Dot(ws[1..], ds[1..])
  }

  lemma {:induction false} DotUpdate(ws: seq<nat>, ds: seq<nat>, i: nat, d: nat)
    requires i < |ws| == |ds|
    ensures Dot(ws, ds[i := d]) + ws[i] * ds[i] == Dot(ws, ds) + ws[i] * d
  {
    var r := ds[i := d];
    if i == 0 {
      assert r[1..] == ds[1..];
    } else {
      assert r[1..] == ds[1..][i - 1 := d];
      DotUpdate(ws[1..], ds[1..], i - 1, d);
    }
  }

  lemma {:induction false} KraftUpdate(ds: seq<nat>, m: nat, i: nat, d: nat)
    requires i < |ds| && Within(ds, m) && d <= m
    ensures Within(ds[i := d], m) && Kraft(ds[i := d], m) + Pow(2, m - ds[i]) == Kraft(ds, m) + Pow(2, m - d)
  {
    var r := ds[i := d];
    if i == 0 {
      assert r[1..] == ds[1..];
    } else {
      assert r[1..] == ds[1..][i - 1 := d];
      KraftUpdate(ds[1..], m, i - 1, d);
    }
  }

  // Giving the smaller weight at i the larger depth at p costs nothing.
  lemma Exchange(ws: seq<nat>, ds: seq<nat>, m: nat, i: nat, p: nat)
    requires |ws| == |ds| && Within(ds, m) && Sorted(ws) && i <= p < |ws| && ds[i] <= ds[p]
    ensures var r := ds[i := ds[p]][p := ds[i]];
      Within(r, m) && Kraft(r, m) == Kraft(ds, m) && Dot(ws, r) <= Dot(ws, ds)
  {
    if i < p {
      KraftUpdate(ds, m, i, ds[p]);
      KraftUpdate(ds[i := ds[p]], m, p, ds[i]);
      DotUpdate(ws, ds, i, ds[p]);
      DotUpdate(ws, ds[i := ds[p]], p, ds[i]);
      Rearrange(ws[i], ws[p], ds[i], ds[p]);
    } else {
      assert ds[i := ds[p]][p := ds[i]] == ds;
    }
  }

  lemma Rearrange(a: nat, b: nat, c: nat, d: nat)
    requires a <= b && c <= d
    ensures a * d + b * c <= a * c + b * d
  {
    assert (b - a) * (d - c) >= 0;
  }

  // Leaves above depth d fill an even number of places of depth d.
  lemma {:induction false} ShallowAreEven(ds: seq<nat>, m: nat, d: nat) returns (x: nat)
    requires 0 < d <= m && forall i :: 0 <= i < |ds| ==> ds[i] < d
    ensures Within(ds, m) && Kraft(ds, m) == 2 * Pow(2, m - d) * x
  {
    if ds == [] {
      x := 0;
    } else {
      var y := ShallowAreEven(ds[1..], m, d);
      var z := PowRatio(m - d, d - ds[0] - 1);
      x := y + z;
      assert Pow(2, m - ds[0]) == 2 * Pow(2, m - ds[0] - 1);
      assert 2 * Pow(2, m - d) * y + 2 * Pow(2, m - d) * z == 2 * Pow(2, m - d) * (y + z);
    }
  }

  lemma {:induction false} PowRatio(a: nat, b: nat) returns (z: nat)
    ensures Pow(2, a + b) == Pow(2, a) * z && z == Pow(2, b)
  {
    if b == 0 {
      z := 1;
    } else {
      var y := PowRatio(a, b - 1);
      z := 2 * y;
    }
  }

  // A single deepest leaf cannot fill up a tree.
  lemma DeepestHasSibling(ds: seq<nat>, m: nat) returns (q: nat)
    requires |ds| >= 2 && Within(ds, m) && Kraft(ds, m) == Pow(2, m) && forall i :: 0 <= i < |ds| ==> ds[i] <= ds[0]
    ensures 0 < ds[0] && 0 < q < |ds| && ds[q] == ds[0]
  {
    var d := ds[0];
    assert Kraft(ds, m) == Pow(2, m - d) + (Pow(2, m - ds[1]) + Kraft(ds[1..][1..], m));
    assert d > 0;
    if forall i :: 0 < i < |ds| ==> ds[i] != d {
      var x := ShallowAreEven(ds[1..], m, d);
      var z := PowRatio(m - d, d);
      NotEven(Pow(2, m - d), x, Pow(2, d - 1));
      assert false;
    }
    q :| 0 < q < |ds| && ds[q] == d;
  }

  lemma NotEven(p: nat, x: nat, y: nat)
    requires p > 0
    ensures p + 2 * p * x != p * (2 * y)
  {
    assert p + 2 * p * x == p * (1 + 2 * x);
    if p * (1 + 2 * x) == p * (2 * y) {
      Cancel(p, 1 + 2 * x, 2 * y);
    }
  }

  lemma Cancel(p: nat, a: nat, b: nat)
    requires p > 0 && p * a == p * b
    ensures a == b
  {
    assert p * (b - a) == 0;
  }

  lemma {:induction false} LargestAt(ds: seq<nat>) returns (p: nat)
    requires ds != []
    ensures p < |ds| && forall i :: 0 <= i < |ds| ==> ds[i] <= ds[p]
  {
    if |ds| == 1 {
      p := 0;
    } else {
      var q := LargestAt(ds[1..]);
      p := if ds[0] >= ds[q + 1] then 0 else q + 1;
      assert forall i :: 0 < i < |ds| ==> ds[i] == ds[1..][i - 1];
    }
  }

  // Where Insert puts w; a depth is put at the same place.
  function InsertAt(w: nat, ws: seq<nat>, d: nat, ds: seq<nat>): (r: seq<nat>)
    requires |ws| == |ds|
    ensures |r| == |ds| + 1
  {
    if ws == [] || w < ws[0] then [d] + ds else [ds[0]] + InsertAt(w, ws[1..], d, ds[1..])
  }

  lemma {:induction false} InsertAtSums(w: nat, ws: seq<nat>, d: nat, ds: seq<nat>, m: nat)
    requires |ws| == |ds| && Within(ds, m) && d <= m
    ensures var r := InsertAt(w, ws, d, ds);
      Within(r, m) && Kraft(r, m) == Pow(2, m - d) + Kraft(ds, m) && Dot(Insert(w, ws), r) == w * d + Dot(ws, ds)
  {
    var r := InsertAt(w, ws, d, ds);
    if ws == [] || w < ws[0] {
      assert r[1..] == ds && Insert(w, ws)[1..] == ws;
    } else {
      InsertAtSums(w, ws[1..], d, ds[1..], m);
      assert r[1..] == InsertAt(w, ws[1..], d, ds[1..]) && Insert(w, ws)[1..] == Insert(w, ws[1..]);
    }
  }

  // No assignment of depths that fills a binary tree beats Huffman's merging.
  lemma {:induction false} MergingIsLeast(ws: seq<nat>, ds: seq<nat>, m: nat)
    requires Sorted(ws) && |ws| == |ds| && Within(ds, m) && Kraft(ds, m) == Pow(2, m)
    ensures Merging(ws) <= Dot(ws, ds)
    decreases |ws|
  {
    if |ws| > 1 {
      var p := LargestAt(ds);
      Exchange(ws, ds, m, 0, p);
      var ds1 := ds[0 := ds[p]][p := ds[0]];
      assert forall i :: 0 <= i < |ds| ==> ds1[i] <= ds1[0];
      var q := DeepestHasSibling(ds1, m);
      Exchange(ws, ds1, m, 1, q);
      var ds2 := ds1[1 := ds1[q]][q := ds1[1]];
      MergeTwo(ws, ds2, m);
    }
  }

  lemma TakeTwo(ws: seq<nat>, ds: seq<nat>, m: nat)
    requires |ws| > 1 && |ws| == |ds| && Within(ds, m)
    ensures Dot(ws, ds) == ws[0] * ds[0] + (ws[1] * ds[1] + Dot(ws[2..], ds[2..]))
    ensures Kraft(ds, m) == Pow(2, m - ds[0]) + (Pow(2, m - ds[1]) + Kraft(ds[2..], m))
  {
    assert ws[1..][1..] == ws[2..] && ds[1..][1..] == ds[2..];
  }

  lemma MergeCost(a: nat, b: nat, d: nat, x: nat)
    requires d > 0
    ensures a * d + (b * d + x) == (a + b) + ((a + b) * (d - 1) + x)
  {
    Distribute(a, b, d - 1);
  }

  lemma {:induction false} MergeTwo(ws: seq<nat>, ds: seq<nat>, m: nat)
    requires |ws| > 1 && Sorted(ws) && |ws| == |ds| && Within(ds, m) && Kraft(ds, m) == Pow(2, m)
    requires ds[0] == ds[1] > 0
    ensures Merging(ws) <= Dot(ws, ds)
    decreases |ws|, 0
  {
    var d, w, rest, depths := ds[0], ws[0] + ws[1], ws[2..], ds[2..];
    assert Merging(ws) == w + Merging(Insert(w, rest));
    assert Pow(2, m - (d - 1)) == 2 * Pow(2, m - d) && Sorted(rest) && Within(depths, m) && d <= m;
    hide Dot, Kraft, Merging, Insert, InsertAt, Pow, Sorted, Within;
    TakeTwo(ws, ds, m);
    InsertAtSums(w, rest, d - 1, depths, m);
    InsertSorted(w, rest);
    MergeCost(ws[0], ws[1], d, Dot(rest, depths));
    MergingIsLeast(Insert(w, rest), InsertAt(w, rest, d - 1, depths), m);
  }

  // ----- Trees as weights and depths -----

  function WeightsOf(symbols: seq<nat>, f: Freqs): (ws: seq<nat>)
    ensures |ws| == |symbols|
  {
    seq(|symbols|, i requires 0 <= i < |symbols| => FreqOf(f, symbols[i]))
  }

  function DepthsOf(t: Tree, depth: nat): (ds: seq<nat>)
    ensures |ds| == |Symbols(t)|
  {
    match t
    case Leaf(s) => [depth]
    case Node(l, r) => DepthsOf(l, depth + 1) + DepthsOf(r, depth + 1)
  }

  function Height(t: Tree): nat {
    match t
    case Leaf(s) => 0
    case Node(l, r) => 1 + if Height(l) > Height(r) then Height(l) else Height(r)
  }

  lemma {:induction false} DotJoin(ws: seq<nat>, ds: seq<nat>, vs: seq<nat>, es: seq<nat>)
    requires |ws| == |ds| && |vs| == |es|
    ensures Dot(ws + vs, ds + es) == Dot(ws, ds) + Dot(vs, es)
  {
    if ws == [] {
      assert ws + vs == vs && ds + es == es;
    } else {
      assert (ws + vs)[1..] == ws[1..] + vs && (ds + es)[1..] == ds[1..] + es;
      DotJoin(ws[1..], ds[1..], vs, es);
    }
  }

  lemma {:induction false} KraftJoin(ds: seq<nat>, es: seq<nat>, m: nat)
    requires Within(ds, m) && Within(es, m)
    ensures Within(ds + es, m) && Kraft(ds + es, m) == Kraft(ds, m) + Kraft(es, m)
  {
    if ds == [] {
      assert ds + es == es;
    } else {
      assert (ds + es)[1..] == ds[1..] + es;
      KraftJoin(ds[1..], es, m);
    }
  }

  lemma {:induction false} TreeSums(t: Tree, f: Freqs, depth: nat, m: nat)
    requires depth + Height(t) <= m
    ensures Within(DepthsOf(t, depth), m) && Kraft(DepthsOf(t, depth), m) == Pow(2, m - depth)
    ensures Dot(WeightsOf(Symbols(t), f), DepthsOf(t, depth)) == PathLength(t, f, depth)
  {
    hide Dot, Kraft, Within, WeightsOf;
    match t
    case Leaf(s) =>
      SingleSums(FreqOf(f, s), depth, m);
      assert WeightsOf([s], f) == [FreqOf(f, s)] by { LeafWeight(s, f); }
    case Node(l, r) =>
      TreeSums(l, f, depth + 1, m);
      TreeSums(r, f, depth + 1, m);
      JoinWeights(Symbols(l), Symbols(r), f);
      KraftJoin(DepthsOf(l, depth + 1), DepthsOf(r, depth + 1), m);
      DotJoin(WeightsOf(Symbols(l), f), DepthsOf(l, depth + 1), WeightsOf(Symbols(r), f), DepthsOf(r, depth + 1));
  }

  lemma LeafWeight(s: nat, f: Freqs)
    ensures WeightsOf([s], f) == [FreqOf(f, s)]
  {
  }

  lemma JoinWeights(a: seq<nat>, b: seq<nat>, f: Freqs)
    ensures WeightsOf(a + b, f) == WeightsOf(a, f) + WeightsOf(b, f)
  {
  }

  // The depths in the order Sort puts the weights in.
  function SortAt(ws: seq<nat>, ds: seq<nat>): (r: seq<nat>)
    requires |ws| == |ds|
    ensures |r| == |ds|
  {
    if ws == [] then []
    else
      var n := |ws| - 1;
      InsertAt(ws[n], Sort(ws[..n]), ds[n], SortAt(ws[..n], ds[..n]))
  }

  lemma {:induction false} SortAtSums(ws: seq<nat>, ds: seq<nat>, m: nat)
    requires |ws| == |ds| && Within(ds, m)
    ensures Within(SortAt(ws, ds), m) && Kraft(SortAt(ws, ds), m) == Kraft(ds, m)
    ensures Dot(Sort(ws), SortAt(ws, ds)) == Dot(ws, ds)
  {
    hide Dot, Kraft;
    if ws != [] {
      var n := |ws| - 1;
      SortAtSums(ws[..n], ds[..n], m);
      InsertAtSums(ws[n], Sort(ws[..n]), ds[n], SortAt(ws[..n], ds[..n]), m);
      assert ws == ws[..n] + [ws[n]] && ds == ds[..n] + [ds[n]];
      DotJoin(ws[..n], ds[..n], [ws[n]], [ds[n]]);
      KraftJoin(ds[..n], [ds[n]], m);
      SingleSums(ws[n], ds[n], m);
    }
  }

  lemma SingleSums(w: nat, d: nat, m: nat)
    requires d <= m
    ensures Within([d], m) && Dot([w], [d]) == w * d && Kraft([d], m) == Pow(2, m - d)
  {
    assert [w][1..] == [] && [d][1..] == [];
  }

  // No tree has a smaller weighted path length than merging its own weights costs.
  lemma TreeIsNotBelowMerging(t: Tree, f: Freqs)
    ensures Merging(Sort(WeightsOf(Symbols(t), f))) <= PathLength(t, f, 0)
  {
    var m, ws, ds := Height(t), WeightsOf(Symbols(t), f), DepthsOf(t, 0);
    TreeSums(t, f, 0, m);
    SortAtSums(ws, ds, m);
    SortSorts(ws);
    MergingIsLeast(Sort(ws), SortAt(ws, ds), m);
  }

  function Without(s: seq<nat>, i: nat): (r: seq<nat>)
    requires i < |s|
    ensures |r| == |s| - 1
  {
    s[..i] + s[i + 1..]
  }

  lemma WithoutContents(s: seq<nat>, i: nat)
    requires i < |s|
    ensures multiset(Without(s, i)) == multiset(s) - multiset{s[i]}
    ensures multiset(s) == multiset(Without(s, i)) + multiset{s[i]}
  {
    assert s == s[..i] + [s[i]] + s[i + 1..];
  }

  lemma WeightsWithout(s: seq<nat>, i: nat, f: Freqs)
    requires i < |s|
    ensures WeightsOf(Without(s, i), f) == Without(WeightsOf(s, f), i)
  {
  }

  lemma {:induction false} WeightsMultiset(a: seq<nat>, b: seq<nat>, f: Freqs)
    requires multiset(a) == multiset(b)
    ensures multiset(WeightsOf(a, f)) == multiset(WeightsOf(b, f))
    decreases |a|
  {
    hide Without;
    assert |a| == |multiset(a)| && |b| == |multiset(b)|;
    if |a| > 0 {
      assert a[0] in multiset(b);
      var i :| 0 <= i < |b| && b[i] == a[0];
      WithoutContents(a, 0);
      WithoutContents(b, i);
      WeightsMultiset(Without(a, 0), Without(b, i), f);
      WeightsWithout(a, 0, f);
      WeightsWithout(b, i, f);
      WithoutContents(WeightsOf(a, f), 0);
      WithoutContents(WeightsOf(b, f), i);
    }
  }

  lemma SameWeights(a: seq<nat>, b: seq<nat>, f: Freqs)
    requires multiset(a) == multiset(b)
    ensures Sort(WeightsOf(a, f)) == Sort(WeightsOf(b, f))
  {
    WeightsMultiset(a, b, f);
    SortSorts(WeightsOf(a, f));
    SortSorts(WeightsOf(b, f));
    SortedIsUnique(Sort(WeightsOf(a, f)), Sort(WeightsOf(b, f)));
  }

  // ----- The tree as an array of references -----

  // References below n are symbols; inner node ref keeps its children at
  // 2 * (ref - n) and the place after. Children come before their parents.
  function TreeOf(nodes: seq<nat>, n: nat, ref: nat): Tree
    decreases ref
  {
    if ref < n || 2 * (ref - n) + 1 >= |nodes| || nodes[2 * (ref - n)] >= ref || nodes[2 * (ref - n) + 1] >= ref
    then Leaf(ref)
    else Node(TreeOf(nodes, n, nodes[2 * (ref - n)]), TreeOf(nodes, n, nodes[2 * (ref - n) + 1]))
  }

  lemma {:induction false} TreeStays(a: seq<nat>, b: seq<nat>, n: nat, ref: nat)
    requires |a| == |b| && forall i :: 0 <= i < |a| && i < 2 * (ref + 1 - n) ==> a[i] == b[i]
    ensures TreeOf(a, n, ref) == TreeOf(b, n, ref)
    decreases ref
  {
    if !(ref < n || 2 * (ref - n) + 1 >= |a| || a[2 * (ref - n)] >= ref || a[2 * (ref - n) + 1] >= ref) {
      TreeStays(a, b, n, a[2 * (ref - n)]);
      TreeStays(a, b, n, a[2 * (ref - n) + 1]);
    }
  }

  // ----- The generator -----

  // The queue: a multimap from frequency to reference.
  datatype Entry = Entry(freq: nat, ref: nat)

  function Frequencies(q: seq<Entry>): (ws: seq<nat>)
    ensures |ws| == |q|
  {
    seq(|q|, i requires 0 <= i < |q| => q[i].freq)
  }

  function Enqueue(e: Entry, q: seq<Entry>): (r: seq<Entry>)
    ensures |r| == |q| + 1
  {
    if q == [] || e.freq < q[0].freq then [e] + q else [q[0]] + Enqueue(e, q[1..])
  }

  function ForestSymbols(q: seq<Entry>, nodes: seq<nat>, n: nat): seq<nat> {
    if q == [] then [] else Symbols(TreeOf(nodes, n, q[0].ref)) + ForestSymbols(q[1..], nodes, n)
  }

  function ForestInner(q: seq<Entry>, nodes: seq<nat>, n: nat, f: Freqs): nat {
    if q == [] then 0 else InnerWeight(TreeOf(nodes, n, q[0].ref), f) + ForestInner(q[1..], nodes, n, f)
  }

  // Every entry is a finished tree and its weight.
  ghost predicate IsForest(q: seq<Entry>, nodes: seq<nat>, n: nat, f: Freqs, ref: nat) {
    forall i :: 0 <= i < |q| ==> q[i].ref < ref && q[i].freq == Weight(TreeOf(nodes, n, q[i].ref), f)
  }

  lemma {:induction false} EnqueueFrequencies(e: Entry, q: seq<Entry>)
    ensures Frequencies(Enqueue(e, q)) == Insert(e.freq, Frequencies(q))
  {
    if q == [] || e.freq < q[0].freq {
      assert Frequencies([e] + q) == [e.freq] + Frequencies(q);
    } else {
      EnqueueFrequencies(e, q[1..]);
      assert Frequencies([q[0]] + Enqueue(e, q[1..])) == [q[0].freq] + Frequencies(Enqueue(e, q[1..]));
      assert Frequencies(q)[1..] == Frequencies(q[1..]);
    }
  }

  lemma {:induction false} EnqueueSums(e: Entry, q: seq<Entry>, nodes: seq<nat>, n: nat, f: Freqs)
    ensures ForestInner(Enqueue(e, q), nodes, n, f) == InnerWeight(TreeOf(nodes, n, e.ref), f) + ForestInner(q, nodes, n, f)
    ensures multiset(ForestSymbols(Enqueue(e, q), nodes, n)) ==
            multiset(Symbols(TreeOf(nodes, n, e.ref))) + multiset(ForestSymbols(q, nodes, n))
  {
    hide TreeOf, Symbols, InnerWeight, Weight;
    var r := Enqueue(e, q);
    if q == [] || e.freq < q[0].freq {
      assert r[1..] == q;
    } else {
      EnqueueSums(e, q[1..], nodes, n, f);
      assert r[1..] == Enqueue(e, q[1..]);
    }
  }

  lemma {:induction false} EnqueueForest(e: Entry, q: seq<Entry>, nodes: seq<nat>, n: nat, f: Freqs, ref: nat)
    requires IsForest(q, nodes, n, f, ref) && e.ref < ref && e.freq == Weight(TreeOf(nodes, n, e.ref), f)
    ensures IsForest(Enqueue(e, q), nodes, n, f, ref)
    ensures Frequencies(Enqueue(e, q)) == Insert(e.freq, Frequencies(q))
    ensures ForestInner(Enqueue(e, q), nodes, n, f) == InnerWeight(TreeOf(nodes, n, e.ref), f) + ForestInner(q, nodes, n, f)
    ensures multiset(ForestSymbols(Enqueue(e, q), nodes, n)) ==
            multiset(Symbols(TreeOf(nodes, n, e.ref))) + multiset(ForestSymbols(q, nodes, n))
  {
    EnqueueFrequencies(e, q);
    EnqueueSums(e, q, nodes, n, f);
    EnqueueIsForest(e, q, nodes, n, f, ref);
  }

  lemma {:induction false} EnqueueIsForest(e: Entry, q: seq<Entry>, nodes: seq<nat>, n: nat, f: Freqs, ref: nat)
    requires IsForest(q, nodes, n, f, ref) && e.ref < ref && e.freq == Weight(TreeOf(nodes, n, e.ref), f)
    ensures IsForest(Enqueue(e, q), nodes, n, f, ref)
  {
    hide TreeOf, Weight;
    if q != [] && e.freq >= q[0].freq {
      EnqueueIsForest(e, q[1..], nodes, n, f, ref);
    }
  }

  lemma {:induction false} ForestStays(q: seq<Entry>, a: seq<nat>, b: seq<nat>, n: nat, f: Freqs, ref: nat)
    requires IsForest(q, a, n, f, ref) && |a| == |b| && forall i :: 0 <= i < |a| && i < 2 * (ref - n) ==> a[i] == b[i]
    ensures IsForest(q, b, n, f, ref) && ForestInner(q, b, n, f) == ForestInner(q, a, n, f)
    ensures ForestSymbols(q, b, n) == ForestSymbols(q, a, n)
  {
    hide TreeOf, Symbols, InnerWeight, Weight;
    if q != [] {
      TreeStays(a, b, n, q[0].ref);
      ForestStays(q[1..], a, b, n, f, ref);
      assert q == [q[0]] + q[1..];
    }
  }

  function AllSymbols(n: nat): seq<nat> {
    seq(n, i => i)
  }

  // A tree over the symbols 0 to n - 1, each once.
  ghost predicate IsCodeTree(t: Tree, n: nat) {
    multiset(Symbols(t)) == multiset(AllSymbols(n))
  }

  class HuffmanTree {
    const numSymbols: nat
    var nodes: seq<nat>

    constructor (numSymbols: nat)
      requires numSymbols > 0
      ensures this.numSymbols == numSymbols && |nodes| == 2 * (numSymbols - 1)
    {
      this.numSymbols := numSymbols;
      nodes := seq(2 * (numSymbols - 1), i => 0);
    }

    function Root(): nat
      requires numSymbols > 0
    {
      2 * numSymbols - 2
    }

    ghost function Shape(): Tree
      requires numSymbols > 0
      reads this
    {
      TreeOf(nodes, numSymbols, Root())
    }
  }

  ghost predicate HasRef(q: seq<Entry>, ref: nat) {
    exists i :: 0 <= i < |q| && q[i].ref == ref
  }

  lemma {:induction false} EnqueueHas(e: Entry, q: seq<Entry>)
    ensures HasRef(Enqueue(e, q), e.ref)
  {
    var r := Enqueue(e, q);
    if q == [] || e.freq < q[0].freq {
      assert r[0].ref == e.ref;
    } else {
      EnqueueHas(e, q[1..]);
      var i :| 0 <= i < |r| - 1 && Enqueue(e, q[1..])[i].ref == e.ref;
      assert r[i + 1].ref == e.ref;
    }
  }

  // The queue of symbols.
  method EnqueueSymbols(f: Freqs, n: nat, nodes: seq<nat>) returns (q: seq<Entry>)
    requires |f| == n
    ensures |q| == n && IsForest(q, nodes, n, f, n) && Frequencies(q) == Sort(f)
    ensures ForestInner(q, nodes, n, f) == 0 && multiset(ForestSymbols(q, nodes, n)) == multiset(AllSymbols(n))
    ensures n > 0 ==> HasRef(q, n - 1)
  {
    EmptyForest(f, nodes, n);
    hide TreeOf, IsForest, ForestInner, ForestSymbols, Frequencies, Sort, Enqueue, HasRef, Insert, AllSymbols;
    q := [];
    var ref := 0;
    assert f[..0] == [];
    while ref < n
      invariant ref == |q| <= n && IsForest(q, nodes, n, f, ref) && Frequencies(q) == Sort(f[..ref])
      invariant ForestInner(q, nodes, n, f) == 0 && multiset(ForestSymbols(q, nodes, n)) == multiset(AllSymbols(ref))
      invariant ref > 0 ==> HasRef(q, ref - 1)
    {
      EnqueueHas(Entry(f[ref], ref), q);
      SymbolTree(f, nodes, n, ref);
      ForestGrows(q, nodes, n, f, ref);
      EnqueueForest(Entry(f[ref], ref), q, nodes, n, f, ref + 1);
      SortNext(f, ref);
      AllSymbolsNext(ref);
      q := Enqueue(Entry(f[ref], ref), q);
      ref := ref + 1;
    }
    assert f[..n] == f;
  }

  lemma EmptyForest(f: Freqs, nodes: seq<nat>, n: nat)
    ensures IsForest([], nodes, n, f, 0) && Frequencies([]) == Sort([]) && ForestInner([], nodes, n, f) == 0
    ensures ForestSymbols([], nodes, n) == AllSymbols(0)
  {
  }

  lemma SymbolTree(f: Freqs, nodes: seq<nat>, n: nat, s: nat)
    requires s < n == |f|
    ensures var t := TreeOf(nodes, n, s); Weight(t, f) == f[s] && InnerWeight(t, f) == 0 && Symbols(t) == [s]
  {
  }

  lemma SortNext(ws: seq<nat>, i: nat)
    requires i < |ws|
    ensures Sort(ws[..i + 1]) == Insert(ws[i], Sort(ws[..i]))
  {
    assert ws[..i + 1][..i] == ws[..i];
  }

  lemma AllSymbolsNext(n: nat)
    ensures multiset(AllSymbols(n + 1)) == multiset{n} + multiset(AllSymbols(n))
  {
    assert AllSymbols(n + 1) == AllSymbols(n) + [n];
  }

  // With one tree left nothing is left to merge.
  lemma LastTree(q: seq<Entry>, nodes: seq<nat>, n: nat, f: Freqs, ref: nat)
    requires |q| == 1 && HasRef(q, ref)
    ensures ForestInner(q, nodes, n, f) == InnerWeight(TreeOf(nodes, n, ref), f)
    ensures ForestSymbols(q, nodes, n) == Symbols(TreeOf(nodes, n, ref))
    ensures Merging(Frequencies(q)) == 0
  {
    hide TreeOf, Symbols, InnerWeight;
    assert q[1..] == [];
  }

  lemma LeastOfAll(t: Tree, f: Freqs, n: nat)
    requires |f| == n && InnerWeight(t, f) == Merging(Sort(f))
    ensures forall other :: IsCodeTree(other, n) ==> PathLength(t, f, 0) <= PathLength(other, f, 0)
  {
    hide Merging, Sort, InnerWeight;
    PathLengthIsInnerWeight(t, f, 0);
    assert WeightsOf(AllSymbols(n), f) == f;
    forall other | IsCodeTree(other, n) ensures PathLength(t, f, 0) <= PathLength(other, f, 0) {
      TreeIsNotBelowMerging(other, f);
      SameWeights(Symbols(other), AllSymbols(n), f);
    }
  }

  lemma FirstOne(q: seq<Entry>, nodes: seq<nat>, n: nat, f: Freqs, ref: nat)
    requires q != [] && IsForest(q, nodes, n, f, ref)
    ensures IsForest(q[1..], nodes, n, f, ref) && q[0].ref < ref && q[0].freq == Weight(TreeOf(nodes, n, q[0].ref), f)
    ensures ForestInner(q, nodes, n, f) == InnerWeight(TreeOf(nodes, n, q[0].ref), f) + ForestInner(q[1..], nodes, n, f)
    ensures ForestSymbols(q, nodes, n) == Symbols(TreeOf(nodes, n, q[0].ref)) + ForestSymbols(q[1..], nodes, n)
    ensures Frequencies(q)[0] == q[0].freq && Frequencies(q)[1..] == Frequencies(q[1..])
  {
    hide InnerWeight, TreeOf, Symbols, Weight;
  }

  lemma MergeFirst(ws: seq<nat>, a: nat, b: nat, rest: seq<nat>)
    requires |ws| >= 2 && ws[0] == a && ws[1..][0] == b && ws[1..][1..] == rest
    ensures Merging(ws) == a + b + Merging(Insert(a + b, rest))
  {
    assert ws[2..] == rest;
  }

  lemma NewNode(nodes: seq<nat>, n: nat, ref: nat, left: nat, right: nat)
    requires n <= ref && 2 * (ref - n) + 1 < |nodes| && left < ref && right < ref
    ensures var changed := nodes[2 * (ref - n) := left][2 * (ref - n) + 1 := right];
      TreeOf(changed, n, ref) == Node(TreeOf(changed, n, left), TreeOf(changed, n, right))
  {
  }

  // One turn of the loop: the two lightest trees become one.
  lemma Combined(q: seq<Entry>, nodes: seq<nat>, n: nat, f: Freqs, ref: nat)
    requires |q| >= 2 && n <= ref && 2 * (ref - n) + 1 < |nodes| && IsForest(q, nodes, n, f, ref)
    ensures var changed := nodes[2 * (ref - n) := q[0].ref][2 * (ref - n) + 1 := q[1].ref];
      var r := Enqueue(Entry(q[0].freq + q[1].freq, ref), q[2..]);
      && IsForest(r, changed, n, f, ref + 1)
      && ForestInner(r, changed, n, f) + Merging(Frequencies(r)) == ForestInner(q, nodes, n, f) + Merging(Frequencies(q))
      && multiset(ForestSymbols(r, changed, n)) == multiset(ForestSymbols(q, nodes, n))
  {
    hide InnerWeight, Insert, TreeOf, IsForest, ForestInner, ForestSymbols, Merging, Frequencies, Enqueue, Symbols, Weight;
    var changed := nodes[2 * (ref - n) := q[0].ref][2 * (ref - n) + 1 := q[1].ref];
    var rest := q[2..];
    assert q[1..][0] == q[1] && q[1..][1..] == rest;
    ForestStays(q, nodes, changed, n, f, ref);
    FirstOne(q, changed, n, f, ref);
    FirstOne(q[1..], changed, n, f, ref);
    MergeFirst(Frequencies(q), q[0].freq, q[1].freq, Frequencies(rest));
    NewNode(nodes, n, ref, q[0].ref, q[1].ref);
    JoinedWeight(TreeOf(changed, n, q[0].ref), TreeOf(changed, n, q[1].ref), f);
    ForestGrows(rest, changed, n, f, ref);
    EnqueueForest(Entry(q[0].freq + q[1].freq, ref), rest, changed, n, f, ref + 1);
  }

  lemma ForestGrows(q: seq<Entry>, nodes: seq<nat>, n: nat, f: Freqs, ref: nat)
    requires IsForest(q, nodes, n, f, ref)
    ensures IsForest(q, nodes, n, f, ref + 1)
  {
  }

  lemma JoinedWeight(l: Tree, r: Tree, f: Freqs)
    ensures Weight(Node(l, r), f) == Weight(l, f) + Weight(r, f)
    ensures InnerWeight(Node(l, r), f) == Weight(l, f) + Weight(r, f) + InnerWeight(l, f) + InnerWeight(r, f)
    ensures Symbols(Node(l, r)) == Symbols(l) + Symbols(r)
  {
  }

  // The tree it leaves in t is over all symbols, and no tree over them is cheaper.
  method Generate(f: Freqs, t: HuffmanTree)
    requires |f| == t.numSymbols > 0 && |t.nodes| == 2 * (t.numSymbols - 1)
    modifies t
    ensures |t.nodes| == |old(t.nodes)| && IsCodeTree(t.Shape(), t.numSymbols)
    ensures forall other :: IsCodeTree(other, t.numSymbols) ==> PathLength(t.Shape(), f, 0) <= PathLength(other, f, 0)
  {
    hide TreeOf, IsForest, ForestInner, ForestSymbols, Merging, Frequencies, Sort, Enqueue;
    var n := t.numSymbols;
    var q := EnqueueSymbols(f, n, t.nodes);
    var ref := n;
    while ref < 2 * n - 1
      invariant n <= ref <= 2 * n - 1 && |q| == 2 * n - ref && |t.nodes| == 2 * (n - 1)
      invariant IsForest(q, t.nodes, n, f, ref) && HasRef(q, ref - 1)
      invariant ForestInner(q, t.nodes, n, f) + Merging(Frequencies(q)) == Merging(Sort(f))
      invariant multiset(ForestSymbols(q, t.nodes, n)) == multiset(AllSymbols(n))
    {
      Combined(q, t.nodes, n, f, ref);
      var left := q[0];
      q := q[1..];
      var right := q[0];
      q := q[1..];
      var freq := left.freq + right.freq;
      t.nodes := t.nodes[2 * (ref - n) := left.ref];
      t.nodes := t.nodes[2 * (ref - n) + 1 := right.ref];
      EnqueueHas(Entry(freq, ref), q);
      q := Enqueue(Entry(freq, ref), q);
      ref := ref + 1;
    }
    LastTree(q, t.nodes, n, f, 2 * n - 2);
    LeastOfAll(t.Shape(), f, n);
  }
}
