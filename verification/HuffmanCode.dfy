// The code table of a Huffman tree, encoding into a bit vector and decoding from it
// (src/trie/huffman.hpp).
module HuffmanCodes {
  import opened Sequences
  import opened Huffmans
  import opened BitVectors

  // ----- Codes -----

  // The way from the root to a leaf, false for left.
  datatype Path = NoPath | Found(bits: seq<bool>)

  function PathTo(t: Tree, symbol: nat): Path {
    match t
    case Leaf(s) => if s == symbol then Found([]) else NoPath
    case Node(l, r) =>
      match PathTo(l, symbol)
      case Found(bits) => Found([false] + bits)
      case NoPath =>
        match PathTo(r, symbol)
        case Found(bits) => Found([true] + bits)
        case NoPath => NoPath
  }

  lemma {:induction false} PathIffSymbol(t: Tree, symbol: nat)
    ensures PathTo(t, symbol).Found? <==> symbol in Symbols(t)
    ensures PathTo(t, symbol).Found? ==> |PathTo(t, symbol).bits| <= Height(t)
    ensures t.Node? && PathTo(t, symbol).Found? ==> PathTo(t, symbol).bits != []
  {
    match t
    case Leaf(s) =>
    case Node(l, r) =>
      PathIffSymbol(l, symbol);
      PathIffSymbol(r, symbol);
  }

  // ----- Decoding -----

  // Where decode stops from bit i on: at a leaf, or out of bits.
  datatype Walk = OutOfBits | At(symbol: nat, next: nat)

  function WalkFrom(t: Tree, bits: seq<bool>, i: nat): Walk
    requires i <= |bits|
  {
    match t
    case Leaf(s) => At(s, i)
    case Node(l, r) =>
      if i == |bits| then OutOfBits else WalkFrom(if !bits[i] then l else r, bits, i + 1)
  }

  // No code is the start of another: following a code ends at its symbol whatever
  // comes behind it.
  lemma {:induction false} WalkFollows(t: Tree, symbol: nat, bits: seq<bool>, i: nat)
    requires PathTo(t, symbol).Found? && i + |PathTo(t, symbol).bits| <= |bits|
    requires bits[i..i + |PathTo(t, symbol).bits|] == PathTo(t, symbol).bits
    ensures WalkFrom(t, bits, i) == At(symbol, i + |PathTo(t, symbol).bits|)
  {
    match t
    case Leaf(s) =>
    case Node(l, r) =>
      var path := PathTo(t, symbol).bits;
      assert bits[i] == path[0];
      var child := if !bits[i] then l else r;
      assert PathTo(child, symbol).bits == path[1..] == bits[i + 1..i + |path|];
      WalkFollows(child, symbol, bits, i + 1);
  }

  const N_SYMBOL := -1

  // Decoding until nsymbol is returned or the bits run out inside a code.
  function DecodeAll(t: Tree, bits: seq<bool>, i: nat): seq<nat>
    requires i <= |bits|
    decreases |bits| - i
  {
    if i == |bits| then []
    else
      match WalkFrom(t, bits, i)
      case OutOfBits => []
      case At(symbol, next) => [symbol] + if i < next <= |bits| then DecodeAll(t, bits, next) else []
  }

  function EncodeAll(t: Tree, symbols: seq<nat>): seq<bool> {
    if symbols == [] then []
    else EncodeAll(t, symbols[..|symbols| - 1]) +
         match PathTo(t, symbols[|symbols| - 1]) case Found(bits) => bits case NoPath => []
  }

  lemma {:induction false} EncodeAllFront(t: Tree, symbols: seq<nat>)
    requires symbols != []
    ensures EncodeAll(t, symbols) ==
            (match PathTo(t, symbols[0]) case Found(bits) => bits case NoPath => []) + EncodeAll(t, symbols[1..])
  {
    var n := |symbols| - 1;
    if n > 0 {
      EncodeAllFront(t, symbols[..n]);
      assert symbols[..n][1..] == symbols[1..][..n - 1];
    }
  }

  lemma DecodeStep(t: Tree, bits: seq<bool>, i: nat, symbol: nat, next: nat)
    requires i < next <= |bits| && WalkFrom(t, bits, i) == At(symbol, next)
    ensures DecodeAll(t, bits, i) == [symbol] + DecodeAll(t, bits, next)
  {
    hide WalkFrom;
  }

  lemma Middle(a: seq<bool>, b: seq<bool>, c: seq<bool>)
    ensures (a + b + c)[|a|..|a| + |b|] == b && |a + b + c| == |a| + |b| + |c| && a + (b + c) == a + b + c
  {
  }

  // One code is decoded, the rest goes on behind it.
  lemma DecodeOne(t: Tree, symbol: nat, before: seq<bool>, after: seq<bool>)
    requires t.Node? && symbol in Symbols(t)
    ensures PathTo(t, symbol).Found?
    ensures var path := PathTo(t, symbol).bits;
      var bits := before + path + after;
      DecodeAll(t, bits, |before|) == [symbol] + DecodeAll(t, bits, |before + path|)
  {
    hide PathTo, WalkFrom, Symbols, DecodeAll;
    PathIffSymbol(t, symbol);
    var path := PathTo(t, symbol).bits;
    Middle(before, path, after);
    WalkFollows(t, symbol, before + path + after, |before|);
    DecodeStep(t, before + path + after, |before|, symbol, |before| + |path|);
  }

  lemma NothingLeft(t: Tree, bits: seq<bool>)
    ensures DecodeAll(t, bits, |bits|) == [] && EncodeAll(t, []) == [] && bits + [] == bits
  {
  }

  // Decoding undoes encoding for every tree with an inner node.
  lemma {:induction false} DecodeUndoesEncode(t: Tree, symbols: seq<nat>, before: seq<bool>)
    requires t.Node? && forall i :: 0 <= i < |symbols| ==> symbols[i] in Symbols(t)
    ensures DecodeAll(t, before + EncodeAll(t, symbols), |before|) == symbols
    decreases |symbols|
  {
    hide PathTo, WalkFrom, Symbols, EncodeAll, DecodeAll;
    if symbols == [] {
      NothingLeft(t, before);
    } else {
      var rest := EncodeAll(t, symbols[1..]);
      DecodeOne(t, symbols[0], before, rest);
      var path := PathTo(t, symbols[0]).bits;
      EncodeAllFront(t, symbols);
      Middle(before, path, rest);
      DecodeUndoesEncode(t, symbols[1..], before + path);
      assert symbols == [symbols[0]] + symbols[1..];
    }
  }

  lemma {:induction false} LeafEncodesNothing(symbols: seq<nat>)
    requires forall i :: 0 <= i < |symbols| ==> symbols[i] == 0
    ensures EncodeAll(Leaf(0), symbols) == []
  {
    if symbols != [] {
      LeafEncodesNothing(symbols[..|symbols| - 1]);
    }
  }

  // For the tree over n symbols, decoding undoes encoding exactly when there are two
  // symbols or more: the code of an only symbol is empty.
  lemma RoundTripNeedsTwoSymbols(t: Tree, n: nat)
    requires n > 0 && IsCodeTree(t, n)
    ensures (forall symbols: seq<nat> :: (forall i :: 0 <= i < |symbols| ==> symbols[i] < n) ==>
               DecodeAll(t, EncodeAll(t, symbols), 0) == symbols) <==> n >= 2
  {
    SymbolCount(t, n);
    if n >= 2 {
      forall symbols: seq<nat> | forall i :: 0 <= i < |symbols| ==> symbols[i] < n
        ensures DecodeAll(t, EncodeAll(t, symbols), 0) == symbols
      {
        DecodeUndoesEncode(t, symbols, []);
        assert [] + EncodeAll(t, symbols) == EncodeAll(t, symbols);
      }
    } else {
      LeafEncodesNothing([0]);
      var symbols := [0];
      assert DecodeAll(t, EncodeAll(t, symbols), 0) != symbols;
    }
  }

  lemma {:induction false} AllOnce(n: nat, s: nat)
    ensures multiset(AllSymbols(n))[s] == if s < n then 1 else 0
  {
    if n > 0 {
      AllOnce(n - 1, s);
      AllSymbolsNext(n - 1);
    }
  }

  lemma CountTwice(s: seq<nat>, i: nat, j: nat)
    requires i < j < |s| && s[i] == s[j]
    ensures multiset(s)[s[i]] >= 2
  {
    assert s == s[..i] + [s[i]] + (s[i + 1..j] + [s[j]] + s[j + 1..]);
  }

  lemma {:induction false} SymbolsNotEmpty(t: Tree)
    ensures Symbols(t) != []
  {
    if t.Node? {
      SymbolsNotEmpty(t.left);
    }
  }

  lemma SymbolCount(t: Tree, n: nat)
    requires IsCodeTree(t, n)
    ensures |Symbols(t)| == n && NoRepeats(Symbols(t)) && forall s: nat :: s in Symbols(t) <==> s < n
    ensures n >= 2 ==> t.Node?
    ensures n == 1 ==> t == Leaf(0)
  {
    var all, ss := AllSymbols(n), Symbols(t);
    assert |ss| == |multiset(ss)| == |multiset(all)| == n;
    forall s: nat ensures s in ss <==> s < n {
      AllOnce(n, s);
      assert s in multiset(ss) <==> s in multiset(all);
    }
    forall i, j | 0 <= i < j < |ss| ensures ss[i] != ss[j] {
      AllOnce(n, ss[i]);
      if ss[i] == ss[j] {
        CountTwice(ss, i, j);
        assert false;
      }
    }
    if t.Node? {
      SymbolsNotEmpty(t.left);
      SymbolsNotEmpty(t.right);
    } else {
      assert ss == [t.symbol] && t.symbol in ss;
    }
  }

  // ----- The code table -----

  const BLOCK_BITS := 32

  lemma {:induction false} HeightBelowCount(t: Tree)
    ensures Height(t) < |Symbols(t)|
  {
    if t.Node? {
      HeightBelowCount(t.left);
      HeightBelowCount(t.right);
    }
  }

  // Symbol s has its code in the table: the given bits and the way to s in t.
  ghost predicate Coded(codes: seq<seq<Block>>, lengths: seq<nat>, t: Tree, s: nat, prefix: seq<bool>)
  {
    && s < |codes| == |lengths| && PathTo(t, s).Found? && WellFormed(codes[s], BLOCK_BITS)
    && lengths[s] == |prefix| + |PathTo(t, s).bits|
    && (lengths[s] > 0 ==> WordOf(BLOCK_BITS, lengths[s] - 1) < |codes[s]|)
    && Row(codes[s], BLOCK_BITS, 0, lengths[s]) == prefix + PathTo(t, s).bits
  }

  ghost predicate AllCoded(codes: seq<seq<Block>>, lengths: seq<nat>, t: Tree, prefix: seq<bool>) {
    forall s :: s in Symbols(t) ==> Coded(codes, lengths, t, s, prefix)
  }

  // Only the entries of t's symbols differ.
  ghost predicate OthersSame(a: seq<seq<Block>>, b: seq<seq<Block>>, l: seq<nat>, m: seq<nat>, t: Tree) {
    |a| == |b| == |l| == |m| && forall s :: 0 <= s < |a| && s !in Symbols(t) ==> a[s] == b[s] && l[s] == m[s]
  }

  lemma LeafCoded(codes: seq<seq<Block>>, lengths: seq<nat>, s: nat, prefix: seq<Block>, depth: nat)
    requires s < |codes| == |lengths| && WellFormed(prefix, BLOCK_BITS)
    requires BlockCount(depth, BLOCK_BITS) <= |prefix|
    requires codes[s] == prefix[..BlockCount(depth, BLOCK_BITS)] && lengths[s] == depth
    ensures AllCoded(codes, lengths, Leaf(s), Row(prefix, BLOCK_BITS, 0, depth))
  {
    hide WordOf, OffsetOf, BlockCount;
    if depth > 0 {
      CountCovers(depth, BLOCK_BITS, depth - 1);
    }
    forall i: nat | i < depth ensures BitAt(codes[s], BLOCK_BITS, i) == BitAt(prefix, BLOCK_BITS, i) {
      CountCovers(depth, BLOCK_BITS, i);
    }
    assert Row(codes[s], BLOCK_BITS, 0, depth) == Row(prefix, BLOCK_BITS, 0, depth) + [];
  }

  lemma Prepend(prefix: seq<bool>, b: bool, bits: seq<bool>)
    ensures prefix + [b] + bits == prefix + ([b] + bits)
  {
  }

  lemma HalfCoded(codes: seq<seq<Block>>, lengths: seq<nat>, l: Tree, r: Tree, prefix: seq<bool>, s: nat, b: bool)
    requires b ==> s !in Symbols(l)
    requires Coded(codes, lengths, if b then r else l, s, prefix + [b])
    ensures Coded(codes, lengths, Node(l, r), s, prefix)
  {
    hide Row, WordOf, WellFormed;
    PathIffSymbol(l, s);
    var child := if b then r else l;
    assert PathTo(Node(l, r), s) == Found([b] + PathTo(child, s).bits);
    Prepend(prefix, b, PathTo(child, s).bits);
  }

  // The table of a node is that of its left half under a 0 and of its right half under a 1.
  lemma HalvesCoded(codes: seq<seq<Block>>, lengths: seq<nat>, l: Tree, r: Tree, prefix: seq<bool>)
    requires NoRepeats(Symbols(l) + Symbols(r))
    requires AllCoded(codes, lengths, l, prefix + [false]) && AllCoded(codes, lengths, r, prefix + [true])
    ensures AllCoded(codes, lengths, Node(l, r), prefix)
  {
    hide Coded;
    forall s | s in Symbols(Node(l, r)) ensures Coded(codes, lengths, Node(l, r), s, prefix) {
      HalfCoded(codes, lengths, l, r, prefix, s, s !in Symbols(l));
    }
  }

  lemma StillCoded(codes: seq<seq<Block>>, lengths: seq<nat>, after: seq<seq<Block>>, lengthsAfter: seq<nat>, l: Tree, r: Tree, prefix: seq<bool>)
    requires NoRepeats(Symbols(l) + Symbols(r)) && OthersSame(after, codes, lengthsAfter, lengths, r)
    requires AllCoded(codes, lengths, l, prefix)
    ensures AllCoded(after, lengthsAfter, l, prefix)
  {
    forall s | s in Symbols(l) ensures Coded(after, lengthsAfter, l, s, prefix) {
      assert Coded(codes, lengths, l, s, prefix);
      DistinctHalves(Symbols(l), Symbols(r), s);
    }
  }

  lemma DistinctHalves(a: seq<nat>, b: seq<nat>, s: nat)
    requires NoRepeats(a + b) && s in a
    ensures s !in b
  {
    var i :| 0 <= i < |a| && a[i] == s;
    forall j | 0 <= j < |b| ensures b[j] != s {
      assert (a + b)[i] != (a + b)[|a| + j];
    }
  }

  lemma DistinctParts(a: seq<nat>, b: seq<nat>)
    requires NoRepeats(a + b)
    ensures NoRepeats(a) && NoRepeats(b)
  {
    forall i, j | 0 <= i < j < |a| ensures a[i] != a[j] {
      assert (a + b)[i] != (a + b)[j];
    }
    forall i, j | 0 <= i < j < |b| ensures b[i] != b[j] {
      assert (a + b)[|a| + i] != (a + b)[|a| + j];
    }
  }

  // What a call must find: a tree over table entries, and room in the prefix.
  ghost predicate CanGenerate(t: Tree, n: nat, blocks: nat, depth: nat) {
    && NoRepeats(Symbols(t)) && (forall s :: s in Symbols(t) ==> s < n)
    && depth + Height(t) < 256 && BlockCount(depth + Height(t), BLOCK_BITS) <= blocks
  }

  lemma CanGenerateHalves(l: Tree, r: Tree, n: nat, blocks: nat, depth: nat)
    requires CanGenerate(Node(l, r), n, blocks, depth)
    ensures WordOf(BLOCK_BITS, depth) < blocks
    ensures CanGenerate(l, n, blocks, depth + 1) && CanGenerate(r, n, blocks, depth + 1)
  {
    DistinctParts(Symbols(l), Symbols(r));
    CountCovers(depth + Height(Node(l, r)), BLOCK_BITS, depth);
    MoreBlocks(depth + 1 + Height(l), depth + Height(Node(l, r)), BLOCK_BITS);
    MoreBlocks(depth + 1 + Height(r), depth + Height(Node(l, r)), BLOCK_BITS);
    hide BlockCount, WordOf;
    forall s | s in Symbols(l) || s in Symbols(r) ensures s < n {
      assert s in Symbols(l) + Symbols(r);
    }
  }

  // The row of the prefix after its bit at `depth` is set or unset.
  lemma PrefixExtended(before: seq<Block>, depth: nat, b: bool)
    requires WellFormed(before, BLOCK_BITS) && WordOf(BLOCK_BITS, depth) < |before|
    ensures Row(WithBit(before, BLOCK_BITS, depth, b), BLOCK_BITS, 0, depth + 1) == Row(before, BLOCK_BITS, 0, depth) + [b]
  {
    WithBitAt(before, BLOCK_BITS, depth, b);
    hide BitAt, WithBit;
  }

  // generate: the codes of all symbols below p go into the table.
  method GenerateCodes(nodes: seq<nat>, n: nat, p: nat, prefix: array<Block>, depth: nat, codes: array<seq<Block>>, lengths: array<nat>)
    requires CanGenerate(TreeOf(nodes, n, p), n, prefix.Length, depth) && codes.Length == lengths.Length == n
    requires WellFormed(prefix[..], BLOCK_BITS)
    modifies prefix, codes, lengths
    ensures WellFormed(prefix[..], BLOCK_BITS)
    ensures Row(prefix[..], BLOCK_BITS, 0, depth) == old(Row(prefix[..], BLOCK_BITS, 0, depth))
    ensures AllCoded(codes[..], lengths[..], TreeOf(nodes, n, p), old(Row(prefix[..], BLOCK_BITS, 0, depth)))
    ensures OthersSame(codes[..], old(codes[..]), lengths[..], old(lengths[..]), TreeOf(nodes, n, p))
    decreases p
  {
    ghost var t := TreeOf(nodes, n, p);
    if p < n {
      assert t == Leaf(p);
      codes[p] := prefix[..BlockCount(depth, BLOCK_BITS)];
      lengths[p] := depth;
      LeafCoded(codes[..], lengths[..], p, prefix[..], depth);
    } else {
      hide AllCoded, WithBit, Row, WellFormed;
      assert t.Node? by { NodeAbove(t, n, p); }
      ghost var l, r := t.left, t.right;
      ghost var row := Row(prefix[..], BLOCK_BITS, 0, depth);
      CanGenerateHalves(l, r, n, prefix.Length, depth);

      SetPrefix(prefix, depth, false);
      GenerateCodes(nodes, n, nodes[2 * (p - n)], prefix, depth + 1, codes, lengths);
      ghost var codes1, lengths1 := codes[..], lengths[..];
      PrefixRow(prefix[..], depth, row, false);

      SetPrefix(prefix, depth, true);
      GenerateCodes(nodes, n, nodes[2 * (p - n) + 1], prefix, depth + 1, codes, lengths);
      PrefixRow(prefix[..], depth, row, true);

      StillCoded(codes1, lengths1, codes[..], lengths[..], l, r, row + [false]);
      HalvesCoded(codes[..], lengths[..], l, r, row);
    }
  }

  // bit_access::set and unset on the prefix.
  method SetPrefix(prefix: array<Block>, depth: nat, b: bool)
    requires WellFormed(prefix[..], BLOCK_BITS) && WordOf(BLOCK_BITS, depth) < prefix.Length
    modifies prefix
    ensures WellFormed(prefix[..], BLOCK_BITS)
    ensures Row(prefix[..], BLOCK_BITS, 0, depth + 1) == old(Row(prefix[..], BLOCK_BITS, 0, depth)) + [b]
  {
    hide WordOf, OffsetOf, Row;
    ghost var before := prefix[..];
    WithBitAt(before, BLOCK_BITS, depth, b);
    PrefixExtended(before, depth, b);
    var w := WordOf(BLOCK_BITS, depth);
    prefix[w] := prefix[w][OffsetOf(BLOCK_BITS, depth) := b];
    assert prefix[..] == WithBit(before, BLOCK_BITS, depth, b);
  }

  lemma PrefixRow(prefix: seq<Block>, depth: nat, row: seq<bool>, b: bool)
    requires Row(prefix, BLOCK_BITS, 0, depth + 1) == row + [b]
    ensures Row(prefix, BLOCK_BITS, 0, depth) == row
  {
    hide BitAt;
    assert Row(prefix, BLOCK_BITS, 0, depth) == Row(prefix, BLOCK_BITS, 0, depth + 1)[..depth];
    assert (row + [b])[..|row|] == row;
  }

  // A reference that is no symbol has children when only symbols are leaves.
  lemma NodeAbove(t: Tree, n: nat, p: nat)
    requires p >= n && (forall s :: s in Symbols(t) ==> s < n) && (t.Leaf? ==> t.symbol == p)
    ensures t.Node?
  {
    if t.Leaf? {
      assert t.symbol in Symbols(t);
    }
  }

  // ----- The coder -----

  class Huffman {
    const nodes: seq<nat>
    const numSymbols: nat
    const codes: array<seq<Block>>
    const lengths: array<nat>

    ghost function Shape(): Tree
      requires numSymbols > 0
    {
      TreeOf(nodes, numSymbols, 2 * numSymbols - 2)
    }

    ghost predicate Valid()
      reads codes, lengths
    {
      numSymbols > 0 && IsCodeTree(Shape(), numSymbols) && AllCoded(codes[..], lengths[..], Shape(), [])
    }

    lemma HasTree()
      requires Valid()
      ensures numSymbols > 0 && IsCodeTree(Shape(), numSymbols)
    {
    }

    // The table keeps code lengths in bytes: codes must be shorter than 256 bits.
    constructor (t: HuffmanTree)
      requires t.numSymbols > 0 && IsCodeTree(t.Shape(), t.numSymbols) && Height(t.Shape()) < 256
      ensures Valid() && numSymbols == t.numSymbols && Shape() == t.Shape()
      ensures fresh(codes) && fresh(lengths)
    {
      var n := t.numSymbols;
      var prefix := new Block[BlockCount(n, BLOCK_BITS)](i => Zeros(BLOCK_BITS));
      var c := new seq<Block>[n](i => []);
      var l := new nat[n](i => 0);
      SymbolCount(t.Shape(), n);
      HeightBelowCount(t.Shape());
      MoreBlocks(Height(t.Shape()), n, BLOCK_BITS);
      GenerateCodes(t.nodes, n, 2 * n - 2, prefix, 0, c, l);
      assert forall blocks: seq<Block> :: Row(blocks, BLOCK_BITS, 0, 0) == [];
      nodes, numSymbols, codes, lengths := t.nodes, n, c, l;
    }

    method Encode(out: BitVector, symbol: nat)
      requires Valid() && symbol < numSymbols && out.Valid()
      modifies out, out.buf
      ensures out.Valid() && (out.buf == old(out.buf) || fresh(out.buf))
      ensures PathTo(Shape(), symbol).Found? && out.Bits() == old(out.Bits()) + PathTo(Shape(), symbol).bits
    {
      hide IsCodeTree;
      SymbolCount(Shape(), numSymbols);
      assert Coded(codes[..], lengths[..], Shape(), symbol, []);
      var len := lengths[symbol];
      var code := codes[symbol];
      out.Append(code, BLOCK_BITS, 0, len);
      assert [] + PathTo(Shape(), symbol).bits == PathTo(Shape(), symbol).bits;
    }

    // The source asserts that the bits do not end inside a code.
    method Decode(buf: BitVector, iter: nat) returns (symbol: int, next: nat)
      requires Valid() && buf.Valid() && iter <= buf.size
      requires iter < buf.size ==> WalkFrom(Shape(), buf.Bits(), iter).At?
      ensures iter == buf.size ==> symbol == N_SYMBOL && next == iter
      ensures iter < buf.size ==> symbol >= 0 && WalkFrom(Shape(), buf.Bits(), iter) == At(symbol, next)
    {
      hide BitAt, IsCodeTree, AllCoded, BitVector.Valid, WalkFrom, TreeOf;
      next := iter;
      if next == buf.size {
        return N_SYMBOL, next;
      }
      SymbolCount(Shape(), numSymbols);
      var p: nat := 2 * numSymbols - 2;
      ghost var bits, all := buf.Bits(), Shape();
      while p >= numSymbols
        invariant next <= |bits| && WalkFrom(TreeOf(nodes, numSymbols, p), bits, next) == WalkFrom(all, bits, iter)
        invariant forall s :: s in Symbols(TreeOf(nodes, numSymbols, p)) ==> s < numSymbols
        decreases p
      {
        Descend(nodes, numSymbols, p, bits, next);
        var bit := buf.Get(next);
        next := next + 1;
        p := if !bit then nodes[2 * (p - numSymbols)] else nodes[2 * (p - numSymbols) + 1];
      }
      assert TreeOf(nodes, numSymbols, p) == Leaf(p) by { SymbolIsLeaf(nodes, numSymbols, p); }
      assert WalkFrom(Leaf(p), bits, next) == At(p, next) by { WalkEnds(p, bits, next); }
      symbol := p;
    }
  }

  lemma SymbolIsLeaf(nodes: seq<nat>, n: nat, p: nat)
    requires p < n
    ensures TreeOf(nodes, n, p) == Leaf(p)
  {
  }

  lemma WalkEnds(s: nat, bits: seq<bool>, i: nat)
    requires i <= |bits|
    ensures WalkFrom(Leaf(s), bits, i) == At(s, i)
  {
  }

  // One bit leads to a child.
  lemma Descend(nodes: seq<nat>, n: nat, p: nat, bits: seq<bool>, i: nat)
    requires p >= n && i <= |bits| && forall s :: s in Symbols(TreeOf(nodes, n, p)) ==> s < n
    requires WalkFrom(TreeOf(nodes, n, p), bits, i).At?
    ensures 2 * (p - n) + 1 < |nodes| && i < |bits|
    ensures var q := if !bits[i] then nodes[2 * (p - n)] else nodes[2 * (p - n) + 1];
      && q < p && WalkFrom(TreeOf(nodes, n, q), bits, i + 1) == WalkFrom(TreeOf(nodes, n, p), bits, i)
      && forall s :: s in Symbols(TreeOf(nodes, n, q)) ==> s < n
  {
    var t := TreeOf(nodes, n, p);
    NodeAbove(t, n, p);
    assert Symbols(t) == Symbols(t.left) + Symbols(t.right);
    forall s | s in Symbols(t.left) || s in Symbols(t.right) ensures s < n {
      assert s in Symbols(t);
    }
  }

  // ----- A text there and back -----

  function CodeOf(t: Tree, symbol: nat): seq<bool> {
    match PathTo(t, symbol) case Found(bits) => bits case NoPath => []
  }

  lemma EncodeLast(t: Tree, symbols: seq<nat>)
    requires symbols != []
    ensures EncodeAll(t, symbols) == EncodeAll(t, symbols[..|symbols| - 1]) + CodeOf(t, symbols[|symbols| - 1])
  {
  }

  lemma {:induction false} EncodeSplit(t: Tree, symbols: seq<nat>, k: nat)
    requires k < |symbols|
    ensures EncodeAll(t, symbols) == EncodeAll(t, symbols[..k]) + CodeOf(t, symbols[k]) + EncodeAll(t, symbols[k + 1..])
    decreases |symbols|
  {
    hide EncodeAll, CodeOf;
    var n := |symbols| - 1;
    EncodeLast(t, symbols);
    if k < n {
      EncodeSplit(t, symbols[..n], k);
      EncodeLast(t, symbols[k + 1..]);
      assert symbols[..n][..k] == symbols[..k] && symbols[..n][k + 1..] == symbols[k + 1..][..n - k - 1];
    } else {
      assert symbols[k + 1..] == [];
      NothingLeft(t, []);
    }
  }

  // At the end of one code the next one starts.
  lemma NextCode(t: Tree, n: nat, symbols: seq<nat>, k: nat)
    requires n >= 2 && IsCodeTree(t, n) && k < |symbols| && symbols[k] < n
    ensures var bits, i, next := EncodeAll(t, symbols), |EncodeAll(t, symbols[..k])|, |EncodeAll(t, symbols[..k + 1])|;
      i < next <= |bits| && WalkFrom(t, bits, i) == At(symbols[k], next)
  {
    hide WalkFrom, EncodeAll;
    SymbolCount(t, n);
    PathIffSymbol(t, symbols[k]);
    EncodeSplit(t, symbols, k);
    var before, code, after := EncodeAll(t, symbols[..k]), CodeOf(t, symbols[k]), EncodeAll(t, symbols[k + 1..]);
    assert EncodeAll(t, symbols[..k + 1]) == before + code by {
      EncodeSplit(t, symbols[..k + 1], k);
      assert symbols[..k + 1][..k] == symbols[..k] && symbols[..k + 1][k + 1..] == [];
      NothingLeft(t, []);
    }
    Middle(before, code, after);
    WalkFollows(t, symbols[k], before + code + after, |before|);
  }

  method EncodeText(h: Huffman, symbols: seq<nat>) returns (out: BitVector)
    requires h.Valid() && forall i :: 0 <= i < |symbols| ==> symbols[i] < h.numSymbols
    ensures fresh(out) && fresh(out.buf) && out.Valid() && out.Bits() == EncodeAll(h.Shape(), symbols)
  {
    hide Huffman.Valid, BitVector.Valid, PathTo, EncodeAll;
    h.HasTree();
    out := new BitVector(BLOCK_BITS);
    var k := 0;
    NothingLeft(h.Shape(), []);
    assert symbols[..0] == [];
    while k < |symbols|
      invariant k <= |symbols| && h.Valid() && fresh(out) && fresh(out.buf) && out.Valid()
      invariant out.Bits() == EncodeAll(h.Shape(), symbols[..k])
    {
      h.Encode(out, symbols[k]);
      EncodeLast(h.Shape(), symbols[..k + 1]);
      assert symbols[..k + 1][..k] == symbols[..k];
      k := k + 1;
    }
    assert symbols[..k] == symbols;
  }

  // A text over two symbols or more is decoded as it was encoded.
  method TextThereAndBack(h: Huffman, symbols: seq<nat>) returns (back: seq<nat>)
    requires h.Valid() && h.numSymbols >= 2 && forall i :: 0 <= i < |symbols| ==> symbols[i] < h.numSymbols
    ensures back == symbols
  {
    hide Huffman.Valid, BitVector.Valid, EncodeAll, WalkFrom, IsCodeTree, TreeOf, PathTo;
    ghost var t := h.Shape();
    h.HasTree();
    var buf := EncodeText(h, symbols);
    ghost var bits := buf.Bits();
    back := [];
    var iter := 0;
    NothingLeft(t, []);
    ghost var k := 0;
    while iter < buf.size
      invariant h.Valid() && buf.Valid() && buf.Bits() == bits == EncodeAll(t, symbols) && h.Shape() == t && |bits| == buf.size
      invariant k <= |symbols| && iter == |EncodeAll(t, symbols[..k])| <= buf.size && back == symbols[..k] && (k == |symbols| ==> iter == buf.size)
      decreases buf.size - iter
    {
      NextCode(t, h.numSymbols, symbols, k);
      var symbol;
      symbol, iter := h.Decode(buf, iter);
      back := back + [symbol];
      k := k + 1;
      assert k == |symbols| ==> symbols[..k] == symbols;
    }
    if k < |symbols| {
      NextCode(t, h.numSymbols, symbols, k);
    }
  }
}
