// Bits packed into machine words, most significant first (src/trie/bit_access.hpp,
// src/trie/bit_vector.hpp, src/trie/block_info.hpp).
module BitVectors {

  // A word, most significant bit first.
  type Block = seq<bool>

  function Zeros(n: nat): (z: Block)
    ensures |z| == n
  {
    seq(n, i => false)
  }

  // ----- Word operations -----

  function ShiftLeft(v: Block, k: nat): (r: Block)
    requires k <= |v|
    ensures |r| == |v|
  {
    v[k..] + Zeros(k)
  }

  function ShiftRight(v: Block, k: nat): (r: Block)
    requires k <= |v|
    ensures |r| == |v|
  {
    Zeros(k) + v[..|v| - k]
  }

  // A cast to a word of another width keeps the low bits.
  function Cast(v: Block, width: nat): (r: Block)
    ensures |r| == width
  {
    if width >= |v| then Zeros(width - |v|) + v else v[|v| - width..]
  }

  function Or(a: Block, b: Block): (r: Block)
    requires |a| == |b|
    ensures |r| == |a|
  {
    seq(|a|, i requires 0 <= i < |a| => a[i] || b[i])
  }

  // ----- Words in a row -----

  predicate WellFormed(blocks: seq<Block>, width: nat) {
    width > 0 && forall b :: 0 <= b < |blocks| ==> |blocks[b]| == width
  }

  // block_index, in_block_offset, and back.
  function WordOf(width: nat, i: nat): nat
    requires width > 0
  {
    i / width
  }

  function OffsetOf(width: nat, i: nat): (r: nat)
    requires width > 0
    ensures r < width
  {
    i % width
  }

  function PositionOf(width: nat, d: nat, di: nat): nat {
    d * width + di
  }

  // Bits outside the row count as 0.
  predicate BitAt(blocks: seq<Block>, width: nat, i: nat) {
    && width > 0 && WordOf(width, i) < |blocks| && OffsetOf(width, i) < |blocks[WordOf(width, i)]|
    && blocks[WordOf(width, i)][OffsetOf(width, i)]
  }

  function BlockCount(n: nat, width: nat): nat
    requires width > 0
  {
    (n + width - 1) / width
  }

  lemma SmallMultiple(k: int, width: int)
    requires -width < k * width < width
    ensures k == 0
  {
  }

  lemma Split(width: nat, d: nat, di: nat)
    requires di < width
    ensures WordOf(width, PositionOf(width, d, di)) == d && OffsetOf(width, PositionOf(width, d, di)) == di
  {
    var i := d * width + di;
    var q, r := i / width, i % width;
    assert i == q * width + r;
    assert (q - d) * width == di - r;
    SmallMultiple(q - d, width);
  }

  lemma Join(width: nat, i: nat)
    requires width > 0
    ensures PositionOf(width, WordOf(width, i), OffsetOf(width, i)) == i
  {
  }

  lemma Shift(width: nat, d: nat, di: nat, k: nat)
    ensures PositionOf(width, d, di) + k == PositionOf(width, d, di + k)
    ensures PositionOf(width, d, width) == PositionOf(width, d + 1, 0)
  {
  }

  lemma {:induction false} CountCovers(n: nat, width: nat, i: nat)
    requires width > 0 && i < n
    ensures WordOf(width, i) < BlockCount(n, width)
  {
    var c, q := BlockCount(n, width), i / width;
    assert n + width - 1 == c * width + (n + width - 1) % width;
    assert i == q * width + i % width;
    assert (c - q) * width > 0;
    Positive(c - q, width);
  }

  lemma Positive(k: int, width: nat)
    requires k * width > 0
    ensures k > 0
  {
  }

  // The word one round of copy_set merges in: `len` bits of v from offset si, moved
  // to offset di of a word of the other width.
  function Piece(v: Block, si: nat, len: nat, width: nat, di: nat): (r: Block)
    requires 0 < len && si + len <= |v| && di + len <= width
    ensures |r| == width
  {
    ShiftLeft(Cast(ShiftRight(ShiftLeft(v, si), |v| - len), width), width - di - len)
  }

  lemma PieceBits(v: Block, si: nat, len: nat, width: nat, di: nat)
    requires 0 < len && si + len <= |v| && di + len <= width
    ensures forall j :: 0 <= j < width ==> (Piece(v, si, len, width, di)[j] <==> di <= j < di + len && v[si + j - di])
  {
    var aligned := ShiftRight(ShiftLeft(v, si), |v| - len);
    assert forall k :: 0 <= k < |v| ==> (aligned[k] <==> k >= |v| - len && v[si + k - (|v| - len)]);
    var cast := Cast(aligned, width);
    assert forall k :: 0 <= k < width ==> (cast[k] <==> k >= width - len && v[si + k - (width - len)]);
  }

  // The len positions from offset di of word d on lie in that word.
  lemma InWord(width: nat, d: nat, di: nat, len: nat, i: nat)
    requires width > 0 && di + len <= width
    ensures var start := PositionOf(width, d, di);
      && (start <= i < start + len <==> WordOf(width, i) == d && di <= OffsetOf(width, i) < di + len)
      && (start <= i < start + len ==> OffsetOf(width, i) == di + (i - start))
  {
    hide WordOf, OffsetOf, PositionOf;
    var start := PositionOf(width, d, di);
    if start <= i < start + len {
      Shift(width, d, di, i - start);
      Split(width, d, di + (i - start));
    }
    if WordOf(width, i) == d && di <= OffsetOf(width, i) < di + len {
      Join(width, i);
      Shift(width, d, di, OffsetOf(width, i) - di);
    }
  }

  // ----- copy_set -----

  // Bit i comes from the source: `done` bits from position `from` are moved to `at`.
  predicate Moved(src: seq<Block>, srcWidth: nat, from: nat, at: nat, done: nat, i: nat) {
    at <= i < at + done && BitAt(src, srcWidth, from + (i - at))
  }

  // The row is the old one with those bits added.
  ghost predicate Copied(now: seq<Block>, before: seq<Block>, width: nat, at: nat, src: seq<Block>, srcWidth: nat, from: nat, done: nat) {
    && WellFormed(now, width) && |now| == |before|
    && forall i: nat :: WordOf(width, i) < |now| ==>
         (BitAt(now, width, i) <==> BitAt(before, width, i) || Moved(src, srcWidth, from, at, done, i))
  }

  // One round changes one word: the bits from offset di of word d on.
  lemma RoundBit(now: seq<Block>, width: nat, src: seq<Block>, srcWidth: nat, d: nat, di: nat, s: nat, si: nat, len: nat, i: nat)
    requires WellFormed(now, width) && WellFormed(src, srcWidth) && WordOf(width, i) < |now|
    requires d < |now| && s < |src| && 0 < len && di + len <= width && si + len <= srcWidth
    ensures BitAt(now[d := Or(now[d], Piece(src[s], si, len, width, di))], width, i) <==>
              BitAt(now, width, i) || Moved(src, srcWidth, PositionOf(srcWidth, s, si), PositionOf(width, d, di), len, i)
  {
    hide Piece;
    PieceBits(src[s], si, len, width, di);
    hide WordOf, OffsetOf, PositionOf;
    InWord(width, d, di, len, i);
    var start, from := PositionOf(width, d, di), PositionOf(srcWidth, s, si);
    if start <= i < start + len {
      Shift(srcWidth, s, si, i - start);
      Split(srcWidth, s, si + (i - start));
    }
  }

  lemma RoundCopied(now: seq<Block>, before: seq<Block>, width: nat, at: nat, src: seq<Block>, srcWidth: nat, from: nat, done: nat,
                    d: nat, di: nat, s: nat, si: nat, len: nat)
    requires WellFormed(src, srcWidth) && Copied(now, before, width, at, src, srcWidth, from, done)
    requires d < |now| && s < |src| && 0 < len && di + len <= width && si + len <= srcWidth
    requires at + done == PositionOf(width, d, di) && from + done == PositionOf(srcWidth, s, si)
    ensures Copied(now[d := Or(now[d], Piece(src[s], si, len, width, di))], before, width, at, src, srcWidth, from, done + len)
  {
    hide Piece, BitAt, Or, WordOf, OffsetOf, PositionOf;
    var after := now[d := Or(now[d], Piece(src[s], si, len, width, di))];
    forall i: nat | WordOf(width, i) < |after|
      ensures BitAt(after, width, i) <==> BitAt(before, width, i) || Moved(src, srcWidth, from, at, done + len, i)
    {
      RoundBit(now, width, src, srcWidth, d, di, s, si, len, i);
    }
  }

  lemma NothingCopied(now: seq<Block>, width: nat, at: nat, src: seq<Block>, srcWidth: nat, from: nat)
    requires WellFormed(now, width)
    ensures Copied(now, now, width, at, src, srcWidth, from, 0)
  {
  }

  // The bits of src from srcI on are or-ed into dest from destI on, word by word.
  method CopySet(dest: array<Block>, width: nat, destI: nat, src: seq<Block>, srcWidth: nat, srcI: nat, count: nat)
    requires WellFormed(dest[..], width) && WellFormed(src, srcWidth)
    requires count > 0 ==> WordOf(width, destI + count - 1) < dest.Length && WordOf(srcWidth, srcI + count - 1) < |src|
    modifies dest
    ensures Copied(dest[..], old(dest[..]), width, destI, src, srcWidth, srcI, count)
  {
    hide Copied, ShiftLeft, ShiftRight, Cast, Or, WordOf, OffsetOf, PositionOf;
    var d: nat, s: nat := WordOf(width, destI), WordOf(srcWidth, srcI);
    var di: nat, si: nat := OffsetOf(width, destI), OffsetOf(srcWidth, srcI);
    var left: nat := count;
    ghost var before := dest[..];
    NothingCopied(before, width, destI, src, srcWidth, srcI);
    Join(width, destI);
    Join(srcWidth, srcI);
    while left != 0
      invariant left <= count && di < width && si < srcWidth
      invariant WellFormed(dest[..], width) && Copied(dest[..], before, width, destI, src, srcWidth, srcI, count - left)
      invariant destI + (count - left) == PositionOf(width, d, di) && srcI + (count - left) == PositionOf(srcWidth, s, si)
    {
      StillInside(dest.Length, width, d, di, left, destI + count - 1);
      StillInside(|src|, srcWidth, s, si, left, srcI + count - 1);
      var destAvailable, srcAvailable := width - di, srcWidth - si;
      var copyLen := if destAvailable < srcAvailable then destAvailable else srcAvailable;
      copyLen := if left < copyLen then left else copyLen;
      RoundCopied(dest[..], before, width, destI, src, srcWidth, srcI, count - left, d, di, s, si, copyLen);
      ghost var was := dest[..];
      var srcV := ShiftLeft(src[s], si);
      srcV := ShiftRight(srcV, srcWidth - copyLen);
      var destV := Cast(srcV, width);
      destV := ShiftLeft(destV, width - di - copyLen);
      dest[d] := Or(dest[d], destV);
      assert dest[..] == was[d := Or(was[d], Piece(src[s], si, copyLen, width, di))];
      Shift(width, d, di, copyLen);
      Shift(srcWidth, s, si, copyLen);
      if destAvailable == copyLen {
        d, di := d + 1, 0;
      } else {
        di := di + copyLen;
      }
      if srcAvailable == copyLen {
        s, si := s + 1, 0;
      } else {
        si := si + copyLen;
      }
      left := left - copyLen;
    }
  }

  lemma StillInside(n: nat, width: nat, d: nat, di: nat, left: nat, last: nat)
    requires di < width && left > 0 && WordOf(width, last) < n && last + 1 == PositionOf(width, d, di) + left
    ensures d < n
  {
    var q := last / width;
    assert last == q * width + last % width;
    Factor(q, d, width);
    Positive(q + 1 - d, width);
  }

  lemma Factor(q: nat, d: nat, width: nat)
    ensures (q + 1 - d) * width == q * width + width - d * width
  {
  }

  // ----- bit_vector -----

  // n bits of the row from position `from` on.
  function Row(blocks: seq<Block>, width: nat, from: nat, n: nat): (bits: seq<bool>)
    ensures |bits| == n
  {
    seq(n, i requires 0 <= i < n => BitAt(blocks, width, from + i))
  }

  // bit_access::set and unset.
  function WithBit(blocks: seq<Block>, width: nat, i: nat, b: bool): (r: seq<Block>)
    requires WellFormed(blocks, width) && WordOf(width, i) < |blocks|
    ensures |r| == |blocks|
  {
    blocks[WordOf(width, i) := blocks[WordOf(width, i)][OffsetOf(width, i) := b]]
  }

  lemma WithBitAt(blocks: seq<Block>, width: nat, i: nat, b: bool)
    requires WellFormed(blocks, width) && WordOf(width, i) < |blocks|
    ensures WellFormed(WithBit(blocks, width, i, b), width)
    ensures forall k: nat :: BitAt(WithBit(blocks, width, i, b), width, k) == if k == i then b else BitAt(blocks, width, k)
  {
    hide WordOf, OffsetOf, PositionOf;
    forall k: nat ensures BitAt(WithBit(blocks, width, i, b), width, k) == if k == i then b else BitAt(blocks, width, k) {
      Join(width, i);
      Join(width, k);
    }
  }

  // Appending part of a bit vector appends that part exactly when it is all of it.
  lemma PartialAppendPads(bits: seq<bool>, r: seq<bool>, i: nat, len: nat)
    requires i + len <= |r|
    ensures bits + r[i..i + len] + Zeros(|r| - len) == bits + r[i..i + len] <==> len == |r|
  {
    if len < |r| {
      assert |bits + r[i..i + len] + Zeros(|r| - len)| != |bits + r[i..i + len]|;
    }
  }

  lemma LastBits(v: Block, len: nat)
    requires len <= |v| && v != []
    ensures WellFormed([v], |v|) && Row([v], |v|, |v| - len, len) == v[|v| - len..]
    ensures len > 0 ==> WordOf(|v|, |v| - 1) < 1
  {
    var row := Row([v], |v|, |v| - len, len);
    forall k: nat | k < len ensures row[k] == v[|v| - len..][k] {
      var i: nat := |v| - len + k;
      InFirstWord(|v|, i);
      assert [v][0] == v && BitAt([v], |v|, i) == v[i];
    }
  }

  lemma InFirstWord(width: nat, i: nat)
    requires i < width
    ensures WordOf(width, i) == 0 && OffsetOf(width, i) == i
  {
  }

  // Bits or-ed into the end of an empty word.
  lemma OneWord(v: Block, vWidth: nat, src: seq<Block>, width: nat, i: nat, len: nat, empty: Block)
    requires len <= vWidth && 0 < vWidth && empty == Zeros(vWidth) && Copied([v], [empty], vWidth, vWidth - len, src, width, i, len)
    ensures |v| == vWidth && forall k: nat :: k < vWidth ==> v[k] == (k >= vWidth - len && BitAt(src, width, i + (k - (vWidth - len))))
  {
    assert [v][0] == v;
    forall k: nat | k < vWidth ensures v[k] == (k >= vWidth - len && BitAt(src, width, i + (k - (vWidth - len)))) {
      InFirstWord(vWidth, k);
      assert BitAt([v], vWidth, k) == v[k] && !BitAt([empty], vWidth, k);
    }
  }

  class BitVector {
    const width: nat
    var buf: array<Block>
    var size: nat
    var capacity: nat

    ghost predicate Valid()
      reads this, buf
    {
      && width > 0 && buf.Length == BlockCount(capacity, width) && size <= capacity
      && WellFormed(buf[..], width)
      && forall i: nat :: size <= i ==> !BitAt(buf[..], width, i)
    }

    // The bits pushed so far.
    ghost function Bits(): (bits: seq<bool>)
      reads this, buf
      ensures |bits| == size
    {
      Row(buf[..], width, 0, size)
    }

    constructor (width: nat)
      requires width > 0
      ensures Valid() && fresh(buf) && this.width == width && Bits() == []
    {
      this.width, size, capacity := width, 0, 8;
      buf := new Block[BlockCount(8, width)](i => Zeros(width));
    }

    // realloc to capacity bits; what lies beyond the bits in use is zeroed.
    method Resize()
      requires width > 0 && size <= capacity && WellFormed(buf[..], width)
      requires BlockCount(size, width) <= buf.Length <= BlockCount(capacity, width)
      requires forall i: nat :: size <= i ==> !BitAt(buf[..], width, i)
      modifies `buf
      ensures Valid() && fresh(buf) && Bits() == old(Bits())
    {
      hide WordOf, OffsetOf, BlockCount;
      var n, used := BlockCount(capacity, width), BlockCount(size, width);
      var newBuf := new Block[n](i => Zeros(width));
      ghost var before := buf[..];
      forall b | 0 <= b < used {
        newBuf[b] := buf[b];
      }
      forall i: nat ensures BitAt(newBuf[..], width, i) <==> BitAt(before, width, i) {
        if i < size {
          CountCovers(size, width, i);
        }
      }
      buf := newBuf;
    }
  
    // Doubles the capacity, from 1 if there is none, until the target fits.
    method Grow(target: nat)
      requires Valid() && target > capacity
      modifies `buf, `capacity
      ensures Valid() && fresh(buf) && Bits() == old(Bits()) && capacity >= target
    {
      hide WordOf, OffsetOf, BlockCount;
      ghost var was := capacity;
      if capacity == 0 {
        capacity := 1;
      }
      while target > capacity
        invariant 0 < capacity && was <= capacity && buf == old(buf) && buf[..] == old(buf[..])
        decreases target - capacity
      {
        capacity := 2 * capacity;
      }
      MoreBlocks(size, was, width);
      MoreBlocks(was, capacity, width);
      Resize();
    }

    method PushBack(b: bool)
      requires Valid()
      modifies this, buf
      ensures Valid() && (buf == old(buf) || fresh(buf)) && Bits() == old(Bits()) + [b]
    {
      hide WordOf, OffsetOf, BlockCount;
      if size == capacity {
        Grow(size + 1);
      }
      ghost var before := buf[..];
      CountCovers(capacity, width, size);
      WithBitAt(before, width, size, true);
      if b {
        var w := WordOf(width, size);
        buf[w] := buf[w][OffsetOf(width, size) := true];
        assert buf[..] == WithBit(before, width, size, true);
      }
      size := size + 1;
    }

    method PopBack()
      requires Valid() && size > 0
      modifies this, buf
      ensures Valid() && buf == old(buf) && Bits() == old(Bits())[..old(size) - 1]
    {
      hide WordOf, OffsetOf, BlockCount;
      size := size - 1;
      ghost var before := buf[..];
      CountCovers(capacity, width, size);
      WithBitAt(before, width, size, false);
      var w := WordOf(width, size);
      buf[w] := buf[w][OffsetOf(width, size) := false];
      assert buf[..] == WithBit(before, width, size, false);
    }

    predicate Get(i: nat)
      requires Valid() && i < size
      reads this, buf
      ensures Get(i) == Bits()[i]
    {
      BitAt(buf[..], width, i)
    }

    // append of `len` bits of a block array from bit i on.
    method Append(r: seq<Block>, rWidth: nat, i: nat, len: nat)
      requires Valid() && WellFormed(r, rWidth) && (len > 0 ==> WordOf(rWidth, i + len - 1) < |r|)
      modifies this, buf
      ensures Valid() && (buf == old(buf) || fresh(buf))
      ensures Bits() == old(Bits()) + Row(r, rWidth, i, len)
    {
      AppendBits(r, rWidth, i, len, size + len);
    }

    // append of the low `len` bits of one word.
    method AppendWord(v: Block, len: nat)
      requires Valid() && len <= |v| && v != []
      modifies this, buf
      ensures Valid() && (buf == old(buf) || fresh(buf)) && Bits() == old(Bits()) + v[|v| - len..]
    {
      LastBits(v, len);
      AppendBits([v], |v|, |v| - len, len, size + len);
    }

    // get of several bits, as the low bits of a word.
    method GetBits(i: nat, len: nat, vWidth: nat) returns (v: Block)
      requires Valid() && i + len <= size && len <= vWidth && vWidth > 0
      ensures v == Zeros(vWidth - len) + Bits()[i..i + len]
    {
      hide WordOf, OffsetOf, BitAt, BitVector.Valid;
      var word := new Block[1](_ => Zeros(vWidth));
      Inside(i, len, vWidth);
      assert word[..] == [Zeros(vWidth)];
      CopySet(word, vWidth, vWidth - len, buf[..], width, i, len);
      assert word[..] == [word[0]];
      OneWord(word[0], vWidth, buf[..], width, i, len, Zeros(vWidth));
      v := word[0];
    }

    lemma Inside(i: nat, len: nat, vWidth: nat)
      requires Valid() && i + len <= size && len <= vWidth && vWidth > 0
      ensures WellFormed(buf[..], width) && WellFormed([Zeros(vWidth)], vWidth)
      ensures len > 0 ==> WordOf(vWidth, vWidth - 1) < 1 && WordOf(width, i + len - 1) < buf.Length
    {
      if len > 0 {
        CountCovers(capacity, width, i + len - 1);
      }
    }

    method AppendBits(r: seq<Block>, rWidth: nat, i: nat, len: nat, targetSize: nat)
      requires Valid() && WellFormed(r, rWidth) && (len > 0 ==> WordOf(rWidth, i + len - 1) < |r|)
      requires size + len <= targetSize
      modifies this, buf
      ensures Valid() && (buf == old(buf) || fresh(buf))
      ensures Bits() == old(Bits()) + Row(r, rWidth, i, len) + Zeros(targetSize - old(size) - len)
    {
      hide WordOf, OffsetOf, BlockCount, BitAt;
      if targetSize > capacity {
        Grow(targetSize);
      }
      if len > 0 {
        CountCovers(capacity, width, size + len - 1);
      }
      ghost var before := buf[..];
      CopySet(buf, width, size, r, rWidth, i, len);
      AppendedBits(buf[..], before, width, size, r, rWidth, i, len);
      size := targetSize;
    }

    // append of part of another bit vector: the size grows by all of r, whatever len.
    method AppendVector(r: BitVector, i: nat, len: nat)
      requires Valid() && r.Valid() && r != this && r.buf != buf && i + len <= r.size
      modifies this, buf
      ensures Valid() && (buf == old(buf) || fresh(buf))
      ensures Bits() == old(Bits()) + old(r.Bits())[i..i + len] + Zeros(old(r.size) - len)
      ensures Bits() == old(Bits()) + old(r.Bits())[i..i + len] <==> len == old(r.size)
    {
      PartialAppendPads(Bits(), r.Bits(), i, len);
      if len > 0 {
        CountCovers(r.capacity, r.width, i + len - 1);
      }
      assert Row(r.buf[..], r.width, i, len) == r.Bits()[i..i + len];
      AppendBits(r.buf[..], r.width, i, len, size + r.size);
    }
  }

  lemma MoreBlocks(a: nat, b: nat, width: nat)
    requires width > 0 && a <= b
    ensures BlockCount(a, width) <= BlockCount(b, width)
  {
    var p, q := (a + width - 1) / width, (b + width - 1) / width;
    assert a + width - 1 == p * width + (a + width - 1) % width;
    assert b + width - 1 == q * width + (b + width - 1) % width;
    Factor(q, p, width);
    Positive(q + 1 - p, width);
  }

  lemma AppendedBits(now: seq<Block>, before: seq<Block>, width: nat, size: nat, r: seq<Block>, rWidth: nat, i: nat, len: nat)
    requires WellFormed(before, width) && Copied(now, before, width, size, r, rWidth, i, len)
    requires forall k: nat :: size <= k ==> !BitAt(before, width, k)
    requires len > 0 ==> WordOf(width, size + len - 1) < |now|
    ensures forall k: nat ::
      BitAt(now, width, k) == if k < size then BitAt(before, width, k) else k < size + len && BitAt(r, rWidth, i + (k - size))
  {
    hide OffsetOf;
    forall k: nat
      ensures BitAt(now, width, k) == if k < size then BitAt(before, width, k) else k < size + len && BitAt(r, rWidth, i + (k - size))
    {
      if k < size + len && len > 0 {
        Monotone(k, size + len - 1, width);
      }
    }
  }

  lemma Monotone(a: nat, b: nat, width: nat)
    requires width > 0 && a <= b
    ensures WordOf(width, a) <= WordOf(width, b)
  {
    var p, q := a / width, b / width;
    assert a == p * width + a % width && b == q * width + b % width;
    Factor(q, p, width);
    Positive(q + 1 - p, width);
  }
}
