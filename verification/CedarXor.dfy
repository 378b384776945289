// A child's place in the double array: base ^ label (src/cedarpp.h).
module CedarXors {

  import opened Powers

  const BLOCK := 256

  // ----- base ^ label -----

  function XorBits(a: nat, b: nat, n: nat): nat {
    if n == 0 then 0 else (a % 2 + b % 2) % 2 + 2 * XorBits(a / 2, b / 2, n - 1)
  }

  lemma BitBack(x: nat, y: nat)
    requires x < 2 && y < 2
    ensures ((x + y) % 2 + y) % 2 == x
  {
  }

  lemma Halves(bit: nat, high: nat)
    requires bit < 2
    ensures (bit + 2 * high) / 2 == high && (bit + 2 * high) % 2 == bit
  {
  }

  lemma {:induction false} XorBitsBack(a: nat, b: nat, n: nat)
    requires a < Pow(2, n)
    ensures XorBits(a, b, n) < Pow(2, n) && XorBits(XorBits(a, b, n), b, n) == a
  {
    if n > 0 {
      XorBitsBack(a / 2, b / 2, n - 1);
      BitBack(a % 2, b % 2);
      Halves((a % 2 + b % 2) % 2, XorBits(a / 2, b / 2, n - 1));
    }
  }

  lemma {:induction false} XorBitsCommutes(a: nat, b: nat, n: nat)
    ensures XorBits(a, b, n) == XorBits(b, a, n)
  {
    if n > 0 {
      XorBitsCommutes(a / 2, b / 2, n - 1);
    }
  }

  // A label is one byte, so only the low byte of the base changes.
  function Xor(base: nat, c: nat): nat {
    base / BLOCK * BLOCK + XorBits(base % BLOCK, c, 8)
  }

  lemma Byte()
    ensures Pow(2, 8) == BLOCK
  {
    assert Pow(2, 4) == 2 * (2 * Pow(2, 2)) == 16;
    assert Pow(2, 6) == 2 * (2 * Pow(2, 4));
  }

  lemma XorFacts(base: nat, c: nat)
    ensures Xor(base, c) / BLOCK == base / BLOCK && Xor(Xor(base, c), c) == base
  {
    Byte();
    XorBitsBack(base % BLOCK, c, 8);
  }

  lemma XorLabels(base: nat, c: nat, d: nat)
    requires c < BLOCK && d < BLOCK && Xor(base, c) == Xor(base, d)
    ensures c == d
  {
    Byte();
    XorBitsCommutes(base % BLOCK, c, 8);
    XorBitsCommutes(base % BLOCK, d, 8);
    XorBitsBack(c, base % BLOCK, 8);
    XorBitsBack(d, base % BLOCK, 8);
  }

  lemma XorZero(base: nat, c: nat)
    requires c < BLOCK
    ensures Xor(base, 0) == base && Xor(0, c) == c
  {
    Byte();
    XorBitsZero(base % BLOCK, 8);
    XorBitsZero(c, 8);
    XorBitsCommutes(0, c, 8);
  }

  lemma {:induction false} XorBitsZero(a: nat, n: nat)
    requires a < Pow(2, n)
    ensures XorBits(a, 0, n) == a
  {
    if n > 0 {
      XorBitsZero(a / 2, n - 1);
    }
  }

  lemma InBlock(base: nat, c: nat, size: nat)
    requires size % BLOCK == 0 && base < size
    ensures Xor(base, c) < size && (base >= BLOCK ==> Xor(base, c) >= BLOCK)
  {
    XorFacts(base, c);
  }

  lemma UpperBlock(base: nat, c: nat)
    requires base >= BLOCK
    ensures Xor(base, c) >= BLOCK
  {
    XorFacts(base, c);
  }
}
