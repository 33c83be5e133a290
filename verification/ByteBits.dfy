/** Bits of integers, and bytes as bit vectors. */
module ByteBits {

  lemma RoundTrip(x: int)
    requires 0 <= x < 0x100
    ensures (x as bv8) as int == x
  {
  }

  // ---- Bits, the lowest first ----

  function Pow2(n: nat): (p: nat)
    ensures p >= 1
  {
    if n == 0 then 1 else 2 * Pow2(n - 1)
  }

  function Bit(x: nat, k: nat): (b: nat)
    ensures b < 2
  {
    x / Pow2(k) % 2
  }

  lemma HalfTwice(x: nat, p: nat)
    requires p >= 1
    ensures x / (2 * p) == x / 2 / p
  {
    var q, r := x / (2 * p), x % (2 * p);
    assert x == 2 * (p * q) + r by { assert (2 * p) * q == 2 * (p * q); }
    assert x / 2 == p * q + r / 2 && 0 <= r / 2 < p;
    Quotient(x / 2, p, q, r / 2);
  }

  lemma Quotient(x: nat, p: nat, q: nat, r: nat)
    requires p >= 1 && x == p * q + r && r < p
    ensures x / p == q && x % p == r
  {
    var d, t := x / p, x % p;
    assert p * d + t == p * q + r;
    if d > q {
      assert p * (d - q) == p * d - p * q;
      MulAtLeast(p, d - q);
      assert false;
    } else if d < q {
      assert p * (q - d) == p * q - p * d;
      MulAtLeast(p, q - d);
      assert false;
    }
  }

  lemma MulAtLeast(p: nat, e: nat)
    requires e >= 1
    ensures p * e >= p
  {
    assert p * e == p * (e - 1) + p;
  }

  lemma BitStep(x: nat, k: nat)
    ensures Bit(x, 0) == x % 2 && Bit(x, k + 1) == Bit(x / 2, k)
  {
    HalfTwice(x, Pow2(k));
  }

  function DropBits(x: nat, n: nat): nat {
    if n == 0 then x else DropBits(x / 2, n - 1)
  }

  /** Bit `k` of what is left without the lowest `n` bits. */
  lemma {:induction false} BitAbove(x: nat, n: nat, k: nat)
    ensures Bit(DropBits(x, n), k) == Bit(x, n + k)
  {
    if n == 0 {
    } else {
      BitAbove(x / 2, n - 1, k);
      BitStep(x, n - 1 + k);
    }
  }

  lemma DropFour(x: nat)
    ensures DropBits(x, 4) == x / 0x10
  {
    assert DropBits(x, 4) == DropBits(x / 2, 3) == DropBits(x / 4, 2) == DropBits(x / 8, 1) == DropBits(x / 16, 0);
  }

  lemma Drop16(x: nat)
    ensures DropBits(x, 16) == x / 0x1_0000
  {
    DropFour(x);
    DropFour(x / 0x10);
    DropFour(x / 0x100);
    DropFour(x / 0x1000);
    DropTwice(x, 4, 12);
    DropTwice(x / 0x10, 4, 8);
    DropTwice(x / 0x100, 4, 4);
  }

  lemma {:induction false} DropTwice(x: nat, n: nat, m: nat)
    ensures DropBits(x, n + m) == DropBits(DropBits(x, n), m)
  {
    if n == 0 {
    } else {
      DropTwice(x / 2, n - 1, m);
    }
  }

  /** The lowest `n` bits survive the remainder. */
  lemma {:induction false} BitBelow(x: nat, n: nat, k: nat)
    requires k < n
    ensures Bit(x % Pow2(n), k) == Bit(x, k)
  {
    RemainderStep(x, Pow2(n - 1));
    if k == 0 {
    } else {
      BitStep(x % Pow2(n), k - 1);
      BitStep(x, k - 1);
      BitBelow(x / 2, n - 1, k - 1);
    }
  }

  lemma RemainderStep(x: nat, p: nat)
    requires p >= 1
    ensures x % (2 * p) % 2 == x % 2 && x % (2 * p) / 2 == x / 2 % p
  {
    HalfTwice(x, p);
    var q := x / (2 * p);
    assert x == (2 * p) * q + x % (2 * p) && (2 * p) * q == 2 * (p * q);
    assert x / 2 == p * q + x % (2 * p) / 2;
    Quotient(x / 2, p, q, x % (2 * p) / 2);
  }

  // ---- A bit more ----

  /** Adding the weight of a bit that is clear sets that bit and no other. */
  lemma {:induction false} BitAdded(x: nat, k: nat, j: nat)
    requires Bit(x, k) == 0
    ensures Bit(x + Pow2(k), j) == if j == k then 1 else Bit(x, j)
  {
    hide Bit;
    BitStep(x, 0);
    BitStep(x + Pow2(k), 0);
    if j > 0 {
      BitStep(x, j - 1);
      BitStep(x + Pow2(k), j - 1);
    }
    if k == 0 {
      assert j > 0 ==> (x + 1) / 2 == x / 2;
    } else {
      BitStep(x, k - 1);
      assert (x + 2 * Pow2(k - 1)) / 2 == x / 2 + Pow2(k - 1);
      if j > 0 {
        BitAdded(x / 2, k - 1, j - 1);
      }
    }
  }

  lemma Pow2Step(n: nat)
    ensures Pow2(0) == 1 && Pow2(n + 1) == 2 * Pow2(n)
  {
  }

  /** It stays below the power that bounds both. */
  lemma {:induction false} BitFits(x: nat, k: nat, n: nat)
    requires x < Pow2(n) && k < n
    ensures Bit(x, k) == 0 ==> x + Pow2(k) < Pow2(n)
  {
    hide Bit, Pow2;
    Pow2Step(n - 1);
    if k == 0 {
      BitStep(x, 0);
    } else {
      BitStep(x, k - 1);
      Pow2Step(k - 1);
      BitFits(x / 2, k - 1, n - 1);
    }
  }

  lemma Pow2At8()
    ensures Pow2(8) == 0x100
  {
  }

  // ---- Exclusive or ----

  /** Exclusive or of the lowest `n` bits. */
  function Xor(x: nat, y: nat, n: nat): (r: nat)
    ensures r < Pow2(n)
  {
    if n == 0 then 0 else (x % 2 + y % 2) % 2 + 2 * Xor(x / 2, y / 2, n - 1)
  }

  lemma XorStep(x: nat, y: nat, n: nat)
    requires n > 0
    ensures Xor(x, y, n) % 2 == (x % 2 + y % 2) % 2 && Xor(x, y, n) / 2 == Xor(x / 2, y / 2, n - 1)
  {
  }

  lemma {:induction false} BitOfXor(x: nat, y: nat, n: nat, k: nat)
    requires k < n
    ensures Bit(Xor(x, y, n), k) == (Bit(x, k) + Bit(y, k)) % 2
  {
    hide Xor, Bit;
    XorStep(x, y, n);
    if k == 0 {
      BitStep(Xor(x, y, n), 0);
      BitStep(x, 0);
      BitStep(y, 0);
    } else {
      BitStep(Xor(x, y, n), k - 1);
      BitStep(x, k - 1);
      BitStep(y, k - 1);
      BitOfXor(x / 2, y / 2, n - 1, k - 1);
    }
  }

  lemma Pow2At16()
    ensures Pow2(16) == 0x1_0000
  {
    Pow2At8();
  }

  lemma Pow2At32()
    ensures Pow2(32) == 0x1_0000_0000
  {
    Pow2At16();
    assert Pow2(24) == 0x100_0000;
  }

  // ---- Two halves folded into one ----

  /** The two halves of a 32-bit word, exclusive-ored. */
  function Fold(x: nat): (r: nat)
    requires x < 0x1_0000_0000
    ensures r < 0x1_0000
  {
    Pow2At16();
    Xor(x / 0x1_0000, x % 0x1_0000, 16)
  }

  lemma BitOfFold(x: nat, k: nat)
    requires x < 0x1_0000_0000 && k < 16
    ensures Bit(Fold(x), k) == (Bit(x, k) + Bit(x, k + 16)) % 2
  {
    Pow2At16();
    BitOfXor(x / 0x1_0000, x % 0x1_0000, 16, k);
    Drop16(x);
    BitAbove(x, 16, k);
    BitBelow(x, 16, k);
  }
}
