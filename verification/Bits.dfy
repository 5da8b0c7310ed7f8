// Bitwise operators on unsigned integers, defined bit by bit, and the
// arithmetic they stand for.
module Bits {
  import opened GoInt

  function Pow2(k: nat): (r: nat)
    ensures r >= 1
  {
    if k == 0 then 1 else 2 * Pow2(k - 1)
  }

  function BitOr(a: nat, b: nat): nat
    decreases a
  {
    if a == 0 then b
    else (if a % 2 == 1 || b % 2 == 1 then 1 else 0) + 2 * BitOr(a / 2, b / 2)
  }

  function BitAnd(a: nat, b: nat): nat
    decreases a
  {
    if a == 0 then 0
    else (if a % 2 == 1 && b % 2 == 1 then 1 else 0) + 2 * BitAnd(a / 2, b / 2)
  }

  // x << k before the result is cut to its width, and x >> k.
  function Shl(x: nat, k: nat): nat {
    if k == 0 then x else 2 * Shl(x, k - 1)
  }

  function Shr(x: nat, k: nat): nat {
    if k == 0 then x else Shr(x / 2, k - 1)
  }

  lemma ShrFour(v: nat)
    ensures Shr(v, 4) == v / 16
  {
    assert Shr(v, 4) == Shr(v / 2, 3);
    assert Shr(v / 2, 3) == Shr(v / 4, 2);
    assert Shr(v / 4, 2) == Shr(v / 8, 1);
  }

  // x << k on the fixed-width types: bits that leave the word are lost.
  function Shl32(x: uint32, k: nat): uint32 { Wrap32(Shl(x, k)) }

  function Shl64(x: uint64, k: nat): uint64 { Wrap64(Shl(x, k)) }

  // x | y in 64 bits.
  function Or64(x: uint64, y: uint64): uint64
  {
    Pow2Values();
    OrBound(x, y, 64);
    BitOr(x, y)
  }

  // x | y in 32 bits.
  function Or32(x: uint32, y: uint32): uint32
  {
    Pow2Values();
    OrBound(x, y, 32);
    BitOr(x, y)
  }

  lemma Pow2Values()
    ensures Pow2(8) == 0x100 && Pow2(16) == 0x1_0000 && Pow2(32) == 0x1_0000_0000
    ensures Pow2(64) == 0x1_0000_0000_0000_0000
  {
    Pow2Add8(0);
    Pow2Add8(8);
    Pow2Add8(16);
    Pow2Add8(24);
    Pow2Add8(32);
    Pow2Add8(40);
    Pow2Add8(48);
    Pow2Add8(56);
  }

  lemma {:induction false} OrBound(a: nat, b: nat, k: nat)
    requires a < Pow2(k) && b < Pow2(k)
    ensures BitOr(a, b) < Pow2(k)
  {
    if a > 0 && k > 0 { OrBound(a / 2, b / 2, k - 1); }
  }

  // Binary digit k of v.
  predicate Bit(v: nat, k: nat) { Shr(v, k) % 2 == 1 }

  lemma {:induction false} ShlTimes(x: nat, k: nat)
    ensures Shl(x, k) == x * Pow2(k)
  {
    if k > 0 { ShlTimes(x, k - 1); }
  }

  lemma MultipleBounds(d: int, x: int)
    requires d > 0
    ensures x >= 1 ==> d * x >= d
    ensures x <= -1 ==> d * x <= -d
  {
  }

  lemma DivUnique(x: int, d: int, q: int, r: int)
    requires d > 0 && x == d * q + r && 0 <= r < d
    ensures x / d == q && x % d == r
  {
    MultipleBounds(d, q - x / d);
    assert d * (q - x / d) == x % d - r;
  }

  // Or-ing a value below 2^k with a value shifted left by k is addition.
  lemma {:induction false} OrDisjoint(a: nat, b: nat, k: nat)
    requires a < Pow2(k)
    ensures BitOr(a, Shl(b, k)) == a + Shl(b, k)
  {
    if k > 0 && a > 0 {
      OrDisjoint(a / 2, b, k - 1);
    }
  }

  lemma OrShift(low: uint64, x: uint64, k: nat)
    requires low < Pow2(k) && Shl(x, k) < 0x1_0000_0000_0000_0000
    ensures Or64(low, Shl64(x, k)) == low + Shl(x, k)
  {
    WrapExact(Shl(x, k));
    OrDisjoint(low, x, k);
  }

  // Two 16-bit words, the second above the first.
  lemma OrWords(low: uint16, high: uint16)
    ensures Or64(low, Shl64(high, 16)) == low + 0x1_0000 * high
  {
    ShlWords(high);
    OrShift(low, high, 16);
  }

  lemma OrWords32(low: uint16, high: uint16)
    ensures Or32(low, Shl32(high, 16)) == low + 0x1_0000 * high
  {
    ShlWords(high);
    WrapExact(Shl(high, 16));
    OrDisjoint(low, high, 16);
  }

  // Two 32-bit words.
  lemma OrDoubleWords(low: uint32, high: uint32)
    ensures Or64(low, Shl64(high, 32)) == low + 0x1_0000_0000 * high
  {
    ShlWords(high);
    OrShift(low, high, 32);
  }

  lemma ShlWords(x: nat)
    ensures Pow2(16) == 0x1_0000 && Pow2(32) == 0x1_0000_0000
    ensures Shl(x, 16) == 0x1_0000 * x && Shl(x, 32) == 0x1_0000_0000 * x
  {
    Pow2Values();
    ShlTimes(x, 16);
    ShlTimes(x, 32);
  }

  // Bit k of a number below 2^(k+1) says whether it reaches 2^k.
  lemma {:induction false} TopBitSet(v: nat, k: nat)
    requires v < Pow2(k + 1)
    ensures Bit(v, k) <==> v >= Pow2(k)
  {
    if k > 0 { TopBitSet(v / 2, k - 1); }
  }

  // floor(log2 v), and 0 for 0.
  function Log2(v: nat): nat {
    if v <= 1 then 0 else 1 + Log2(v / 2)
  }

  lemma {:induction false} Log2Unique(v: nat, r: nat)
    requires v >= 1
    ensures Pow2(r) <= v < Pow2(r + 1) <==> r == Log2(v)
    decreases v
  {
    if v > 1 {
      if r > 0 {
        Log2Unique(v / 2, r - 1);
      }
    } else if r > 0 {
      assert Pow2(r) >= 2;
    }
  }

  lemma Pow2Add8(k: nat)
    ensures Pow2(k + 8) == 256 * Pow2(k)
  {
    assert Pow2(k + 1) == 2 * Pow2(k);
    assert Pow2(k + 2) == 2 * Pow2(k + 1);
    assert Pow2(k + 3) == 2 * Pow2(k + 2);
    assert Pow2(k + 4) == 2 * Pow2(k + 3);
    assert Pow2(k + 5) == 2 * Pow2(k + 4);
    assert Pow2(k + 6) == 2 * Pow2(k + 5);
    assert Pow2(k + 7) == 2 * Pow2(k + 6);
  }

  lemma {:induction false} AndZero(a: nat)
    ensures BitAnd(a, 0) == 0
    decreases a
  {
    if a > 0 { AndZero(a / 2); }
  }

  // Masking with a single bit asks for one binary digit.
  lemma {:induction false} AndBit(v: nat, k: nat)
    ensures BitAnd(v, Pow2(k)) == if Bit(v, k) then Pow2(k) else 0
    decreases k
  {
    if v == 0 {
      ShrZero(k);
    } else if k == 0 {
      AndZero(v / 2);
    } else {
      AndBit(v / 2, k - 1);
    }
  }

  lemma {:induction false} ShrZero(k: nat)
    ensures Shr(0, k) == 0
  {
    if k > 0 { ShrZero(k - 1); }
  }

  // Masking with 2^k - 1 keeps the low k bits.
  lemma {:induction false} AndMask(v: nat, k: nat)
    ensures BitAnd(v, Pow2(k) - 1) == LowBits(v, k)
    decreases k
  {
    if k == 0 {
      AndZero(v);
    } else {
      AndMask(v / 2, k - 1);
      assert (Pow2(k) - 1) / 2 == Pow2(k - 1) - 1;
      if v == 0 { assert LowBits(v / 2, k - 1) == 0; }
    }
  }

  function LowBits(v: nat, k: nat): nat {
    if k == 0 then 0 else v % 2 + 2 * LowBits(v / 2, k - 1)
  }

  lemma {:induction false} LowBitsMod(v: nat, k: nat)
    ensures LowBits(v, k) == v % Pow2(k)
  {
    if k > 0 {
      LowBitsMod(v / 2, k - 1);
      ModDouble(v, Pow2(k - 1));
    }
  }

  lemma ModDouble(v: nat, p: nat)
    requires p > 0
    ensures v % (2 * p) == v % 2 + 2 * (v / 2 % p)
  {
    var q, r := v / 2 / p, v / 2 % p;
    assert v == (2 * p) * q + (2 * r + v % 2) by {
      assert v / 2 == p * q + r;
    }
    DivUnique(v, 2 * p, q, 2 * r + v % 2);
  }

  lemma AndMasks(v: nat)
    ensures BitAnd(v, 0x7) == v % 8
    ensures BitAnd(v, 0xf) == v % 16
    ensures BitAnd(v, 0x7f) == v % 128
  {
    AndMask(v, 3);
    AndMask(v, 4);
    AndMask(v, 7);
    LowBitsMod(v, 3);
    LowBitsMod(v, 4);
    LowBitsMod(v, 7);
    SmallPowers();
  }

  lemma SmallPowers()
    ensures Pow2(3) == 8 && Pow2(4) == 16 && Pow2(7) == 128
  {
    assert Pow2(4) == 2 * Pow2(3);
    assert Pow2(7) == 2 * Pow2(6) == 4 * Pow2(5) == 8 * Pow2(4);
  }
}
