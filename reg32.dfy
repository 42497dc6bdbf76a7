/**
 * 32-bit memory-mapped and control/status registers as the C headers
 * manipulate them: `uint32_t` values, one-hot masks `1u << k`, the bitwise
 * operators `|`, `& ~` and `^`, and the read-modify-write idioms
 * `r |= mask` and `r &= ~mask`. A register is a natural number below 2^32
 * and a bit is read with Bits.BitAt.
 */
module Reg32 {
  import opened Bits

  const WORD: nat := 0x1_0000_0000

  type Word = x: nat | x < 0x1_0000_0000

  lemma Pow2Is(k: nat)
    requires k <= 32
    ensures k == 4 ==> Pow2(k) == 0x10
    ensures k == 8 ==> Pow2(k) == 0x100
    ensures k == 15 ==> Pow2(k) == 0x8000
    ensures k == 16 ==> Pow2(k) == 0x10000
    ensures k == 28 ==> Pow2(k) == 0x1000_0000
    ensures k == 32 ==> Pow2(k) == WORD
  {
    assert Pow2(1) == 2 && Pow2(2) == 4 && Pow2(3) == 8 && Pow2(4) == 0x10;
    assert Pow2(8) == 0x10 * 0x10 by { Pow2Add(4, 4); }
    assert Pow2(12) == 0x100 * 0x10 by { Pow2Add(8, 4); }
    assert Pow2(16) == 0x100 * 0x100 by { Pow2Add(8, 8); }
    assert Pow2(16) == 2 * Pow2(15);
    assert Pow2(28) == 0x10000 * 0x1000 by { Pow2Add(16, 12); }
    assert Pow2(32) == 0x10000 * 0x10000 by { Pow2Add(16, 16); }
  }

  /** Bit `k` of `x` is set: `x & (1u << k)` is non-zero. */
  predicate IsSet(x: nat, k: nat) {
    BitAt(x, k) == 1
  }

  /** A bitwise operator: applies `f` to every pair of corresponding bits. */
  function Bitwise(f: (Bit, Bit) -> Bit, a: nat, b: nat): nat
    requires f(0, 0) == 0
    decreases a + b
  {
    if a == 0 && b == 0 then 0 else f(a % 2, b % 2) + 2 * Bitwise(f, a / 2, b / 2)
  }

  /** One step of Bitwise, with the halves and low bits of a and b, and the result on the halves, given by name. */
  lemma BitwiseStep(f: (Bit, Bit) -> Bit, a: nat, b: nat, a1: nat, a0: Bit, b1: nat, b0: Bit, r: nat)
    requires f(0, 0) == 0
    requires a == 2 * a1 + a0 && b == 2 * b1 + b0
    requires Bitwise(f, a1, b1) == r
    ensures Bitwise(f, a, b) == f(a0, b0) + 2 * r
  {
    DivUnique(a, 2, a1, a0);
    DivUnique(b, 2, b1, b0);
  }

  lemma {:induction false} BitwiseBits(f: (Bit, Bit) -> Bit, a: nat, b: nat, j: nat)
    requires f(0, 0) == 0
    ensures BitAt(Bitwise(f, a, b), j) == f(BitAt(a, j), BitAt(b, j))
    decreases j
  {
    if a == 0 && b == 0 {
      BitAtOfZero(j);
    } else if j > 0 {
      BitwiseBits(f, a / 2, b / 2, j - 1);
    }
  }

  lemma {:induction false} BitwiseBound(f: (Bit, Bit) -> Bit, a: nat, b: nat, m: nat)
    requires f(0, 0) == 0
    requires a < Pow2(m) && b < Pow2(m)
    ensures Bitwise(f, a, b) < Pow2(m)
    decreases m
  {
    if (a != 0 || b != 0) && m > 0 {
      BitwiseBound(f, a / 2, b / 2, m - 1);
    }
  }

  const OR: (Bit, Bit) -> Bit := (x: Bit, y: Bit) => if x == 1 || y == 1 then 1 else 0
  const AND: (Bit, Bit) -> Bit := (x: Bit, y: Bit) => if x == 1 && y == 1 then 1 else 0
  const AND_NOT: (Bit, Bit) -> Bit := (x: Bit, y: Bit) => if x == 1 && y == 0 then 1 else 0
  const XOR: (Bit, Bit) -> Bit := (x: Bit, y: Bit) => if x != y then 1 else 0

  /** `a | b` on `uint32_t`. */
  function Or(a: Word, b: Word): (r: Word)
    ensures forall j: nat :: BitAt(r, j) == if BitAt(a, j) == 1 || BitAt(b, j) == 1 then 1 else 0
  {
    forall j: nat ensures BitAt(Bitwise(OR, a, b), j) == OR(BitAt(a, j), BitAt(b, j)) {
      BitwiseBits(OR, a, b, j);
    }
    Pow2Is(32);
    BitwiseBound(OR, a, b, 32);
    Bitwise(OR, a, b)
  }

  /** `a & b` on `uint32_t`. */
  function And(a: Word, b: Word): (r: Word)
    ensures forall j: nat :: BitAt(r, j) == if BitAt(a, j) == 1 && BitAt(b, j) == 1 then 1 else 0
  {
    forall j: nat ensures BitAt(Bitwise(AND, a, b), j) == AND(BitAt(a, j), BitAt(b, j)) {
      BitwiseBits(AND, a, b, j);
    }
    Pow2Is(32);
    BitwiseBound(AND, a, b, 32);
    Bitwise(AND, a, b)
  }

  /** `a & ~b` on `uint32_t`. */
  function AndNot(a: Word, b: Word): (r: Word)
    ensures forall j: nat :: BitAt(r, j) == if BitAt(a, j) == 1 && BitAt(b, j) == 0 then 1 else 0
  {
    forall j: nat ensures BitAt(Bitwise(AND_NOT, a, b), j) == AND_NOT(BitAt(a, j), BitAt(b, j)) {
      BitwiseBits(AND_NOT, a, b, j);
    }
    Pow2Is(32);
    BitwiseBound(AND_NOT, a, b, 32);
    Bitwise(AND_NOT, a, b)
  }

  /** `a ^ b` on `uint32_t`. */
  function Xor(a: Word, b: Word): (r: Word)
    ensures forall j: nat :: BitAt(r, j) == if BitAt(a, j) != BitAt(b, j) then 1 else 0
  {
    forall j: nat ensures BitAt(Bitwise(XOR, a, b), j) == XOR(BitAt(a, j), BitAt(b, j)) {
      BitwiseBits(XOR, a, b, j);
    }
    Pow2Is(32);
    BitwiseBound(XOR, a, b, 32);
    Bitwise(XOR, a, b)
  }

  /** The one-hot mask `1u << k` of a `uint32_t`. */
  function Mask(k: nat): (m: Word)
    requires k < 32
    ensures IsSet(m, k)
    ensures forall j: nat | j != k :: BitAt(m, j) == 0
  {
    BitAtOfZero(k);
    assert SetBit(0, k) == Pow2(k);
    forall j: nat ensures BitAt(Pow2(k), j) == if j == k then 1 else 0 {
      SetBitBits(0, k, j);
      BitAtOfZero(j);
    }
    Pow2Is(32);
    Pow2Monotone(k + 1, 32);
    Pow2(k)
  }

  /** `x |= 1u << k` when `v`, `x &= ~(1u << k)` otherwise. */
  function WithBit(x: Word, k: nat, v: bool): (r: Word)
    requires k < 32
    ensures IsSet(r, k) == v
    ensures forall j: nat | j != k :: BitAt(r, j) == BitAt(x, j)
  {
    if v then Or(x, Mask(k)) else AndNot(x, Mask(k))
  }

  /** `x` and `y` hold the same value in every bit outside `fields`. */
  ghost predicate Agree(x: nat, y: nat, fields: set<nat>) {
    forall j: nat | j !in fields :: BitAt(x, j) == BitAt(y, j)
  }

  /** Two numbers with the same bits are equal, so Bit and Agree pin a register down. */
  lemma {:induction false} BitsDetermine(x: nat, y: nat)
    requires Agree(x, y, {})
    ensures x == y
  {
    assert BitAt(x, 0) == BitAt(y, 0);
    if x != 0 || y != 0 {
      forall j: nat ensures BitAt(x / 2, j) == BitAt(y / 2, j) {
        assert BitAt(x, j + 1) == BitAt(y, j + 1);
      }
      BitsDetermine(x / 2, y / 2);
    }
  }

  /** The C test `x & (1u << k)` is true exactly when bit k of x is set. */
  lemma TestMask(x: Word, k: nat)
    requires k < 32
    ensures And(x, Mask(k)) != 0 <==> IsSet(x, k)
  {
    var r := And(x, Mask(k));
    if IsSet(x, k) {
      BitAtOfZero(k);
    } else {
      forall j: nat ensures BitAt(r, j) == BitAt(0, j) {
        BitAtOfZero(j);
      }
      BitsDetermine(r, 0);
    }
  }

  lemma {:induction false} OrZero(c: nat)
    ensures Bitwise(OR, 0, c) == c
    decreases c
  {
    if c != 0 {
      OrZero(c / 2);
    }
  }

  /** `a | (c << n)` adds when a fits below bit n: the two operands share no bit. */
  lemma {:induction false} OrShifted(a: nat, c: nat, n: nat)
    requires a < Pow2(n)
    ensures Bitwise(OR, a, c * Pow2(n)) == a + c * Pow2(n)
  {
    if n == 0 {
      OrZero(c);
    } else {
      Pow2Step(c, n);
      if a != 0 || c * Pow2(n) != 0 {
        OrShifted(a / 2, c, n - 1);
      }
    }
  }

  /** `x & (2^n - 1)` keeps the low n bits: it is `x % 2^n`. */
  lemma {:induction false} LowMaskBits(n: nat, j: nat)
    ensures BitAt(Pow2(n) - 1, j) == if j < n then 1 else 0
  {
    if n == 0 {
      BitAtOfZero(j);
    } else if j > 0 {
      LowMaskBits(n - 1, j - 1);
    }
  }

  lemma AndLowMaskBit(x: Word, n: nat, j: nat)
    requires n <= 32 && Pow2(n) - 1 < WORD
    ensures BitAt(And(x, Pow2(n) - 1), j) == BitAt(x % Pow2(n), j)
  {
    LowMaskBits(n, j);
    if j < n {
      BitAtMod(x, n, j);
    } else {
      HighBitsClear(x % Pow2(n), n, j);
    }
  }

  lemma AndLowMask(x: Word, n: nat)
    requires n <= 32
    ensures Pow2(n) - 1 < WORD
    ensures And(x, Pow2(n) - 1) == x % Pow2(n)
  {
    Pow2Is(32);
    Pow2Monotone(n, 32);
    forall j: nat ensures BitAt(And(x, Pow2(n) - 1), j) == BitAt(x % Pow2(n), j) {
      AndLowMaskBit(x, n, j);
    }
    BitsDetermine(And(x, Pow2(n) - 1), x % Pow2(n));
  }

  /**
   * `(x & ~(1u << a | 1u << b)) | (va ? 1u << a : 0) | (vb ? 1u << b : 0)`:
   * rewrites two one-bit fields in one read-modify-write.
   */
  function WithTwoBits(x: Word, a: nat, va: bool, b: nat, vb: bool): (r: Word)
    requires a < 32 && b < 32 && a != b
    ensures IsSet(r, a) == va && IsSet(r, b) == vb
    ensures forall j: nat | j != a && j != b :: BitAt(r, j) == BitAt(x, j)
  {
    var ma, mb := Mask(a), Mask(b);
    var r := Or(Or(AndNot(x, Or(ma, mb)), if va then ma else 0), if vb then mb else 0);
    forall j: nat ensures BitAt(r, j) == if j == a then (if va then 1 else 0) else if j == b then (if vb then 1 else 0) else BitAt(x, j) {
      BitAtOfZero(j);
    }
    r
  }
}
