/**
 * Bit-level arithmetic on unbounded naturals, the view the host script takes of
 * Python integers: `(x >> k) & 1`, `x | (1 << k)`, and the reading of a
 * little-endian bit sequence as a number.
 */
module Bits {

  type Bit = b: nat | b < 2

  function Pow2(k: nat): (p: nat)
    ensures p > 0
  {
    if k == 0 then 1 else 2 * Pow2(k - 1)
  }

  /** `(x >> k) & 1`, one shift at a time; BitAtShr and ShrDiv relate it to `x / Pow2(k)`. */
  function BitAt(x: nat, k: nat): Bit {
    if k == 0 then x % 2 else BitAt(x / 2, k - 1)
  }

  /** `x >> a`, one bit at a time; ShrDiv proves it is `x / Pow2(a)`. */
  function Shr(x: nat, a: nat): nat {
    if a == 0 then x else Shr(x / 2, a - 1)
  }

  /** `x | (1 << k)`; see SetBitBits for what it does to every bit. */
  function SetBit(x: nat, k: nat): (r: nat)
    ensures x <= r
  {
    if BitAt(x, k) == 1 then x else x + Pow2(k)
  }

  /** Number of set bits, Python's `int.bit_count()`. */
  function PopCount(x: nat): nat {
    if x == 0 then 0 else x % 2 + PopCount(x / 2)
  }

  /** The number whose bit k is s[k] (bit 0 first). */
  function Val(s: seq<Bit>): nat {
    if s == [] then 0 else s[0] + 2 * Val(s[1..])
  }

  /** Bits 0 .. m-1 of x, least significant first. */
  function LittleBits(x: nat, m: nat): (s: seq<Bit>)
    ensures |s| == m
  {
    seq(m, k requires 0 <= k < m => BitAt(x, k))
  }

  lemma MulStep(d: nat, q: nat, k: nat)
    ensures d * (q + k) == d * q + d * k
  {
  }

  lemma MulAssoc(a: nat, b: nat, c: nat)
    ensures a * (b * c) == (a * b) * c
  {
  }

  lemma MulMonotone(c: nat, a: nat, b: nat)
    requires a <= b
    ensures c * a <= c * b
  {
    MulStep(c, a, b - a);
  }

  lemma DivUnique(x: nat, d: nat, q: nat, r: nat)
    requires d > 0 && r < d && x == d * q + r
    ensures x / d == q && x % d == r
  {
    var q', r' := x / d, x % d;
    assert x == d * q' + r';
    if q' > q {
      MulStep(d, q, q' - q);
    } else if q > q' {
      MulStep(d, q', q - q');
    }
  }

  /** A field b of a word w = k * (m * a + b) + c, with c below k and b below m, reads back as b. */
  lemma FieldOf(w: nat, k: nat, m: nat, a: nat, b: nat, c: nat)
    requires k > 0 && m > 0 && c < k && b < m && w == k * (m * a + b) + c
    ensures w / k % m == b && w / k / m == a
  {
    DivUnique(w, k, m * a + b, c);
    DivUnique(m * a + b, m, a, b);
  }

  lemma DivDiv(x: nat, a: nat, b: nat)
    requires a > 0 && b > 0
    ensures x / (a * b) == x / a / b
  {
    var q, r := x / a, x % a;
    var q2, r2 := q / b, q % b;
    assert x == a * q + r;
    assert q == b * q2 + r2;
    MulStep(a, b * q2, r2);
    MulAssoc(a, b, q2);
    assert x == (a * b) * q2 + (a * r2 + r);
    MulMonotone(a, r2, b - 1);
    MulStep(a, b - 1, 1);
    DivUnique(x, a * b, q2, a * r2 + r);
  }

  lemma {:induction false} BitAtOfZero(k: nat)
    ensures BitAt(0, k) == 0
  {
    if k > 0 {
      BitAtOfZero(k - 1);
    }
  }

  lemma {:induction false} ValBound(s: seq<Bit>)
    ensures Val(s) < Pow2(|s|)
  {
    if s != [] {
      ValBound(s[1..]);
    }
  }

  lemma {:induction false} BitOfVal(s: seq<Bit>, k: nat)
    ensures BitAt(Val(s), k) == if k < |s| then s[k] else 0
  {
    if s == [] {
      BitAtOfZero(k);
    } else if k > 0 {
      assert Val(s) / 2 == Val(s[1..]);
      BitOfVal(s[1..], k - 1);
    }
  }

  /** A sequence of zero bits spells 0. */
  lemma {:induction false} ValZeros(s: seq<Bit>)
    requires forall k | 0 <= k < |s| :: s[k] == 0
    ensures Val(s) == 0
  {
    if s != [] {
      ValZeros(s[1..]);
    }
  }

  lemma {:induction false} ValSetBit(s: seq<Bit>, k: nat)
    requires k < |s| && s[k] == 0
    ensures Val(s[k := 1]) == Val(s) + Pow2(k)
  {
    if k > 0 {
      assert s[k := 1][1..] == s[1..][k - 1 := 1];
      ValSetBit(s[1..], k - 1);
    }
  }

  lemma ModStep(x: nat, p: nat)
    requires p > 0
    ensures x % (2 * p) == x % 2 + 2 * ((x / 2) % p)
  {
    var q := x / 2;
    var b := q % p;
    var a := q / p;
    assert x == 2 * q + x % 2;
    assert q == p * a + b;
    assert x == (2 * p) * a + (x % 2 + 2 * b);
    DivUnique(x, 2 * p, a, x % 2 + 2 * b);
  }

  lemma {:induction false} ValLittleBits(x: nat, m: nat)
    ensures Val(LittleBits(x, m)) == x % Pow2(m)
  {
    if m > 0 {
      var s := LittleBits(x, m);
      assert s[1..] == LittleBits(x / 2, m - 1);
      ValLittleBits(x / 2, m - 1);
      ModStep(x, Pow2(m - 1));
    }
  }

  lemma {:induction false} BelowPow2Self(x: nat)
    ensures x < Pow2(x)
  {
    if x > 0 {
      BelowPow2Self(x - 1);
    }
  }

  lemma {:induction false} Pow2Monotone(a: nat, b: nat)
    requires a <= b
    ensures Pow2(a) <= Pow2(b)
  {
    if a < b {
      Pow2Monotone(a, b - 1);
    }
  }

  /** Any x below 2^m is the number its first m bits spell. */
  lemma ValOfLittleBits(x: nat, m: nat)
    requires x < Pow2(m)
    ensures Val(LittleBits(x, m)) == x
  {
    ValLittleBits(x, m);
    DivUnique(x, Pow2(m), 0, x);
  }

  /** Bits at or above m of a number below 2^m are clear. */
  lemma {:induction false} HighBitsClear(x: nat, m: nat, k: nat)
    requires x < Pow2(m) && m <= k
    ensures BitAt(x, k) == 0
  {
    if m == 0 {
      BitAtOfZero(k);
    } else {
      HighBitsClear(x / 2, m - 1, k - 1);
    }
  }

  /** `x | (1 << k)` sets bit k and leaves every other bit as it was. */
  lemma {:induction false} SetBitBits(x: nat, k: nat, j: nat)
    ensures BitAt(SetBit(x, k), j) == if j == k then 1 else BitAt(x, j)
  {
    if BitAt(x, k) == 0 && k > 0 {
      assert (x + Pow2(k)) / 2 == x / 2 + Pow2(k - 1);
      assert BitAt(x / 2, k - 1) == 0;
      if j > 0 {
        SetBitBits(x / 2, k - 1, j - 1);
      }
    }
  }

  lemma {:induction false} Pow2Add(a: nat, b: nat)
    ensures Pow2(a + b) == Pow2(a) * Pow2(b)
  {
    if a > 0 {
      Pow2Add(a - 1, b);
      MulAssoc(2, Pow2(a - 1), Pow2(b));
    }
  }

  /** Bit a + k of x is bit k of `x >> a`. */
  lemma {:induction false} BitAtShr(x: nat, a: nat, k: nat)
    ensures BitAt(x, a + k) == BitAt(Shr(x, a), k)
  {
    if a > 0 {
      BitAtShr(x / 2, a - 1, k);
    }
  }

  /** Shifting right by a bits divides by 2^a. */
  lemma {:induction false} ShrDiv(x: nat, a: nat)
    ensures Shr(x, a) == x / Pow2(a)
  {
    if a > 0 {
      ShrDiv(x / 2, a - 1);
      DivDiv(x, 2, Pow2(a - 1));
    }
  }

  lemma Pow2Step(x: nat, a: nat)
    requires a > 0
    ensures x * Pow2(a) == 2 * (x * Pow2(a - 1))
  {
    MulAssoc(x, 2, Pow2(a - 1));
  }

  /** Bit a + k of `x << a` is bit k of x. */
  lemma {:induction false} BitAtScaled(x: nat, a: nat, k: nat)
    ensures BitAt(x * Pow2(a), a + k) == BitAt(x, k)
  {
    if a > 0 {
      Pow2Step(x, a);
      BitAtScaled(x, a - 1, k);
    }
  }

  /** Bits below m survive `x % 2^m`. */
  lemma {:induction false} BitAtMod(x: nat, m: nat, k: nat)
    requires k < m
    ensures BitAt(x % Pow2(m), k) == BitAt(x, k)
  {
    ModStep(x, Pow2(m - 1));
    if k > 0 {
      BitAtMod(x / 2, m - 1, k - 1);
    }
  }

  /** Bits below a of `x << a` are clear. */
  lemma {:induction false} LowBitsOfScaled(x: nat, a: nat, k: nat)
    requires k < a
    ensures BitAt(x * Pow2(a), k) == 0
  {
    Pow2Step(x, a);
    if k > 0 {
      LowBitsOfScaled(x, a - 1, k - 1);
    }
  }

  /** `x << a` of an n-bit x is an (n + a)-bit number. */
  lemma ScaledBound(x: nat, n: nat, a: nat)
    requires x < Pow2(n)
    ensures x * Pow2(a) < Pow2(n + a)
  {
    Pow2Add(n, a);
    MulMonotone(Pow2(a), x + 1, Pow2(n));
  }
}
