/**
 * The low-level accessors of the APU audio output (software/include/apu/aout.h).
 * The driver reads and writes the control/status register `csr` and writes
 * the sample FIFO, so a run of the driver is a log of those accesses; what a
 * `csr` read returns is the hardware's business, a function of every access
 * before it. Each busy-wait may read `csr` at most `fuel` times, after which
 * the model reports that the call had not returned.
 */
module ApuAout {
  import opened Bits
  import opened Reg32

  /** RDY is the sign bit of `csr`. */
  const RDY: nat := 31
  /** `1 << 15`: the top of both ramps, and the sign bit of a 16-bit sample. */
  const RAMP_TOP: nat := 0x8000
  const RAMP_STEP: nat := 8
  /** Number of samples in a ramp: 0, 8, ..., 0x8000. */
  const RAMP_LEN: nat := 4097

  type U16 = x: nat | x < 0x10000

  datatype Access = CsrRead(value: Word) | CsrWrite(value: Word) | FifoWrite(value: Word)

  /** Bit positions of ENABLE, RUNNING and SIGNED in `csr`. */
  datatype Layout = Layout(enable: nat, running: nat, signed: nat)

  /** The hardware: its `csr` bits, what each `csr` read returns, and how long a wait may last. */
  datatype Device = Device(layout: Layout, csr: seq<Access> -> Word, fuel: nat)

  predicate ValidDevice(dev: Device) {
    dev.layout.enable < 32 && dev.layout.running < 32 && dev.layout.signed < 32
  }

  /** The accesses of one driver call, and whether it returned (false: still waiting). */
  datatype Run = Run(log: seq<Access>, done: bool)

  // ---- Signed views ----

  /** `(int32_t)v`. */
  function Int32(v: Word): int {
    if v >= 0x8000_0000 then v - WORD else v
  }

  /** `(int16_t)u`. */
  function Int16(u: U16): int {
    if u >= RAMP_TOP then u - 0x10000 else u
  }

  /** `(int32_t)csr >= 0` is false exactly when RDY, bit 31, is set. */
  lemma RdyIsSign(v: Word)
    ensures IsSet(v, RDY) <==> Int32(v) < 0
  {
    Pow2Is(32);
    assert Pow2(32) == 2 * Pow2(31);
    BitAtShr(v, 31, 0);
    ShrDiv(v, 31);
    assert v / Pow2(31) < 2;
  }

  // ---- The FIFO word ----

  /**
   * `(uint32_t)l << 16 | (uint32_t)r`: the left sample in the upper half,
   * the right one in the lower half.
   */
  function FifoData(l: U16, r: U16): Word {
    Or(r, (l * 0x10000) % WORD)
  }

  /** The word splits back into the two samples: l is its upper half, r its lower half. */
  lemma FifoDataFields(l: U16, r: U16)
    ensures FifoData(l, r) / 0x10000 == l && FifoData(l, r) % 0x10000 == r
  {
    Pow2Is(16);
    OrShifted(r, l, 16);
  }

  // ---- Samples ----

  /**
   * `(uint16_t)i ^ (sgn ? 0x8000u : 0x0000u)` for a non-negative `int` i.
   * On a 16-bit value, XOR with 0x8000 flips the top bit, which is adding
   * 0x8000 modulo 0x10000; SampleIsXor proves the two agree.
   */
  function Sample(i: nat, sgn: bool): U16 {
    if sgn then (i + RAMP_TOP) % 0x10000 else i % 0x10000
  }

  lemma {:induction false} XorZero(a: nat)
    ensures Bitwise(XOR, a, 0) == a
    decreases a
  {
    if a != 0 {
      XorZero(a / 2);
    }
  }

  /** Flipping a clear bit above every bit of a adds it. */
  lemma {:induction false} XorHigh(a: nat, n: nat)
    requires a < Pow2(n)
    ensures Bitwise(XOR, a, Pow2(n)) == a + Pow2(n)
    decreases n
  {
    if n == 0 {
      assert a == 0;
      assert Bitwise(XOR, 0, 1) == XOR(0, 1) + 2 * Bitwise(XOR, 0, 0);
    } else {
      XorHigh(a / 2, n - 1);
    }
  }

  /** Flipping a set bit above every other bit of the word removes it. */
  lemma {:induction false} XorHighBack(a: nat, n: nat)
    requires a < Pow2(n)
    ensures Bitwise(XOR, a + Pow2(n), Pow2(n)) == a
    decreases n
  {
    var p := Pow2(n);
    if n == 0 {
      assert a == 0;
      assert Bitwise(XOR, 1, 1) == XOR(1, 1) + 2 * Bitwise(XOR, 0, 0);
    } else {
      var q := Pow2(n - 1);
      var a0, a1 := a % 2, a / 2;
      XorHighBack(a1, n - 1);
      assert p == 2 * q;
      BitwiseStep(XOR, a + p, p, a1 + q, a0, q, 0, a1);
      assert XOR(a0, 0) == a0;
    }
  }


  /** The sample is the XOR the source computes. */
  lemma SampleIsXor(i: nat, sgn: bool)
    ensures Sample(i, sgn) == Xor(i % 0x10000, if sgn then RAMP_TOP else 0)
  {
    var u := i % 0x10000;
    if !sgn {
      XorZero(u);
    } else {
      FlipTop(i, i / 0x10000, u);
    }
  }

  /** Adding 0x8000 modulo 0x10000 to the low half u of i is XOR with 0x8000. */
  lemma FlipTop(i: nat, q: nat, u: nat)
    requires i == 0x10000 * q + u && u < 0x10000
    ensures (i + RAMP_TOP) % 0x10000 == Bitwise(XOR, u, RAMP_TOP)
  {
    Pow2Is(15);
    if u < RAMP_TOP {
      XorHigh(u, 15);
      DivUnique(i + RAMP_TOP, 0x10000, q, u + RAMP_TOP);
    } else {
      XorHighBack(u - RAMP_TOP, 15);
      DivUnique(i + RAMP_TOP, 0x10000, q + 1, u - RAMP_TOP);
    }
  }

  /**
   * A ramp sample for 0 <= i <= 0x8000: i itself in unsigned mode; in signed
   * mode the `int16_t` it encodes is i - 0x8000.
   */
  lemma SampleIs(i: nat, sgn: bool)
    requires i <= RAMP_TOP
    ensures !sgn ==> Sample(i, sgn) == i
    ensures sgn ==> Int16(Sample(i, sgn)) == i - RAMP_TOP
  {
    if sgn && i == RAMP_TOP {
      assert Sample(i, sgn) == 0;
    }
  }

  /** The samples of `for (int i = from; i <= (1 << 15); i += 8)`. */
  function RampUp(i: nat, sgn: bool): seq<U16>
    decreases RAMP_TOP + RAMP_STEP - i
  {
    if i > RAMP_TOP then [] else [Sample(i, sgn)] + RampUp(i + RAMP_STEP, sgn)
  }

  /** The samples of `for (int i = from; i >= 0; i -= 8)`. */
  function RampDown(i: int, sgn: bool): seq<U16>
    decreases i
  {
    if i < 0 then [] else [Sample(i, sgn)] + RampDown(i - RAMP_STEP, sgn)
  }

  lemma {:induction false} RampUpAt(j: nat, sgn: bool)
    requires j <= RAMP_LEN
    ensures |RampUp(8 * j, sgn)| == RAMP_LEN - j
    ensures forall k | 0 <= k < RAMP_LEN - j :: RampUp(8 * j, sgn)[k] == Sample(8 * (j + k), sgn)
    decreases RAMP_LEN - j
  {
    if j < RAMP_LEN {
      RampUpAt(j + 1, sgn);
      var t := RampUp(8 * (j + 1), sgn);
      assert RampUp(8 * j, sgn) == [Sample(8 * j, sgn)] + t;
      forall k | 0 <= k < RAMP_LEN - j
        ensures RampUp(8 * j, sgn)[k] == Sample(8 * (j + k), sgn)
      {
        if k > 0 {
          assert RampUp(8 * j, sgn)[k] == t[k - 1];
          assert 8 * (j + 1 + (k - 1)) == 8 * (j + k);
        }
      }
    } else {
      assert 8 * j > RAMP_TOP;
    }
  }

  lemma {:induction false} RampDownAt(j: nat, sgn: bool)
    ensures |RampDown(8 * j, sgn)| == j + 1
    ensures forall k | 0 <= k <= j :: RampDown(8 * j, sgn)[k] == Sample(8 * (j - k), sgn)
  {
    if j == 0 {
      assert RampDown(-8, sgn) == [];
    } else {
      RampDownAt(j - 1, sgn);
      var t := RampDown(8 * (j - 1), sgn);
      assert RampDown(8 * j, sgn) == [Sample(8 * j, sgn)] + t;
      forall k | 0 <= k <= j
        ensures RampDown(8 * j, sgn)[k] == Sample(8 * (j - k), sgn)
      {
        if k > 0 {
          assert RampDown(8 * j, sgn)[k] == t[k - 1];
          assert 8 * (j - 1 - (k - 1)) == 8 * (j - k);
        }
      }
    }
  }

  /** The midrail ramp: sample k is Sample(8 * k). */
  lemma RampUpIs(sgn: bool)
    ensures |RampUp(0, sgn)| == RAMP_LEN
    ensures forall k | 0 <= k < RAMP_LEN :: RampUp(0, sgn)[k] == Sample(8 * k, sgn)
  {
    RampUpAt(0, sgn);
  }

  /** The ground ramp: sample k is Sample(0x8000 - 8 * k). */
  lemma RampDownIs(sgn: bool)
    ensures |RampDown(RAMP_TOP, sgn)| == RAMP_LEN
    ensures forall k | 0 <= k < RAMP_LEN :: RampDown(RAMP_TOP, sgn)[k] == Sample(RAMP_TOP - 8 * k, sgn)
  {
    RampDownAt(4096, sgn);
  }

  /** Sample k of the midrail ramp, one at a time. */
  lemma RampUpSample(sgn: bool, k: nat, i: nat)
    requires k < RAMP_LEN && i == 8 * k
    ensures |RampUp(0, sgn)| == RAMP_LEN && RampUp(0, sgn)[k] == Sample(i, sgn)
  {
    RampUpIs(sgn);
  }

  /** Sample k of the ground ramp, one at a time. */
  lemma RampDownSample(sgn: bool, k: nat, i: nat)
    requires k < RAMP_LEN && i == RAMP_TOP - 8 * k
    ensures |RampDown(RAMP_TOP, sgn)| == RAMP_LEN && RampDown(RAMP_TOP, sgn)[k] == Sample(i, sgn)
  {
    RampDownIs(sgn);
  }

  /**
   * `apu_aout_ramp_to_midrail` sends 4097 samples. Unsigned, they rise by 8
   * from 0 to 0x8000; signed, the `int16_t` values rise by 8 from -32768 to 0.
   */
  lemma MidrailSamples(sgn: bool)
    ensures |RampUp(0, sgn)| == RAMP_LEN
    ensures forall k | 0 <= k < RAMP_LEN :: RampUp(0, sgn)[k] == Sample(8 * k, sgn)
    ensures !sgn ==> forall k | 0 <= k < RAMP_LEN :: RampUp(0, sgn)[k] == 8 * k
    ensures sgn ==> forall k | 0 <= k < RAMP_LEN :: Int16(RampUp(0, sgn)[k]) == 8 * k - RAMP_TOP
  {
    RampUpIs(sgn);
    forall k | 0 <= k < RAMP_LEN
      ensures !sgn ==> RampUp(0, sgn)[k] == 8 * k
      ensures sgn ==> Int16(RampUp(0, sgn)[k]) == 8 * k - RAMP_TOP
    {
      SampleIs(8 * k, sgn);
    }
  }

  /** `apu_aout_ramp_to_ground` sends the midrail ramp backwards. */
  lemma GroundIsReversed(sgn: bool)
    ensures |RampDown(RAMP_TOP, sgn)| == |RampUp(0, sgn)| == RAMP_LEN
    ensures forall k | 0 <= k < RAMP_LEN :: RampDown(RAMP_TOP, sgn)[k] == RampUp(0, sgn)[RAMP_LEN - 1 - k]
  {
    RampUpSample(sgn, 0, 0);
    RampDownSample(sgn, 0, RAMP_TOP);
    forall k | 0 <= k < RAMP_LEN
      ensures RampDown(RAMP_TOP, sgn)[k] == RampUp(0, sgn)[RAMP_LEN - 1 - k]
    {
      GroundSampleAt(sgn, k);
    }
  }

  lemma GroundSampleAt(sgn: bool, k: nat)
    requires k < RAMP_LEN
    ensures |RampDown(RAMP_TOP, sgn)| == |RampUp(0, sgn)| == RAMP_LEN
    ensures RampDown(RAMP_TOP, sgn)[k] == RampUp(0, sgn)[RAMP_LEN - 1 - k]
  {
    var j := RAMP_LEN - 1 - k;
    RampDownSample(sgn, k, 8 * j);
    RampUpSample(sgn, j, 8 * j);
  }


  /** The FIFO words of a ramp: each sample on both channels. */
  function Pairs(s: seq<U16>): (p: seq<Word>)
    ensures |p| == |s|
  {
    seq(|s|, k requires 0 <= k < |s| => FifoData(s[k], s[k]))
  }

  /** Each FIFO word of a ramp carries its sample on both channels. */
  lemma PairsFields(s: seq<U16>)
    ensures |Pairs(s)| == |s|
    ensures forall k | 0 <= k < |s| :: Pairs(s)[k] / 0x10000 == s[k] && Pairs(s)[k] % 0x10000 == s[k]
  {
    forall k | 0 <= k < |s|
      ensures Pairs(s)[k] / 0x10000 == s[k] && Pairs(s)[k] % 0x10000 == s[k]
    {
      FifoDataFields(s[k], s[k]);
    }
  }

  // ---- Logs ----

  /** The words written to the FIFO, in order. */
  function Fifo(log: seq<Access>): seq<Word> {
    if log == [] then []
    else Fifo(log[..|log| - 1]) + (if log[|log| - 1].FifoWrite? then [log[|log| - 1].value] else [])
  }

  lemma {:induction false} FifoAppend(a: seq<Access>, b: seq<Access>)
    ensures Fifo(a + b) == Fifo(a) + Fifo(b)
    decreases |b|
  {
    if b == [] {
      assert a + b == a;
    } else {
      assert (a + b)[..|a + b| - 1] == a + b[..|b| - 1];
      FifoAppend(a, b[..|b| - 1]);
    }
  }

  lemma {:induction false} NoFifo(log: seq<Access>)
    requires forall k | 0 <= k < |log| :: !log[k].FifoWrite?
    ensures Fifo(log) == []
  {
    if log != [] {
      NoFifo(log[..|log| - 1]);
    }
  }

  /** A log that sends nothing to the FIFO holds no FIFO write. */
  lemma {:induction false} FifoEmpty(log: seq<Access>)
    requires Fifo(log) == []
    ensures forall k | 0 <= k < |log| :: !log[k].FifoWrite?
    decreases |log|
  {
    if log != [] {
      var init := log[..|log| - 1];
      FifoEmpty(init);
      assert forall k | 0 <= k < |log| - 1 :: log[k] == init[k];
    }
  }

  /** Every FIFO write comes right after a `csr` read with RDY set. */
  predicate Paced(log: seq<Access>) {
    forall k | 0 <= k < |log| && log[k].FifoWrite? ::
      0 < k && log[k - 1].CsrRead? && IsSet(log[k - 1].value, RDY)
  }

  lemma PacedAppend(a: seq<Access>, b: seq<Access>)
    requires Paced(a) && Paced(b) && (b == [] || b[0].CsrRead?)
    ensures Paced(a + b)
  {
    var ab := a + b;
    forall k | 0 <= k < |ab| && ab[k].FifoWrite?
      ensures 0 < k && ab[k - 1].CsrRead? && IsSet(ab[k - 1].value, RDY)
    {
      if k >= |a| {
        assert ab[k] == b[k - |a|];
        if k > |a| {
          assert ab[k - 1] == b[k - 1 - |a|];
        }
      }
    }
  }

  /**
   * Every `csr` write is a read-modify-write of the read just before it that
   * forces `bit` to `on` and keeps every other bit.
   */
  ghost predicate Rmw(log: seq<Access>, bit: nat, on: bool) {
    forall k | 0 <= k < |log| && log[k].CsrWrite? ::
      0 < k && log[k - 1].CsrRead? && IsSet(log[k].value, bit) == on
      && Agree(log[k].value, log[k - 1].value, {bit})
  }

  /** Appending reads keeps Rmw. */
  lemma RmwReads(a: seq<Access>, s: seq<Access>, bit: nat, on: bool)
    requires Rmw(a, bit, on) && forall k | 0 <= k < |s| :: s[k].CsrRead?
    ensures Rmw(a + s, bit, on)
  {
    var ar := a + s;
    forall k | 0 <= k < |ar| && ar[k].CsrWrite?
      ensures 0 < k && ar[k - 1].CsrRead? && IsSet(ar[k].value, bit) == on
        && Agree(ar[k].value, ar[k - 1].value, {bit})
    {
      assert k < |a| && ar[k] == a[k] && ar[k - 1] == a[k - 1];
    }
  }

  /** `csr |= mask` or `csr &= ~mask`: one read and the write of WithBit. */
  function RmwLog(v: Word, bit: nat, on: bool): (l: seq<Access>)
    requires bit < 32
    ensures Rmw(l, bit, on) && |l| == 2 && l[0] == CsrRead(v) && l[1].CsrWrite?
    ensures forall k | 0 <= k < |l| :: !l[k].FifoWrite?
  {
    [CsrRead(v), CsrWrite(WithBit(v, bit, on))]
  }

  // ---- Waiting ----

  /**
   * The `csr` reads of a loop that waits for `bit` to equal `want`, at most
   * n of them: they stop at the first read that shows it.
   */
  function Spin(dev: Device, h: seq<Access>, bit: nat, want: bool, n: nat): (w: seq<Access>)
    ensures |w| <= n
    ensures forall k | 0 <= k < |w| :: w[k].CsrRead?
    decreases n
  {
    if n == 0 then []
    else
      var v := dev.csr(h);
      if IsSet(v, bit) == want then [CsrRead(v)]
      else [CsrRead(v)] + Spin(dev, h + [CsrRead(v)], bit, want, n - 1)
  }

  /** The wait ended because its last read showed `bit` equal to `want`. */
  predicate Reached(w: seq<Access>, bit: nat, want: bool) {
    w != [] && w[|w| - 1].CsrRead? && IsSet(w[|w| - 1].value, bit) == want
  }

  /** Whether a log ends on the wanted read depends only on its last, nonempty part. */
  lemma ReachedAppend(a: seq<Access>, b: seq<Access>, bit: nat, want: bool)
    ensures Reached(a + b, bit, want) == if b == [] then Reached(a, bit, want) else Reached(b, bit, want)
  {
    if b == [] {
      assert a + b == a;
    } else {
      assert (a + b)[|a + b| - 1] == b[|b| - 1];
    }
  }

  /** Reads put no word in the FIFO and pace nothing. */
  lemma Reads(w: seq<Access>)
    requires forall k | 0 <= k < |w| :: w[k].CsrRead?
    ensures Paced(w) && Fifo(w) == []
  {
    NoFifo(w);
  }

  // ---- apu_aout_put_blocking ----

  /** `apu_aout_put_blocking`: wait for RDY, then write the word. */
  function PutRun(dev: Device, h: seq<Access>, data: Word): Run {
    var w := Spin(dev, h, RDY, true, dev.fuel);
    if Reached(w, RDY, true) then Run(w + [FifoWrite(data)], true) else Run(w, false)
  }

  /** One FIFO write, right after a read showing RDY, and only if the call returns. */
  lemma PutSpec(dev: Device, h: seq<Access>, data: Word)
    ensures var r := PutRun(dev, h, data);
      && Paced(r.log)
      && (r.log == [] || r.log[0].CsrRead?)
      && Fifo(r.log) == if r.done then [data] else []
  {
    var w := Spin(dev, h, RDY, true, dev.fuel);
    Reads(w);
    if Reached(w, RDY, true) {
      FifoAppend(w, [FifoWrite(data)]);
      assert Fifo([FifoWrite(data)]) == Fifo([]) + [data];
      assert PutRun(dev, h, data).log == w + [FifoWrite(data)];
    }
  }

  /** `apu_aout_put_blocking(lr, lr)` for every sample in turn, stopping if one does not return. */
  function PutsRun(dev: Device, h: seq<Access>, s: seq<U16>): Run {
    if s == [] then Run([], true)
    else
      var p := PutsRun(dev, h, s[..|s| - 1]);
      if !p.done then p
      else
        var r := PutRun(dev, h + p.log, FifoData(s[|s| - 1], s[|s| - 1]));
        Run(p.log + r.log, r.done)
  }

  lemma PairsSnoc(s: seq<U16>)
    requires s != []
    ensures Pairs(s) == Pairs(s[..|s| - 1]) + [FifoData(s[|s| - 1], s[|s| - 1])]
  {
  }

  /** Every FIFO write of a run of puts is paced by RDY. */
  lemma {:induction false} PutsPaced(dev: Device, h: seq<Access>, s: seq<U16>)
    ensures var r := PutsRun(dev, h, s);
      && Paced(r.log)
      && (r.log == [] || r.log[0].CsrRead?)
  {
    if s != [] {
      var init, x := s[..|s| - 1], s[|s| - 1];
      var p := PutsRun(dev, h, init);
      PutsPaced(dev, h, init);
      if p.done {
        var r := PutRun(dev, h + p.log, FifoData(x, x));
        PutSpec(dev, h + p.log, FifoData(x, x));
        PacedAppend(p.log, r.log);
        assert PutsRun(dev, h, s) == Run(p.log + r.log, r.done);
      } else {
        assert PutsRun(dev, h, s) == p;
      }
    }
  }

  /** The FIFO receives the pairs of the samples in order: all of them if the run returned. */
  lemma {:induction false} PutsFifo(dev: Device, h: seq<Access>, s: seq<U16>)
    ensures var r := PutsRun(dev, h, s);
      && Fifo(r.log) <= Pairs(s)
      && (r.done ==> Fifo(r.log) == Pairs(s))
  {
    if s != [] {
      var init, x := s[..|s| - 1], s[|s| - 1];
      var p := PutsRun(dev, h, init);
      PutsFifo(dev, h, init);
      PairsSnoc(s);
      if p.done {
        var r := PutRun(dev, h + p.log, FifoData(x, x));
        PutSpec(dev, h + p.log, FifoData(x, x));
        FifoAppend(p.log, r.log);
        assert PutsRun(dev, h, s) == Run(p.log + r.log, r.done);
      } else {
        assert PutsRun(dev, h, s) == p;
      }
    }
  }

  lemma PutsStep(dev: Device, h: seq<Access>, s: seq<U16>, j: nat)
    requires j < |s| && PutsRun(dev, h, s[..j]).done
    ensures var p := PutsRun(dev, h, s[..j]);
      var r := PutRun(dev, h + p.log, FifoData(s[j], s[j]));
      PutsRun(dev, h, s[..j + 1]) == Run(p.log + r.log, r.done)
  {
    assert s[..j + 1][..j] == s[..j];
  }

  lemma {:induction false} PutsRunStops(dev: Device, h: seq<Access>, s: seq<U16>, i: nat)
    requires i <= |s| && !PutsRun(dev, h, s[..i]).done
    ensures PutsRun(dev, h, s) == PutsRun(dev, h, s[..i])
    decreases |s| - i
  {
    if i < |s| {
      assert s[..i + 1][..i] == s[..i];
      PutsRunStops(dev, h, s, i + 1);
      assert s[..|s|] == s;
    } else {
      assert s[..i] == s;
    }
  }

  // ---- The ramps ----

  /** A ramp: one `csr` read for SIGNED, then the samples `samples(sgn)`. */
  function RampRun(dev: Device, h: seq<Access>, down: bool): Run {
    var v := dev.csr(h);
    var sgn := IsSet(v, dev.layout.signed);
    var r := PutsRun(dev, h + [CsrRead(v)], if down then RampDown(RAMP_TOP, sgn) else RampUp(0, sgn));
    Run([CsrRead(v)] + r.log, r.done)
  }

  /**
   * `apu_aout_ramp_to_midrail` (down false) and `apu_aout_ramp_to_ground`
   * (down true) send their ramp, as signed or unsigned samples according to
   * the SIGNED bit they read first, on both channels, each write paced by RDY.
   */
  lemma RampSpec(dev: Device, h: seq<Access>, down: bool)
    ensures var r := RampRun(dev, h, down);
      var sgn := IsSet(dev.csr(h), dev.layout.signed);
      var s := if down then RampDown(RAMP_TOP, sgn) else RampUp(0, sgn);
      && r.log[0] == CsrRead(dev.csr(h))
      && Paced(r.log)
      && Fifo(r.log) <= Pairs(s)
      && (r.done ==> Fifo(r.log) == Pairs(s))
  {
    var v := dev.csr(h);
    var sgn := IsSet(v, dev.layout.signed);
    ReadThenPuts(dev, h, v, if down then RampDown(RAMP_TOP, sgn) else RampUp(0, sgn));
  }

  /** A CSR read followed by sending the samples s: paced, and the FIFO gets a prefix of their pairs, all of them when it completes. */
  lemma ReadThenPuts(dev: Device, h: seq<Access>, v: Word, s: seq<U16>)
    ensures var r := PutsRun(dev, h + [CsrRead(v)], s);
      var l := [CsrRead(v)] + r.log;
      && Paced(l)
      && Fifo(l) <= Pairs(s)
      && (r.done ==> Fifo(l) == Pairs(s))
  {
    var r := PutsRun(dev, h + [CsrRead(v)], s);
    PutsPaced(dev, h + [CsrRead(v)], s);
    PutsFifo(dev, h + [CsrRead(v)], s);
    Reads([CsrRead(v)]);
    FifoAppend([CsrRead(v)], r.log);
    PacedAppend([CsrRead(v)], r.log);
  }

  // ---- Start and stop ----

  /** `apu_aout_start`: set ENABLE, then wait for RUNNING. */
  function StartRun(dev: Device, h: seq<Access>): Run
    requires ValidDevice(dev)
  {
    var b := RmwLog(dev.csr(h), dev.layout.enable, true);
    var w := Spin(dev, h + b, dev.layout.running, true, dev.fuel);
    Run(b + w, Reached(w, dev.layout.running, true))
  }

  /**
   * `apu_aout_start` writes `csr` once, setting ENABLE and keeping every other
   * bit, sends nothing to the FIFO, and returns once a read shows RUNNING.
   */
  lemma StartSpec(dev: Device, h: seq<Access>)
    requires ValidDevice(dev)
    ensures var r := StartRun(dev, h);
      && r.log[0] == CsrRead(dev.csr(h))
      && Rmw(r.log, dev.layout.enable, true)
      && Fifo(r.log) == []
      && (r.done ==> r.log[|r.log| - 1].CsrRead? && IsSet(r.log[|r.log| - 1].value, dev.layout.running))
  {
    var b := RmwLog(dev.csr(h), dev.layout.enable, true);
    var w := Spin(dev, h + b, dev.layout.running, true, dev.fuel);
    RmwReads(b, w, dev.layout.enable, true);
    NoFifo(b + w);
    if Reached(w, dev.layout.running, true) {
      assert (b + w)[|b + w| - 1] == w[|w| - 1];
    }
  }

  /**
   * `apu_aout_stop`: return at once if ENABLE is clear; otherwise wait for
   * RUNNING, clear ENABLE, and wait for RUNNING to drop.
   */
  function StopRun(dev: Device, h: seq<Access>): Run
    requires ValidDevice(dev)
  {
    var v := dev.csr(h);
    var first := [CsrRead(v)];
    if !IsSet(v, dev.layout.enable) then Run(first, true)
    else
      var w1 := Spin(dev, h + first, dev.layout.running, true, dev.fuel);
      var a := first + w1;
      if !Reached(w1, dev.layout.running, true) then Run(a, false)
      else
        var b := a + RmwLog(dev.csr(h + a), dev.layout.enable, false);
        var w2 := Spin(dev, h + b, dev.layout.running, false, dev.fuel);
        Run(b + w2, Reached(w2, dev.layout.running, false))
  }

  /**
   * `apu_aout_stop` does nothing but one read when ENABLE is clear; otherwise
   * every `csr` write clears ENABLE and keeps every other bit, and the call
   * returns once a read shows RUNNING clear. It never touches the FIFO.
   */
  lemma StopSpec(dev: Device, h: seq<Access>)
    requires ValidDevice(dev)
    ensures var r := StopRun(dev, h);
      && r.log[0] == CsrRead(dev.csr(h))
      && (!IsSet(dev.csr(h), dev.layout.enable) ==> r == Run([CsrRead(dev.csr(h))], true))
      && Rmw(r.log, dev.layout.enable, false)
      && Fifo(r.log) == []
      && (r.done && IsSet(dev.csr(h), dev.layout.enable) ==>
            r.log[|r.log| - 1].CsrRead? && !IsSet(r.log[|r.log| - 1].value, dev.layout.running))
  {
    var en := dev.layout.enable;
    var v := dev.csr(h);
    var first := [CsrRead(v)];
    RmwReads([], first, en, false);
    assert [] + first == first;
    if IsSet(v, en) {
      var w1 := Spin(dev, h + first, dev.layout.running, true, dev.fuel);
      var a := first + w1;
      RmwReads(first, w1, en, false);
      if !Reached(w1, dev.layout.running, true) {
        NoFifo(a);
        assert StopRun(dev, h) == Run(a, false);
      } else {
        var m := RmwLog(dev.csr(h + a), en, false);
        var b := a + m;
        var w2 := Spin(dev, h + b, dev.layout.running, false, dev.fuel);
        RmwAfterReads(a, m, en);
        RmwReads(b, w2, en, false);
        NoFifo(b + w2);
        assert StopRun(dev, h) == Run(b + w2, Reached(w2, dev.layout.running, false));
        if Reached(w2, dev.layout.running, false) {
          assert (b + w2)[|b + w2| - 1] == w2[|w2| - 1];
        }
      }
    } else {
      NoFifo(first);
    }
  }

  /** Accesses that send nothing to the FIFO keep a paced log paced. */
  lemma QuietPaced(h: seq<Access>, l: seq<Access>)
    requires Paced(h) && Fifo(l) == []
    ensures Paced(h + l)
  {
    FifoEmpty(l);
    var hl := h + l;
    forall k | 0 <= k < |hl| && hl[k].FifoWrite?
      ensures 0 < k && hl[k - 1].CsrRead? && IsSet(hl[k - 1].value, RDY)
    {
      if k >= |h| {
        assert false;
      }
    }
  }

  /** A read-modify-write after reads only keeps Rmw. */
  lemma RmwAfterReads(a: seq<Access>, m: seq<Access>, bit: nat)
    requires bit < 32 && forall k | 0 <= k < |a| :: a[k].CsrRead?
    requires Rmw(m, bit, false) && |m| == 2 && m[0].CsrRead? && !m[1].FifoWrite?
    ensures Rmw(a + m, bit, false)
    ensures forall k | 0 <= k < |a + m| :: !(a + m)[k].FifoWrite?
  {
    var am := a + m;
    forall k | 0 <= k < |am| && am[k].CsrWrite?
      ensures 0 < k && am[k - 1].CsrRead? && IsSet(am[k].value, bit) == false
        && Agree(am[k].value, am[k - 1].value, {bit})
    {
      assert k >= |a| + 1 && am[k] == m[k - |a|] && am[k - 1] == m[k - 1 - |a|];
    }
  }

  lemma Assoc(a: seq<Access>, b: seq<Access>, c: seq<Access>)
    ensures (a + b) + c == a + (b + c)
  {
  }

  /** `apu_aout_start` keeps the driver's invariant: a paced log stays paced. */
  lemma StartKeepsPaced(dev: Device, h: seq<Access>)
    requires ValidDevice(dev) && Paced(h)
    ensures Paced(h + StartRun(dev, h).log)
  {
    StartSpec(dev, h);
    QuietPaced(h, StartRun(dev, h).log);
  }

  /** `apu_aout_put_blocking` keeps the driver's invariant. */
  lemma PutKeepsPaced(dev: Device, h: seq<Access>, data: Word)
    requires Paced(h)
    ensures Paced(h + PutRun(dev, h, data).log)
  {
    PutSpec(dev, h, data);
    PacedAppend(h, PutRun(dev, h, data).log);
  }

  /** Both ramps keep the driver's invariant. */
  lemma RampKeepsPaced(dev: Device, h: seq<Access>, down: bool)
    requires Paced(h)
    ensures Paced(h + RampRun(dev, h, down).log)
  {
    RampSpec(dev, h, down);
    PacedAppend(h, RampRun(dev, h, down).log);
  }

  /** `apu_aout_stop` keeps the driver's invariant. */
  lemma StopKeepsPaced(dev: Device, h: seq<Access>)
    requires ValidDevice(dev) && Paced(h)
    ensures Paced(h + StopRun(dev, h).log)
  {
    StopSpec(dev, h);
    QuietPaced(h, StopRun(dev, h).log);
  }

  // ---- The driver ----

  class Aout {
    const dev: Device
    /** Every access the driver has made so far. */
    var log: seq<Access>

    constructor (dev: Device)
      requires ValidDevice(dev)
      ensures this.dev == dev && log == [] && Valid()
    {
      this.dev := dev;
      log := [];
    }

    /** The driver's invariant: it never writes the FIFO without seeing RDY just before. */
    predicate Valid()
      reads this
    {
      ValidDevice(dev) && Paced(log)
    }

    /** A read of `apu_aout_hw->csr`. */
    method ReadCsr() returns (v: Word)
      modifies this`log
      ensures v == dev.csr(old(log)) && log == old(log) + [CsrRead(v)]
    {
      v := dev.csr(log);
      log := log + [CsrRead(v)];
    }

    /** A write of `apu_aout_hw->csr`. */
    method WriteCsr(v: Word)
      modifies this`log
      ensures log == old(log) + [CsrWrite(v)]
    {
      log := log + [CsrWrite(v)];
    }

    /** A write of `apu_aout_hw->fifo`. */
    method WriteFifo(w: Word)
      modifies this`log
      ensures log == old(log) + [FifoWrite(w)]
    {
      log := log + [FifoWrite(w)];
    }

    /** `csr |= 1u << bit` (on) or `csr &= ~(1u << bit)` (off). */
    method Modify(bit: nat, on: bool)
      requires bit < 32
      modifies this`log
      ensures log == old(log) + RmwLog(dev.csr(old(log)), bit, on)
    {
      var v := ReadCsr();
      WriteCsr(WithBit(v, bit, on));
    }

    /** A loop `while` bit of `csr` differs from `want`. */
    method Wait(bit: nat, want: bool) returns (ok: bool)
      modifies this`log
      ensures log == old(log) + Spin(dev, old(log), bit, want, dev.fuel)
      ensures ok == Reached(Spin(dev, old(log), bit, want, dev.fuel), bit, want)
    {
      ghost var h0 := log;
      ghost var w := Spin(dev, log, bit, want, dev.fuel);
      var n := 0;
      ok := false;
      while n < dev.fuel && !ok
        invariant n <= dev.fuel
        invariant h0 + w == log + (if ok then [] else Spin(dev, log, bit, want, dev.fuel - n))
        invariant ok ==> Reached(w, bit, want)
        invariant !ok ==> Reached(w, bit, want) == Reached(Spin(dev, log, bit, want, dev.fuel - n), bit, want)
        decreases dev.fuel - n
      {
        ghost var h := log;
        var v := ReadCsr();
        ok := IsSet(v, bit) == want;
        if !ok {
          ghost var rest := Spin(dev, log, bit, want, dev.fuel - n - 1);
          assert Spin(dev, h, bit, want, dev.fuel - n) == [CsrRead(v)] + rest;
          ReachedAppend([CsrRead(v)], rest, bit, want);
          Assoc(h, [CsrRead(v)], rest);
        } else {
          assert Spin(dev, h, bit, want, dev.fuel - n) == [CsrRead(v)];
        }
        n := n + 1;
      }
    }

    /** `apu_aout_start`. */
    method Start() returns (done: bool)
      requires ValidDevice(dev)
      modifies this`log
      ensures var r := StartRun(dev, old(log)); log == old(log) + r.log && done == r.done
      ensures old(Valid()) ==> Valid()
    {
      ghost var h := log;
      Modify(dev.layout.enable, true);
      done := Wait(dev.layout.running, true);
      if Paced(h) {
        StartKeepsPaced(dev, h);
      }
    }

    /** `apu_aout_set_signed`: SIGNED becomes sgn and no other bit of `csr` changes. */
    method SetSigned(sgn: bool)
      requires ValidDevice(dev)
      modifies this`log
      ensures log == old(log) + RmwLog(dev.csr(old(log)), dev.layout.signed, sgn)
      ensures Rmw(log[|old(log)|..], dev.layout.signed, sgn)
      ensures old(Valid()) ==> Valid()
    {
      ghost var h := log;
      Modify(dev.layout.signed, sgn);
      if Paced(h) {
        NoFifo(log[|h|..]);
        QuietPaced(h, log[|h|..]);
        assert h + log[|h|..] == log;
      }
      assert log[|old(log)|..] == RmwLog(dev.csr(old(log)), dev.layout.signed, sgn);
    }

    /** `apu_aout_put_blocking(l, r)`. RDY is the sign bit, so `(int32_t)csr >= 0` waits for it. */
    method PutBlocking(l: U16, r: U16) returns (done: bool)
      modifies this`log
      ensures var run := PutRun(dev, old(log), FifoData(l, r)); log == old(log) + run.log && done == run.done
      ensures old(Valid()) ==> Valid()
    {
      ghost var h := log;
      var data := FifoData(l, r);
      done := Wait(RDY, true);
      if done {
        WriteFifo(data);
      }
      if Paced(h) {
        PutKeepsPaced(dev, h, data);
      }
    }

    /** Sample j of s, after samples 0 to j - 1 were all sent since history h. */
    method PutNext(ghost h: seq<Access>, ghost s: seq<U16>, ghost j: nat, lr: U16) returns (done: bool)
      requires j < |s| && s[j] == lr
      requires PutsRun(dev, h, s[..j]).done && log == h + PutsRun(dev, h, s[..j]).log
      modifies this`log
      ensures var r := PutsRun(dev, h, s[..j + 1]); log == h + r.log && done == r.done
    {
      ghost var p := PutsRun(dev, h, s[..j]);
      PutsStep(dev, h, s, j);
      done := PutBlocking(lr, lr);
      assert log == (h + p.log) + PutRun(dev, h + p.log, FifoData(lr, lr)).log;
    }

    /** `apu_aout_ramp_to_midrail`. */
    method RampToMidrail() returns (done: bool)
      requires ValidDevice(dev)
      modifies this`log
      ensures var r := RampRun(dev, old(log), false); log == old(log) + r.log && done == r.done
      ensures old(Valid()) ==> Valid()
    {
      ghost var h0 := log;
      var v := ReadCsr();
      var sgn := IsSet(v, dev.layout.signed);
      RampUpIs(sgn);
      done := RampUpLoop(sgn, RampUp(0, sgn));
      Assoc(h0, [CsrRead(v)], PutsRun(dev, h0 + [CsrRead(v)], RampUp(0, sgn)).log);
      if Paced(h0) {
        RampKeepsPaced(dev, h0, false);
      }
    }

    /** The loop of `apu_aout_ramp_to_midrail`: i = 0, 8, ..., 0x8000. */
    method RampUpLoop(sgn: bool, ghost s: seq<U16>) returns (done: bool)
      requires |s| == RAMP_LEN
      requires forall k | 0 <= k < RAMP_LEN :: s[k] == Sample(8 * k, sgn)
      modifies this`log
      ensures var r := PutsRun(dev, old(log), s); log == old(log) + r.log && done == r.done
    {
      ghost var h := log;
      ghost var j := 0;
      var i := 0;
      done := true;
      while i <= RAMP_TOP && done
        invariant i == 8 * j && j <= RAMP_LEN == |s|
        invariant var r := PutsRun(dev, h, s[..j]); log == h + r.log && done == r.done
      {
        assert s[j] == Sample(8 * j, sgn);
        done := PutNext(h, s, j, Sample(i, sgn));
        i := i + RAMP_STEP;
        j := j + 1;
      }
      if done {
        assert s[..j] == s;
      } else {
        PutsRunStops(dev, h, s, j);
      }
    }

    /** `apu_aout_ramp_to_ground`. */
    method RampToGround() returns (done: bool)
      requires ValidDevice(dev)
      modifies this`log
      ensures var r := RampRun(dev, old(log), true); log == old(log) + r.log && done == r.done
      ensures old(Valid()) ==> Valid()
    {
      ghost var h0 := log;
      var v := ReadCsr();
      var sgn := IsSet(v, dev.layout.signed);
      RampDownIs(sgn);
      done := RampDownLoop(sgn, RampDown(RAMP_TOP, sgn));
      Assoc(h0, [CsrRead(v)], PutsRun(dev, h0 + [CsrRead(v)], RampDown(RAMP_TOP, sgn)).log);
      if Paced(h0) {
        RampKeepsPaced(dev, h0, true);
      }
    }

    /** The loop of `apu_aout_ramp_to_ground`: i = 0x8000, 0x7ff8, ..., 0. */
    method RampDownLoop(sgn: bool, ghost s: seq<U16>) returns (done: bool)
      requires |s| == RAMP_LEN
      requires forall k | 0 <= k < RAMP_LEN :: s[k] == Sample(RAMP_TOP - 8 * k, sgn)
      modifies this`log
      ensures var r := PutsRun(dev, old(log), s); log == old(log) + r.log && done == r.done
    {
      ghost var h := log;
      ghost var j := 0;
      var i: int := RAMP_TOP;
      done := true;
      while i >= 0 && done
        invariant i == RAMP_TOP - 8 * j && j <= RAMP_LEN == |s|
        invariant var r := PutsRun(dev, h, s[..j]); log == h + r.log && done == r.done
      {
        assert s[j] == Sample(RAMP_TOP - 8 * j, sgn);
        done := PutNext(h, s, j, Sample(i, sgn));
        i := i - RAMP_STEP;
        j := j + 1;
      }
      if done {
        assert s[..j] == s;
      } else {
        PutsRunStops(dev, h, s, j);
      }
    }

    /** `apu_aout_stop`. */
    method Stop() returns (done: bool)
      requires ValidDevice(dev)
      modifies this`log
      ensures var r := StopRun(dev, old(log)); log == old(log) + r.log && done == r.done
      ensures old(Valid()) ==> Valid()
    {
      ghost var h := log;
      var v := ReadCsr();
      ghost var first := [CsrRead(v)];
      if !IsSet(v, dev.layout.enable) {
        assert StopRun(dev, h) == Run(first, true);
        if Paced(h) {
          StopKeepsPaced(dev, h);
        }
        return true;
      }
      ghost var w1 := Spin(dev, log, dev.layout.running, true, dev.fuel);
      done := Wait(dev.layout.running, true);
      ghost var a := first + w1;
      assert log == h + a;
      if !done {
        assert StopRun(dev, h) == Run(a, false);
        if Paced(h) {
          StopKeepsPaced(dev, h);
        }
        return;
      }
      ghost var b := a + RmwLog(dev.csr(h + a), dev.layout.enable, false);
      Modify(dev.layout.enable, false);
      assert log == h + b;
      ghost var w2 := Spin(dev, log, dev.layout.running, false, dev.fuel);
      done := Wait(dev.layout.running, false);
      assert StopRun(dev, h) == Run(b + w2, done);
      if Paced(h) {
        StopKeepsPaced(dev, h);
      }
    }
  }
}
