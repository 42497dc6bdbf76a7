/**
 * Bit-level framing of the two-wire debug (TWD) link as the host drives it
 * (cocotb/chip_top_tb.py:50-124): the opcode table, the transport CSR fields,
 * odd parity, the order in which a value's bits cross the wire, and the
 * layout of a command frame.
 */
module TwdFraming {
  import opened Bits

  // Command opcodes (the 4-bit field of every command header).
  const CMD_DISCONNECT: nat := 0x0
  const CMD_R_IDCODE: nat := 0x1
  const CMD_R_AINFO: nat := 0x2
  const CMD_R_STAT: nat := 0x4
  const CMD_W_CSR: nat := 0x6
  const CMD_R_CSR: nat := 0x7
  const CMD_R_ADDR: nat := 0x8
  const CMD_W_ADDR: nat := 0x9
  const CMD_W_ADDR_R: nat := 0xa
  const CMD_R_DATA: nat := 0xb
  const CMD_W_DATA: nat := 0xc
  const CMD_R_BUFF: nat := 0xd

  // Fields of the transport CSR.
  const CSR_VERSION_LSB: nat := 28
  const CSR_ASIZE_LSB: nat := 24
  const CSR_EPARITY: nat := 0x40000
  const CSR_EBUSFAULT: nat := 0x20000
  const CSR_EBUSY: nat := 0x10000
  const CSR_AINCR: nat := 0x1000
  const CSR_BUSY: nat := 0x100
  const CSR_NDTMRESETACK: nat := 0x20
  const CSR_NDTMRESETREQ: nat := 0x10
  const CSR_MDROPADDR: nat := 0xf

  /** The CSR value written at the end of connect: EPARITY | EBUSFAULT | EBUSY. */
  const CSR_CONNECT_VALUE: nat := CSR_EPARITY + CSR_EBUSFAULT + CSR_EBUSY

  /** `(csr & (0xf << 28)) >> 28` */
  function CsrVersion(csr: nat): nat { csr / Pow2(CSR_VERSION_LSB) % 16 }

  /** `(csr & (0x7 << 24)) >> 24` */
  function CsrAsize(csr: nat): nat { csr / Pow2(CSR_ASIZE_LSB) % 8 }

  /** The 19 bytes shifted out after DISCONNECT to put the target in command mode. */
  const CONNECT_SEQ: seq<nat> := [
    0x00, 0xa7, 0xa3, 0x92, 0xdd, 0x9a, 0xbf, 0x04, 0x31, 0xff, 0xff,
    0xff, 0xff, 0xff, 0xff, 0xff, 0xff, 0xff, 0x0f
  ]

  /** `odd_parity`: the bit that makes the total number of ones odd. */
  function OddParity(x: nat): (p: Bit)
    ensures (PopCount(x) + p) % 2 == 1
  {
    1 - PopCount(x) % 2
  }

  /**
   * Widths that `twd_shift_out`/`twd_shift_in` handle: below 8, or whole
   * bytes. For any other width `bits << (8 - n)` is a negative shift, which
   * Python rejects.
   */
  predicate ValidWidth(n: nat) { n < 8 || n % 8 == 0 }

  /** `i ^ 0x7`: within each byte, the i-th bit on the wire is bit 7 - i % 8. */
  function BitIdx(i: nat): nat { i / 8 * 8 + (7 - i % 8) }

  /** A narrow value is left-justified in its byte: `bits << (8 - n)`. */
  function Justify(v: nat, n: nat): nat
    requires ValidWidth(n)
  {
    if n % 8 != 0 then v * Pow2(8 - n) else v
  }

  /** The bits `twd_shift_out(v, n)` drives, in wire order. */
  function OutBits(v: nat, n: nat): (bits: seq<Bit>)
    requires ValidWidth(n)
    ensures |bits| == n
  {
    var j := Justify(v, n);
    seq(n, i requires 0 <= i < n => BitAt(j, BitIdx(i)))
  }

  /** Size of the accumulator `twd_shift_in` fills: the whole bytes it spans. */
  function Width(n: nat): nat { if n % 8 == 0 then n else 8 }

  /** The accumulator's bits after wire bit i has been OR-ed into bit i ^ 7. */
  function Placed(bits: seq<Bit>, w: nat): (p: seq<Bit>)
    ensures |p| == w
  {
    seq(w, k requires 0 <= k < w => if BitIdx(k) < |bits| then bits[BitIdx(k)] else 0)
  }

  /** The value `twd_shift_in` returns after sampling `bits`. */
  function InValue(bits: seq<Bit>): nat
    requires ValidWidth(|bits|)
  {
    var n := |bits|;
    var acc := Val(Placed(bits, Width(n)));
    if n % 8 != 0 then acc / Pow2(8 - n) else acc
  }

  /**
   * The 6-bit header `1 << 5 | cmd << 1 | odd_parity(cmd)`; for a 4-bit
   * opcode the three fields occupy disjoint bits, so the OR is a sum.
   */
  function Header(cmd: nat): nat
    requires cmd < 16
  {
    32 + 2 * cmd + OddParity(cmd)
  }

  /** Bits of a write frame after the header: turnaround, payload, parity trailer. */
  function WriteBody(n: nat, wdata: nat): seq<Bit>
    requires ValidWidth(n)
  {
    OutBits(0, 2) + OutBits(wdata, n) + OutBits(OddParity(wdata) * 8, 4)
  }

  /** The byte b, most significant bit first. */
  function MsbFirst(b: nat): (bits: seq<Bit>)
    ensures |bits| == 8
  {
    seq(8, j requires 0 <= j < 8 => BitAt(b, 7 - j))
  }

  lemma BitIdxInvolution(k: nat)
    ensures BitIdx(BitIdx(k)) == k
    ensures BitIdx(k) / 8 == k / 8
  {
  }

  /** In a whole-byte transfer the i-th wire bit is bit i ^ 7 of the value, within the same byte. */
  lemma BitIdxInRange(i: nat, n: nat)
    requires ValidWidth(n) && i < n
    ensures BitIdx(i) < Width(n)
  {
    if n % 8 == 0 {
      assert i / 8 < n / 8;
    }
  }

  /** The i-th wire bit of a narrow field is bit n - 1 - i of its value. */
  lemma NarrowBit(v: nat, n: nat, i: nat)
    requires n < 8 && i < n
    ensures OutBits(v, n)[i] == BitAt(v, n - 1 - i)
  {
    var a := 8 - n;
    assert BitIdx(i) == a + (n - 1 - i);
    assert OutBits(v, n)[i] == BitAt(v * Pow2(a), a + (n - 1 - i));
    BitAtScaled(v, a, n - 1 - i);
  }

  /** Wire order of a narrow field: its n bits, most significant first. */
  lemma NarrowOrder(v: nat, n: nat)
    requires n < 8
    ensures OutBits(v, n) == seq(n, i requires 0 <= i < n => BitAt(v, n - 1 - i))
  {
    forall i | 0 <= i < n
      ensures OutBits(v, n)[i] == BitAt(v, n - 1 - i)
    {
      NarrowBit(v, n, i);
    }
  }

  /**
   * Wire order of a whole-byte transfer: the least significant byte goes
   * first, and each byte goes most significant bit first.
   */
  lemma {:induction false} ByteOrder(v: nat, n: nat)
    requires n >= 8 && n % 8 == 0
    ensures OutBits(v, n) == MsbFirst(v % 256) + OutBits(v / 256, n - 8)
  {
    forall i | 0 <= i < n
      ensures OutBits(v, n)[i] == (MsbFirst(v % 256) + OutBits(v / 256, n - 8))[i]
    {
      ByteOrderAt(v, n, i);
    }
  }

  lemma ByteOrderAt(v: nat, n: nat, i: nat)
    requires n >= 8 && n % 8 == 0 && i < n
    ensures |MsbFirst(v % 256) + OutBits(v / 256, n - 8)| == n
    ensures OutBits(v, n)[i] == (MsbFirst(v % 256) + OutBits(v / 256, n - 8))[i]
  {
    var lo, hi := MsbFirst(v % 256), OutBits(v / 256, n - 8);
    assert OutBits(v, n)[i] == BitAt(v, BitIdx(i));
    assert Pow2(8) == 256;
    if i < 8 {
      DivUnique(i, 8, 0, i);
      assert BitIdx(i) == 7 - i;
      BitAtMod(v, 8, 7 - i);
      assert (lo + hi)[i] == lo[i] == BitAt(v % 256, 7 - i);
    } else {
      var q, r := i / 8, i % 8;
      DivUnique(i - 8, 8, q - 1, r);
      assert BitIdx(i) == 8 + BitIdx(i - 8);
      BitAtShr(v, 8, BitIdx(i - 8));
      ShrDiv(v, 8);
      assert (lo + hi)[i] == hi[i - 8] == BitAt(v / 256, BitIdx(i - 8));
    }
  }

  lemma {:induction false} PlacedStep(bits: seq<Bit>, b: Bit, w: nat)
    requires BitIdx(|bits|) < w
    ensures Placed(bits, w)[BitIdx(|bits|)] == 0
    ensures Placed(bits + [b], w) == Placed(bits, w)[BitIdx(|bits|) := b]
  {
    var i := |bits|;
    BitIdxInvolution(i);
    forall k | 0 <= k < w
      ensures Placed(bits + [b], w)[k] == Placed(bits, w)[BitIdx(i) := b][k]
    {
      BitIdxInvolution(k);
    }
  }

  /** In a whole-byte transfer the accumulator ends up holding the value's own bits. */
  lemma PlacedBytes(v: nat, n: nat)
    requires n % 8 == 0
    ensures Placed(OutBits(v, n), n) == LittleBits(v, n)
  {
    var bits := OutBits(v, n);
    forall k | 0 <= k < n
      ensures Placed(bits, n)[k] == LittleBits(v, n)[k]
    {
      BitIdxInvolution(k);
      BitIdxInRange(k, n);
    }
  }

  /** Accumulator bit k after a narrow transfer is bit k of the left-justified value. */
  lemma PlacedNarrowBit(v: nat, n: nat, k: nat)
    requires 0 < n < 8 && k < 8
    ensures Placed(OutBits(v, n), 8)[k] == BitAt(Justify(v, n), k)
  {
    var a := 8 - n;
    assert BitIdx(k) == 7 - k;
    assert Justify(v, n) == v * Pow2(a);
    if k < a {
      LowBitsOfScaled(v, a, k);
    } else {
      assert BitIdx(7 - k) == k;
    }
  }

  /** A narrow transfer fills the accumulator with the left-justified value. */
  lemma PlacedNarrow(v: nat, n: nat)
    requires 0 < n < 8
    ensures Placed(OutBits(v, n), 8) == LittleBits(Justify(v, n), 8)
  {
    forall k | 0 <= k < 8
      ensures Placed(OutBits(v, n), 8)[k] == LittleBits(Justify(v, n), 8)[k]
    {
      PlacedNarrowBit(v, n, k);
    }
  }

  /** `twd_shift_in(n)` recovers the value `twd_shift_out(v, n)` sent. */
  lemma WireRoundTrip(v: nat, n: nat)
    requires ValidWidth(n) && v < Pow2(n)
    ensures InValue(OutBits(v, n)) == v
  {
    if n % 8 == 0 {
      WholeBytesRoundTrip(v, n);
    } else {
      NarrowRoundTrip(v, n);
    }
  }

  /** A whole-byte transfer reads back as the value sent. */
  lemma WholeBytesRoundTrip(v: nat, n: nat)
    requires n % 8 == 0 && v < Pow2(n)
    ensures InValue(OutBits(v, n)) == v
  {
    PlacedBytes(v, n);
    ValOfLittleBits(v, n);
  }

  /** A narrow transfer reads back as the value sent, once the justification is shifted off. */
  lemma NarrowRoundTrip(v: nat, n: nat)
    requires 0 < n < 8 && v < Pow2(n)
    ensures InValue(OutBits(v, n)) == v
  {
    var a := 8 - n;
    var p := Pow2(a);
    var j := v * p;
    assert Justify(v, n) == j;
    assert Pow2(n + a) == 256 by { assert n + a == 8; }
    ScaledBound(v, n, a);
    PlacedNarrow(v, n);
    ValOfLittleBits(j, 8);
    assert Val(Placed(OutBits(v, n), Width(n))) == j;
    DivUnique(j, p, v, 0);
  }

  /** Bit j + 1 of a header is bit j of its opcode, and bit 0 its parity. */
  lemma HeaderBit(cmd: nat, j: nat)
    requires cmd < 16 && j < 4
    ensures BitAt(Header(cmd), 0) == OddParity(cmd)
    ensures BitAt(Header(cmd), j + 1) == BitAt(cmd, j)
    ensures BitAt(Header(cmd), 5) == 1
  {
    var h := Header(cmd);
    assert Pow2(4) == 16;
    assert h / 2 == 16 + cmd && h % 2 == OddParity(cmd);
    assert (16 + cmd) % Pow2(4) == cmd;
    BitAtMod(16 + cmd, 4, j);
    BitAtShr(16 + cmd, 4, 0);
    ShrDiv(16 + cmd, 4);
  }

  /** The header carries a start bit, the opcode MSB first, then the opcode's odd parity. */
  lemma HeaderBits(cmd: nat)
    requires cmd < 16
    ensures OutBits(Header(cmd), 6)
      == [1, BitAt(cmd, 3), BitAt(cmd, 2), BitAt(cmd, 1), BitAt(cmd, 0), OddParity(cmd)]
  {
    NarrowOrder(Header(cmd), 6);
    HeaderBit(cmd, 0);
    HeaderBit(cmd, 1);
    HeaderBit(cmd, 2);
    HeaderBit(cmd, 3);
  }

  /**
   * A write frame sends two zero turnaround bits, the payload, then the
   * payload's parity followed by three zeros; a receiver that decodes the
   * payload finds that its parity matches.
   */
  lemma WriteBodyLayout(n: nat, wdata: nat)
    requires ValidWidth(n) && wdata < Pow2(n)
    ensures |WriteBody(n, wdata)| == n + 6
    ensures WriteBody(n, wdata)[..2] == [0, 0]
    ensures InValue(WriteBody(n, wdata)[2..n + 2]) == wdata
    ensures WriteBody(n, wdata)[n + 2..] == [OddParity(wdata), 0, 0, 0]
  {
    var body := WriteBody(n, wdata);
    TrailerBits(OddParity(wdata));
    assert body[2..n + 2] == OutBits(wdata, n);
    WireRoundTrip(wdata, n);
  }

  /** The turnaround field is two zeros; the trailer is the parity bit and three zeros. */
  lemma TrailerBits(p: Bit)
    ensures OutBits(0, 2) == [0, 0]
    ensures OutBits(p * 8, 4) == [p, 0, 0, 0]
  {
    TurnaroundBits();
    TrailerBit(p, 0);
    TrailerBit(p, 1);
    TrailerBit(p, 2);
    TrailerBit(p, 3);
  }

  lemma TurnaroundBits()
    ensures OutBits(0, 2) == [0, 0]
  {
    NarrowBit(0, 2, 0);
    NarrowBit(0, 2, 1);
  }

  lemma TrailerBit(p: Bit, i: nat)
    requires i < 4
    ensures OutBits(p * 8, 4)[i] == if i == 0 then p else 0
  {
    NarrowBit(p * 8, 4, i);
    if p == 0 {
      BitAtOfZero(3 - i);
    } else {
      assert BitAt(8, 3) == 1 && BitAt(8, 2) == 0 && BitAt(8, 1) == 0 && BitAt(8, 0) == 0;
    }
  }
}
