/**
 * Interrupt control on the Hazard3 core (software/include/irq.h). Every helper
 * is one CSR access whose operand the header computes. The external
 * interrupt enable, pending and force arrays are read and written 16 IRQs at
 * a time: the operand's low half names the 16-IRQ window and its high half
 * carries the window's bits. The CSR access itself is an instruction this
 * model represents as a CsrOp value.
 */
module Irq {
  import opened Bits
  import opened Reg32

  const IRQ_APU_AOUT: nat := 0
  const IRQ_SPI_STREAM: nat := 1
  const IRQ_PPU: nat := 2
  const IRQ_VUART: nat := 3
  const IRQ_APU_TIMER: nat := 4
  const IRQ_UART: nat := 5
  const NUM_IRQS: nat := 6

  /** mstatus.MIE; mie.MEIE, mie.MTIE and mie.MSIE. */
  const MSTATUS_MIE_BIT: nat := 3
  const MIE_MEIE_BIT: nat := 11
  const MIE_MTIE_BIT: nat := 7
  const MIE_MSIE_BIT: nat := 3

  datatype Csr = Meiea | Meipa | Meifa | Meicontext | Mstatus | Mie

  /** `write_csr`, `set_csr`, `clear_csr` and `read_set_csr` (csrw, csrs, csrc, csrrs). */
  datatype CsrOp =
    | CsrWrite(csr: Csr, value: Word)
    | CsrSet(csr: Csr, value: Word)
    | CsrClear(csr: Csr, value: Word)
    | CsrReadSet(csr: Csr, value: Word)

  /** The operand `index | ((uint32_t)data << 16)` of the array macros. */
  function Operand(index: Word, data: Word): (w: Word) {
    Or(index, (data * 0x10000) % WORD)
  }

  /** The window index and window bits decode back from the operand. */
  lemma OperandFields(index: Word, data: Word)
    requires index < 0x10000 && data < 0x10000
    ensures Operand(index, data) == index + data * 0x10000
    ensures Operand(index, data) % 0x10000 == index && Operand(index, data) / 0x10000 == data
  {
    Pow2Is(16);
    OrShifted(index, data, 16);
  }

  /** `h3irq_array_write`. */
  function ArrayWrite(csr: Csr, index: Word, data: Word): (op: CsrOp)
    ensures op.CsrWrite? && op.csr == csr && op.value == Operand(index, data)
    ensures index < 0x10000 && data < 0x10000 ==> op.value % 0x10000 == index && op.value / 0x10000 == data
  {
    if index < 0x10000 && data < 0x10000 then OperandFields(index, data); CsrWrite(csr, Operand(index, data))
    else CsrWrite(csr, Operand(index, data))
  }

  /** `h3irq_array_set`. */
  function ArraySet(csr: Csr, index: Word, data: Word): (op: CsrOp)
    ensures op.CsrSet? && op.csr == csr && op.value == Operand(index, data)
    ensures index < 0x10000 && data < 0x10000 ==> op.value % 0x10000 == index && op.value / 0x10000 == data
  {
    if index < 0x10000 && data < 0x10000 then OperandFields(index, data); CsrSet(csr, Operand(index, data))
    else CsrSet(csr, Operand(index, data))
  }

  /** `h3irq_array_clear`. */
  function ArrayClear(csr: Csr, index: Word, data: Word): (op: CsrOp)
    ensures op.CsrClear? && op.csr == csr && op.value == Operand(index, data)
    ensures index < 0x10000 && data < 0x10000 ==> op.value % 0x10000 == index && op.value / 0x10000 == data
  {
    if index < 0x10000 && data < 0x10000 then OperandFields(index, data); CsrClear(csr, Operand(index, data))
    else CsrClear(csr, Operand(index, data))
  }

  /** The access `h3irq_array_read` makes: `read_set_csr(csr, index)`. */
  function ArrayReadOp(csr: Csr, index: Word): CsrOp {
    CsrReadSet(csr, index)
  }

  /** The value `h3irq_array_read` yields from what the csrrs returned: its upper half. */
  function ArrayReadValue(readback: Word): (w: Word)
    ensures w < 0x10000
    ensures forall k: nat :: BitAt(w, k) == BitAt(readback, 16 + k)
  {
    Pow2Is(16);
    ShrDiv(readback, 16);
    forall k: nat ensures BitAt(readback / 0x10000, k) == BitAt(readback, 16 + k) {
      BitAtShr(readback, 16, k);
    }
    readback / 0x10000
  }

  /** The 16-IRQ window holding `irq`: `irq >> 4`. */
  function Window(irq: Word): (w: Word)
    ensures w * 16 <= irq < w * 16 + 16
  {
    irq / 16
  }

  /** The one-hot bit of `irq` in its window: `1u << (irq & 0xf)`. */
  function WindowBit(irq: Word): (m: Word)
    ensures m < 0x10000
    ensures IsSet(m, irq % 16) && forall j: nat | j != irq % 16 :: BitAt(m, j) == 0
  {
    Pow2Is(16);
    Pow2Monotone(irq % 16 + 1, 16);
    Mask(irq % 16)
  }

  /** The IRQ an array operand with a one-hot window names. */
  function OperandIrq(value: Word): nat {
    (value % 0x10000) * 16 + Log2(value / 0x10000)
  }

  /** The position of the highest set bit; the position of the bit in a one-hot value. */
  function Log2(x: nat): nat {
    if x <= 1 then 0 else 1 + Log2(x / 2)
  }

  lemma {:induction false} Log2Pow2(k: nat)
    ensures Log2(Pow2(k)) == k
  {
    if k > 0 {
      Log2Pow2(k - 1);
    }
  }

  /** `irq_set_enabled`. */
  function SetEnabled(irq: Word, enable: bool): (op: CsrOp)
    ensures op.csr == Meiea && (op.CsrSet? <==> enable) && (op.CsrClear? <==> !enable)
  {
    if enable then ArraySet(Meiea, Window(irq), WindowBit(irq))
    else ArrayClear(Meiea, Window(irq), WindowBit(irq))
  }

  /** `irq_force_pending`. */
  function ForcePending(irq: Word, force: bool): (op: CsrOp)
    ensures op.csr == Meifa && (op.CsrSet? <==> force) && (op.CsrClear? <==> !force)
  {
    if force then ArraySet(Meifa, Window(irq), WindowBit(irq))
    else ArrayClear(Meifa, Window(irq), WindowBit(irq))
  }

  /** For every IRQ the hardware can have, the operand names exactly that IRQ's window and bit. */
  lemma EnableOperandNamesIrq(irq: Word, enable: bool, force: bool)
    requires irq < 0x10_0000
    ensures SetEnabled(irq, enable).value % 0x10000 == Window(irq)
    ensures SetEnabled(irq, enable).value / 0x10000 == WindowBit(irq)
    ensures OperandIrq(SetEnabled(irq, enable).value) == irq
    ensures ForcePending(irq, force).value == SetEnabled(irq, enable).value
  {
    OperandFields(Window(irq), WindowBit(irq));
    Log2Pow2(irq % 16);
  }

  /** `irq_is_pending`: the access it makes, and its answer given what that access returned. */
  function PendingReadOp(irq: Word): (op: CsrOp)
    ensures op == CsrReadSet(Meipa, Window(irq))
    ensures op.CsrReadSet? && op.csr == Meipa && op.value * 16 <= irq < op.value * 16 + 16
  {
    ArrayReadOp(Meipa, Window(irq))
  }

  /** `irq_is_forced`: the access it makes. */
  function ForcedReadOp(irq: Word): (op: CsrOp)
    ensures op == CsrReadSet(Meifa, Window(irq))
    ensures op.CsrReadSet? && op.csr == Meifa && op.value * 16 <= irq < op.value * 16 + 16
  {
    ArrayReadOp(Meifa, Window(irq))
  }

  /** The answer of `irq_is_pending` / `irq_is_forced`: `h3irq_array_read(...) & (1u << (irq & 0xf))`. */
  function WindowHas(irq: Word, readback: Word): (set_: bool)
    ensures set_ <==> IsSet(readback, 16 + irq % 16)
  {
    TestMask(ArrayReadValue(readback), irq % 16);
    And(ArrayReadValue(readback), WindowBit(irq)) != 0
  }

  /** `get_current_irq`: -1 when meicontext.NOIRQ (bit 15) is set, else meicontext.IRQ (bits 12:4). */
  function CurrentIrq(meicontext: Word): (irq: int)
    ensures irq == -1 <==> IsSet(meicontext, 15)
    ensures irq != -1 ==> 0 <= irq < 512 && irq == meicontext / 16 % 512
  {
    TestMask(meicontext, 15);
    AndLowMask(meicontext / 16, 9);
    assert Pow2(9) == 512 by { Pow2Is(8); }
    if And(meicontext, Mask(15)) != 0 then -1 else And(meicontext / 16, 0x1ff)
  }

  /** A context with the NOIRQ flag, or naming IRQ n, reads back as -1 or n. */
  lemma CurrentIrqOf(noIrq: bool, n: nat, low: nat)
    requires n < 512 && low < 16
    ensures CurrentIrq((if noIrq then 0x8000 else 0) + n * 16 + low) == if noIrq then -1 else n
  {
    var b := if noIrq then 1 else 0;
    var y := n * 16 + low;
    assert Pow2(15) == 0x8000 by { Pow2Is(16); }
    BitAtHigh(b, y, 15);
    assert b * 0x8000 + y == (if noIrq then 0x8000 else 0) + n * 16 + low;
    assert (b * 0x8000 + y) / 16 == b * 0x800 + n;
  }

  /** Bit k of `b << k | y` is the low bit of b when y fits below bit k. */
  lemma BitAtHigh(b: nat, y: nat, k: nat)
    requires y < Pow2(k)
    ensures BitAt(b * Pow2(k) + y, k) == b % 2
  {
    BitAtShr(b * Pow2(k) + y, k, 0);
    ShrDiv(b * Pow2(k) + y, k);
    DivUnique(b * Pow2(k) + y, Pow2(k), b, y);
  }

  /** The effect of csrw / csrs / csrc / csrrs on an ordinary CSR such as mstatus or mie. */
  function ApplyCsr(prev: Word, op: CsrOp): Word {
    match op
    case CsrWrite(_, v) => v
    case CsrSet(_, v) => Or(prev, v)
    case CsrClear(_, v) => AndNot(prev, v)
    case CsrReadSet(_, v) => Or(prev, v)
  }

  /** Sets or clears one enable bit: the body shared by the four enable helpers. */
  function EnableBit(csr: Csr, bit: nat, en: bool): (op: CsrOp)
    requires bit < 32
    ensures op.csr == csr && (op.CsrSet? <==> en) && (op.CsrClear? <==> !en)
  {
    if en then CsrSet(csr, Mask(bit)) else CsrClear(csr, Mask(bit))
  }

  /** `global_irq_enable`: `set_csr(mstatus, 0x8)` / `clear_csr(mstatus, 0x8)`. */
  function GlobalIrqEnable(en: bool): CsrOp {
    EnableBit(Mstatus, MSTATUS_MIE_BIT, en)
  }

  /** `external_irq_enable`: mie bit 11 (0x800). */
  function ExternalIrqEnable(en: bool): CsrOp {
    EnableBit(Mie, MIE_MEIE_BIT, en)
  }

  /** `timer_irq_enable`: mie bit 7 (0x080). */
  function TimerIrqEnable(en: bool): CsrOp {
    EnableBit(Mie, MIE_MTIE_BIT, en)
  }

  /** `soft_irq_enable`: mie bit 3 (0x008). */
  function SoftIrqEnable(en: bool): CsrOp {
    EnableBit(Mie, MIE_MSIE_BIT, en)
  }

  /** Each enable helper writes the documented bit of its CSR and leaves every other bit alone. */
  lemma EnableTouchesOneBit(prev: Word, en: bool)
    ensures Mask(MSTATUS_MIE_BIT) == 0x8 && Mask(MIE_MEIE_BIT) == 0x800
    ensures Mask(MIE_MTIE_BIT) == 0x080 && Mask(MIE_MSIE_BIT) == 0x008
    ensures GlobalIrqEnable(en).csr == Mstatus
    ensures IsSet(ApplyCsr(prev, GlobalIrqEnable(en)), MSTATUS_MIE_BIT) == en
    ensures Agree(ApplyCsr(prev, GlobalIrqEnable(en)), prev, {MSTATUS_MIE_BIT})
    ensures ExternalIrqEnable(en).csr == Mie && TimerIrqEnable(en).csr == Mie && SoftIrqEnable(en).csr == Mie
    ensures IsSet(ApplyCsr(prev, ExternalIrqEnable(en)), MIE_MEIE_BIT) == en
    ensures Agree(ApplyCsr(prev, ExternalIrqEnable(en)), prev, {MIE_MEIE_BIT})
    ensures IsSet(ApplyCsr(prev, TimerIrqEnable(en)), MIE_MTIE_BIT) == en
    ensures Agree(ApplyCsr(prev, TimerIrqEnable(en)), prev, {MIE_MTIE_BIT})
    ensures IsSet(ApplyCsr(prev, SoftIrqEnable(en)), MIE_MSIE_BIT) == en
    ensures Agree(ApplyCsr(prev, SoftIrqEnable(en)), prev, {MIE_MSIE_BIT})
  {
    Pow2Is(8);
  }
}
