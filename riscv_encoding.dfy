/**
 * The words the host's RISC-V debug helpers put on the debug bus
 * (cocotb/chip_top_tb.py:180-377): Debug Module register numbers and field
 * positions, abstract "access register" commands, and the two-instruction
 * program-buffer sequences used to reach CSRs and memory. Every word the
 * host builds with `|` is shown to decode to the fields its comment names.
 */
module RiscvEncoding {
  import opened Bits

  // Debug Module registers (addresses on the TWD bus).
  const DM_DATA0: nat := 0x04
  const DM_DMCONTROL: nat := 0x10
  const DM_DMSTATUS: nat := 0x11
  const DM_ABSTRACTCS: nat := 0x16
  const DM_COMMAND: nat := 0x17
  const DM_PROGBUF0: nat := 0x20
  const DM_PROGBUF1: nat := 0x21

  // Bit positions of the fields the helpers test or set.
  const DMCONTROL_DMACTIVE: nat := 0x1
  const DMCONTROL_HARTSEL_LSB: nat := 16
  const DMCONTROL_HALTREQ_BIT: nat := 31
  const DMCONTROL_RESUMEREQ_BIT: nat := 30
  const DMSTATUS_ALLHALTED_BIT: nat := 9
  const DMSTATUS_ANYNONEXISTENT_BIT: nat := 15
  const DMSTATUS_ALLRESUMEACK_BIT: nat := 16
  const ABSTRACTCS_BUSY_BIT: nat := 12

  /** The DMSTATUS version field value of a version 0.13 Debug Module. */
  const DMSTATUS_VERSION_013: nat := 2

  /** Register number of s0 (x8), the scratch register of every program-buffer sequence. */
  const REG_S0: nat := 8
  /** Register number of s1 (x9). */
  const REG_S1: nat := 9

  type Gpr = r: nat | r < 32
  type Csr = c: nat | c < 0x1000

  /** Fields of an abstract "access register" command (cmdtype 0). */
  datatype AccessRegister = AccessRegister(
    size: nat, postexec: bool, transfer: bool, write: bool, regno: nat)

  predicate AccessRegisterOk(c: AccessRegister) {
    c.size < 8 && c.regno < 0x10000
  }

  function Flag(b: bool): nat { if b then 1 else 0 }

  /** The command word: aarsize at bit 20, postexec 18, transfer 17, write 16, regno 15:0. */
  function EncodeCommand(c: AccessRegister): (w: nat)
    requires AccessRegisterOk(c)
    ensures w < 0x800000
  {
    c.size * 0x100000 + Flag(c.postexec) * 0x40000 + Flag(c.transfer) * 0x20000
      + Flag(c.write) * 0x10000 + c.regno
  }

  function DecodeCommand(w: nat): AccessRegister {
    AccessRegister(w / 0x100000 % 8, w / 0x40000 % 2 == 1, w / 0x20000 % 2 == 1,
      w / 0x10000 % 2 == 1, w % 0x10000)
  }

  /** Abstract register number of a GPR: 0x1000 + index. */
  function GprRegno(gpr: Gpr): nat { 0x1000 + gpr }

  /** `TRANSFER | SIZE_WORD | (0x1000 + gpr)`: read the GPR into data0. */
  function GetGprCommand(gpr: Gpr): nat { 0x20000 + 0x200000 + GprRegno(gpr) }

  /** `TRANSFER | SIZE_WORD | WRITE | (0x1000 + gpr)`: write data0 into the GPR. */
  function PutGprCommand(gpr: Gpr): nat { 0x20000 + 0x200000 + 0x10000 + GprRegno(gpr) }

  /** `POSTEXEC | TRANSFER | SIZE_WORD | WRITE | 0x1008`: write data0 into s0, then run the program buffer. */
  const EXEC_WITH_S0: nat := 0x40000 + 0x20000 + 0x200000 + 0x10000 + 0x1008

  /** `POSTEXEC` alone: run the program buffer without a transfer. */
  const EXEC_ONLY: nat := 0x40000

  /** One 32-bit I-type instruction: imm[11:0] rs1 funct3 rd opcode. */
  datatype IType = IType(imm: nat, rs1: nat, funct3: nat, rd: nat, opcode: nat)

  predicate ITypeOk(i: IType) {
    i.imm < 0x1000 && i.rs1 < 32 && i.funct3 < 8 && i.rd < 32 && i.opcode < 0x80
  }

  function EncodeI(i: IType): (w: nat)
    requires ITypeOk(i)
    ensures w < 0x1_0000_0000
  {
    i.imm * 0x100000 + i.rs1 * 0x8000 + i.funct3 * 0x1000 + i.rd * 0x80 + i.opcode
  }

  function DecodeI(w: nat): IType {
    IType(w / 0x100000, w / 0x8000 % 32, w / 0x1000 % 8, w / 0x80 % 32, w % 0x80)
  }

  /** One S-type instruction (a store): imm[11:5] rs2 rs1 funct3 imm[4:0] opcode. */
  datatype SType = SType(imm: nat, rs2: nat, rs1: nat, funct3: nat, opcode: nat)

  predicate STypeOk(s: SType) {
    s.imm < 0x1000 && s.rs2 < 32 && s.rs1 < 32 && s.funct3 < 8 && s.opcode < 0x80
  }

  function EncodeS(s: SType): (w: nat)
    requires STypeOk(s)
    ensures w < 0x1_0000_0000
  {
    s.imm / 32 * 0x2000000 + s.rs2 * 0x100000 + s.rs1 * 0x8000 + s.funct3 * 0x1000
      + s.imm % 32 * 0x80 + s.opcode
  }

  function DecodeS(w: nat): SType {
    SType(w / 0x2000000 * 32 + w / 0x80 % 32, w / 0x100000 % 32, w / 0x8000 % 32,
      w / 0x1000 % 8, w % 0x80)
  }

  const OP_SYSTEM: nat := 0x73
  const OP_LOAD: nat := 0x03
  const OP_STORE: nat := 0x23

  // The program-buffer words the helpers write. Their fields are disjoint,
  // so the source's `|` of shifted fields is written here as a sum.

  /** `0x00001073 | (csr << 20) | (8 << 15)`, commented "csrw xxx, s0". */
  function CsrwFromS0(csr: Csr): nat { 0x1073 + csr * 0x100000 + 8 * 0x8000 }

  /** `0x00002073 | (csr << 20) | (8 << 7)`, commented "csrr s0, xxx". */
  function CsrrToS0(csr: Csr): nat { 0x2073 + csr * 0x100000 + 8 * 0x80 }

  /** `0xbff01073 | (8 << 15)`, commented "csrw dmdata0, s0". */
  const CSRW_DMDATA0_S0: nat := 0xbff01073 + 8 * 0x8000

  /** `0x00002023 | (9 << 20) | (8 << 15)`, commented "sw s1, (s0)". */
  const SW_S1_S0: nat := 0x2023 + 9 * 0x100000 + 8 * 0x8000

  /** `0x00002003 | (8 << 7) | (8 << 15)`, commented "lw s0, (s0)". */
  const LW_S0_S0: nat := 0x2003 + 8 * 0x80 + 8 * 0x8000

  /** `0x00100073`, commented "ebreak". */
  const EBREAK: nat := 0x00100073

  /** Hazard3's custom CSR that aliases the Debug Module's data0. */
  const CSR_DMDATA0: nat := 0xbff

  lemma CommandRoundTrip(c: AccessRegister)
    requires AccessRegisterOk(c)
    ensures DecodeCommand(EncodeCommand(c)) == c
  {
    var w := EncodeCommand(c);
    var p, t, wr := Flag(c.postexec), Flag(c.transfer), Flag(c.write);
    FieldOf(w, 0x10000, 0x10000, 0, c.size * 16 + p * 4 + t * 2 + wr, c.regno);
    DivUnique(w, 0x10000, c.size * 16 + p * 4 + t * 2 + wr, c.regno);
    FieldOf(w, 0x10000, 2, c.size * 8 + p * 2 + t, wr, c.regno);
    FieldOf(w, 0x20000, 2, c.size * 4 + p, t, wr * 0x10000 + c.regno);
    FieldOf(w, 0x40000, 2, c.size * 2, p, t * 0x20000 + wr * 0x10000 + c.regno);
    FieldOf(w, 0x100000, 8, 0, c.size, p * 0x40000 + t * 0x20000 + wr * 0x10000 + c.regno);
  }

  lemma ITypeRoundTrip(i: IType)
    requires ITypeOk(i)
    ensures DecodeI(EncodeI(i)) == i
  {
    var w := EncodeI(i);
    DivUnique(w, 0x80, i.imm * 0x2000 + i.rs1 * 0x100 + i.funct3 * 0x20 + i.rd, i.opcode);
    FieldOf(w, 0x80, 32, i.imm * 0x100 + i.rs1 * 8 + i.funct3, i.rd, i.opcode);
    FieldOf(w, 0x1000, 8, i.imm * 0x20 + i.rs1, i.funct3, i.rd * 0x80 + i.opcode);
    FieldOf(w, 0x8000, 32, i.imm, i.rs1, i.funct3 * 0x1000 + i.rd * 0x80 + i.opcode);
    DivUnique(w, 0x100000, i.imm, i.rs1 * 0x8000 + i.funct3 * 0x1000 + i.rd * 0x80 + i.opcode);
  }

  lemma STypeRoundTrip(s: SType)
    requires STypeOk(s)
    ensures DecodeS(EncodeS(s)) == s
  {
    var w := EncodeS(s);
    var hi, lo := s.imm / 32, s.imm % 32;
    DivUnique(w, 0x80, hi * 0x40000 + s.rs2 * 0x2000 + s.rs1 * 0x100 + s.funct3 * 0x20 + lo, s.opcode);
    FieldOf(w, 0x80, 32, hi * 0x2000 + s.rs2 * 0x100 + s.rs1 * 8 + s.funct3, lo, s.opcode);
    FieldOf(w, 0x1000, 8, hi * 0x400 + s.rs2 * 0x20 + s.rs1, s.funct3, lo * 0x80 + s.opcode);
    FieldOf(w, 0x8000, 32, hi * 0x20 + s.rs2, s.rs1, s.funct3 * 0x1000 + lo * 0x80 + s.opcode);
    FieldOf(w, 0x100000, 32, hi, s.rs2, s.rs1 * 0x8000 + s.funct3 * 0x1000 + lo * 0x80 + s.opcode);
    DivUnique(w, 0x2000000, hi, s.rs2 * 0x100000 + s.rs1 * 0x8000 + s.funct3 * 0x1000 + lo * 0x80 + s.opcode);
  }

  /** The get-GPR command reads GPR `gpr` as a 32-bit word, without running the program buffer. */
  lemma GetGprCommandFields(gpr: Gpr)
    ensures DecodeCommand(GetGprCommand(gpr)) == AccessRegister(2, false, true, false, GprRegno(gpr))
  {
    CommandRoundTrip(AccessRegister(2, false, true, false, GprRegno(gpr)));
  }

  /** The put-GPR command writes GPR `gpr` as a 32-bit word, without running the program buffer. */
  lemma PutGprCommandFields(gpr: Gpr)
    ensures DecodeCommand(PutGprCommand(gpr)) == AccessRegister(2, false, true, true, GprRegno(gpr))
  {
    CommandRoundTrip(AccessRegister(2, false, true, true, GprRegno(gpr)));
  }

  /** The program-buffer commands: the first writes data0 to s0 and then executes; the second only executes. */
  lemma ExecCommandFields()
    ensures DecodeCommand(EXEC_WITH_S0) == AccessRegister(2, true, true, true, GprRegno(REG_S0))
    ensures DecodeCommand(EXEC_ONLY) == AccessRegister(0, true, false, false, 0)
  {
    CommandRoundTrip(AccessRegister(2, true, true, true, GprRegno(REG_S0)));
    CommandRoundTrip(AccessRegister(0, true, false, false, 0));
  }

  /** "csrw csr, s0" is csrrw x0, csr, s0. */
  lemma CsrwFromS0Fields(csr: Csr)
    ensures DecodeI(CsrwFromS0(csr)) == IType(csr, REG_S0, 1, 0, OP_SYSTEM)
  {
    ITypeRoundTrip(IType(csr, REG_S0, 1, 0, OP_SYSTEM));
  }

  /** "csrr s0, csr" is csrrs s0, csr, x0. */
  lemma CsrrToS0Fields(csr: Csr)
    ensures DecodeI(CsrrToS0(csr)) == IType(csr, 0, 2, REG_S0, OP_SYSTEM)
  {
    ITypeRoundTrip(IType(csr, 0, 2, REG_S0, OP_SYSTEM));
  }

  /**
   * The fixed program-buffer words: the get-CSR epilogue is "csrw dmdata0, s0"
   * (not an ebreak), the store is sw s1, 0(s0), the load is lw s0, 0(s0),
   * and ebreak is the SYSTEM instruction with immediate 1.
   */
  lemma FixedWordsFields()
    ensures CSRW_DMDATA0_S0 == CsrwFromS0(CSR_DMDATA0)
    ensures CSRW_DMDATA0_S0 != EBREAK
    ensures DecodeS(SW_S1_S0) == SType(0, REG_S1, REG_S0, 2, OP_STORE)
    ensures DecodeI(LW_S0_S0) == IType(0, REG_S0, 2, REG_S0, OP_LOAD)
    ensures DecodeI(EBREAK) == IType(1, 0, 0, 0, OP_SYSTEM)
  {
  }
}
