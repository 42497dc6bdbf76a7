/**
 * The host's RISC-V Debug Module client (cocotb/chip_top_tb.py:180-377):
 * bring-up, hart discovery and selection, halt and resume, abstract
 * register access, and CSR and memory access through the two-word program
 * buffer, all over the bus accesses of a DebugHost.Session.
 *
 * Each operation returns the bus accesses it made (`ops`) together with
 * the words the target answered, and its contract names the accesses it
 * plans to make given those answers (a function ending in `Ops`). Whatever
 * happens, the accesses made are a prefix of that plan: a failure stops
 * the operation early, it never makes an access the plan lacks. When the
 * operation passes, the accesses are the whole plan, and each poll in it
 * stopped on the word it was waiting for.
 */
module DmClient {
  import opened Wrappers
  import opened Bits
  import opened RiscvEncoding
  import opened DebugHost

  /** `DMACTIVE | (hart << HARTSEL_LSB)`: the DMCONTROL word that selects `hart` and keeps the module active. */
  function HartSelect(hart: nat): (w: nat)
    ensures w % 0x10000 == DMCONTROL_DMACTIVE && w / 0x10000 == hart
  {
    DivUnique(DMCONTROL_DMACTIVE + hart * 0x10000, 0x10000, hart, DMCONTROL_DMACTIVE);
    DMCONTROL_DMACTIVE + hart * 0x10000
  }

  /** A poll of ABSTRACTCS that saw busy clear within `limit` reads. */
  predicate IdleWithin(ds: seq<nat>, limit: nat) {
    PollDone(ds, ABSTRACTCS_BUSY_BIT, 0, limit)
  }

  /** The abstract command finished: ABSTRACTCS.busy read clear within 10 reads. */
  predicate AcmdDone(ds: seq<nat>) {
    IdleWithin(ds, 10)
  }

  /** `rvdebug_init`, after connecting: check DMSTATUS.version, then reset and activate the module. */
  function InitOps(status: nat): seq<BusOp> {
    [BusRead(DM_DMSTATUS, status), BusWrite(DM_DMCONTROL, 0), BusWrite(DM_DMCONTROL, DMCONTROL_DMACTIVE)]
  }

  /** `rvdebug_halt` and `rvdebug_resume`: read DMCONTROL, write it back with the request bit set, poll DMSTATUS. */
  function RequestOps(control: nat, req: nat, ds: seq<nat>): seq<BusOp> {
    [BusRead(DM_DMCONTROL, control), BusWrite(DM_DMCONTROL, SetBit(control, req))] + Reads(DM_DMSTATUS, ds)
  }

  /** What `rvdebug_count_harts` read while probing one hart: DMCONTROL, then DMSTATUS. */
  datatype Probe = Probe(control: nat, status: nat)

  /** Hart i is there: DMCONTROL reads back its selection, and DMSTATUS does not call it nonexistent. */
  predicate Present(i: nat, p: Probe) {
    p.control == HartSelect(i) && BitAt(p.status, DMSTATUS_ANYNONEXISTENT_BIT) == 0
  }

  /** Probing hart i: select it, read DMCONTROL back, and read DMSTATUS only if the selection stuck. */
  function ProbeOps(i: nat, p: Probe): seq<BusOp> {
    [BusWrite(DM_DMCONTROL, HartSelect(i)), BusRead(DM_DMCONTROL, p.control)]
    + (if p.control == HartSelect(i) then [BusRead(DM_DMSTATUS, p.status)] else [])
  }

  /** Probing harts 0, 1, ... in turn. */
  function ProbesOps(ps: seq<Probe>): seq<BusOp>
    decreases |ps|
  {
    if ps == [] then [] else ProbesOps(ps[..|ps| - 1]) + ProbeOps(|ps| - 1, ps[|ps| - 1])
  }

  /** `rvdebug_count_harts`: activate the module, then probe harts in turn. */
  function CountOps(ps: seq<Probe>): seq<BusOp> {
    [BusWrite(DM_DMCONTROL, DMCONTROL_DMACTIVE)] + ProbesOps(ps)
  }

  /** `rvdebug_get_gpr`: read the register into data0, wait for the command, read data0. */
  function GetGprOps(gpr: Gpr, ds: seq<nat>, v: nat): seq<BusOp> {
    [BusWrite(DM_COMMAND, GetGprCommand(gpr))] + Reads(DM_ABSTRACTCS, ds) + [BusRead(DM_DATA0, v)]
  }

  /** `rvdebug_put_gpr`: write data0, copy it into the register, poll ABSTRACTCS until idle. */
  function PutGprOps(gpr: Gpr, w: nat, ds: seq<nat>): seq<BusOp> {
    [BusWrite(DM_DATA0, w), BusWrite(DM_COMMAND, PutGprCommand(gpr))] + Reads(DM_ABSTRACTCS, ds)
  }

  /** `rvdebug_put_progbuf`: a write to progbuf `idx` only if the cached word differs. */
  function ProgbufOps(cache: seq<nat>, idx: nat, instr: nat): seq<BusOp>
    requires idx < |cache|
  {
    if cache[idx] != instr then [BusWrite(DM_PROGBUF0 + idx, instr)] else []
  }

  /** Load a two-instruction program, issue `cmd`, and wait for it. */
  function RunOps(cache: seq<nat>, i0: nat, i1: nat, cmd: nat, ds: seq<nat>): seq<BusOp>
    requires |cache| == 2
  {
    ProgbufOps(cache, 0, i0) + ProgbufOps(cache[0 := i0], 1, i1)
    + [BusWrite(DM_COMMAND, cmd)] + Reads(DM_ABSTRACTCS, ds)
  }

  /** Put `data` in data0, then run i0, i1 with s0 first loaded from data0: the middle of put_csr, read_mem32 and write_mem32. */
  function LoadRunOps(cache: seq<nat>, data: nat, i0: nat, i1: nat, ds: seq<nat>): seq<BusOp>
    requires |cache| == 2
  {
    [BusWrite(DM_DATA0, data)] + RunOps(cache, i0, i1, EXEC_WITH_S0, ds)
  }

  /** `rvdebug_put_csr`: save s0, put the value in data0, run "csrw csr, s0; ebreak" with s0 loaded from data0, restore s0. */
  function PutCsrOps(cache: seq<nat>, csr: Csr, wdata: nat, saved: nat, polls: seq<seq<nat>>): seq<BusOp>
    requires |cache| == 2 && |polls| == 3
  {
    GetGprOps(REG_S0, polls[0], saved) + LoadRunOps(cache, wdata, CsrwFromS0(csr), EBREAK, polls[1])
    + PutGprOps(REG_S0, saved, polls[2])
  }

  /** The middle of `rvdebug_get_csr`: run "csrr s0, csr; csrw dmdata0, s0" without a transfer, then read data0. */
  function FetchCsrOps(cache: seq<nat>, csr: Csr, ds: seq<nat>, rdata: nat): seq<BusOp>
    requires |cache| == 2
  {
    RunOps(cache, CsrrToS0(csr), CSRW_DMDATA0_S0, EXEC_ONLY, ds) + [BusRead(DM_DATA0, rdata)]
  }

  /** `rvdebug_get_csr`: save s0, fetch the CSR through it, restore s0. */
  function GetCsrOps(cache: seq<nat>, csr: Csr, saved: nat, rdata: nat, polls: seq<seq<nat>>): seq<BusOp>
    requires |cache| == 2 && |polls| == 3
  {
    GetGprOps(REG_S0, polls[0], saved) + FetchCsrOps(cache, csr, polls[1], rdata) + PutGprOps(REG_S0, saved, polls[2])
  }

  /** The middle of `rvdebug_read_mem32`: run "lw s0, (s0); ebreak" with s0 = addr, then read s0. */
  function LoadWordOps(cache: seq<nat>, addr: nat, d1: seq<nat>, d2: seq<nat>, rdata: nat): seq<BusOp>
    requires |cache| == 2
  {
    LoadRunOps(cache, addr, LW_S0_S0, EBREAK, d1) + GetGprOps(REG_S0, d2, rdata)
  }

  /** `rvdebug_read_mem32`: save s0, load the word through it, restore s0. */
  function ReadMemOps(cache: seq<nat>, addr: nat, saved: nat, rdata: nat, polls: seq<seq<nat>>): seq<BusOp>
    requires |cache| == 2 && |polls| == 4
  {
    GetGprOps(REG_S0, polls[0], saved) + LoadWordOps(cache, addr, polls[1], polls[2], rdata)
    + PutGprOps(REG_S0, saved, polls[3])
  }

  /** Save s0 and then s1. */
  function SaveOps(d0: seq<nat>, s0: nat, d1: seq<nat>, s1: nat): seq<BusOp> {
    GetGprOps(REG_S0, d0, s0) + GetGprOps(REG_S1, d1, s1)
  }

  /** The middle of `rvdebug_write_mem32`: put the data in s1, run "sw s1, (s0); ebreak" with s0 = addr. */
  function StoreWordOps(cache: seq<nat>, addr: nat, wdata: nat, d2: seq<nat>, d3: seq<nat>): seq<BusOp>
    requires |cache| == 2
  {
    PutGprOps(REG_S1, wdata, d2) + LoadRunOps(cache, addr, SW_S1_S0, EBREAK, d3)
  }

  /** Restore s0 and then s1. */
  function RestoreOps(s0: nat, d4: seq<nat>, s1: nat, d5: seq<nat>): seq<BusOp> {
    PutGprOps(REG_S0, s0, d4) + PutGprOps(REG_S1, s1, d5)
  }

  /** `rvdebug_write_mem32`: save s0 and s1, store the word, restore s0 and s1. */
  function WriteMemOps(cache: seq<nat>, addr: nat, wdata: nat, s0: nat, s1: nat, polls: seq<seq<nat>>): seq<BusOp>
    requires |cache| == 2 && |polls| == 6
  {
    SaveOps(polls[0], s0, polls[1], s1) + StoreWordOps(cache, addr, wdata, polls[2], polls[3])
    + RestoreOps(s0, polls[4], s1, polls[5])
  }

  /** A made prefix of one step, after whole earlier steps, is a prefix of the plan. */
  lemma Then(done: seq<BusOp>, o: seq<BusOp>, p: seq<BusOp>, rest: seq<BusOp>)
    requires o <= p
    ensures done + o <= done + p + rest
  {
    assert (done + p + rest)[..|done + o|] == done + o;
  }

  /** A made prefix of the first of three steps is a prefix of the plan. */
  lemma First(o: seq<BusOp>, p: seq<BusOp>, q: seq<BusOp>, rest: seq<BusOp>)
    requires o <= p
    ensures o <= p + q + rest
  {
    assert (p + q + rest)[..|o|] == o;
  }

  /** A made prefix of the last step, after whole earlier steps, is a prefix of the plan. */
  lemma Last(done: seq<BusOp>, o: seq<BusOp>, p: seq<BusOp>)
    requires o <= p
    ensures done + o <= done + p
  {
    assert (done + p)[..|done + o|] == done + o;
  }

  lemma ReadMemPlan(cache: seq<nat>, addr: nat, saved: nat, rdata: nat, d1: seq<nat>, d2: seq<nat>, d3: seq<nat>, d4: seq<nat>)
    requires |cache| == 2
    ensures ReadMemOps(cache, addr, saved, rdata, [d1, d2, d3, d4])
      == GetGprOps(REG_S0, d1, saved) + LoadWordOps(cache, addr, d2, d3, rdata) + PutGprOps(REG_S0, saved, d4)
  {
  }

  lemma WriteMemPlan(cache: seq<nat>, addr: nat, wdata: nat, s0: nat, s1: nat,
                     d0: seq<nat>, d1: seq<nat>, d2: seq<nat>, d3: seq<nat>, d4: seq<nat>, d5: seq<nat>)
    requires |cache| == 2
    ensures WriteMemOps(cache, addr, wdata, s0, s1, [d0, d1, d2, d3, d4, d5])
      == SaveOps(d0, s0, d1, s1) + StoreWordOps(cache, addr, wdata, d2, d3) + RestoreOps(s0, d4, s1, d5)
  {
  }

  /** Every write to program-buffer slot 0 stores i0, and every write to slot 1 stores i1. */
  predicate ProgbufHolds(ops: seq<BusOp>, i0: nat, i1: nat) {
    forall k | 0 <= k < |ops| && ops[k].BusWrite? ::
      (ops[k].addr == DM_PROGBUF0 ==> ops[k].data == i0) && (ops[k].addr == DM_PROGBUF1 ==> ops[k].data == i1)
  }

  lemma ProgbufHoldsJoin(a: seq<BusOp>, b: seq<BusOp>, i0: nat, i1: nat)
    requires ProgbufHolds(a, i0, i1) && ProgbufHolds(b, i0, i1)
    ensures ProgbufHolds(a + b, i0, i1)
  {
    forall k | 0 <= k < |a + b| && (a + b)[k].BusWrite?
      ensures ((a + b)[k].addr == DM_PROGBUF0 ==> (a + b)[k].data == i0)
        && ((a + b)[k].addr == DM_PROGBUF1 ==> (a + b)[k].data == i1)
    {
      if k >= |a| {
        assert (a + b)[k] == b[k - |a|];
      }
    }
  }

  /** Loading "i0; i1" and running it writes no other program words. */
  lemma LoadRunProgbuf(cache: seq<nat>, data: nat, i0: nat, i1: nat, ds: seq<nat>)
    requires |cache| == 2
    ensures ProgbufHolds(LoadRunOps(cache, data, i0, i1, ds), i0, i1)
  {
    var p0 := ProgbufOps(cache, 0, i0);
    var p1 := ProgbufOps(cache[0 := i0], 1, i1);
    var tail := [BusWrite(DM_COMMAND, EXEC_WITH_S0)] + Reads(DM_ABSTRACTCS, ds);
    assert LoadRunOps(cache, data, i0, i1, ds) == [BusWrite(DM_DATA0, data)] + p0 + p1 + tail;
    ProgbufHoldsJoin([BusWrite(DM_DATA0, data)], p0, i0, i1);
    ProgbufHoldsJoin([BusWrite(DM_DATA0, data)] + p0, p1, i0, i1);
    ProgbufHoldsJoin([BusWrite(DM_DATA0, data)] + p0 + p1, tail, i0, i1);
  }

  /**
   * `rvdebug_read_mem32` leaves s0 as it found it: the word its first command
   * copies out of s0 through data0 is the word its last command copies back;
   * in between it loads the address into s0, and the only program it writes
   * is "lw s0, (s0); ebreak".
   */
  lemma ReadMemKeepsS0(cache: seq<nat>, addr: nat, saved: nat, rdata: nat, polls: seq<seq<nat>>)
    requires |cache| == 2 && |polls| == 4
    ensures var ops := ReadMemOps(cache, addr, saved, rdata, polls);
      var n := |polls[0]| + 2;
      var m := |ops| - |polls[3]| - 2;
      n < m
      && ops[0] == BusWrite(DM_COMMAND, GetGprCommand(REG_S0)) && ops[n - 1] == BusRead(DM_DATA0, saved)
      && ops[n] == BusWrite(DM_DATA0, addr)
      && ops[m] == BusWrite(DM_DATA0, saved) && ops[m + 1] == BusWrite(DM_COMMAND, PutGprCommand(REG_S0))
      && ops[m + 2..] == Reads(DM_ABSTRACTCS, polls[3])
      && ProgbufHolds(ops, LW_S0_S0, EBREAK)
  {
    var get := GetGprOps(REG_S0, polls[0], saved);
    var run := LoadRunOps(cache, addr, LW_S0_S0, EBREAK, polls[1]);
    var fetch := GetGprOps(REG_S0, polls[2], rdata);
    var put := PutGprOps(REG_S0, saved, polls[3]);
    assert ReadMemOps(cache, addr, saved, rdata, polls) == get + run + fetch + put;
    LoadRunProgbuf(cache, addr, LW_S0_S0, EBREAK, polls[1]);
    ProgbufHoldsJoin(get, run, LW_S0_S0, EBREAK);
    ProgbufHoldsJoin(get + run, fetch, LW_S0_S0, EBREAK);
    ProgbufHoldsJoin(get + run + fetch, put, LW_S0_S0, EBREAK);
  }

  /**
   * `rvdebug_write_mem32` leaves s0 and s1 as it found them: the words it
   * first copies out of s0 and s1 are the words its last two register
   * writes put back; in between it puts the data in s1 and the address in
   * s0, and the only program it writes is "sw s1, (s0); ebreak".
   */
  lemma WriteMemKeepsS0S1(cache: seq<nat>, addr: nat, wdata: nat, s0: nat, s1: nat, polls: seq<seq<nat>>)
    requires |cache| == 2 && |polls| == 6
    ensures var ops := WriteMemOps(cache, addr, wdata, s0, s1, polls);
      var n0 := |polls[0]| + 2;
      var n := n0 + |polls[1]| + 2;
      var m := |ops| - |polls[4]| - |polls[5]| - 4;
      var m1 := m + 2 + |polls[4]|;
      n + 2 + |polls[2]| < m
      && ops[0] == BusWrite(DM_COMMAND, GetGprCommand(REG_S0)) && ops[n0 - 1] == BusRead(DM_DATA0, s0)
      && ops[n0] == BusWrite(DM_COMMAND, GetGprCommand(REG_S1)) && ops[n - 1] == BusRead(DM_DATA0, s1)
      && ops[n] == BusWrite(DM_DATA0, wdata) && ops[n + 1] == BusWrite(DM_COMMAND, PutGprCommand(REG_S1))
      && ops[n + 2 + |polls[2]|] == BusWrite(DM_DATA0, addr)
      && ops[m] == BusWrite(DM_DATA0, s0) && ops[m + 1] == BusWrite(DM_COMMAND, PutGprCommand(REG_S0))
      && ops[m1] == BusWrite(DM_DATA0, s1) && ops[m1 + 1] == BusWrite(DM_COMMAND, PutGprCommand(REG_S1))
      && ops[m1 + 2..] == Reads(DM_ABSTRACTCS, polls[5])
      && ProgbufHolds(ops, SW_S1_S0, EBREAK)
  {
    var get0 := GetGprOps(REG_S0, polls[0], s0);
    var get1 := GetGprOps(REG_S1, polls[1], s1);
    var put1 := PutGprOps(REG_S1, wdata, polls[2]);
    var run := LoadRunOps(cache, addr, SW_S1_S0, EBREAK, polls[3]);
    var back0 := PutGprOps(REG_S0, s0, polls[4]);
    var back1 := PutGprOps(REG_S1, s1, polls[5]);
    assert WriteMemOps(cache, addr, wdata, s0, s1, polls) == get0 + get1 + put1 + run + back0 + back1;
    LoadRunProgbuf(cache, addr, SW_S1_S0, EBREAK, polls[3]);
    ProgbufHoldsJoin(get0, get1, SW_S1_S0, EBREAK);
    ProgbufHoldsJoin(get0 + get1, put1, SW_S1_S0, EBREAK);
    ProgbufHoldsJoin(get0 + get1 + put1, run, SW_S1_S0, EBREAK);
    ProgbufHoldsJoin(get0 + get1 + put1 + run, back0, SW_S1_S0, EBREAK);
    ProgbufHoldsJoin(get0 + get1 + put1 + run + back0, back1, SW_S1_S0, EBREAK);
  }

  /** `twd_read_bus`, as the Debug Module client sees it: one bus read, or none on failure. */
  method Rd(s: Session, addr: nat) returns (r: Result<nat, Error>)
    modifies s`wire, s`xfers, s`cachedAddr, s`bus
    ensures s.bus == old(s.bus) + (if r.Success? then [BusRead(addr, r.value)] else [])
    ensures old(s.xfers) <= s.xfers
  {
    ghost var t;
    r, t := s.ReadBus(addr);
  }

  /** `twd_write_bus`, as the Debug Module client sees it: one bus write, or none on failure. */
  method Wr(s: Session, addr: nat, wdata: nat) returns (r: Outcome<Error>)
    modifies s`wire, s`xfers, s`cachedAddr, s`bus
    ensures s.bus == old(s.bus) + (if r.Pass? then [BusWrite(addr, wdata)] else [])
    ensures old(s.xfers) <= s.xfers
  {
    ghost var t;
    r, t := s.WriteBus(addr, wdata);
  }

  /**
   * Read `addr` until its `bit` reads `stop`, at most `limit` times; when
   * every read saw the bit differ, fail with `giveUp`. `ds` are the words
   * read.
   */
  method PollBus(s: Session, addr: nat, bit: nat, stop: Bit, limit: nat, giveUp: Error)
    returns (r: Outcome<Error>, ghost ds: seq<nat>)
    modifies s`wire, s`xfers, s`cachedAddr, s`bus
    ensures s.bus == old(s.bus) + Reads(addr, ds)
    ensures r.Pass? ==> PollDone(ds, bit, stop, limit)
    ensures r.Fail? ==> |ds| <= limit && Waiting(ds, bit, stop)
    ensures r.Fail? && |ds| == limit ==> r.error == giveUp
  {
    ds := [];
    var i := 0;
    while i < limit
      invariant i == |ds| <= limit
      invariant s.bus == old(s.bus) + Reads(addr, ds)
      invariant Waiting(ds, bit, stop)
    {
      var stat := Rd(s, addr);
      if stat.Failure? {
        return Fail(stat.error), ds;
      }
      ReadsAppend(addr, ds, stat.value);
      if BitAt(stat.value, bit) == stop {
        assert (ds + [stat.value])[..|ds|] == ds;
        return Pass, ds + [stat.value];
      }
      ds := ds + [stat.value];
      i := i + 1;
    }
    return Fail(giveUp), ds;
  }

  /** `rvdebug_wait_acmd_finish`: poll ABSTRACTCS at most 10 times for busy to clear. */
  method WaitAcmdFinish(s: Session) returns (r: Outcome<Error>, ghost ds: seq<nat>)
    modifies s`wire, s`xfers, s`cachedAddr, s`bus
    ensures s.bus == old(s.bus) + Reads(DM_ABSTRACTCS, ds)
    ensures r.Pass? ==> AcmdDone(ds)
    ensures r.Fail? ==> |ds| <= 10 && Waiting(ds, ABSTRACTCS_BUSY_BIT, 0)
    ensures r.Fail? && |ds| == 10 ==> r.error == Timeout
  {
    r, ds := PollBus(s, DM_ABSTRACTCS, ABSTRACTCS_BUSY_BIT, 0, 10, Timeout);
  }

  /** `rvdebug_put_gpr`: the final poll of ABSTRACTCS has no bound in the source, so it gets `fuel`. */
  method PutGpr(s: Session, gpr: Gpr, wdata: nat) returns (r: Outcome<Error>, ghost ops: seq<BusOp>, ghost ds: seq<nat>)
    modifies s`wire, s`xfers, s`cachedAddr, s`bus
    ensures s.bus == old(s.bus) + ops
    ensures ops <= PutGprOps(gpr, wdata, ds)
    ensures r.Pass? ==> ops == PutGprOps(gpr, wdata, ds) && PollDone(ds, ABSTRACTCS_BUSY_BIT, 0, s.fuel)
  {
    ds := [];
    var w := Wr(s, DM_DATA0, wdata);
    if w.Fail? {
      return w, [], ds;
    }
    w := Wr(s, DM_COMMAND, PutGprCommand(gpr));
    if w.Fail? {
      return w, [BusWrite(DM_DATA0, wdata)], ds;
    }
    r, ds := PollBus(s, DM_ABSTRACTCS, ABSTRACTCS_BUSY_BIT, 0, s.fuel, Hang);
    ops := PutGprOps(gpr, wdata, ds);
  }

  /** `rvdebug_get_gpr`: `v` is the word read from data0, the register's value. */
  method GetGpr(s: Session, gpr: Gpr) returns (r: Result<nat, Error>, ghost ops: seq<BusOp>, ghost ds: seq<nat>, ghost v: nat)
    modifies s`wire, s`xfers, s`cachedAddr, s`bus
    ensures s.bus == old(s.bus) + ops
    ensures ops <= GetGprOps(gpr, ds, v)
    ensures r.Success? ==> ops == GetGprOps(gpr, ds, v) && AcmdDone(ds) && r.value == v
  {
    ds, v := [], 0;
    var w := Wr(s, DM_COMMAND, GetGprCommand(gpr));
    if w.Fail? {
      return Failure(w.error), [], ds, v;
    }
    var done;
    done, ds := WaitAcmdFinish(s);
    if done.Fail? {
      return Failure(done.error), [BusWrite(DM_COMMAND, GetGprCommand(gpr))] + Reads(DM_ABSTRACTCS, ds), ds, v;
    }
    ops := [BusWrite(DM_COMMAND, GetGprCommand(gpr))] + Reads(DM_ABSTRACTCS, ds);
    r := Rd(s, DM_DATA0);
    if r.Success? {
      v := r.value;
      ops := ops + [BusRead(DM_DATA0, v)];
    }
  }

  /**
   * `rvdebug_put_progbuf`: write progbuf `idx` only when its cached word
   * differs; the cache is updated first, so it holds `instr` even when the
   * write then fails.
   */
  method PutProgbuf(s: Session, idx: nat, instr: nat) returns (r: Outcome<Error>, ghost ops: seq<BusOp>)
    requires idx < 2 && s.Valid()
    modifies s`wire, s`xfers, s`cachedAddr, s`bus, s`progbufCache
    ensures s.progbufCache == old(s.progbufCache)[idx := instr]
    ensures s.bus == old(s.bus) + ops
    ensures r.Pass? ==> ops == ProgbufOps(old(s.progbufCache), idx, instr)
    ensures r.Fail? ==> old(s.progbufCache)[idx] != instr && ops == []
  {
    if s.progbufCache[idx] != instr {
      s.progbufCache := s.progbufCache[idx := instr];
      r := Wr(s, DM_PROGBUF0 + idx, instr);
      ops := if r.Pass? then [BusWrite(DM_PROGBUF0 + idx, instr)] else [];
    } else {
      r, ops := Pass, [];
    }
  }

  /** The shared middle of the CSR and memory helpers: load i0, i1 into the program buffer, issue `cmd`, wait for it. */
  method RunProgbuf(s: Session, i0: nat, i1: nat, cmd: nat) returns (r: Outcome<Error>, ghost ops: seq<BusOp>, ghost ds: seq<nat>)
    requires s.Valid()
    modifies s`wire, s`xfers, s`cachedAddr, s`bus, s`progbufCache
    ensures s.bus == old(s.bus) + ops
    ensures ops <= RunOps(old(s.progbufCache), i0, i1, cmd, ds)
    ensures r.Pass? ==> ops == RunOps(old(s.progbufCache), i0, i1, cmd, ds) && AcmdDone(ds)
    ensures s.progbufCache == [i0, i1] || (r.Fail? && s.progbufCache == old(s.progbufCache)[0 := i0])
  {
    ghost var cache := s.progbufCache;
    ds := [];
    ghost var o0, o1;
    r, o0 := PutProgbuf(s, 0, i0);
    if r.Fail? {
      return r, o0, ds;
    }
    r, o1 := PutProgbuf(s, 1, i1);
    if r.Fail? {
      Then(o0, o1, ProgbufOps(cache[0 := i0], 1, i1), [BusWrite(DM_COMMAND, cmd)]);
      return r, o0 + o1, ds;
    }
    r := Wr(s, DM_COMMAND, cmd);
    if r.Fail? {
      return r, o0 + o1, ds;
    }
    r, ds := WaitAcmdFinish(s);
    ops := o0 + o1 + [BusWrite(DM_COMMAND, cmd)] + Reads(DM_ABSTRACTCS, ds);
  }

  /**
   * `rvdebug_init`: reset the program-buffer cache to [0, 0], connect,
   * require a version 0.13 Debug Module, then write DMCONTROL 0 and then
   * DMACTIVE.
   */
  method Init(s: Session)
    returns (r: Outcome<Error>, ghost ops: seq<BusOp>, ghost status: nat, ghost cx: seq<Xfer>, ghost rc: Outcome<Error>)
    modifies s`wire, s`xfers, s`cachedAddr, s`bus, s`progbufCache
    ensures s.progbufCache == [0, 0] && s.Valid()
    ensures old(s.xfers) + cx <= s.xfers && ConnectXfers(cx, rc)
    ensures rc.Fail? ==> r == rc && ops == [] && s.xfers == old(s.xfers) + cx
    ensures s.bus == old(s.bus) + ops
    ensures ops <= InitOps(status)
    ensures r.Pass? ==> ops == InitOps(status) && status % 16 == DMSTATUS_VERSION_013
    ensures |ops| > 0 && status % 16 != DMSTATUS_VERSION_013 ==> r == Fail(BadDmVersion) && |ops| == 1
  {
    s.progbufCache := [0, 0];
    ghost var o := s.xfers;
    r := s.Connect();
    rc, cx := r, s.xfers[|o|..];
    assert s.xfers == o + cx;
    if r.Fail? {
      return r, [], 0, cx, rc;
    }
    r, ops, status := Activate(s);
  }

  /** The part of `rvdebug_init` after connecting. */
  method Activate(s: Session) returns (r: Outcome<Error>, ghost ops: seq<BusOp>, ghost status: nat)
    modifies s`wire, s`xfers, s`cachedAddr, s`bus
    ensures old(s.xfers) <= s.xfers
    ensures s.bus == old(s.bus) + ops
    ensures ops <= InitOps(status)
    ensures r.Pass? ==> ops == InitOps(status) && status % 16 == DMSTATUS_VERSION_013
    ensures |ops| > 0 && status % 16 != DMSTATUS_VERSION_013 ==> r == Fail(BadDmVersion) && |ops| == 1
  {
    status := 0;
    var dmstatus := Rd(s, DM_DMSTATUS);
    if dmstatus.Failure? {
      return Fail(dmstatus.error), [], status;
    }
    status := dmstatus.value;
    if dmstatus.value % 16 != DMSTATUS_VERSION_013 {
      return Fail(BadDmVersion), [BusRead(DM_DMSTATUS, status)], status;
    }
    r := Wr(s, DM_DMCONTROL, 0);
    if r.Fail? {
      return r, [BusRead(DM_DMSTATUS, status)], status;
    }
    r := Wr(s, DM_DMCONTROL, DMCONTROL_DMACTIVE);
    ops := if r.Pass? then InitOps(status) else [BusRead(DM_DMSTATUS, status), BusWrite(DM_DMCONTROL, 0)];
  }

  /** `rvdebug_select_hart` */
  method SelectHart(s: Session, hart: nat) returns (r: Outcome<Error>)
    modifies s`wire, s`xfers, s`cachedAddr, s`bus
    ensures s.bus == old(s.bus) + (if r.Pass? then [BusWrite(DM_DMCONTROL, HartSelect(hart))] else [])
  {
    r := Wr(s, DM_DMCONTROL, HartSelect(hart));
  }

  /**
   * `rvdebug_count_harts`: probe harts 0 to 32 and return the first that
   * is not there; when all 33 are, the loop variable's last value, 32.
   * `ps` are the probes made.
   */
  method CountHarts(s: Session) returns (r: Result<nat, Error>, ghost ops: seq<BusOp>, ghost ps: seq<Probe>)
    modifies s`wire, s`xfers, s`cachedAddr, s`bus
    ensures s.bus == old(s.bus) + ops
    ensures ops <= CountOps(ps)
    ensures r.Success? ==>
      ops == CountOps(ps) && 0 < |ps| <= 33 && r.value == |ps| - 1
      && (forall i | 0 <= i < |ps| - 1 :: Present(i, ps[i]))
      && (|ps| < 33 ==> !Present(|ps| - 1, ps[|ps| - 1]))
  {
    ps := [];
    var w := Wr(s, DM_DMCONTROL, DMCONTROL_DMACTIVE);
    if w.Fail? {
      return Failure(w.error), [], ps;
    }
    ops := CountOps(ps);
    var i := 0;
    while i < 33
      invariant i == |ps| <= 33
      invariant s.bus == old(s.bus) + ops && ops == CountOps(ps)
      invariant forall j | 0 <= j < i :: Present(j, ps[j])
    {
      var present, o, p := ProbeHart(s, i);
      ProbeAfter(ps, p, o);
      if present.Failure? {
        return Failure(present.error), ops + o, ps + [p];
      }
      if !present.value {
        return Success(i), ops + o, ps + [p];
      }
      ops := ops + o;
      ps := ps + [p];
      i := i + 1;
    }
    return Success(32), ops, ps;
  }

  /** One round of `rvdebug_count_harts`: is hart i there? `p` is what the probe read. */
  method ProbeHart(s: Session, i: nat) returns (r: Result<bool, Error>, ghost o: seq<BusOp>, ghost p: Probe)
    modifies s`wire, s`xfers, s`cachedAddr, s`bus
    ensures s.bus == old(s.bus) + o
    ensures o <= ProbeOps(i, p)
    ensures r.Success? ==> o == ProbeOps(i, p) && r.value == Present(i, p)
  {
    p := Probe(0, 0);
    var sel := HartSelect(i);
    var w := Wr(s, DM_DMCONTROL, sel);
    if w.Fail? {
      return Failure(w.error), [], p;
    }
    var actual := Rd(s, DM_DMCONTROL);
    if actual.Failure? {
      return Failure(actual.error), [BusWrite(DM_DMCONTROL, sel)], p;
    }
    p := Probe(actual.value, 0);
    if sel != actual.value {
      return Success(false), ProbeOps(i, p), p;
    }
    var status := Rd(s, DM_DMSTATUS);
    if status.Failure? {
      return Failure(status.error), [BusWrite(DM_DMCONTROL, sel), BusRead(DM_DMCONTROL, actual.value)], p;
    }
    p := Probe(actual.value, status.value);
    return Success(BitAt(status.value, DMSTATUS_ANYNONEXISTENT_BIT) == 0), ProbeOps(i, p), p;
  }

  /** Probing one more hart extends the probe plan; a partial probe is a prefix of it. */
  lemma ProbeAfter(ps: seq<Probe>, p: Probe, o: seq<BusOp>)
    requires o <= ProbeOps(|ps|, p)
    ensures CountOps(ps + [p]) == CountOps(ps) + ProbeOps(|ps|, p)
    ensures CountOps(ps) + o <= CountOps(ps + [p])
  {
    assert (ps + [p])[..|ps|] == ps;
    Then(CountOps(ps), o, ProbeOps(|ps|, p), []);
    assert CountOps(ps) + ProbeOps(|ps|, p) + [] == CountOps(ps) + ProbeOps(|ps|, p);
  }

  /**
   * `rvdebug_halt` and `rvdebug_resume`: set request bit `req` in
   * DMCONTROL, then poll DMSTATUS until bit `ack` is set, without bound in
   * the source and up to `fuel` times here.
   */
  method Request(s: Session, req: nat, ack: nat)
    returns (r: Outcome<Error>, ghost ops: seq<BusOp>, ghost control: nat, ghost ds: seq<nat>)
    modifies s`wire, s`xfers, s`cachedAddr, s`bus
    ensures s.bus == old(s.bus) + ops
    ensures ops <= RequestOps(control, req, ds)
    ensures r.Pass? ==> ops == RequestOps(control, req, ds) && PollDone(ds, ack, 1, s.fuel)
  {
    control, ds := 0, [];
    var dmcontrol := Rd(s, DM_DMCONTROL);
    if dmcontrol.Failure? {
      return Fail(dmcontrol.error), [], control, ds;
    }
    control := dmcontrol.value;
    r := Wr(s, DM_DMCONTROL, SetBit(dmcontrol.value, req));
    if r.Fail? {
      return r, [BusRead(DM_DMCONTROL, control)], control, ds;
    }
    r, ds := PollBus(s, DM_DMSTATUS, ack, 1, s.fuel, Hang);
    ops := RequestOps(control, req, ds);
  }

  /** `rvdebug_halt`: request a halt and wait for DMSTATUS.allhalted. */
  method Halt(s: Session) returns (r: Outcome<Error>, ghost ops: seq<BusOp>, ghost control: nat, ghost ds: seq<nat>)
    modifies s`wire, s`xfers, s`cachedAddr, s`bus
    ensures s.bus == old(s.bus) + ops
    ensures ops <= RequestOps(control, DMCONTROL_HALTREQ_BIT, ds)
    ensures r.Pass? ==> ops == RequestOps(control, DMCONTROL_HALTREQ_BIT, ds) && PollDone(ds, DMSTATUS_ALLHALTED_BIT, 1, s.fuel)
  {
    r, ops, control, ds := Request(s, DMCONTROL_HALTREQ_BIT, DMSTATUS_ALLHALTED_BIT);
  }

  /** `rvdebug_resume`: request a resume and wait for DMSTATUS.allresumeack. */
  method Resume(s: Session) returns (r: Outcome<Error>, ghost ops: seq<BusOp>, ghost control: nat, ghost ds: seq<nat>)
    modifies s`wire, s`xfers, s`cachedAddr, s`bus
    ensures s.bus == old(s.bus) + ops
    ensures ops <= RequestOps(control, DMCONTROL_RESUMEREQ_BIT, ds)
    ensures r.Pass? ==> ops == RequestOps(control, DMCONTROL_RESUMEREQ_BIT, ds) && PollDone(ds, DMSTATUS_ALLRESUMEACK_BIT, 1, s.fuel)
  {
    r, ops, control, ds := Request(s, DMCONTROL_RESUMEREQ_BIT, DMSTATUS_ALLRESUMEACK_BIT);
  }

  /** Write data0, then run the program buffer with s0 loaded from it. */
  method LoadAndRun(s: Session, data: nat, i0: nat, i1: nat) returns (r: Outcome<Error>, ghost ops: seq<BusOp>, ghost ds: seq<nat>)
    requires s.Valid()
    modifies s`wire, s`xfers, s`cachedAddr, s`bus, s`progbufCache
    ensures s.Valid()
    ensures s.bus == old(s.bus) + ops
    ensures ops <= LoadRunOps(old(s.progbufCache), data, i0, i1, ds)
    ensures r.Pass? ==> ops == LoadRunOps(old(s.progbufCache), data, i0, i1, ds) && AcmdDone(ds) && s.progbufCache == [i0, i1]
  {
    ds := [];
    r := Wr(s, DM_DATA0, data);
    if r.Fail? {
      return r, [], ds;
    }
    ghost var o;
    r, o, ds := RunProgbuf(s, i0, i1, EXEC_WITH_S0);
    Then([BusWrite(DM_DATA0, data)], o, RunOps(old(s.progbufCache), i0, i1, EXEC_WITH_S0, ds), []);
    ops := [BusWrite(DM_DATA0, data)] + o;
  }

  /** `rvdebug_put_csr`; `saved` is the value of s0 it saved and restores. */
  method PutCsr(s: Session, csr: Csr, wdata: nat)
    returns (r: Outcome<Error>, ghost ops: seq<BusOp>, ghost saved: nat, ghost polls: seq<seq<nat>>)
    requires s.Valid()
    modifies s`wire, s`xfers, s`cachedAddr, s`bus, s`progbufCache
    ensures s.Valid() && |polls| == 3
    ensures s.bus == old(s.bus) + ops
    ensures ops <= PutCsrOps(old(s.progbufCache), csr, wdata, saved, polls)
    ensures r.Pass? ==>
      ops == PutCsrOps(old(s.progbufCache), csr, wdata, saved, polls)
      && AcmdDone(polls[0]) && AcmdDone(polls[1]) && IdleWithin(polls[2], s.fuel)
      && s.progbufCache == [CsrwFromS0(csr), EBREAK]
  {
    ghost var cache, b0 := s.progbufCache, s.bus;
    ghost var d1, d2, d3 := [], [], [];
    ghost var o;
    var save;
    save, o, d1, saved := GetGpr(s, REG_S0);
    if save.Failure? {
      Then([], o, GetGprOps(REG_S0, d1, saved), LoadRunOps(cache, wdata, CsrwFromS0(csr), EBREAK, d2) + PutGprOps(REG_S0, saved, d3));
      assert [] + o == o;
      return Fail(save.error), o, saved, [d1, d2, d3];
    }
    ghost var done := o;
    r, o, d2 := LoadAndRun(s, wdata, CsrwFromS0(csr), EBREAK);
    assert s.bus == b0 + (done + o);
    if r.Fail? {
      Then(done, o, LoadRunOps(cache, wdata, CsrwFromS0(csr), EBREAK, d2), PutGprOps(REG_S0, saved, d3));
      return r, done + o, saved, [d1, d2, d3];
    }
    done := done + o;
    r, o, d3 := PutGpr(s, REG_S0, save.value);
    assert s.bus == b0 + (done + o);
    Then(done, o, PutGprOps(REG_S0, saved, d3), []);
    ops, polls := done + o, [d1, d2, d3];
  }

  /** The middle of `rvdebug_get_csr`; `rdata` is the word read from data0. */
  method FetchCsr(s: Session, csr: Csr) returns (r: Result<nat, Error>, ghost ops: seq<BusOp>, ghost ds: seq<nat>, ghost rdata: nat)
    requires s.Valid()
    modifies s`wire, s`xfers, s`cachedAddr, s`bus, s`progbufCache
    ensures s.Valid()
    ensures s.bus == old(s.bus) + ops
    ensures ops <= FetchCsrOps(old(s.progbufCache), csr, ds, rdata)
    ensures r.Success? ==>
      r.value == rdata && ops == FetchCsrOps(old(s.progbufCache), csr, ds, rdata)
      && AcmdDone(ds) && s.progbufCache == [CsrrToS0(csr), CSRW_DMDATA0_S0]
  {
    ghost var cache := s.progbufCache;
    rdata := 0;
    var run;
    ghost var o;
    run, o, ds := RunProgbuf(s, CsrrToS0(csr), CSRW_DMDATA0_S0, EXEC_ONLY);
    if run.Fail? {
      Then([], o, RunOps(cache, CsrrToS0(csr), CSRW_DMDATA0_S0, EXEC_ONLY, ds), [BusRead(DM_DATA0, rdata)]);
      assert [] + o == o;
      return Failure(run.error), o, ds, rdata;
    }
    r := Rd(s, DM_DATA0);
    if r.Failure? {
      assert o + [] == o;
      return r, o, ds, rdata;
    }
    rdata := r.value;
    ops := o + [BusRead(DM_DATA0, rdata)];
  }

  /** `rvdebug_get_csr`; `saved` is the value of s0 it saved and restores, `rdata` the CSR's value. */
  method GetCsr(s: Session, csr: Csr)
    returns (r: Result<nat, Error>, ghost ops: seq<BusOp>, ghost saved: nat, ghost rdata: nat, ghost polls: seq<seq<nat>>)
    requires s.Valid()
    modifies s`wire, s`xfers, s`cachedAddr, s`bus, s`progbufCache
    ensures s.Valid() && |polls| == 3
    ensures s.bus == old(s.bus) + ops
    ensures ops <= GetCsrOps(old(s.progbufCache), csr, saved, rdata, polls)
    ensures r.Success? ==>
      r.value == rdata && ops == GetCsrOps(old(s.progbufCache), csr, saved, rdata, polls)
      && AcmdDone(polls[0]) && AcmdDone(polls[1]) && IdleWithin(polls[2], s.fuel)
      && s.progbufCache == [CsrrToS0(csr), CSRW_DMDATA0_S0]
  {
    ghost var cache, b0 := s.progbufCache, s.bus;
    ghost var d1, d2, d3 := [], [], [];
    rdata := 0;
    ghost var o;
    var save;
    save, o, d1, saved := GetGpr(s, REG_S0);
    if save.Failure? {
      Then([], o, GetGprOps(REG_S0, d1, saved), FetchCsrOps(cache, csr, d2, rdata) + PutGprOps(REG_S0, saved, d3));
      assert [] + o == o;
      return Failure(save.error), o, saved, rdata, [d1, d2, d3];
    }
    ghost var done := o;
    r, o, d2, rdata := FetchCsr(s, csr);
    assert s.bus == b0 + (done + o);
    if r.Failure? {
      Then(done, o, FetchCsrOps(cache, csr, d2, rdata), PutGprOps(REG_S0, saved, d3));
      return r, done + o, saved, rdata, [d1, d2, d3];
    }
    done := done + o;
    var restored;
    restored, o, d3 := PutGpr(s, REG_S0, save.value);
    assert s.bus == b0 + (done + o);
    Then(done, o, PutGprOps(REG_S0, saved, d3), []);
    ops, polls := done + o, [d1, d2, d3];
    if restored.Fail? {
      r := Failure(restored.error);
    }
  }

  /** The middle of `rvdebug_read_mem32`; `rdata` is the value of s0 read back. */
  method LoadWord(s: Session, addr: nat)
    returns (r: Result<nat, Error>, ghost ops: seq<BusOp>, ghost d1: seq<nat>, ghost d2: seq<nat>, ghost rdata: nat)
    requires s.Valid()
    modifies s`wire, s`xfers, s`cachedAddr, s`bus, s`progbufCache
    ensures s.Valid()
    ensures s.bus == old(s.bus) + ops
    ensures ops <= LoadWordOps(old(s.progbufCache), addr, d1, d2, rdata)
    ensures r.Success? ==>
      r.value == rdata && ops == LoadWordOps(old(s.progbufCache), addr, d1, d2, rdata)
      && AcmdDone(d1) && AcmdDone(d2) && s.progbufCache == [LW_S0_S0, EBREAK]
  {
    ghost var cache := s.progbufCache;
    d2, rdata := [], 0;
    var run;
    ghost var o;
    run, o, d1 := LoadAndRun(s, addr, LW_S0_S0, EBREAK);
    if run.Fail? {
      Then([], o, LoadRunOps(cache, addr, LW_S0_S0, EBREAK, d1), GetGprOps(REG_S0, d2, rdata));
      assert [] + o == o;
      return Failure(run.error), o, d1, d2, rdata;
    }
    ghost var o2;
    r, o2, d2, rdata := GetGpr(s, REG_S0);
    Then(o, o2, GetGprOps(REG_S0, d2, rdata), []);
    ops := o + o2;
  }

  /** `rvdebug_read_mem32`; `saved` is the value of s0 it saved and restores, `rdata` the word loaded. */
  method ReadMem32(s: Session, addr: nat)
    returns (r: Result<nat, Error>, ghost ops: seq<BusOp>, ghost saved: nat, ghost rdata: nat, ghost polls: seq<seq<nat>>)
    requires s.Valid()
    modifies s`wire, s`xfers, s`cachedAddr, s`bus, s`progbufCache
    ensures s.Valid() && |polls| == 4
    ensures s.bus == old(s.bus) + ops
    ensures ops <= ReadMemOps(old(s.progbufCache), addr, saved, rdata, polls)
    ensures r.Success? ==>
      r.value == rdata && ops == ReadMemOps(old(s.progbufCache), addr, saved, rdata, polls)
      && AcmdDone(polls[0]) && AcmdDone(polls[1]) && AcmdDone(polls[2]) && IdleWithin(polls[3], s.fuel)
      && s.progbufCache == [LW_S0_S0, EBREAK]
  {
    ghost var cache, b0 := s.progbufCache, s.bus;
    ghost var d1, d2, d3, d4 := [], [], [], [];
    rdata := 0;
    ghost var o;
    var save;
    save, o, d1, saved := GetGpr(s, REG_S0);
    if save.Failure? {
      ReadMemPlan(cache, addr, saved, rdata, d1, d2, d3, d4);
      First(o, GetGprOps(REG_S0, d1, saved), LoadWordOps(cache, addr, d2, d3, rdata), PutGprOps(REG_S0, saved, d4));
      return Failure(save.error), o, saved, rdata, [d1, d2, d3, d4];
    }
    ghost var done := o;
    r, o, d2, d3, rdata := LoadWord(s, addr);
    assert s.bus == b0 + (done + o);
    ReadMemPlan(cache, addr, saved, rdata, d1, d2, d3, d4);
    if r.Failure? {
      Then(done, o, LoadWordOps(cache, addr, d2, d3, rdata), PutGprOps(REG_S0, saved, d4));
      return r, done + o, saved, rdata, [d1, d2, d3, d4];
    }
    done := done + o;
    var restored;
    restored, o, d4 := PutGpr(s, REG_S0, save.value);
    assert s.bus == b0 + (done + o);
    ReadMemPlan(cache, addr, saved, rdata, d1, d2, d3, d4);
    Last(done, o, PutGprOps(REG_S0, saved, d4));
    ops, polls := done + o, [d1, d2, d3, d4];
    if restored.Fail? {
      r := Failure(restored.error);
    }
  }

  /** The saves of `rvdebug_write_mem32`: s0, then s1. */
  method SaveS0S1(s: Session)
    returns (r: Result<(nat, nat), Error>, ghost ops: seq<BusOp>, ghost d0: seq<nat>, ghost v0: nat, ghost d1: seq<nat>, ghost v1: nat)
    modifies s`wire, s`xfers, s`cachedAddr, s`bus
    ensures s.bus == old(s.bus) + ops
    ensures ops <= SaveOps(d0, v0, d1, v1)
    ensures r.Success? ==> r.value == (v0, v1) && ops == SaveOps(d0, v0, d1, v1) && AcmdDone(d0) && AcmdDone(d1)
  {
    d1, v1 := [], 0;
    var a;
    ghost var o;
    a, o, d0, v0 := GetGpr(s, REG_S0);
    if a.Failure? {
      Then([], o, GetGprOps(REG_S0, d0, v0), GetGprOps(REG_S1, d1, v1));
      assert [] + o == o;
      return Failure(a.error), o, d0, v0, d1, v1;
    }
    var b;
    ghost var o2;
    b, o2, d1, v1 := GetGpr(s, REG_S1);
    Then(o, o2, GetGprOps(REG_S1, d1, v1), []);
    ops := o + o2;
    if b.Failure? {
      return Failure(b.error), ops, d0, v0, d1, v1;
    }
    r := Success((a.value, b.value));
  }

  /** The middle of `rvdebug_write_mem32`. */
  method StoreWord(s: Session, addr: nat, wdata: nat)
    returns (r: Outcome<Error>, ghost ops: seq<BusOp>, ghost d2: seq<nat>, ghost d3: seq<nat>)
    requires s.Valid()
    modifies s`wire, s`xfers, s`cachedAddr, s`bus, s`progbufCache
    ensures s.Valid()
    ensures s.bus == old(s.bus) + ops
    ensures ops <= StoreWordOps(old(s.progbufCache), addr, wdata, d2, d3)
    ensures r.Pass? ==>
      ops == StoreWordOps(old(s.progbufCache), addr, wdata, d2, d3)
      && IdleWithin(d2, s.fuel) && AcmdDone(d3) && s.progbufCache == [SW_S1_S0, EBREAK]
  {
    ghost var cache := s.progbufCache;
    d3 := [];
    ghost var o;
    r, o, d2 := PutGpr(s, REG_S1, wdata);
    if r.Fail? {
      Then([], o, PutGprOps(REG_S1, wdata, d2), LoadRunOps(cache, addr, SW_S1_S0, EBREAK, d3));
      assert [] + o == o;
      return r, o, d2, d3;
    }
    ghost var o2;
    r, o2, d3 := LoadAndRun(s, addr, SW_S1_S0, EBREAK);
    Then(o, o2, LoadRunOps(cache, addr, SW_S1_S0, EBREAK, d3), []);
    ops := o + o2;
  }

  /** The restores of `rvdebug_write_mem32`: s0, then s1. */
  method RestoreS0S1(s: Session, v0: nat, v1: nat)
    returns (r: Outcome<Error>, ghost ops: seq<BusOp>, ghost d4: seq<nat>, ghost d5: seq<nat>)
    modifies s`wire, s`xfers, s`cachedAddr, s`bus
    ensures s.bus == old(s.bus) + ops
    ensures ops <= RestoreOps(v0, d4, v1, d5)
    ensures r.Pass? ==> ops == RestoreOps(v0, d4, v1, d5) && IdleWithin(d4, s.fuel) && IdleWithin(d5, s.fuel)
  {
    d5 := [];
    ghost var o;
    r, o, d4 := PutGpr(s, REG_S0, v0);
    if r.Fail? {
      Then([], o, PutGprOps(REG_S0, v0, d4), PutGprOps(REG_S1, v1, d5));
      assert [] + o == o;
      return r, o, d4, d5;
    }
    ghost var o2;
    r, o2, d5 := PutGpr(s, REG_S1, v1);
    Then(o, o2, PutGprOps(REG_S1, v1, d5), []);
    ops := o + o2;
  }

  /** `rvdebug_write_mem32`; `s0` and `s1` are the register values it saved and restores. */
  method WriteMem32(s: Session, addr: nat, wdata: nat)
    returns (r: Outcome<Error>, ghost ops: seq<BusOp>, ghost s0: nat, ghost s1: nat, ghost polls: seq<seq<nat>>)
    requires s.Valid()
    modifies s`wire, s`xfers, s`cachedAddr, s`bus, s`progbufCache
    ensures s.Valid() && |polls| == 6
    ensures s.bus == old(s.bus) + ops
    ensures ops <= WriteMemOps(old(s.progbufCache), addr, wdata, s0, s1, polls)
    ensures r.Pass? ==>
      ops == WriteMemOps(old(s.progbufCache), addr, wdata, s0, s1, polls)
      && AcmdDone(polls[0]) && AcmdDone(polls[1]) && IdleWithin(polls[2], s.fuel) && AcmdDone(polls[3])
      && IdleWithin(polls[4], s.fuel) && IdleWithin(polls[5], s.fuel)
      && s.progbufCache == [SW_S1_S0, EBREAK]
  {
    ghost var cache, b0 := s.progbufCache, s.bus;
    ghost var d0, d1, d2, d3, d4, d5 := [], [], [], [], [], [];
    ghost var o;
    var saved;
    saved, o, d0, s0, d1, s1 := SaveS0S1(s);
    if saved.Failure? {
      WriteMemPlan(cache, addr, wdata, s0, s1, d0, d1, d2, d3, d4, d5);
      First(o, SaveOps(d0, s0, d1, s1), StoreWordOps(cache, addr, wdata, d2, d3), RestoreOps(s0, d4, s1, d5));
      return Fail(saved.error), o, s0, s1, [d0, d1, d2, d3, d4, d5];
    }
    ghost var done := o;
    r, o, d2, d3 := StoreWord(s, addr, wdata);
    assert s.bus == b0 + (done + o);
    WriteMemPlan(cache, addr, wdata, s0, s1, d0, d1, d2, d3, d4, d5);
    if r.Fail? {
      Then(done, o, StoreWordOps(cache, addr, wdata, d2, d3), RestoreOps(s0, d4, s1, d5));
      return r, done + o, s0, s1, [d0, d1, d2, d3, d4, d5];
    }
    done := done + o;
    r, o, d4, d5 := RestoreS0S1(s, saved.value.0, saved.value.1);
    assert s.bus == b0 + (done + o);
    WriteMemPlan(cache, addr, wdata, s0, s1, d0, d1, d2, d3, d4, d5);
    Last(done, o, RestoreOps(s0, d4, s1, d5));
    ops, polls := done + o, [d0, d1, d2, d3, d4, d5];
  }
}
