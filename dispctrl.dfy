/**
 * The display controller driver (software/include/dispctrl.h). Commands go
 * out through the pixel FIFO: each FIFO word is shifted to the LCD with the
 * D/C and CS lines and the shift width the CSR holds, so the model records
 * every FIFO write together with those three CSR fields. An init table is a
 * list of records [size, delay, size payload bytes] ended by a size of 0.
 */
module DispCtrl {
  import opened Bits
  import opened Reg32

  type Byte = b: nat | b < 256

  /** A FIFO write with the CSR's D/C, CS and 16-bit shift fields at that moment, or a `delay_ms`. */
  datatype Event = Put(dc: bool, cs: bool, wide: bool, data: nat) | Delay(ms: nat)

  /** Bit positions of the CSR fields the driver touches. */
  datatype Layout = Layout(dc: nat, cs: nat, shiftcnt: nat, xdouble: nat, ydouble: nat)

  predicate ValidLayout(l: Layout) {
    l.dc < 32 && l.cs < 32 && l.shiftcnt < 32 && l.xdouble < 32 && l.ydouble < 32
    && |{l.dc, l.cs, l.shiftcnt, l.xdouble, l.ydouble}| == 5
  }

  /**
   * What the LCD sees of a FIFO word: D/C in bit 8 above each byte shifted
   * out, MSB first. An 8-bit shift sends the word's high byte only.
   */
  function WordCapture(e: Event): (c: seq<nat>)
    ensures e.Put? && !e.wide && e.data < 0x10000 ==> c == [(if e.dc then 0x100 else 0) + e.data / 256]
    ensures e.Delay? ==> c == []
  {
    match e
    case Put(dc, _, wide, data) =>
      var d := if dc then 0x100 else 0;
      if wide then [d + data / 256 % 256, d + data % 256] else [d + data / 256 % 256]
    case Delay(_) => []
  }

  function Capture(log: seq<Event>): seq<nat> {
    if log == [] then [] else Capture(log[..|log| - 1]) + WordCapture(log[|log| - 1])
  }

  lemma {:induction false} CaptureAppend(a: seq<Event>, b: seq<Event>)
    ensures Capture(a + b) == Capture(a) + Capture(b)
    decreases |b|
  {
    if b == [] {
      assert a + b == a;
    } else {
      assert (a + b)[..|a + b| - 1] == a + b[..|b| - 1];
      CaptureAppend(a, b[..|b| - 1]);
    }
  }

  /** The delays, in milliseconds, in the order they happen. */
  function Delays(log: seq<Event>): seq<nat> {
    if log == [] then []
    else Delays(log[..|log| - 1]) + (if log[|log| - 1].Delay? then [log[|log| - 1].ms] else [])
  }

  lemma {:induction false} DelaysAppend(a: seq<Event>, b: seq<Event>)
    ensures Delays(a + b) == Delays(a) + Delays(b)
    decreases |b|
  {
    if b == [] {
      assert a + b == a;
    } else {
      assert (a + b)[..|a + b| - 1] == a + b[..|b| - 1];
      DelaysAppend(a, b[..|b| - 1]);
    }
  }

  /** A FIFO word with the byte left-justified: `(uint16_t)pixdata << 8`. */
  function ByteWord(b: Byte): (w: nat)
    ensures w < 0x10000 && w / 256 == b && w % 256 == 0
  {
    b * 256
  }

  /** The parameter bytes 1 .. n of a command: D/C = 1, CS = 0, 8-bit shift. */
  function ParamPuts(cmd: seq<Byte>, n: nat): (r: seq<Event>)
    requires n < |cmd|
    ensures |r| == n
    ensures forall k | 0 <= k < n :: r[k] == Put(true, false, false, ByteWord(cmd[k + 1]))
  {
    seq(n, k requires 0 <= k < n => Put(true, false, false, ByteWord(cmd[k + 1])))
  }

  /**
   * The FIFO writes of `dispctrl_write_cmd(cmd, count)`: the command byte with
   * D/C = 0 and CS = 0, then bytes 1 .. count-1 with D/C = 1 and CS = 0, all
   * with an 8-bit shift.
   */
  function CmdPuts(cmd: seq<Byte>, count: nat): (r: seq<Event>)
    requires 1 <= |cmd| && count <= |cmd|
    ensures |r| == if count >= 2 then count else 1
    ensures r[0] == Put(false, false, false, ByteWord(cmd[0]))
    ensures forall k | 1 <= k < |r| :: r[k] == Put(true, false, false, ByteWord(cmd[k]))
  {
    [Put(false, false, false, ByteWord(cmd[0]))] + ParamPuts(cmd, if count >= 2 then count - 1 else 0)
  }

  /** The LCD bytes of the parameters: each with D/C high. */
  function ParamBytes(cmd: seq<Byte>, n: nat): (r: seq<nat>)
    requires n < |cmd|
    ensures |r| == n
    ensures forall k | 0 <= k < n :: r[k] == 0x100 + cmd[k + 1] as nat
  {
    seq(n, k requires 0 <= k < n => 0x100 + cmd[k + 1] as nat)
  }

  lemma {:induction false} ParamCapture(cmd: seq<Byte>, n: nat)
    requires n < |cmd|
    ensures Capture(ParamPuts(cmd, n)) == ParamBytes(cmd, n)
  {
    if n > 0 {
      var r := ParamPuts(cmd, n);
      assert r[..n - 1] == ParamPuts(cmd, n - 1);
      ParamCapture(cmd, n - 1);
      assert ParamBytes(cmd, n) == ParamBytes(cmd, n - 1) + [0x100 + cmd[n] as nat];
    }
  }

  /** On the LCD: the command byte with D/C low, then the parameters with D/C high. */
  lemma CmdCapture(cmd: seq<Byte>, count: nat)
    requires 1 <= |cmd| && count <= |cmd|
    ensures Capture(CmdPuts(cmd, count)) == [cmd[0] as nat] + ParamBytes(cmd, if count >= 2 then count - 1 else 0)
  {
    var n := if count >= 2 then count - 1 else 0;
    var first := Put(false, false, false, ByteWord(cmd[0]));
    assert CmdPuts(cmd, count) == [first] + ParamPuts(cmd, n);
    assert Capture([first]) == [cmd[0] as nat] by {
      assert [first][..0] == [];
    }
    CaptureAppend([first], ParamPuts(cmd, n));
    ParamCapture(cmd, n);
  }

  /** A table that `dispctrl_init` can walk: records [size, delay, payload] ending with a 0 size byte. */
  predicate Terminated(t: seq<Byte>)
    decreases |t|
  {
    |t| >= 1 && (t[0] == 0 || (t[0] + 2 < |t| && Terminated(t[t[0] + 2..])))
  }

  /** What `dispctrl_init` does: each record's payload as a command, then its delay times 5 ms. */
  function InitLog(t: seq<Byte>): seq<Event>
    requires Terminated(t)
    decreases |t|
  {
    if t[0] == 0 then []
    else CmdPuts(t[2..], t[0]) + [Delay(t[1] as nat * 5)] + InitLog(t[t[0] + 2..])
  }

  /** Walking a record followed by a walkable table. */
  lemma InitLogRecord(r: seq<Byte>, rest: seq<Byte>)
    requires |r| >= 3 && r[0] >= 1 && |r| == r[0] as nat + 2 && Terminated(rest)
    ensures Terminated(r + rest)
    ensures InitLog(r + rest) == CmdPuts(r[2..], r[0]) + [Delay(r[1] as nat * 5)] + InitLog(rest)
  {
    var t := r + rest;
    assert t[t[0] + 2..] == rest;
    assert t[2..][..r[0]] == r[2..];
    assert CmdPuts(t[2..], t[0]) == CmdPuts(r[2..], r[0]);
  }

  lemma Regroup<T>(a: seq<T>, b: seq<T>, c: seq<T>, d: seq<T>)
    ensures (a + b + c) + d == a + (b + c + d)
  {
  }

  /** One turn of `dispctrl_init`'s loop, at offset p of the table. */
  lemma InitLogAt(table: seq<Byte>, p: nat)
    requires p < |table| && Terminated(table[p..]) && table[p] != 0
    ensures p + table[p] as nat + 2 < |table| && Terminated(table[p + table[p] as nat + 2..])
    ensures InitLog(table[p..])
         == CmdPuts(table[p + 2..], table[p]) + [Delay(table[p + 1] as nat * 5)] + InitLog(table[p + table[p] as nat + 2..])
  {
    var t := table[p..];
    assert t[2..] == table[p + 2..];
    assert t[t[0] as nat + 2..] == table[p + table[p] as nat + 2..];
  }

  class DispCtrl {
    const layout: Layout
    var csr: Word
    var log: seq<Event>

    constructor (l: Layout, csr0: Word)
      requires ValidLayout(l)
      ensures layout == l && csr == csr0 && log == []
    {
      layout := l;
      csr := csr0;
      log := [];
    }

    /** The FIFO write of `data` under the current CSR. */
    function Pushed(data: nat): Event
      requires ValidLayout(layout)
      reads this
    {
      Put(IsSet(csr, layout.dc), IsSet(csr, layout.cs), IsSet(csr, layout.shiftcnt), data)
    }

    /** `dispctrl_set_shift_width`: 16 sets SHIFTCNT, any other width clears it. */
    method SetShiftWidth(width: int)
      requires ValidLayout(layout)
      modifies this`csr
      ensures IsSet(csr, layout.shiftcnt) == (width == 16)
      ensures Agree(csr, old(csr), {layout.shiftcnt})
    {
      if width == 16 {
        csr := Or(csr, Mask(layout.shiftcnt));
      } else {
        csr := AndNot(csr, Mask(layout.shiftcnt));
      }
    }

    /** `dispctrl_set_xdouble_ydouble`. */
    method SetXdoubleYdouble(xdouble: bool, ydouble: bool)
      requires ValidLayout(layout)
      modifies this`csr
      ensures IsSet(csr, layout.xdouble) == xdouble && IsSet(csr, layout.ydouble) == ydouble
      ensures Agree(csr, old(csr), {layout.xdouble, layout.ydouble})
    {
      csr := WithTwoBits(csr, layout.xdouble, xdouble, layout.ydouble, ydouble);
    }

    /** `dispctrl_force_dc_cs`: `!!dc << DC_LSB` is the DC mask or 0, likewise for CS. */
    method ForceDcCs(dc: bool, cs: bool)
      requires ValidLayout(layout)
      modifies this`csr
      ensures IsSet(csr, layout.dc) == dc && IsSet(csr, layout.cs) == cs
      ensures Agree(csr, old(csr), {layout.dc, layout.cs})
    {
      csr := WithTwoBits(csr, layout.dc, dc, layout.cs, cs);
    }

    /** `dispctrl_put_byte`: the byte goes into bits 15:8 of the FIFO word. */
    method PutByte(b: Byte)
      requires ValidLayout(layout)
      modifies this`log
      ensures log == old(log) + [Pushed(ByteWord(b))]
    {
      log := log + [Pushed(ByteWord(b))];
    }

    /** The `for` loop of `dispctrl_write_cmd`: bytes 1 .. n of `cmd`, one `dispctrl_put_byte` each. */
    method PutParams(cmd: seq<Byte>, n: nat)
      requires ValidLayout(layout) && n < |cmd|
      requires IsSet(csr, layout.dc) && !IsSet(csr, layout.cs) && !IsSet(csr, layout.shiftcnt)
      modifies this`log
      ensures log == old(log) + ParamPuts(cmd, n)
    {
      var i := 0;
      while i < n
        invariant i <= n
        invariant log == old(log) + ParamPuts(cmd, i)
      {
        PutByte(cmd[i + 1]);
        assert ParamPuts(cmd, i + 1) == ParamPuts(cmd, i) + [Put(true, false, false, ByteWord(cmd[i + 1]))];
        i := i + 1;
      }
    }

    /** The CSR fields a command changes. */
    function CmdFields(): set<nat> {
      {layout.dc, layout.cs, layout.shiftcnt}
    }

    /** Start of `dispctrl_write_cmd`: 8-bit shift, D/C and CS low. */
    method BeginCmd()
      requires ValidLayout(layout)
      modifies this`csr
      ensures !IsSet(csr, layout.dc) && !IsSet(csr, layout.cs) && !IsSet(csr, layout.shiftcnt)
      ensures Agree(csr, old(csr), CmdFields())
    {
      SetShiftWidth(8);
      ForceDcCs(false, false);
    }

    /** End of `dispctrl_write_cmd`: D/C and CS high, 16-bit shift. */
    method EndCmd()
      requires ValidLayout(layout)
      modifies this`csr
      ensures IsSet(csr, layout.dc) && IsSet(csr, layout.cs) && IsSet(csr, layout.shiftcnt)
      ensures Agree(csr, old(csr), CmdFields())
    {
      ForceDcCs(true, true);
      SetShiftWidth(16);
    }

    /**
     * `dispctrl_write_cmd`. It always leaves D/C and CS high and the shift
     * width at 16, whatever they were.
     */
    method WriteCmd(cmd: seq<Byte>, count: nat)
      requires ValidLayout(layout) && 1 <= |cmd| && count <= |cmd|
      modifies this`csr, this`log
      ensures log == old(log) + CmdPuts(cmd, count)
      ensures IsSet(csr, layout.dc) && IsSet(csr, layout.cs) && IsSet(csr, layout.shiftcnt)
      ensures Agree(csr, old(csr), CmdFields())
    {
      ghost var c0 := csr;
      BeginCmd();
      PutByte(cmd[0]);
      ghost var first := log;
      ghost var n := 0;
      if count >= 2 {
        ForceDcCs(true, false);
        PutParams(cmd, count - 1);
        n := count - 1;
      } else {
        assert ParamPuts(cmd, 0) == [];
      }
      assert log == first + ParamPuts(cmd, n);
      assert Agree(csr, c0, CmdFields());
      EndCmd();
    }

    /** One turn of `dispctrl_init`'s loop: the record at offset p, its command and its delay. */
    method InitRecord(table: seq<Byte>, p: nat) returns (next: nat)
      requires ValidLayout(layout) && p < |table| && Terminated(table[p..]) && table[p] != 0
      modifies this`csr, this`log
      ensures p < next < |table| && Terminated(table[next..])
      ensures log + InitLog(table[next..]) == old(log) + InitLog(table[p..])
      ensures IsSet(csr, layout.dc) && IsSet(csr, layout.cs) && IsSet(csr, layout.shiftcnt)
      ensures Agree(csr, old(csr), CmdFields())
    {
      var size: nat := table[p];
      next := p + size + 2;
      InitLogAt(table, p);
      ghost var before := log;
      ghost var cmds := CmdPuts(table[p + 2..], size);
      ghost var rest := InitLog(table[next..]);
      assert InitLog(table[p..]) == cmds + [Delay(table[p + 1] as nat * 5)] + rest;
      WriteCmd(table[p + 2..], size);
      var pause := [Delay(table[p + 1] as nat * 5)];
      log := log + pause;
      assert log == before + cmds + pause;
      Regroup(before, cmds, pause, rest);
    }

    /** `dispctrl_init`: walks the table until a record of size 0. */
    method Init(table: seq<Byte>)
      requires ValidLayout(layout) && Terminated(table)
      modifies this`csr, this`log
      ensures log == old(log) + InitLog(table)
      ensures table[0] == 0 ==> csr == old(csr)
      ensures table[0] != 0 ==> IsSet(csr, layout.dc) && IsSet(csr, layout.cs) && IsSet(csr, layout.shiftcnt)
      ensures Agree(csr, old(csr), CmdFields())
    {
      var p: nat := 0;
      assert table[p..] == table;
      while table[p] != 0
        invariant p < |table| && Terminated(table[p..])
        invariant old(log) + InitLog(table) == log + InitLog(table[p..])
        invariant p == 0 ==> csr == old(csr)
        invariant p > 0 ==> table[0] != 0 && IsSet(csr, layout.dc) && IsSet(csr, layout.cs) && IsSet(csr, layout.shiftcnt)
        invariant Agree(csr, old(csr), CmdFields())
        decreases |table| - p
      {
        p := InitRecord(table, p);
      }
      assert InitLog(table[p..]) == [];
    }
  }

  /** `st7789_init_seq`, record by record. */
  const ST7789_SWRESET: seq<Byte> := [1, 30, 0x01]
  const ST7789_SLPOUT: seq<Byte> := [1, 100, 0x11]
  const ST7789_COLMOD: seq<Byte> := [2, 2, 0x3a, 0x55]
  const ST7789_MADCTL: seq<Byte> := [2, 0, 0x36, 0x00]
  const ST7789_CASET: seq<Byte> := [5, 0, 0x2a, 0x00, 0x00, 0x00, 0xf0]
  const ST7789_RASET: seq<Byte> := [5, 0, 0x2b, 0x00, 0x00, 0x00, 0xf0]
  const ST7789_INVON: seq<Byte> := [1, 2, 0x21]
  const ST7789_NORON: seq<Byte> := [1, 2, 0x13]
  const ST7789_DISPON: seq<Byte> := [1, 100, 0x29]

  const ST7789_RECORDS: seq<seq<Byte>> := [
    ST7789_SWRESET, ST7789_SLPOUT, ST7789_COLMOD, ST7789_MADCTL, ST7789_CASET,
    ST7789_RASET, ST7789_INVON, ST7789_NORON, ST7789_DISPON
  ]

  const ST7789_INIT_SEQ: seq<Byte> := Table(ST7789_RECORDS)

  /** The LCD capture the testbench expects after the st7789 init sequence; bit 8 is D/C. */
  const EXPECTED_LCD_CMDS_ST7789: seq<nat> := [
    0x001, 0x011, 0x03a, 0x155, 0x036, 0x100, 0x02a, 0x100, 0x100, 0x100,
    0x1f0, 0x02b, 0x100, 0x100, 0x100, 0x1f0, 0x021, 0x013, 0x029
  ]

  /** A record: [size, delay, size payload bytes] with a non-zero size. */
  predicate IsRecord(r: seq<Byte>) {
    |r| >= 3 && r[0] >= 1 && |r| == r[0] as nat + 2
  }

  /** The init table made of `recs`, in order, closed by the 0 size byte. */
  function Table(recs: seq<seq<Byte>>): seq<Byte> {
    if recs == [] then [0] else recs[0] + Table(recs[1..])
  }

  /** What one record puts on the LCD: its command byte, then its parameters. */
  function RecordCapture(r: seq<Byte>): (c: seq<nat>)
    requires IsRecord(r)
    ensures |c| == r[0] as nat
    ensures c[0] == r[2] as nat && forall k | 1 <= k < |c| :: c[k] == 0x100 + r[k + 2] as nat
  {
    [r[2] as nat] + ParamBytes(r[2..], r[0] - 1)
  }

  /** The LCD bytes of every record, in order. */
  function Captures(recs: seq<seq<Byte>>): seq<nat>
    requires forall i | 0 <= i < |recs| :: IsRecord(recs[i])
  {
    if recs == [] then [] else RecordCapture(recs[0]) + Captures(recs[1..])
  }

  /** Each record's delay byte times 5 ms, in order. */
  function Pauses(recs: seq<seq<Byte>>): (d: seq<nat>)
    requires forall i | 0 <= i < |recs| :: IsRecord(recs[i])
    ensures |d| == |recs|
    ensures forall i | 0 <= i < |recs| :: IsRecord(recs[i]) && d[i] == recs[i][1] as nat * 5
  {
    if recs == [] then []
    else
      assert IsRecord(recs[0]);
      [recs[0][1] as nat * 5] + Pauses(recs[1..])
  }

  lemma {:induction false} NoDelays(puts: seq<Event>)
    requires forall k | 0 <= k < |puts| :: puts[k].Put?
    ensures Delays(puts) == []
  {
    if puts != [] {
      NoDelays(puts[..|puts| - 1]);
    }
  }

  /** A command waits for nothing: only the record's delay does. */
  lemma CmdNoDelays(cmd: seq<Byte>, count: nat)
    requires 1 <= |cmd| && count <= |cmd|
    ensures Delays(CmdPuts(cmd, count)) == []
  {
    var puts := CmdPuts(cmd, count);
    assert forall k | 0 <= k < |puts| :: puts[k].Put?;
    NoDelays(puts);
  }

  /** The FIFO writes of a record's command show on the LCD as its RecordCapture. */
  lemma RecordCmdCapture(r: seq<Byte>)
    requires IsRecord(r)
    ensures Capture(CmdPuts(r[2..], r[0])) == RecordCapture(r)
  {
    CmdCapture(r[2..], r[0]);
    assert ParamBytes(r[2..], if r[0] >= 2 then r[0] - 1 else 0) == ParamBytes(r[2..], r[0] - 1);
  }

  /** One record's contribution to the capture. */
  lemma RecordCaptureEffect(r: seq<Byte>, rest: seq<Byte>)
    requires IsRecord(r) && Terminated(rest)
    ensures Terminated(r + rest)
    ensures Capture(InitLog(r + rest)) == RecordCapture(r) + Capture(InitLog(rest))
  {
    InitLogRecord(r, rest);
    var puts := CmdPuts(r[2..], r[0]);
    var d := [Delay(r[1] as nat * 5)];
    var tail := InitLog(rest);
    RecordCmdCapture(r);
    assert InitLog(r + rest) == puts + d + tail;
    assert Capture(d) == [] by {
      assert d[..0] == [];
    }
    CaptureAppend(puts, d);
    assert Capture(puts + d) == Capture(puts) by {
      assert Capture(puts) + [] == Capture(puts);
    }
    CaptureAppend(puts + d, tail);
  }

  /** One record's contribution to the delays. */
  lemma RecordDelayEffect(r: seq<Byte>, rest: seq<Byte>)
    requires IsRecord(r) && Terminated(rest)
    ensures Terminated(r + rest)
    ensures Delays(InitLog(r + rest)) == [r[1] as nat * 5] + Delays(InitLog(rest))
  {
    InitLogRecord(r, rest);
    var puts := CmdPuts(r[2..], r[0]);
    var d := [Delay(r[1] as nat * 5)];
    DelaysAppend(puts + d, InitLog(rest));
    DelaysAppend(puts, d);
    assert Delays(d) == Delays([]) + [r[1] as nat * 5];
    CmdNoDelays(r[2..], r[0]);
  }

  /**
   * Walking a table of records sends each record's command and parameters
   * and waits each record's delay, record after record.
   */
  lemma {:induction false} TableEffect(recs: seq<seq<Byte>>)
    requires forall i | 0 <= i < |recs| :: IsRecord(recs[i])
    ensures Terminated(Table(recs))
    ensures Capture(InitLog(Table(recs))) == Captures(recs)
    ensures Delays(InitLog(Table(recs))) == Pauses(recs)
  {
    if recs == [] {
      assert Terminated([0]) && InitLog([0]) == [];
      assert Capture([]) == [] && Delays([]) == [];
    } else {
      TableEffect(recs[1..]);
      RecordCaptureEffect(recs[0], Table(recs[1..]));
      RecordDelayEffect(recs[0], Table(recs[1..]));
    }
  }

  /** Concatenates the parts, in order. */
  function Flatten(parts: seq<seq<nat>>): seq<nat> {
    if parts == [] then [] else parts[0] + Flatten(parts[1..])
  }

  /** When the records capture as `parts`, the whole table captures as their concatenation. */
  lemma {:induction false} CapturesFlatten(recs: seq<seq<Byte>>, parts: seq<seq<nat>>)
    requires forall i | 0 <= i < |recs| :: IsRecord(recs[i])
    requires |parts| == |recs| && forall i | 0 <= i < |recs| :: RecordCapture(recs[i]) == parts[i]
    ensures Captures(recs) == Flatten(parts)
  {
    if recs != [] {
      CapturesFlatten(recs[1..], parts[1..]);
    }
  }

  /** The testbench's expected list, split at the record boundaries. */
  const ST7789_RECORD_BYTES: seq<seq<nat>> := [
    [0x001], [0x011], [0x03a, 0x155], [0x036, 0x100], [0x02a, 0x100, 0x100, 0x100, 0x1f0],
    [0x02b, 0x100, 0x100, 0x100, 0x1f0], [0x021], [0x013], [0x029]
  ]

  /** Each st7789 record puts its own part of the expected list on the LCD. */
  lemma St7789Records()
    ensures forall i | 0 <= i < |ST7789_RECORDS| :: IsRecord(ST7789_RECORDS[i])
    ensures |ST7789_RECORD_BYTES| == |ST7789_RECORDS|
    ensures forall i | 0 <= i < |ST7789_RECORDS| :: RecordCapture(ST7789_RECORDS[i]) == ST7789_RECORD_BYTES[i]
  {
  }

  /** The parts, put back together, are the testbench's list. */
  lemma St7789Split()
    ensures Flatten(ST7789_RECORD_BYTES) == EXPECTED_LCD_CMDS_ST7789
  {
  }

  /** The LCD bytes of the st7789 records, in order, are those the testbench expects. */
  lemma St7789Captures()
    ensures Captures(ST7789_RECORDS) == EXPECTED_LCD_CMDS_ST7789
  {
    St7789Records();
    CapturesFlatten(ST7789_RECORDS, ST7789_RECORD_BYTES);
    St7789Split();
  }

  /** The delay bytes of the st7789 records, times 5 ms. */
  lemma St7789Pauses()
    ensures Pauses(ST7789_RECORDS) == [150, 500, 10, 0, 0, 0, 10, 10, 500]
  {
  }

  /**
   * Walking `st7789_init_seq` sends exactly the 19 LCD bytes the testbench
   * expects and waits 150, 500, 10, 0, 0, 0, 10, 10 and 500 ms, in that order.
   */
  lemma St7789Init()
    ensures Terminated(ST7789_INIT_SEQ)
    ensures Capture(InitLog(ST7789_INIT_SEQ)) == EXPECTED_LCD_CMDS_ST7789
    ensures Delays(InitLog(ST7789_INIT_SEQ)) == [150, 500, 10, 0, 0, 0, 10, 10, 500]
  {
    St7789Records();
    TableEffect(ST7789_RECORDS);
    St7789Captures();
    St7789Pauses();
  }
}
