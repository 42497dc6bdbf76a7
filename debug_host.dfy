/**
 * The host side of the TWD debug link (cocotb/chip_top_tb.py:82-178): the
 * bit shifters, the command framer, connection, and the bus-access helpers
 * with their address cache. The Debug Module client built on them is in
 * module DmClient.
 *
 * A Session stands for one simulated chip. The host only sees the chip
 * through the DIO pin, so the target is a function from everything that
 * has crossed the wire so far to the bit it drives next: every bit the
 * host samples is that function's answer. Three traces record what
 * happened: `wire` holds every bit period, `xfers` one entry per command,
 * and `bus` each completed bus access. Every command's contract ties its
 * transfer to exactly the bits it put on the wire.
 *
 * The source polls some status registers without bound; here each such
 * loop gives up with Hang after `fuel` polls.
 */
module DebugHost {
  import opened Wrappers
  import opened Bits
  import opened TwdFraming
  import opened RiscvEncoding

  /** One bit period on DIO: driven by the host, or sampled from the target. */
  datatype Cell = Drive(b: Bit) | Sample(b: Bit)

  function Drives(bits: seq<Bit>): (c: seq<Cell>)
    ensures |c| == |bits|
  {
    seq(|bits|, i requires 0 <= i < |bits| => Drive(bits[i]))
  }

  function Samples(bits: seq<Bit>): (c: seq<Cell>)
    ensures |c| == |bits|
  {
    seq(|bits|, i requires 0 <= i < |bits| => Sample(bits[i]))
  }

  function BitsOf(cells: seq<Cell>): (bits: seq<Bit>)
    ensures |bits| == |cells|
  {
    seq(|cells|, i requires 0 <= i < |cells| => cells[i].b)
  }

  datatype Error =
    | ParityError   // a read's parity bit did not match its data
    | Timeout       // a bounded poll saw only busy
    | BadVersion    // the transport CSR's version field was not 1
    | BadAsize      // the transport CSR's address size field was not 0
    | BadDmVersion  // DMSTATUS did not report a version 0.13 Debug Module
    | Hang          // an unbounded poll ran out of fuel

  /** One step of the link, as the host sees it. */
  datatype Xfer =
    | Preamble(bits: seq<Bit>)                 // bits shifted in and discarded at connect
    | RawByte(value: nat)                      // one byte of the connect sequence
    | Disconnect                               // a DISCONNECT header, which has no body
    | Read(cmd: nat, n: nat, bits: seq<Bit>)   // a read command and every bit sampled after its header
    | Write(cmd: nat, n: nat, wdata: nat)      // a write command

  /** A read frame samples 2 turnaround bits, the data, the parity bit, then 3 more bits. */
  predicate ParityOk(n: nat, bits: seq<Bit>)
    requires ValidWidth(n) && |bits| >= n + 3
  {
    bits[n + 2] == OddParity(InValue(bits[2..n + 2]))
  }

  /** A read either completed with good parity, or stopped after a bad parity bit. */
  predicate XferOk(x: Xfer) {
    match x
    case Read(cmd, n, bits) =>
      cmd < 16 && ValidWidth(n) && |bits| >= n + 3
      && (if ParityOk(n, bits) then |bits| == n + 6 else |bits| == n + 3)
    case Write(cmd, n, _) => cmd < 16 && ValidWidth(n)
    case _ => true
  }

  /** A read that sampled either the whole reply or up to the parity bit. */
  predicate Sampled(x: Xfer) {
    x.Read? && ValidWidth(x.n) && (|x.bits| == x.n + 3 || |x.bits| == x.n + 6)
  }

  /** What a transfer put on the wire. */
  function XferWire(x: Xfer): seq<Cell>
    requires XferOk(x)
  {
    match x
    case Preamble(bits) => Samples(bits)
    case RawByte(v) => Drives(OutBits(v, 8))
    case Disconnect => Drives(OutBits(Header(CMD_DISCONNECT), 6))
    case Read(cmd, n, bits) => Drives(OutBits(Header(cmd), 6)) + Samples(bits)
    case Write(cmd, n, wdata) => Drives(OutBits(Header(cmd), 6) + WriteBody(n, wdata))
  }

  predicate ReadOf(x: Xfer, cmd: nat, n: nat) {
    x.Read? && x.cmd == cmd && x.n == n
  }

  predicate Complete(x: Xfer) {
    Sampled(x) && |x.bits| == x.n + 6
  }

  /** The data of a read frame. */
  function RData(x: Xfer): nat
    requires Sampled(x)
  {
    InValue(x.bits[2..x.n + 2])
  }

  function RawBytes(bs: seq<nat>): (xs: seq<Xfer>)
    ensures |xs| == |bs|
  {
    seq(|bs|, i requires 0 <= i < |bs| => RawByte(bs[i]))
  }

  /** How connect ends once the transport CSR has been read. */
  function ConnectVerdict(x: Xfer): Outcome<Error>
    requires Sampled(x)
  {
    if !Complete(x) then Fail(ParityError)
    else if CsrVersion(RData(x)) != 1 then Fail(BadVersion)
    else if CsrAsize(RData(x)) != 0 then Fail(BadAsize)
    else Pass
  }

  /**
   * The transfers of `twd_connect` that ended with verdict r: the preamble,
   * DISCONNECT and the connect bytes, the CSR read, and the CSR write only
   * when the CSR passed.
   */
  predicate ConnectXfers(s: seq<Xfer>, r: Outcome<Error>) {
    |s| >= 22 && s[0].Preamble? && |s[0].bits| == 80
    && s[1..21] == [Disconnect] + RawBytes(CONNECT_SEQ)
    && ReadOf(s[21], CMD_R_CSR, 32) && XferOk(s[21])
    && r == ConnectVerdict(s[21])
    && (if r.Pass? then s[22..] == [Write(CMD_W_CSR, 32, CSR_CONNECT_VALUE)] else |s| == 22)
  }

  /** A log extended by a, b and c keeps its old part as a prefix, and a + b + c is what follows it. */
  lemma Extends<T>(o: seq<T>, a: seq<T>, b: seq<T>, c: seq<T>, w: seq<T>)
    requires w == o + a + b + c
    ensures |w| >= |o| && w[..|o|] == o && w[|o|..] == a + b + c
  {
    assert w == o + (a + b + c);
  }

  lemma ConnectShape(pre: seq<Bit>, x: Xfer, rest: seq<Xfer>, r: Outcome<Error>)
    requires |pre| == 80 && ReadOf(x, CMD_R_CSR, 32) && XferOk(x) && r == ConnectVerdict(x)
    requires rest == if r.Pass? then [Write(CMD_W_CSR, 32, CSR_CONNECT_VALUE)] else []
    ensures ConnectXfers([Preamble(pre), Disconnect] + RawBytes(CONNECT_SEQ) + [x] + rest, r)
  {
    var s := [Preamble(pre), Disconnect] + RawBytes(CONNECT_SEQ) + [x] + rest;
    assert s[1..21] == [Disconnect] + RawBytes(CONNECT_SEQ);
    assert s[21] == x;
    assert s[22..] == rest;
  }

  /** What a read command returns: its data, or a parity failure. */
  function ReadResult(x: Xfer): Result<nat, Error>
    requires Sampled(x)
  {
    if Complete(x) then Success(RData(x)) else Failure(ParityError)
  }

  /** A completed R_STAT reply whose busy flag (bit 0) is set. */
  predicate StatBusy(x: Xfer) {
    Complete(x) && RData(x) % 2 == 1
  }

  /** A well-formed reply to R_STAT. */
  predicate StatReply(x: Xfer) {
    ReadOf(x, CMD_R_STAT, 4) && Sampled(x)
  }

  /** Replies that all read STAT and, before the last, all said busy. */
  predicate StatReplies(p: seq<Xfer>)
    decreases |p|
  {
    p == [] || (StatReply(p[0]) && (|p| > 1 ==> StatBusy(p[0]) && StatReplies(p[1..])))
  }

  /** Busy STAT replies, as a polling loop collects them. */
  predicate AllBusy(p: seq<Xfer>) {
    forall j | 0 <= j < |p| :: StatReply(p[j]) && StatBusy(p[j])
  }

  /**
   * A STAT polling loop of at most `limit` rounds: it stops at the first
   * reply that is not busy, or at a parity failure, or after `limit` busy
   * replies, when it fails with `giveUp`.
   */
  predicate StatPolls(p: seq<Xfer>, limit: nat, giveUp: Error, r: Outcome<Error>) {
    StatReplies(p) && |p| <= limit
    && (|p| == limit || (|p| > 0 && !StatBusy(p[|p| - 1])))
    && r == (if |p| > 0 && !Complete(p[|p| - 1]) then Fail(ParityError)
             else if |p| > 0 && !StatBusy(p[|p| - 1]) then Pass
             else Fail(giveUp))
  }

  /** `twd_write_bus`: set the address unless cached, write the data, poll STAT until idle. */
  predicate WriteBusXfers(s: seq<Xfer>, addr: nat, wdata: nat, cached: bool, fuel: nat, r: Outcome<Error>) {
    var k := if cached then 0 else 1;
    |s| > k
    && (!cached ==> s[0] == Write(CMD_W_ADDR, 8, addr))
    && s[k] == Write(CMD_W_DATA, 32, wdata)
    && StatPolls(s[k + 1..], fuel, Hang, r)
  }

  /** `twd_read_bus`: set the address with a read, poll STAT at most 10 times, read the buffer. */
  predicate ReadBusXfers(s: seq<Xfer>, addr: nat, r: Result<nat, Error>) {
    |s| >= 1 && s[0] == Write(CMD_W_ADDR_R, 8, addr) && Sampled(s[|s| - 1])
    && if ReadOf(s[|s| - 1], CMD_R_BUFF, 32) then
         StatPolls(s[1..|s| - 1], 10, Timeout, Pass) && r == ReadResult(s[|s| - 1])
       else
         r.Failure? && StatPolls(s[1..], 10, Timeout, Fail(r.error))
  }

  /** An access on the debug bus, with the data written or read. */
  datatype BusOp = BusWrite(addr: nat, data: nat) | BusRead(addr: nat, data: nat)

  /** The VUART status register and its flags, and the FIFO register, on the debug bus. */
  const VUART_STAT: nat := 0x80
  const VUART_STAT_RXVLD_BIT: nat := 31
  const VUART_STAT_TXRDY_BIT: nat := 30
  const VUART_FIFO: nat := 0x82

  /** Reads of VUART_STAT, each before the last having seen RXVLD clear. */
  predicate StatPolled(s: seq<BusOp>)
    decreases |s|
  {
    s == []
    || (s[0].BusRead? && s[0].addr == VUART_STAT
        && (|s| > 1 ==> BitAt(s[0].data, VUART_STAT_RXVLD_BIT) == 0 && StatPolled(s[1..])))
  }

  /** At most `maxPoll` reads of VUART_STAT, all but the last with RXVLD clear. */
  predicate VuartPolls(s: seq<BusOp>, maxPoll: nat) {
    |s| <= maxPoll && StatPolled(s)
  }

  /**
   * `twd_vuart_getchar`: a character is the low byte of a FIFO read that
   * follows a status read with RXVLD set; no character after `maxPoll`
   * status reads with RXVLD clear.
   */
  predicate GetcharOps(s: seq<BusOp>, maxPoll: nat, r: Result<Option<nat>, Error>) {
    match r
    case Success(Some(c)) =>
      |s| >= 2 && VuartPolls(s[..|s| - 1], maxPoll)
      && BitAt(s[|s| - 2].data, VUART_STAT_RXVLD_BIT) == 1
      && s[|s| - 1].BusRead? && s[|s| - 1].addr == VUART_FIFO && c == s[|s| - 1].data % 256
    case Success(None) =>
      |s| == maxPoll && VuartPolls(s, maxPoll)
      && (|s| > 0 ==> BitAt(s[|s| - 1].data, VUART_STAT_RXVLD_BIT) == 0)
    case Failure(_) => VuartPolls(s, maxPoll)
  }

  lemma SamplesAppend(a: seq<Bit>, b: seq<Bit>)
    ensures Samples(a + b) == Samples(a) + Samples(b)
  {
  }

  /** The wire after two runs of samples is the wire after their concatenation. */
  lemma WireTwo(h: seq<Cell>, a: seq<Bit>, b: seq<Bit>)
    ensures h + Samples(a) + Samples(b) == h + Samples(a + b)
  {
    SamplesAppend(a, b);
  }

  lemma WireThree(h: seq<Cell>, a: seq<Bit>, b: seq<Bit>, c: seq<Bit>)
    ensures h + Samples(a) + Samples(b) + Samples(c) == h + Samples(a + b + c)
  {
    WireTwo(h, a, b);
    WireTwo(h, a + b, c);
  }

  lemma DrivesAppend(a: seq<Bit>, b: seq<Bit>)
    ensures Drives(a + b) == Drives(a) + Drives(b)
  {
  }

  lemma BitsOfSamples(b: seq<Bit>)
    ensures BitsOf(Samples(b)) == b
  {
  }

  /** OR-ing sampled bit b into accumulator bit i ^ 7 keeps the accumulator equal to Val(Placed(...)). */
  lemma AccumStep(bits: seq<Bit>, b: Bit, w: nat)
    requires BitIdx(|bits|) < w
    ensures Val(Placed(bits + [b], w))
      == if b == 1 then SetBit(Val(Placed(bits, w)), BitIdx(|bits|)) else Val(Placed(bits, w))
  {
    var s := Placed(bits, w);
    var k := BitIdx(|bits|);
    PlacedStep(bits, b, w);
    BitOfVal(s, k);
    if b == 1 {
      ValSetBit(s, k);
    } else {
      assert s[k := b] == s;
    }
  }

  /** A one-bit read is the bit itself. */
  lemma InValueOneBit(b: Bit)
    ensures InValue([b]) == b
  {
    assert Pow2(7) == 128;
    var z := Placed([], 8);
    ValZeros(z);
    PlacedStep([], b, 8);
    assert [] + [b] == [b];
    assert Placed([b], 8) == z[7 := b];
    if b == 1 {
      ValSetBit(z, 7);
    } else {
      assert z[7 := b] == z;
    }
  }

  /** Busy replies followed by one more reply are a valid reply sequence. */
  lemma {:induction false} BusyThen(p: seq<Xfer>, last: seq<Xfer>)
    requires AllBusy(p) && |last| <= 1 && (|last| == 1 ==> StatReply(last[0]))
    ensures StatReplies(p + last)
    decreases |p|
  {
    if p != [] {
      assert (p + last)[1..] == p[1..] + last;
      BusyThen(p[1..], last);
    } else {
      assert p + last == last;
    }
  }

  lemma WriteBusShape(s: seq<Xfer>, p: seq<Xfer>, addr: nat, wdata: nat, cached: bool, fuel: nat, r: Outcome<Error>)
    requires s == (if cached then [] else [Write(CMD_W_ADDR, 8, addr)]) + [Write(CMD_W_DATA, 32, wdata)]
    requires StatPolls(p, fuel, Hang, r)
    ensures WriteBusXfers(s + p, addr, wdata, cached, fuel, r)
  {
    assert (s + p)[|s|..] == p;
  }

  lemma {:induction false} StatRepliesLast(p: seq<Xfer>)
    requires StatReplies(p) && |p| > 0
    ensures StatReply(p[|p| - 1])
    decreases |p|
  {
    if |p| > 1 {
      StatRepliesLast(p[1..]);
    }
  }

  lemma ReadBusFailed(addr: nat, p: seq<Xfer>, e: Error)
    requires StatPolls(p, 10, Timeout, Fail(e))
    ensures ReadBusXfers([Write(CMD_W_ADDR_R, 8, addr)] + p, addr, Failure(e))
  {
    var s := [Write(CMD_W_ADDR_R, 8, addr)] + p;
    assert s[1..] == p;
    StatRepliesLast(p);
    assert s[|s| - 1] == p[|p| - 1];
  }

  lemma ReadBusDone(addr: nat, p: seq<Xfer>, x: Xfer)
    requires StatPolls(p, 10, Timeout, Pass)
    requires ReadOf(x, CMD_R_BUFF, 32) && Sampled(x)
    ensures ReadBusXfers([Write(CMD_W_ADDR_R, 8, addr)] + p + [x], addr, ReadResult(x))
  {
    var s := [Write(CMD_W_ADDR_R, 8, addr)] + p + [x];
    assert s[1..|s| - 1] == p;
  }

  /** Reads of `addr` that returned ds, one after another. */
  function Reads(addr: nat, ds: seq<nat>): (s: seq<BusOp>)
    ensures |s| == |ds|
  {
    seq(|ds|, i requires 0 <= i < |ds| => BusRead(addr, ds[i]))
  }

  /** None of the words read has `bit` equal to `stop`: a poll for it is still waiting. */
  predicate Waiting(ds: seq<nat>, bit: nat, stop: Bit) {
    forall j | 0 <= j < |ds| :: BitAt(ds[j], bit) != stop
  }

  /** A poll that stopped at its last word, the first whose `bit` is `stop`, within `limit` reads. */
  predicate PollDone(ds: seq<nat>, bit: nat, stop: Bit, limit: nat) {
    0 < |ds| <= limit && Waiting(ds[..|ds| - 1], bit, stop) && BitAt(ds[|ds| - 1], bit) == stop
  }

  lemma ReadsAppend(addr: nat, ds: seq<nat>, d: nat)
    ensures Reads(addr, ds + [d]) == Reads(addr, ds) + [BusRead(addr, d)]
  {
  }

  /** Status reads whose words, all but perhaps the last, have RXVLD clear are a valid poll sequence. */
  lemma {:induction false} StatReadsPolled(ds: seq<nat>)
    requires |ds| > 0 ==> Waiting(ds[..|ds| - 1], VUART_STAT_RXVLD_BIT, 1)
    ensures StatPolled(Reads(VUART_STAT, ds))
    decreases |ds|
  {
    if |ds| > 1 {
      assert Reads(VUART_STAT, ds)[1..] == Reads(VUART_STAT, ds[1..]);
      assert ds[1..][..|ds| - 2] == ds[..|ds| - 1][1..];
      assert ds[..|ds| - 1][0] == ds[0];
      StatReadsPolled(ds[1..]);
    }
  }

  lemma StatReadsPolls(ds: seq<nat>, maxPoll: nat)
    requires |ds| <= maxPoll && (|ds| > 0 ==> Waiting(ds[..|ds| - 1], VUART_STAT_RXVLD_BIT, 1))
    ensures VuartPolls(Reads(VUART_STAT, ds), maxPoll)
  {
    StatReadsPolled(ds);
  }

  lemma GetcharFailed(ds: seq<nat>, maxPoll: nat, e: Error)
    requires |ds| <= maxPoll && (|ds| > 0 ==> Waiting(ds[..|ds| - 1], VUART_STAT_RXVLD_BIT, 1))
    ensures GetcharOps(Reads(VUART_STAT, ds), maxPoll, Failure(e))
  {
    StatReadsPolls(ds, maxPoll);
  }

  lemma GetcharChar(ds: seq<nat>, f: nat, maxPoll: nat)
    requires PollDone(ds, VUART_STAT_RXVLD_BIT, 1, maxPoll)
    ensures GetcharOps(Reads(VUART_STAT, ds) + [BusRead(VUART_FIFO, f)], maxPoll, Success(Some(f % 256)))
  {
    var s := Reads(VUART_STAT, ds) + [BusRead(VUART_FIFO, f)];
    StatReadsPolls(ds, maxPoll);
    assert s[..|s| - 1] == Reads(VUART_STAT, ds);
  }

  lemma GetcharEmpty(ds: seq<nat>, maxPoll: nat)
    requires Waiting(ds, VUART_STAT_RXVLD_BIT, 1) && |ds| == maxPoll
    ensures GetcharOps(Reads(VUART_STAT, ds), maxPoll, Success(None))
  {
    StatReadsPolls(ds, maxPoll);
  }

  class Session {
    /** The bit the target drives on DIO, given everything that has crossed the wire so far. */
    const target: seq<Cell> -> Bit
    /** How many times an unbounded poll asks before the model gives up with Hang. */
    const fuel: nat

    var wire: seq<Cell>
    var xfers: seq<Xfer>
    var bus: seq<BusOp>
    /** `twd_cached_addr`: the bus address the target is known to hold, if any. */
    var cachedAddr: Option<nat>
    /** `rvdebug_progbuf_cache`: the words last written to progbuf0 and progbuf1. */
    var progbufCache: seq<nat>

    /** The program-buffer cache has one word per slot: progbuf0 and progbuf1. */
    predicate Valid()
      reads this
    {
      |progbufCache| == 2
    }

    /** The m bits the target drives, one after another, once the wire has carried h. */
    ghost function Replies(h: seq<Cell>, m: nat): (bits: seq<Bit>)
      ensures |bits| == m
    {
      if m == 0 then []
      else var p := Replies(h, m - 1); p + [target(h + Samples(p))]
    }

    /**
     * The bits a read samples after its header: the turnaround, data and
     * parity bits, and the three trailing bits only when the parity matched.
     */
    ghost function ReadReplyBits(h: seq<Cell>, n: nat): (bits: seq<Bit>)
      requires ValidWidth(n)
    {
      if ParityOk(n, Replies(h, n + 3)) then Replies(h, n + 6) else Replies(h, n + 3)
    }

    constructor(target: seq<Cell> -> Bit, fuel: nat)
      ensures this.target == target && this.fuel == fuel
      ensures wire == [] && xfers == [] && bus == [] && cachedAddr == None
      ensures progbufCache == [0, 0] && Valid()
    {
      this.target := target;
      this.fuel := fuel;
      wire := [];
      xfers := [];
      bus := [];
      cachedAddr := None;
      progbufCache := [0, 0];
    }

    /** Sampling a + b bits is sampling a, then b more after them. */
    lemma {:induction false} RepliesSplit(h: seq<Cell>, a: nat, b: nat)
      ensures Replies(h, a + b) == Replies(h, a) + Replies(h + Samples(Replies(h, a)), b)
    {
      if b > 0 {
        RepliesSplit(h, a, b - 1);
        var h' := h + Samples(Replies(h, a));
        var q := Replies(h', b - 1);
        SamplesAppend(Replies(h, a), q);
        assert h + Samples(Replies(h, a) + q) == h' + Samples(q);
      }
    }

    lemma RepliesPrefix(h: seq<Cell>, a: nat, b: nat)
      requires b <= a
      ensures Replies(h, a)[..b] == Replies(h, b)
    {
      RepliesSplit(h, b, a - b);
    }

    /** `twd_shift_out(bits, n)`: drive n bits of v, in wire order. */
    method ShiftOut(v: nat, n: nat)
      requires ValidWidth(n)
      modifies this`wire
      ensures wire == old(wire) + Drives(OutBits(v, n))
    {
      var bits := v;
      if n % 8 != 0 {
        bits := bits * Pow2(8 - n);
      }
      assert bits == Justify(v, n);
      var w := wire;
      var i := 0;
      while i < n
        invariant 0 <= i <= n
        invariant wire == old(wire)
        invariant w == wire + Drives(OutBits(v, n)[..i])
      {
        var bitidx := BitIdx(i);
        assert OutBits(v, n)[..i + 1] == OutBits(v, n)[..i] + [BitAt(bits, bitidx)];
        DrivesAppend(OutBits(v, n)[..i], [BitAt(bits, bitidx)]);
        w := w + [Drive(BitAt(bits, bitidx))];
        i := i + 1;
      }
      assert OutBits(v, n)[..n] == OutBits(v, n);
      wire := w;
    }

    /** The sampling loop of `twd_shift_in(n)`: wire bit i is OR-ed into accumulator bit i ^ 7. */
    method Accumulate(n: nat) returns (accum: nat)
      requires ValidWidth(n)
      modifies this`wire
      ensures wire == old(wire) + Samples(Replies(old(wire), n))
      ensures accum == Val(Placed(Replies(old(wire), n), Width(n)))
    {
      accum := 0;
      ValZeros(Placed([], Width(n)));
      var w := wire;
      var i := 0;
      while i < n
        invariant i <= n
        invariant wire == old(wire)
        invariant w == wire + Samples(Replies(wire, i))
        invariant accum == Val(Placed(Replies(wire, i), Width(n)))
      {
        var bit := target(w);
        BitIdxInRange(i, n);
        AccumStep(Replies(wire, i), bit, Width(n));
        if bit == 1 {
          accum := SetBit(accum, BitIdx(i));
        }
        SamplesAppend(Replies(wire, i), [bit]);
        w := w + [Sample(bit)];
        i := i + 1;
      }
      wire := w;
    }

    /**
     * `twd_shift_in(n)`: sample n bits from the target, then right-align
     * a narrow field.
     */
    method ShiftIn(n: nat) returns (r: nat)
      requires ValidWidth(n)
      modifies this`wire
      ensures wire == old(wire) + Samples(Replies(old(wire), n))
      ensures r == InValue(Replies(old(wire), n))
    {
      r := Accumulate(n);
      if n % 8 != 0 {
        ShrDiv(r, 8 - n);
        r := Shr(r, 8 - n);
      }
    }

    /** Sampling x, then y, then z bits is sampling x + y + z bits at once. */
    lemma RepliesThree(h: seq<Cell>, x: nat, y: nat, z: nat, a: seq<Bit>, b: seq<Bit>, c: seq<Bit>)
      requires a == Replies(h, x)
      requires b == Replies(h + Samples(a), y)
      requires c == Replies(h + Samples(a) + Samples(b), z)
      ensures Replies(h, x + y + z) == a + b + c
    {
      RepliesSplit(h, x, y);
      WireTwo(h, a, b);
      RepliesSplit(h, x + y, z);
    }

    /** The turnaround, data and parity bits of a read reply. */
    method ReadHead(n: nat) returns (rdata: nat, parity: nat)
      requires ValidWidth(n)
      modifies this`wire
      ensures wire == old(wire) + Samples(Replies(old(wire), n + 3))
      ensures rdata == InValue(Replies(old(wire), n + 3)[2..n + 2])
      ensures parity == Replies(old(wire), n + 3)[n + 2]
    {
      ghost var h := wire;
      var _ := ShiftIn(2);
      ghost var h1 := wire;
      rdata := ShiftIn(n);
      ghost var h2 := wire;
      parity := ShiftIn(1);
      ghost var a := Replies(h, 2);
      ghost var b := Replies(h1, n);
      ghost var c := Replies(h2, 1);
      RepliesThree(h, 2, n, 1, a, b, c);
      WireThree(h, a, b, c);
      ghost var head := a + b + c;
      assert head[2..n + 2] == b;
      assert [head[n + 2]] == c;
      InValueOneBit(head[n + 2]);
    }

    /**
     * The part of `twd_command` after a read's header: 2 turnaround bits,
     * the data, the parity bit, which must match, then 3 more bits.
     */
    method ReadReply(n: nat) returns (r: Result<nat, Error>)
      requires ValidWidth(n)
      modifies this`wire
      ensures wire == old(wire) + Samples(ReadReplyBits(old(wire), n))
      ensures var head := Replies(old(wire), n + 3);
        r == if ParityOk(n, head) then Success(InValue(head[2..n + 2])) else Failure(ParityError)
    {
      ghost var h := wire;
      var rdata, parity := ReadHead(n);
      ghost var head := Replies(h, n + 3);
      if parity != OddParity(rdata) {
        return Failure(ParityError);
      }
      ghost var h3 := wire;
      var _ := ShiftIn(3);
      RepliesSplit(h, n + 3, 3);
      SamplesAppend(head, Replies(h3, 3));
      return Success(rdata);
    }

    /** The part of `twd_command` after a write's header: turnaround, data, parity trailer. */
    method SendWriteBody(n: nat, wdata: nat)
      requires ValidWidth(n)
      modifies this`wire
      ensures wire == old(wire) + Drives(WriteBody(n, wdata))
    {
      ShiftOut(0, 2);
      ShiftOut(wdata, n);
      ShiftOut(OddParity(wdata) * 8, 4);
      DrivesAppend(OutBits(0, 2), OutBits(wdata, n));
      DrivesAppend(OutBits(0, 2) + OutBits(wdata, n), OutBits(OddParity(wdata) * 8, 4));
    }

    /** A read's reply bits start with the turnaround, data and parity bits, and go on only if the parity matched. */
    lemma ReadReplyShape(h: seq<Cell>, n: nat)
      requires ValidWidth(n)
      ensures var bits, head := ReadReplyBits(h, n), Replies(h, n + 3);
        |bits| == (if ParityOk(n, head) then n + 6 else n + 3) && bits[..n + 3] == head
    {
      if ParityOk(n, Replies(h, n + 3)) {
        RepliesPrefix(h, n + 6, n + 3);
      }
    }

    /** The part of `twd_command` after a read's header, logged as one read transfer. */
    method ReadTransfer(cmd: nat, n: nat) returns (r: Result<nat, Error>, ghost x: Xfer)
      requires cmd < 16 && ValidWidth(n)
      modifies this`wire, this`xfers
      ensures x == Read(cmd, n, ReadReplyBits(old(wire), n))
      ensures XferOk(x) && xfers == old(xfers) + [x]
      ensures wire == old(wire) + Samples(x.bits)
      ensures r == ReadResult(x)
    {
      ghost var h := wire;
      var start := |wire|;
      r := ReadReply(n);
      ghost var bits := ReadReplyBits(h, n);
      ghost var head := Replies(h, n + 3);
      assert wire[start..] == Samples(bits);
      BitsOfSamples(bits);
      var y := Read(cmd, n, BitsOf(wire[start..]));
      ReadReplyShape(h, n);
      assert bits[2..n + 2] == head[2..n + 2] && bits[n + 2] == head[n + 2];
      xfers := xfers + [y];
      x := y;
    }

    /** The part of `twd_command` after a write's header, logged as one write transfer. */
    method WriteTransfer(cmd: nat, n: nat, wdata: nat)
      requires ValidWidth(n)
      modifies this`wire, this`xfers
      ensures xfers == old(xfers) + [Write(cmd, n, wdata)]
      ensures wire == old(wire) + Drives(WriteBody(n, wdata))
    {
      SendWriteBody(n, wdata);
      xfers := xfers + [Write(cmd, n, wdata)];
    }

    /**
     * `twd_command`: send the header; DISCONNECT ends there. A write sends
     * its body; a read samples the reply, failing on a parity mismatch.
     * The command is logged as one transfer `x`, which is exactly what
     * crossed the wire.
     */
    method Command(cmd: nat, n: nat, wdata: Option<nat>) returns (r: Result<Option<nat>, Error>, ghost x: Xfer)
      requires cmd < 16 && ValidWidth(n)
      modifies this`wire, this`xfers
      ensures xfers == old(xfers) + [x]
      ensures XferOk(x) && wire == old(wire) + XferWire(x)
      ensures cmd == CMD_DISCONNECT ==> x == Disconnect && r == Success(None)
      ensures cmd != CMD_DISCONNECT && wdata.Some? ==> x == Write(cmd, n, wdata.value) && r == Success(None)
      ensures cmd != CMD_DISCONNECT && wdata.None? ==>
        x == Read(cmd, n, ReadReplyBits(old(wire) + Drives(OutBits(Header(cmd), 6)), n))
        && r == (if Complete(x) then Success(Some(RData(x))) else Failure(ParityError))
    {
      var header := 32 + 2 * cmd + OddParity(cmd);
      assert header == Header(cmd);
      ShiftOut(header, 6);
      if cmd == CMD_DISCONNECT {
        xfers := xfers + [Disconnect];
        return Success(None), Disconnect;
      }
      ghost var w1 := wire;
      if wdata.None? {
        var reply;
        reply, x := ReadTransfer(cmd, n);
        r := if reply.Failure? then Failure(ParityError) else Success(Some(reply.value));
        assert wire == w1 + Samples(x.bits);
        assert XferWire(x) == Drives(OutBits(Header(cmd), 6)) + Samples(x.bits);
      } else {
        WriteTransfer(cmd, n, wdata.value);
        DrivesAppend(OutBits(Header(cmd), 6), WriteBody(n, wdata.value));
        r, x := Success(None), Write(cmd, n, wdata.value);
      }
    }

    /** A read command, seen from above: one more transfer, whose data or parity failure is the result. */
    method ReadCmd(cmd: nat, n: nat) returns (r: Result<nat, Error>, ghost x: Xfer)
      requires cmd < 16 && cmd != CMD_DISCONNECT && ValidWidth(n)
      modifies this`wire, this`xfers
      ensures xfers == old(xfers) + [x]
      ensures ReadOf(x, cmd, n) && XferOk(x)
      ensures r == ReadResult(x)
    {
      var reply;
      reply, x := Command(cmd, n, None);
      if reply.Failure? {
        return Failure(reply.error), x;
      }
      return Success(reply.value.value), x;
    }

    /** A write command, seen from above: one more transfer. */
    method WriteCmd(cmd: nat, n: nat, wdata: nat)
      requires cmd < 16 && cmd != CMD_DISCONNECT && ValidWidth(n)
      modifies this`wire, this`xfers
      ensures xfers == old(xfers) + [Write(cmd, n, wdata)]
    {
      var _, _ := Command(cmd, n, Some(wdata));
    }

    /** The repeated STAT poll of `twd_write_bus` (unbounded) and `twd_read_bus` (10 rounds). */
    method PollStat(limit: nat, giveUp: Error) returns (r: Outcome<Error>, ghost p: seq<Xfer>)
      modifies this`wire, this`xfers
      ensures xfers == old(xfers) + p
      ensures StatPolls(p, limit, giveUp, r)
    {
      p := [];
      var i := 0;
      while i < limit
        invariant i == |p| <= limit
        invariant xfers == old(xfers) + p
        invariant AllBusy(p)
      {
        var stat, x := ReadCmd(CMD_R_STAT, 4);
        BusyThen(p, [x]);
        if stat.Failure? {
          return Fail(stat.error), p + [x];
        }
        if stat.value % 2 == 0 {
          return Pass, p + [x];
        }
        p := p + [x];
        i := i + 1;
      }
      BusyThen(p, []);
      assert p + [] == p;
      return Fail(giveUp), p;
    }

    /** The byte loop of `twd_connect`: clock out the connect sequence, one raw byte at a time. */
    method SendConnectSeq()
      modifies this`wire, this`xfers
      ensures xfers == old(xfers) + RawBytes(CONNECT_SEQ)
    {
      var i := 0;
      while i < |CONNECT_SEQ|
        invariant 0 <= i <= |CONNECT_SEQ|
        invariant xfers == old(xfers) + RawBytes(CONNECT_SEQ[..i])
      {
        ShiftOut(CONNECT_SEQ[i], 8);
        assert RawBytes(CONNECT_SEQ[..i + 1]) == RawBytes(CONNECT_SEQ[..i]) + [RawByte(CONNECT_SEQ[i])];
        xfers := xfers + [RawByte(CONNECT_SEQ[i])];
        i := i + 1;
      }
      assert CONNECT_SEQ[..i] == CONNECT_SEQ;
    }

    /**
     * The start of `twd_connect`: shift in and discard 80 bits, send
     * DISCONNECT, then the connect sequence.
     */
    method Resync() returns (ghost pre: seq<Bit>)
      modifies this`wire, this`xfers
      ensures |pre| == 80
      ensures xfers == old(xfers) + [Preamble(pre), Disconnect] + RawBytes(CONNECT_SEQ)
    {
      var start := |wire|;
      var _ := ShiftIn(80);
      var bits := BitsOf(wire[start..]);
      pre := bits;
      xfers := xfers + [Preamble(bits)];
      var _, _ := Command(CMD_DISCONNECT, 0, None);
      assert xfers == old(xfers) + [Preamble(pre), Disconnect];
      SendConnectSeq();
    }

    /** `twd_connect`: forget the cached address, resynchronise, check the transport CSR, enable its error flags. */
    method Connect() returns (r: Outcome<Error>)
      modifies this`wire, this`xfers, this`cachedAddr
      ensures cachedAddr == None
      ensures |xfers| >= |old(xfers)| && xfers[..|old(xfers)|] == old(xfers)
      ensures ConnectXfers(xfers[|old(xfers)|..], r)
    {
      cachedAddr := None;
      ghost var o := xfers;
      ghost var pre := Resync();
      var reply, x := ReadCmd(CMD_R_CSR, 32);
      ghost var pd := [Preamble(pre), Disconnect] + RawBytes(CONNECT_SEQ);
      ghost var s := pd + [x];
      if reply.Failure? {
        r := Fail(reply.error);
      } else if CsrVersion(reply.value) != 1 {
        r := Fail(BadVersion);
      } else if CsrAsize(reply.value) != 0 {
        r := Fail(BadAsize);
      } else {
        r := Pass;
      }
      assert r == ConnectVerdict(x);
      ghost var h := xfers;
      if r.Pass? {
        WriteCmd(CMD_W_CSR, 32, CSR_CONNECT_VALUE);
      }
      ghost var rest := if r.Pass? then [Write(CMD_W_CSR, 32, CSR_CONNECT_VALUE)] else [];
      assert xfers == h + rest;
      ConnectShape(pre, x, rest, r);
      assert h == o + pd + [x];
      Extends(o, pd, [x], rest, xfers);
    }

    /** `twd_read_idcode`: one R_IDCODE command. */
    method ReadIdcode() returns (r: Result<nat, Error>)
      modifies this`wire, this`xfers
      ensures |xfers| == |old(xfers)| + 1 && xfers[..|old(xfers)|] == old(xfers)
      ensures ReadOf(xfers[|old(xfers)|], CMD_R_IDCODE, 32) && XferOk(xfers[|old(xfers)|])
      ensures r == ReadResult(xfers[|old(xfers)|])
    {
      ghost var x;
      r, x := ReadCmd(CMD_R_IDCODE, 32);
    }

    /** `twd_write_bus` */
    method WriteBus(addr: nat, wdata: nat) returns (r: Outcome<Error>, ghost s: seq<Xfer>)
      modifies this`wire, this`xfers, this`cachedAddr, this`bus
      ensures cachedAddr == Some(addr)
      ensures xfers == old(xfers) + s
      ensures WriteBusXfers(s, addr, wdata, old(cachedAddr) == Some(addr), fuel, r)
      ensures r.Pass? ==> bus == old(bus) + [BusWrite(addr, wdata)]
      ensures r.Fail? ==> bus == old(bus)
    {
      s := [];
      if cachedAddr != Some(addr) {
        WriteCmd(CMD_W_ADDR, 8, addr);
        cachedAddr := Some(addr);
        s := [Write(CMD_W_ADDR, 8, addr)];
      }
      WriteCmd(CMD_W_DATA, 32, wdata);
      s := s + [Write(CMD_W_DATA, 32, wdata)];
      ghost var p;
      r, p := PollStat(fuel, Hang);
      WriteBusShape(s, p, addr, wdata, old(cachedAddr) == Some(addr), fuel, r);
      s := s + p;
      if r.Pass? {
        bus := bus + [BusWrite(addr, wdata)];
      }
    }

    /** The address write and the bounded STAT poll that start `twd_read_bus`. */
    method ReadBusStart(addr: nat) returns (polled: Outcome<Error>, ghost p: seq<Xfer>)
      modifies this`wire, this`xfers
      ensures xfers == old(xfers) + [Write(CMD_W_ADDR_R, 8, addr)] + p
      ensures StatPolls(p, 10, Timeout, polled)
    {
      WriteCmd(CMD_W_ADDR_R, 8, addr);
      polled, p := PollStat(10, Timeout);
    }

    /** The BUFF read that ends `twd_read_bus` once the STAT poll passed. */
    method ReadBusReply(addr: nat, ghost p: seq<Xfer>) returns (r: Result<nat, Error>, ghost x: Xfer)
      requires StatPolls(p, 10, Timeout, Pass)
      modifies this`wire, this`xfers, this`bus
      ensures xfers == old(xfers) + [x]
      ensures ReadBusXfers([Write(CMD_W_ADDR_R, 8, addr)] + p + [x], addr, r)
      ensures r.Success? ==> bus == old(bus) + [BusRead(addr, r.value)]
      ensures r.Failure? ==> bus == old(bus)
    {
      r, x := ReadCmd(CMD_R_BUFF, 32);
      ReadBusDone(addr, p, x);
      if r.Success? {
        bus := bus + [BusRead(addr, r.value)];
      }
    }

    /** `twd_read_bus` */
    method ReadBus(addr: nat) returns (r: Result<nat, Error>, ghost s: seq<Xfer>)
      modifies this`wire, this`xfers, this`cachedAddr, this`bus
      ensures cachedAddr == Some(addr)
      ensures xfers == old(xfers) + s && ReadBusXfers(s, addr, r)
      ensures r.Success? ==> bus == old(bus) + [BusRead(addr, r.value)]
      ensures r.Failure? ==> bus == old(bus)
    {
      cachedAddr := Some(addr);
      var polled, p := ReadBusStart(addr);
      ghost var w := [Write(CMD_W_ADDR_R, 8, addr)] + p;
      if polled.Fail? {
        ReadBusFailed(addr, p, polled.error);
        return Failure(polled.error), w;
      }
      ghost var x;
      ghost var h := xfers;
      r, x := ReadBusReply(addr, p);
      assert h + [x] == old(xfers) + (w + [x]);
      s := w + [x];
    }

    /**
     * The polling loop of `twd_vuart_getchar`: read VUART_STAT until RXVLD
     * is set, at most `maxPoll` times; `ds` are the status words read.
     */
    method VuartWaitRx(maxPoll: nat) returns (r: Result<bool, Error>, ghost ds: seq<nat>)
      modifies this`wire, this`xfers, this`cachedAddr, this`bus
      ensures bus == old(bus) + Reads(VUART_STAT, ds)
      ensures r.Success? && r.value ==> PollDone(ds, VUART_STAT_RXVLD_BIT, 1, maxPoll)
      ensures r.Success? && !r.value ==> |ds| == maxPoll && Waiting(ds, VUART_STAT_RXVLD_BIT, 1)
      ensures r.Failure? ==> |ds| < maxPoll && Waiting(ds, VUART_STAT_RXVLD_BIT, 1)
    {
      ds := [];
      var i := 0;
      while i < maxPoll
        invariant i == |ds| <= maxPoll
        invariant bus == old(bus) + Reads(VUART_STAT, ds)
        invariant Waiting(ds, VUART_STAT_RXVLD_BIT, 1)
      {
        var stat, _ := ReadBus(VUART_STAT);
        if stat.Failure? {
          return Failure(stat.error), ds;
        }
        ReadsAppend(VUART_STAT, ds, stat.value);
        if BitAt(stat.value, VUART_STAT_RXVLD_BIT) == 1 {
          assert (ds + [stat.value])[..|ds|] == ds;
          return Success(true), ds + [stat.value];
        }
        ds := ds + [stat.value];
        i := i + 1;
      }
      return Success(false), ds;
    }

    /** `twd_vuart_getchar(max_poll)`; `ops` are the bus accesses it made. */
    method VuartGetchar(maxPoll: nat) returns (r: Result<Option<nat>, Error>, ghost ops: seq<BusOp>)
      modifies this`wire, this`xfers, this`cachedAddr, this`bus
      ensures bus == old(bus) + ops
      ensures GetcharOps(ops, maxPoll, r)
    {
      var found, ds := VuartWaitRx(maxPoll);
      if found.Failure? {
        GetcharFailed(ds, maxPoll, found.error);
        return Failure(found.error), Reads(VUART_STAT, ds);
      }
      if !found.value {
        GetcharEmpty(ds, maxPoll);
        return Success(None), Reads(VUART_STAT, ds);
      }
      var fifo, _ := ReadBus(VUART_FIFO);
      if fifo.Failure? {
        GetcharFailed(ds, maxPoll, fifo.error);
        return Failure(fifo.error), Reads(VUART_STAT, ds);
      }
      GetcharChar(ds, fifo.value, maxPoll);
      return Success(Some(fifo.value % 256)), Reads(VUART_STAT, ds) + [BusRead(VUART_FIFO, fifo.value)];
    }
  }
}
