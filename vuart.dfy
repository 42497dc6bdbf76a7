/**
 * The processor side of the virtual UART (software/include/vuart.h). The
 * driver only reads the status register and writes the TX FIFO, so a run of
 * the driver is a log of those accesses. The value each status read returns
 * is the device's business: it is a function of every access before it.
 * A `while` that waits for TXRDY may read the status register any number of
 * times; the model lets it read `fuel` times and then reports that the call
 * had not returned.
 */
module VUart {
  import opened Bits
  import opened Reg32

  datatype Access = StatRead(value: Word) | FifoWrite(c: char)

  /** Bit positions of HOSTCONN and TXRDY in the status register. */
  datatype Layout = Layout(hostconn: nat, txrdy: nat)

  /** The device: its status bits, what each status read returns, and how long a wait may last. */
  datatype Device = Device(layout: Layout, stat: seq<Access> -> Word, fuel: nat)

  predicate ValidDevice(dev: Device) {
    dev.layout.hostconn < 32 && dev.layout.txrdy < 32
  }

  /** The accesses of one driver call, and whether it returned (false: still waiting for TXRDY). */
  datatype Run = Run(log: seq<Access>, done: bool)

  /** The characters written to the FIFO, in order. */
  function Writes(log: seq<Access>): seq<char> {
    if log == [] then []
    else Writes(log[..|log| - 1]) + (if log[|log| - 1].FifoWrite? then [log[|log| - 1].c] else [])
  }

  lemma {:induction false} WritesAppend(a: seq<Access>, b: seq<Access>)
    ensures Writes(a + b) == Writes(a) + Writes(b)
    decreases |b|
  {
    if b == [] {
      assert a + b == a;
    } else {
      assert (a + b)[..|a + b| - 1] == a + b[..|b| - 1];
      WritesAppend(a, b[..|b| - 1]);
    }
  }

  lemma {:induction false} NoWrites(log: seq<Access>)
    requires forall k | 0 <= k < |log| :: log[k].StatRead?
    ensures Writes(log) == []
  {
    if log != [] {
      NoWrites(log[..|log| - 1]);
    }
  }

  /** Every FIFO write comes right after a status read that showed TXRDY set. */
  predicate Paced(log: seq<Access>, txrdy: nat) {
    forall k | 0 <= k < |log| && log[k].FifoWrite? ::
      0 < k && log[k - 1].StatRead? && IsSet(log[k - 1].value, txrdy)
  }

  lemma PacedAppend(a: seq<Access>, b: seq<Access>, txrdy: nat)
    requires Paced(a, txrdy) && Paced(b, txrdy) && (b == [] || b[0].StatRead?)
    ensures Paced(a + b, txrdy)
  {
    var ab := a + b;
    forall k | 0 <= k < |ab| && ab[k].FifoWrite?
      ensures 0 < k && ab[k - 1].StatRead? && IsSet(ab[k - 1].value, txrdy)
    {
      if k >= |a| {
        assert ab[k] == b[k - |a|];
        if k > |a| {
          assert ab[k - 1] == b[k - 1 - |a|];
        }
      }
    }
  }

  // ---- Line endings ----

  /** What the driver sends for a text: every '\n' becomes "\r\n". */
  function Expand(s: seq<char>): (t: seq<char>)
    ensures t == [] || t[0] != '\n'
  {
    if s == [] then [] else (if s[0] == '\n' then "\r\n" else [s[0]]) + Expand(s[1..])
  }

  lemma {:induction false} ExpandAppend(a: seq<char>, b: seq<char>)
    ensures Expand(a + b) == Expand(a) + Expand(b)
  {
    if a == [] {
      assert a + b == b;
    } else {
      assert (a + b)[0] == a[0] && (a + b)[1..] == a[1..] + b;
      ExpandAppend(a[1..], b);
    }
  }

  lemma ExpandOne(c: char)
    ensures Expand([c]) == if c == '\n' then "\r\n" else [c]
  {
    assert [c][1..] == [];
  }

  /** A terminal's view: "\r\n" read back as one '\n'. */
  function Unexpand(t: seq<char>): seq<char> {
    if t == [] then []
    else if |t| >= 2 && t[0] == '\r' && t[1] == '\n' then "\n" + Unexpand(t[2..])
    else [t[0]] + Unexpand(t[1..])
  }

  /** No text is lost by the line-ending conversion. */
  lemma {:induction false} UnexpandExpand(s: seq<char>)
    ensures Unexpand(Expand(s)) == s
  {
    if s != [] {
      var t := Expand(s);
      UnexpandExpand(s[1..]);
      if s[0] == '\n' {
        assert t[2..] == Expand(s[1..]);
      } else {
        assert t[1..] == Expand(s[1..]);
      }
    }
  }

  /** The characters of a C string: those before the first NUL. */
  function Text(s: seq<char>): (t: seq<char>)
    requires '\0' in s
    ensures |t| < |s| && t == s[..|t|] && s[|t|] == '\0' && '\0' !in t
  {
    if s[0] == '\0' then [] else [s[0]] + Text(s[1..])
  }

  // ---- Waiting for TXRDY ----

  /**
   * The status reads of `while (!(stat & TXRDY));` after history h, at most
   * n of them: they stop at the first read with TXRDY set.
   */
  function Spin(dev: Device, h: seq<Access>, n: nat): (w: seq<Access>)
    requires ValidDevice(dev)
    ensures |w| <= n
    ensures forall k | 0 <= k < |w| :: w[k].StatRead?
    decreases n
  {
    if n == 0 then []
    else
      var v := dev.stat(h);
      if IsSet(v, dev.layout.txrdy) then [StatRead(v)]
      else
        var rest := Spin(dev, h + [StatRead(v)], n - 1);
        [StatRead(v)] + rest
  }

  /** The wait ended with TXRDY set rather than running out of reads. */
  predicate Ready(w: seq<Access>, txrdy: nat) {
    w != [] && w[|w| - 1].StatRead? && IsSet(w[|w| - 1].value, txrdy)
  }

  lemma ReadyAppend(a: seq<Access>, b: seq<Access>, txrdy: nat)
    ensures Ready(a + b, txrdy) == if b == [] then Ready(a, txrdy) else Ready(b, txrdy)
  {
    if b == [] {
      assert a + b == a;
    } else {
      assert (a + b)[|a + b| - 1] == b[|b| - 1];
    }
  }

  /** A wait for TXRDY and then the FIFO write of c. */
  function SpinWrite(dev: Device, h: seq<Access>, c: char): Run
    requires ValidDevice(dev)
  {
    var w := Spin(dev, h, dev.fuel);
    if Ready(w, dev.layout.txrdy) then Run(w + [FifoWrite(c)], true) else Run(w, false)
  }

  /** Status reads write nothing; a write after them is paced when the last read showed TXRDY. */
  lemma ReadsThenWrite(a: seq<Access>, x: char, txrdy: nat)
    requires forall k | 0 <= k < |a| :: a[k].StatRead?
    ensures Paced(a, txrdy) && Writes(a) == []
    ensures Ready(a, txrdy) ==> Paced(a + [FifoWrite(x)], txrdy) && Writes(a + [FifoWrite(x)]) == [x]
  {
    NoWrites(a);
    if Ready(a, txrdy) {
      var b := a + [FifoWrite(x)];
      forall k | 0 <= k < |b| && b[k].FifoWrite?
        ensures 0 < k && b[k - 1].StatRead? && IsSet(b[k - 1].value, txrdy)
      {
        assert k == |a| && b[k - 1] == a[|a| - 1];
      }
      WritesAppend(a, [FifoWrite(x)]);
      assert Writes([FifoWrite(x)]) == Writes([]) + [x];
    }
  }

  lemma SpinWriteSpec(dev: Device, h: seq<Access>, c: char)
    requires ValidDevice(dev)
    ensures var r := SpinWrite(dev, h, c);
      && Paced(r.log, dev.layout.txrdy)
      && (r.log == [] || r.log[0].StatRead?)
      && Writes(r.log) == if r.done then [c] else []
  {
    ReadsThenWrite(Spin(dev, h, dev.fuel), c, dev.layout.txrdy);
  }

  // ---- vuart_putc ----

  /**
   * What `vuart_putc(c)` does once it has seen TXRDY: write c, or for '\n'
   * write '\r', wait for TXRDY again and write '\n'.
   */
  function SendRun(dev: Device, h: seq<Access>, c: char): Run
    requires ValidDevice(dev)
  {
    if c == '\n' then
      var b := [FifoWrite('\r')];
      var r := SpinWrite(dev, h + b, c);
      Run(b + r.log, r.done)
    else Run([FifoWrite(c)], true)
  }

  /**
   * After status reads that end with TXRDY, the sending part of
   * `vuart_putc` keeps every write paced and writes c with its line ending.
   */
  lemma SendSpec(dev: Device, h: seq<Access>, a: seq<Access>, c: char)
    requires ValidDevice(dev) && Ready(a, dev.layout.txrdy)
    requires forall k | 0 <= k < |a| :: a[k].StatRead?
    ensures var s := SendRun(dev, h, c);
      && Paced(a + s.log, dev.layout.txrdy)
      && (s.done ==> Writes(a + s.log) == Expand([c]))
      && Writes(a + s.log) <= Expand([c])
  {
    ExpandOne(c);
    if c == '\n' {
      SendNewline(dev, h, a);
    } else {
      ReadsThenWrite(a, c, dev.layout.txrdy);
      assert SendRun(dev, h, c) == Run([FifoWrite(c)], true);
    }
  }

  lemma SendNewline(dev: Device, h: seq<Access>, a: seq<Access>)
    requires ValidDevice(dev) && Ready(a, dev.layout.txrdy)
    requires forall k | 0 <= k < |a| :: a[k].StatRead?
    ensures var s := SendRun(dev, h, '\n');
      && Paced(a + s.log, dev.layout.txrdy)
      && Writes(a + s.log) == if s.done then "\r\n" else "\r"
  {
    var b := [FifoWrite('\r')];
    var r := SpinWrite(dev, h + b, '\n');
    ReadsThenWrite(a, '\r', dev.layout.txrdy);
    assert SendRun(dev, h, '\n') == Run(b + r.log, r.done);
    assert a + (b + r.log) == (a + b) + r.log;
    ThenSpinWrite(dev, h + b, a + b, '\n');
  }

  /** A wait and a write after a paced log that ends in a write. */
  lemma ThenSpinWrite(dev: Device, h: seq<Access>, p: seq<Access>, c: char)
    requires ValidDevice(dev) && Paced(p, dev.layout.txrdy)
    ensures var r := SpinWrite(dev, h, c);
      && Paced(p + r.log, dev.layout.txrdy)
      && Writes(p + r.log) == Writes(p) + if r.done then [c] else []
  {
    var r := SpinWrite(dev, h, c);
    SpinWriteSpec(dev, h, c);
    WritesAppend(p, r.log);
    PacedAppend(p, r.log, dev.layout.txrdy);
  }

  /**
   * `vuart_putc(c)`: one status read; nothing more if HOSTCONN is clear;
   * otherwise wait for TXRDY (the first read counts), then send c.
   */
  function PutcRun(dev: Device, h: seq<Access>, c: char): Run
    requires ValidDevice(dev)
  {
    var v := dev.stat(h);
    var first := [StatRead(v)];
    if !IsSet(v, dev.layout.hostconn) then Run(first, true)
    else
      var w := if IsSet(v, dev.layout.txrdy) then [] else Spin(dev, h + first, dev.fuel);
      var a := first + w;
      if !Ready(a, dev.layout.txrdy) then Run(a, false)
      else
        var s := SendRun(dev, h + a, c);
        Run(a + s.log, s.done)
  }

  /**
   * `vuart_putc` writes nothing when HOSTCONN is clear; otherwise it writes
   * "\r\n" for '\n' and c itself for anything else (a prefix of that if it
   * is still waiting), each write right after a read showing TXRDY.
   */
  lemma PutcSpec(dev: Device, h: seq<Access>, c: char)
    requires ValidDevice(dev)
    ensures var r := PutcRun(dev, h, c);
      && r.log != [] && r.log[0] == StatRead(dev.stat(h))
      && Paced(r.log, dev.layout.txrdy)
      && (!IsSet(dev.stat(h), dev.layout.hostconn) ==> r.done && Writes(r.log) == [])
      && (IsSet(dev.stat(h), dev.layout.hostconn) && r.done ==> Writes(r.log) == Expand([c]))
      && Writes(r.log) <= Expand([c])
  {
    var txrdy := dev.layout.txrdy;
    var v := dev.stat(h);
    var first := [StatRead(v)];
    if IsSet(v, dev.layout.hostconn) {
      var w := if IsSet(v, txrdy) then [] else Spin(dev, h + first, dev.fuel);
      var a := first + w;
      assert forall k | 0 <= k < |a| :: a[k].StatRead?;
      if !Ready(a, txrdy) {
        ReadsThenWrite(a, c, txrdy);
        assert PutcRun(dev, h, c) == Run(a, false);
      } else {
        var s := SendRun(dev, h + a, c);
        SendSpec(dev, h + a, a, c);
        assert PutcRun(dev, h, c) == Run(a + s.log, s.done);
        assert (a + s.log)[0] == a[0];
      }
    } else {
      ReadsThenWrite(first, c, txrdy);
      assert PutcRun(dev, h, c) == Run(first, true);
    }
  }

  // ---- vuart_puts ----

  /** One turn of `vuart_puts`'s loop: '\r' first for a '\n', then the character, each after a wait. */
  function CharRun(dev: Device, h: seq<Access>, c: char): Run
    requires ValidDevice(dev)
  {
    if c == '\n' then
      var r1 := SpinWrite(dev, h, '\r');
      if !r1.done then r1
      else
        var r2 := SpinWrite(dev, h + r1.log, c);
        Run(r1.log + r2.log, r2.done)
    else SpinWrite(dev, h, c)
  }

  /** The loop of `vuart_puts` over the characters s, stopping if a wait does not end. */
  function CharsRun(dev: Device, h: seq<Access>, s: seq<char>): Run
    requires ValidDevice(dev)
  {
    if s == [] then Run([], true)
    else
      var p := CharsRun(dev, h, s[..|s| - 1]);
      if !p.done then p
      else
        var r := CharRun(dev, h + p.log, s[|s| - 1]);
        Run(p.log + r.log, r.done)
  }

  /** `vuart_puts(s)`: one HOSTCONN check, then the characters of the string. */
  function PutsRun(dev: Device, h: seq<Access>, s: seq<char>): Run
    requires ValidDevice(dev) && '\0' in s
  {
    var v := dev.stat(h);
    if !IsSet(v, dev.layout.hostconn) then Run([StatRead(v)], true)
    else
      var r := CharsRun(dev, h + [StatRead(v)], Text(s));
      Run([StatRead(v)] + r.log, r.done)
  }

  lemma CharRunSpec(dev: Device, h: seq<Access>, c: char)
    requires ValidDevice(dev)
    ensures var r := CharRun(dev, h, c);
      && Paced(r.log, dev.layout.txrdy)
      && (r.log == [] || r.log[0].StatRead?)
      && Writes(r.log) <= Expand([c])
      && (r.done ==> Writes(r.log) == Expand([c]))
  {
    ExpandOne(c);
    if c == '\n' {
      var r1 := SpinWrite(dev, h, '\r');
      SpinWriteSpec(dev, h, '\r');
      if r1.done {
        var r2 := SpinWrite(dev, h + r1.log, c);
        SpinWriteSpec(dev, h + r1.log, c);
        WritesAppend(r1.log, r2.log);
        PacedAppend(r1.log, r2.log, dev.layout.txrdy);
        assert CharRun(dev, h, c) == Run(r1.log + r2.log, r2.done);
        assert Writes(r1.log + r2.log) == "\r" + Writes(r2.log);
      } else {
        assert CharRun(dev, h, c) == r1;
      }
    } else {
      SpinWriteSpec(dev, h, c);
      assert CharRun(dev, h, c) == SpinWrite(dev, h, c);
    }
  }

  lemma {:induction false} CharsRunSpec(dev: Device, h: seq<Access>, s: seq<char>)
    requires ValidDevice(dev)
    ensures var r := CharsRun(dev, h, s);
      && Paced(r.log, dev.layout.txrdy)
      && (r.log == [] || r.log[0].StatRead?)
      && Writes(r.log) <= Expand(s)
      && (r.done ==> Writes(r.log) == Expand(s))
    decreases |s|
  {
    if s != [] {
      var init, c := s[..|s| - 1], s[|s| - 1];
      assert s == init + [c];
      var p := CharsRun(dev, h, init);
      CharsRunSpec(dev, h, init);
      ExpandAppend(init, [c]);
      if p.done {
        var r := CharRun(dev, h + p.log, c);
        CharRunSpec(dev, h + p.log, c);
        WritesAppend(p.log, r.log);
        PacedAppend(p.log, r.log, dev.layout.txrdy);
      }
    }
  }

  /** Once a character's wait does not end, the rest of the loop never runs. */
  lemma {:induction false} CharsRunStops(dev: Device, h: seq<Access>, s: seq<char>, i: nat)
    requires ValidDevice(dev) && i <= |s| && !CharsRun(dev, h, s[..i]).done
    ensures CharsRun(dev, h, s) == CharsRun(dev, h, s[..i])
    decreases |s| - i
  {
    if i < |s| {
      assert s[..|s| - 1][..i] == s[..i];
      CharsRunStops(dev, h, s[..|s| - 1], i);
    } else {
      assert s[..i] == s;
    }
  }

  /**
   * `vuart_puts` writes nothing when HOSTCONN is clear at entry; otherwise it
   * writes the string up to its NUL with every '\n' sent as "\r\n" (a prefix
   * of that if it is still waiting), each write right after a read showing TXRDY.
   */
  lemma PutsSpec(dev: Device, h: seq<Access>, s: seq<char>)
    requires ValidDevice(dev) && '\0' in s
    ensures var r := PutsRun(dev, h, s);
      && r.log != [] && r.log[0] == StatRead(dev.stat(h))
      && Paced(r.log, dev.layout.txrdy)
      && (!IsSet(dev.stat(h), dev.layout.hostconn) ==> r.done && Writes(r.log) == [])
      && (IsSet(dev.stat(h), dev.layout.hostconn) && r.done ==> Writes(r.log) == Expand(Text(s)))
      && Writes(r.log) <= Expand(Text(s))
  {
    var v := dev.stat(h);
    var first := [StatRead(v)];
    NoWrites(first);
    if IsSet(v, dev.layout.hostconn) {
      var r := CharsRun(dev, h + first, Text(s));
      CharsRunSpec(dev, h + first, Text(s));
      WritesAppend(first, r.log);
      PacedAppend(first, r.log, dev.layout.txrdy);
    }
  }

  // ---- vuart_puthex32 ----

  const HEX_TABLE: seq<char> := "0123456789abcdef"

  /** The table index `(x << i) >> 28` on `uint32_t`. */
  function Nibble(x: Word, i: nat): (d: nat)
    requires i < 32
    ensures d < 16
  {
    var y := (x * Pow2(i)) % WORD;
    assert y / 0x1000_0000 < 16;
    y / 0x1000_0000
  }

  /** `y % (a * b) / a` is digit `y / a % b`. */
  lemma ModDiv(y: nat, a: nat, b: nat)
    requires a > 0 && b > 0
    ensures y % (a * b) / a == y / a % b
  {
    var q, r := y / (a * b), y % (a * b);
    var r1, r0 := r / a, r % a;
    assert y == a * (b * q + r1) + r0 by {
      assert y == (a * b) * q + r;
      assert r == a * r1 + r0;
      MulAssoc(a, b, q);
      MulStep(a, b * q, r1);
    }
    DivUnique(y, a, b * q + r1, r0);
    assert r1 < b by {
      if r1 >= b {
        MulMonotone(a, b, r1);
      }
    }
    DivUnique(b * q + r1, b, q, r1);
  }

  /** `y % (a * m)` splits into the low digit `y % a` and the rest. */
  lemma ModSplit(y: nat, a: nat, m: nat)
    requires a > 0 && m > 0
    ensures y % (a * m) == y % a + a * (y / a % m)
  {
    var d, r0 := y / a, y % a;
    var q, d1 := d / m, d % m;
    SplitDigits(y, a, m, d, r0, q, d1);
    DivUnique(y, a * m, q, a * d1 + r0);
  }

  /** y = a * (m * q + d1) + r0 with both digits in range, rearranged. */
  lemma SplitDigits(y: nat, a: nat, m: nat, d: nat, r0: nat, q: nat, d1: nat)
    requires y == a * d + r0 && r0 < a && d == m * q + d1 && d1 < m
    ensures y == (a * m) * q + (a * d1 + r0) && a * d1 + r0 < a * m
  {
    MulStep(a, m * q, d1);
    MulAssoc(a, m, q);
    MulMonotone(a, d1 + 1, m);
    MulStep(a, d1, 1);
  }

  /** The index is hex digit 7 - i/4 of x, counting from the least significant. */
  lemma NibbleIs(x: Word, i: nat)
    requires i <= 28
    ensures Nibble(x, i) == x / Pow2(28 - i) % 16
  {
    var p, q := Pow2(i), Pow2(28 - i);
    Pow2Is(28);
    Pow2Is(32);
    assert WORD == 0x1000_0000 * 16;
    ModDiv(x * p, 0x1000_0000, 16);
    assert x * p / 0x1000_0000 == x / q by {
      Pow2Add(i, 28 - i);
      DivDiv(x * p, p, q);
      DivUnique(x * p, p, x, 0);
    }
  }

  /** The characters `vuart_puthex32(x)` passes to `vuart_putc`, in order. */
  function HexChars(x: Word): (s: seq<char>)
    ensures |s| == 8
  {
    seq(8, k requires 0 <= k < 8 => HEX_TABLE[Nibble(x, 4 * k)])
  }

  /** Character k of `vuart_puthex32(x)`'s output is hex digit 7 - k of x. */
  lemma HexCharsAt(x: Word, k: nat)
    requires k < 8
    ensures HexChars(x)[k] == HEX_TABLE[x / Pow2(4 * (7 - k)) % 16]
  {
    NibbleIs(x, 4 * k);
  }

  lemma HexTableDigits()
    ensures forall d | 0 <= d < 16 :: HEX_TABLE[d] != '\n'
  {
  }

  /** The value of a hex digit of HEX_TABLE. */
  function DigitValue(c: char): (v: nat)
    ensures v < 16
    ensures forall d | 0 <= d < 16 :: c == HEX_TABLE[d] ==> v == d
  {
    if '0' <= c <= '9' then c as nat - '0' as nat
    else if 'a' <= c <= 'f' then c as nat - 'a' as nat + 10
    else 0
  }

  /** A string of hex digits read back, most significant first. */
  function ParseHex(s: seq<char>): nat {
    if s == [] then 0 else ParseHex(s[..|s| - 1]) * 16 + DigitValue(s[|s| - 1])
  }

  /** The last n hex digits of x, most significant first. */
  function HexDigits(x: nat, n: nat): (s: seq<char>)
    ensures |s| == n
  {
    if n == 0 then [] else HexDigits(x / 16, n - 1) + [HEX_TABLE[x % 16]]
  }

  lemma {:induction false} ParseHexDigits(x: nat, n: nat)
    ensures ParseHex(HexDigits(x, n)) == x % Pow2(4 * n)
  {
    if n > 0 {
      var s := HexDigits(x, n);
      var m := Pow2(4 * (n - 1));
      assert s[..n - 1] == HexDigits(x / 16, n - 1);
      ParseHexDigits(x / 16, n - 1);
      assert ParseHex(s) == (x / 16 % m) * 16 + x % 16;
      assert Pow2(4 * n) == 16 * m by {
        Pow2Is(4);
        Pow2Add(4, 4 * (n - 1));
      }
      ModSplit(x, 16, m);
    }
  }

  lemma {:induction false} HexDigitsAt(x: nat, n: nat, k: nat)
    requires k < n
    ensures HexDigits(x, n)[k] == HEX_TABLE[x / Pow2(4 * (n - 1 - k)) % 16]
  {
    var s := HexDigits(x, n);
    assert s == HexDigits(x / 16, n - 1) + [HEX_TABLE[x % 16]];
    if k < n - 1 {
      var p := Pow2(4 * (n - 2 - k));
      HexDigitsAt(x / 16, n - 1, k);
      assert s[k] == HEX_TABLE[x / 16 / p % 16];
      assert Pow2(4 * (n - 1 - k)) == 16 * p by {
        Pow2Is(4);
        Pow2Add(4, 4 * (n - 2 - k));
      }
      DivDiv(x, 16, p);
    } else {
      assert s[k] == HEX_TABLE[x % 16];
      assert Pow2(4 * (n - 1 - k)) == 1;
      DivUnique(x, 1, x, 0);
    }
  }

  /**
   * `vuart_puthex32(x)` sends exactly 8 lower-case hex digits, most
   * significant first, and they read back as x.
   */
  lemma HexCharsDigits(x: Word)
    ensures HexChars(x) == HexDigits(x, 8)
  {
    forall k | 0 <= k < 8 ensures HexChars(x)[k] == HexDigits(x, 8)[k] {
      HexCharsAt(x, k);
      HexDigitsAt(x, 8, k);
    }
  }

  lemma HexCharsSpec(x: Word)
    ensures HexChars(x) == HexDigits(x, 8)
    ensures forall k | 0 <= k < 8 :: HexChars(x)[k] in HEX_TABLE
    ensures ParseHex(HexChars(x)) == x
  {
    HexCharsDigits(x);
    ParseHexDigits(x, 8);
    assert Pow2(4 * 8) == WORD by { Pow2Is(32); }
    DivUnique(x, WORD, 0, x);
  }

  /** A sequence of `vuart_putc` calls, stopping if one does not return. */
  function PutcsRun(dev: Device, h: seq<Access>, cs: seq<char>): Run
    requires ValidDevice(dev)
  {
    if cs == [] then Run([], true)
    else
      var p := PutcsRun(dev, h, cs[..|cs| - 1]);
      if !p.done then p
      else
        var r := PutcRun(dev, h + p.log, cs[|cs| - 1]);
        Run(p.log + r.log, r.done)
  }

  /** One more `vuart_putc` after calls that all returned. */
  lemma PutcsStep(dev: Device, h: seq<Access>, cs: seq<char>, j: nat)
    requires ValidDevice(dev) && j < |cs| && PutcsRun(dev, h, cs[..j]).done
    ensures var p := PutcsRun(dev, h, cs[..j]);
      var r := PutcRun(dev, h + p.log, cs[j]);
      PutcsRun(dev, h, cs[..j + 1]) == Run(p.log + r.log, r.done)
  {
    assert cs[..j + 1][..j] == cs[..j];
  }

  lemma {:induction false} PutcsRunStops(dev: Device, h: seq<Access>, cs: seq<char>, i: nat)
    requires ValidDevice(dev) && i <= |cs| && !PutcsRun(dev, h, cs[..i]).done
    ensures PutcsRun(dev, h, cs) == PutcsRun(dev, h, cs[..i])
    decreases |cs| - i
  {
    if i < |cs| {
      assert cs[..|cs| - 1][..i] == cs[..i];
      PutcsRunStops(dev, h, cs[..|cs| - 1], i);
    } else {
      assert cs[..i] == cs;
    }
  }

  /** `vuart_putc` calls in a row keep every write right after a read showing TXRDY. */
  lemma {:induction false} PutcsPaced(dev: Device, h: seq<Access>, cs: seq<char>)
    requires ValidDevice(dev)
    ensures var r := PutcsRun(dev, h, cs);
      && Paced(r.log, dev.layout.txrdy)
      && (r.log == [] || r.log[0].StatRead?)
    decreases |cs|
  {
    if cs != [] {
      var init, c := cs[..|cs| - 1], cs[|cs| - 1];
      var p := PutcsRun(dev, h, init);
      PutcsPaced(dev, h, init);
      if p.done {
        var r := PutcRun(dev, h + p.log, c);
        PutcSpec(dev, h + p.log, c);
        PacedAppend(p.log, r.log, dev.layout.txrdy);
        assert PutcsRun(dev, h, cs) == Run(p.log + r.log, r.done);
      } else {
        assert PutcsRun(dev, h, cs) == p;
      }
    }
  }

  /** The host stays connected: every status read shows HOSTCONN. */
  ghost predicate Connected(dev: Device) {
    forall g :: IsSet(dev.stat(g), dev.layout.hostconn)
  }

  /** While HOSTCONN stays set, `vuart_putc` calls in a row that all return write their characters. */
  lemma {:induction false} PutcsWrites(dev: Device, h: seq<Access>, cs: seq<char>)
    requires ValidDevice(dev) && Connected(dev)
    requires '\n' !in cs
    ensures PutcsRun(dev, h, cs).done ==> Writes(PutcsRun(dev, h, cs).log) == cs
    decreases |cs|
  {
    if cs != [] {
      var init, c := cs[..|cs| - 1], cs[|cs| - 1];
      assert init + [c] == cs;
      assert '\n' !in init && c != '\n' by {
        assert c == cs[|cs| - 1];
        assert forall d | d in init :: d in cs;
      }
      var p := PutcsRun(dev, h, init);
      PutcsWrites(dev, h, init);
      if p.done {
        var r := PutcRun(dev, h + p.log, c);
        assert IsSet(dev.stat(h + p.log), dev.layout.hostconn);
        PutcWrites(dev, h + p.log, c);
        assert PutcsRun(dev, h, cs) == Run(p.log + r.log, r.done);
        if r.done {
          WritesAppend(p.log, r.log);
          assert Writes(r.log) == [c];
        }
      } else {
        assert PutcsRun(dev, h, cs) == p;
      }
    }
  }

  /** A connected `vuart_putc` of a character other than newline that returns writes that character. */
  lemma PutcWrites(dev: Device, h: seq<Access>, c: char)
    requires ValidDevice(dev) && IsSet(dev.stat(h), dev.layout.hostconn) && c != '\n'
    ensures PutcRun(dev, h, c).done ==> Writes(PutcRun(dev, h, c).log) == [c]
  {
    PutcSpec(dev, h, c);
    ExpandOne(c);
  }

  /**
   * While HOSTCONN stays set, a completed `vuart_puthex32(x)` writes the 8
   * hex digits of x; every write comes right after a read showing TXRDY.
   */
  lemma PutHex32Spec(dev: Device, h: seq<Access>, x: Word)
    requires ValidDevice(dev)
    ensures Paced(PutcsRun(dev, h, HexChars(x)).log, dev.layout.txrdy)
    ensures Connected(dev) && PutcsRun(dev, h, HexChars(x)).done ==> Writes(PutcsRun(dev, h, HexChars(x)).log) == HexDigits(x, 8)
  {
    HexCharsSpec(x);
    PutcsPaced(dev, h, HexChars(x));
    if Connected(dev) {
      forall k | 0 <= k < 8 ensures HexChars(x)[k] != '\n' {
        HexTableDigits();
      }
      assert '\n' !in HexChars(x);
      PutcsWrites(dev, h, HexChars(x));
    }
  }

  /** `vuart_putc` keeps the driver's invariant: a paced log stays paced. */
  lemma PutcKeepsPaced(dev: Device, h: seq<Access>, c: char)
    requires ValidDevice(dev) && Paced(h, dev.layout.txrdy)
    ensures Paced(h + PutcRun(dev, h, c).log, dev.layout.txrdy)
  {
    PutcSpec(dev, h, c);
    PacedAppend(h, PutcRun(dev, h, c).log, dev.layout.txrdy);
  }

  /** `vuart_puts` keeps the driver's invariant. */
  lemma PutsKeepsPaced(dev: Device, h: seq<Access>, s: seq<char>)
    requires ValidDevice(dev) && '\0' in s && Paced(h, dev.layout.txrdy)
    ensures Paced(h + PutsRun(dev, h, s).log, dev.layout.txrdy)
  {
    PutsSpec(dev, h, s);
    PacedAppend(h, PutsRun(dev, h, s).log, dev.layout.txrdy);
  }

  /** `vuart_puthex32` keeps the driver's invariant. */
  lemma PutHex32KeepsPaced(dev: Device, h: seq<Access>, x: Word)
    requires ValidDevice(dev) && Paced(h, dev.layout.txrdy)
    ensures Paced(h + PutcsRun(dev, h, HexChars(x)).log, dev.layout.txrdy)
  {
    PutcsPaced(dev, h, HexChars(x));
    PacedAppend(h, PutcsRun(dev, h, HexChars(x)).log, dev.layout.txrdy);
  }

  // ---- The driver ----

  class Port {
    const dev: Device
    /** Every access the driver has made so far. */
    var log: seq<Access>

    constructor (dev: Device)
      requires ValidDevice(dev)
      ensures this.dev == dev && log == [] && Valid()
    {
      this.dev := dev;
      log := [];
    }

    /** The driver's invariant: it never writes the FIFO without seeing TXRDY just before. */
    predicate Valid()
      reads this
    {
      ValidDevice(dev) && Paced(log, dev.layout.txrdy)
    }

    /** A read of `vuart_dev_hw->stat`. */
    method ReadStat() returns (v: Word)
      requires ValidDevice(dev)
      modifies this`log
      ensures v == dev.stat(old(log)) && log == old(log) + [StatRead(v)]
    {
      v := dev.stat(log);
      log := log + [StatRead(v)];
    }

    /** A write of `vuart_dev_hw->fifo`. */
    method WriteFifo(c: char)
      modifies this`log
      ensures log == old(log) + [FifoWrite(c)]
    {
      log := log + [FifoWrite(c)];
    }

    /** `while (!(vuart_dev_hw->stat & VUART_DEV_STAT_TXRDY_MASK));` */
    method WaitTxRdy() returns (ok: bool)
      requires ValidDevice(dev)
      modifies this`log
      ensures log == old(log) + Spin(dev, old(log), dev.fuel)
      ensures ok == Ready(Spin(dev, old(log), dev.fuel), dev.layout.txrdy)
    {
      ghost var h0 := log;
      ghost var w := Spin(dev, log, dev.fuel);
      var n := 0;
      ok := false;
      while n < dev.fuel && !ok
        invariant n <= dev.fuel
        invariant h0 + w == log + (if ok then [] else Spin(dev, log, dev.fuel - n))
        invariant ok ==> Ready(w, dev.layout.txrdy)
        invariant !ok ==> Ready(w, dev.layout.txrdy) == Ready(Spin(dev, log, dev.fuel - n), dev.layout.txrdy)
        decreases dev.fuel - n
      {
        ghost var h := log;
        var v := ReadStat();
        ok := IsSet(v, dev.layout.txrdy);
        if !ok {
          ghost var rest := Spin(dev, log, dev.fuel - n - 1);
          assert Spin(dev, h, dev.fuel - n) == [StatRead(v)] + rest;
          ReadyAppend([StatRead(v)], rest, dev.layout.txrdy);
          assert h + ([StatRead(v)] + rest) == log + rest;
        } else {
          assert Spin(dev, h, dev.fuel - n) == [StatRead(v)];
        }
        n := n + 1;
      }
    }

    /** `vuart_putc(c)`. The C loop `while (!(status & TXRDY)) status = stat;` is a wait that starts from the first read. */
    method Putc(c: char) returns (done: bool)
      requires ValidDevice(dev)
      modifies this`log
      ensures var r := PutcRun(dev, old(log), c); log == old(log) + r.log && done == r.done
      ensures old(Valid()) ==> Valid()
    {
      ghost var h := log;
      var status := ReadStat();
      done := true;
      if IsSet(status, dev.layout.hostconn) {
        ghost var first := [StatRead(status)];
        ghost var w: seq<Access> := [];
        var ready := true;
        if !IsSet(status, dev.layout.txrdy) {
          w := Spin(dev, log, dev.fuel);
          ready := WaitTxRdy();
        }
        ReadyAppend(first, w, dev.layout.txrdy);
        if ready {
          ghost var a := first + w;
          assert log == h + a && Ready(a, dev.layout.txrdy);
          ghost var hs := log;
          done := Send(c);
          assert PutcRun(dev, h, c) == Run(a + SendRun(dev, hs, c).log, done);
        } else {
          done := false;
          assert PutcRun(dev, h, c) == Run(first + w, false);
        }
      }
      if Paced(h, dev.layout.txrdy) {
        PutcKeepsPaced(dev, h, c);
      }
    }

    /** The sending part of `vuart_putc(c)`, once TXRDY has been seen. */
    method Send(c: char) returns (done: bool)
      requires ValidDevice(dev)
      modifies this`log
      ensures var r := SendRun(dev, old(log), c); log == old(log) + r.log && done == r.done
    {
      if c == '\n' {
        WriteFifo('\r');
        done := WaitWrite(c);
      } else {
        WriteFifo(c);
        done := true;
      }
    }

    /** A wait for TXRDY, then the FIFO write of c. */
    method WaitWrite(c: char) returns (done: bool)
      requires ValidDevice(dev)
      modifies this`log
      ensures var r := SpinWrite(dev, old(log), c); log == old(log) + r.log && done == r.done
    {
      done := WaitTxRdy();
      if done {
        WriteFifo(c);
      }
    }

    /** One turn of `vuart_puts`'s loop. */
    method PutsChar(c: char) returns (done: bool)
      requires ValidDevice(dev)
      modifies this`log
      ensures var r := CharRun(dev, old(log), c); log == old(log) + r.log && done == r.done
    {
      if c == '\n' {
        done := WaitWrite('\r');
        if !done {
          return;
        }
      }
      done := WaitWrite(c);
    }

    /** Turn i of `vuart_puts`'s loop, after turns 0 to i - 1 all returned since history h. */
    method PutsNext(ghost h: seq<Access>, s: seq<char>, i: nat) returns (done: bool)
      requires ValidDevice(dev) && i < |s|
      requires CharsRun(dev, h, s[..i]).done && log == h + CharsRun(dev, h, s[..i]).log
      modifies this`log
      ensures var r := CharsRun(dev, h, s[..i + 1]); log == h + r.log && done == r.done
    {
      ghost var p := CharsRun(dev, h, s[..i]);
      assert s[..i + 1][..i] == s[..i];
      assert CharsRun(dev, h, s[..i + 1]) == Run(p.log + CharRun(dev, h + p.log, s[i]).log, CharRun(dev, h + p.log, s[i]).done);
      done := PutsChar(s[i]);
      assert log == (h + p.log) + CharRun(dev, h + p.log, s[i]).log;
    }

    /** `vuart_puts(s)`: s holds the string and its terminating NUL. */
    method Puts(s: seq<char>) returns (done: bool)
      requires ValidDevice(dev) && '\0' in s
      modifies this`log
      ensures var r := PutsRun(dev, old(log), s); log == old(log) + r.log && done == r.done
      ensures old(Valid()) ==> Valid()
    {
      ghost var h0 := log;
      var status := ReadStat();
      if !IsSet(status, dev.layout.hostconn) {
        if Paced(h0, dev.layout.txrdy) {
          PutsKeepsPaced(dev, h0, s);
        }
        return true;
      }
      ghost var h1 := log;
      ghost var t := Text(s);
      var i := 0;
      done := true;
      while s[i] != '\0' && done
        invariant i <= |t| && t[..i] == s[..i]
        invariant log == h1 + CharsRun(dev, h1, s[..i]).log && done == CharsRun(dev, h1, s[..i]).done
        decreases |t| - i, done
      {
        done := PutsNext(h1, s, i);
        i := i + 1;
      }
      if done {
        assert s[..i] == t;
      } else {
        CharsRunStops(dev, h1, t, i);
        assert t[..i] == s[..i];
      }
      if Paced(h0, dev.layout.txrdy) {
        PutsKeepsPaced(dev, h0, s);
      }
    }

    /** Character j of cs, after characters 0 to j - 1 were all sent since history h. */
    method PutcNext(ghost h: seq<Access>, ghost cs: seq<char>, ghost j: nat, c: char) returns (done: bool)
      requires ValidDevice(dev) && j < |cs| && cs[j] == c
      requires PutcsRun(dev, h, cs[..j]).done && log == h + PutcsRun(dev, h, cs[..j]).log
      modifies this`log
      ensures var r := PutcsRun(dev, h, cs[..j + 1]); log == h + r.log && done == r.done
    {
      ghost var p := PutcsRun(dev, h, cs[..j]);
      PutcsStep(dev, h, cs, j);
      done := Putc(c);
      assert log == (h + p.log) + PutcRun(dev, h + p.log, c).log;
    }

    /** `vuart_puthex32(x)`: `vuart_putc(vuart_hex_table[(x << i) >> 28])` for i = 0, 4, ..., 28. */
    method PutHex32(x: Word) returns (done: bool)
      requires ValidDevice(dev)
      modifies this`log
      ensures var r := PutcsRun(dev, old(log), HexChars(x)); log == old(log) + r.log && done == r.done
      ensures old(Valid()) ==> Valid()
    {
      ghost var h := log;
      ghost var cs := HexChars(x);
      ghost var j := 0;
      var i := 0;
      done := true;
      while i < 32 && done
        invariant i == 4 * j && j <= 8
        invariant var r := PutcsRun(dev, h, cs[..j]); log == h + r.log && done == r.done
      {
        assert HEX_TABLE[Nibble(x, i)] == cs[j];
        done := PutcNext(h, cs, j, HEX_TABLE[Nibble(x, i)]);
        i := i + 4;
        j := j + 1;
      }
      if done {
        assert cs[..j] == cs;
      } else {
        PutcsRunStops(dev, h, cs, j);
      }
      if Paced(h, dev.layout.txrdy) {
        PutHex32KeepsPaced(dev, h, x);
      }
    }
  }
}
