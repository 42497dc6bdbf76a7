/**
 * The testbench's expected LCD capture helpers (cocotb/chip_top_tb.py:752-761).
 * A captured LCD word carries the D/C line in bit 8 (1 = pixel data) and the
 * byte on the bus in bits 7:0. `rgb555_to_displaydata` turns each RGB555
 * pixel into the two RGB565 bytes the display controller shifts out, high
 * byte first; `hdouble` repeats every pixel, as the horizontal pixel doubler
 * does.
 */
module LcdExpect {

  /** D/C high: the byte is display data, not a command. */
  const DC_DATA: nat := 0x100

  /**
   * `((x & 0x7fe0) << 1) | (x & 0x1f)`: red and green (bits 14:5) move up one
   * place, blue (bits 4:0) stays, and bit 5 (the low green bit of RGB565) is 0.
   */
  function Rgb555Word(x: nat): (y: nat)
    ensures y < 0x10000
    ensures y % 32 == x % 32
    ensures y / 32 % 2 == 0
    ensures y / 64 == x / 32 % 1024
  {
    var y := (x / 32 % 1024) * 64 + x % 32;
    assert y / 64 == x / 32 % 1024 && y % 64 == x % 32;
    y
  }

  /** The RGB555 colour a 16-bit RGB565 word with a clear bit 5 stands for. */
  function Rgb555Of(y: nat): (x: nat)
    ensures x < 0x10000 || y >= 0x10000
  {
    (y / 64) * 32 + y % 32
  }

  lemma Rgb555RoundTrip(x: nat)
    ensures Rgb555Of(Rgb555Word(x)) == x % 0x8000
  {
    var y := Rgb555Word(x);
    assert x % 0x8000 == (x / 32 % 1024) * 32 + x % 32;
  }

  /** The two capture words of one pixel: D/C = 1, high byte then low byte. */
  function PixelWords(x: nat): (w: seq<nat>)
    ensures |w| == 2
    ensures w[0] == DC_DATA + Rgb555Word(x) / 256
    ensures w[1] == DC_DATA + Rgb555Word(x) % 256
    ensures IsData(w[0]) && IsData(w[1])
    ensures (w[0] - DC_DATA) * 256 + (w[1] - DC_DATA) == Rgb555Word(x)
  {
    var y := Rgb555Word(x);
    [DC_DATA + y / 256 % 256, DC_DATA + y % 256]
  }

  /** A capture word that carries pixel data (D/C high). */
  predicate IsData(w: nat) { DC_DATA <= w < 2 * DC_DATA }

  function Rgb555ToDisplayData(l: seq<nat>): (r: seq<nat>)
    ensures |r| == 2 * |l|
    ensures forall i | 0 <= i < |r| :: IsData(r[i])
    ensures forall i | 0 <= i < |l| :: r[2 * i..2 * i + 2] == PixelWords(l[i])
  {
    if l == [] then []
    else
      var rest := Rgb555ToDisplayData(l[1..]);
      var r := PixelWords(l[0]) + rest;
      assert forall i | 1 <= i < |l| :: r[2 * i..2 * i + 2] == rest[2 * (i - 1)..2 * (i - 1) + 2];
      r
  }

  /** Reads a capture back into RGB555 pixels, two words per pixel. */
  function DisplayDataToRgb555(r: seq<nat>): (l: seq<nat>)
    requires |r| % 2 == 0
    ensures |l| == |r| / 2
  {
    if r == [] then []
    else
      var hi := if r[0] >= DC_DATA then r[0] - DC_DATA else 0;
      var lo := if r[1] >= DC_DATA then r[1] - DC_DATA else 0;
      [Rgb555Of(hi * 256 + lo)] + DisplayDataToRgb555(r[2..])
  }

  /** Every pixel modulo 2^15: RGB555 has no sixteenth bit. */
  function Low15(l: seq<nat>): (m: seq<nat>)
    ensures |m| == |l|
    ensures forall i | 0 <= i < |l| :: m[i] == l[i] % 0x8000
  {
    if l == [] then [] else [l[0] % 0x8000] + Low15(l[1..])
  }

  lemma {:induction false} DisplayDataRoundTrip(l: seq<nat>)
    ensures DisplayDataToRgb555(Rgb555ToDisplayData(l)) == Low15(l)
  {
    if l != [] {
      var r := Rgb555ToDisplayData(l);
      var y := Rgb555Word(l[0]);
      assert r[2..] == Rgb555ToDisplayData(l[1..]);
      assert (y / 256) * 256 + y % 256 == y;
      Rgb555RoundTrip(l[0]);
      DisplayDataRoundTrip(l[1..]);
    }
  }

  /** Converting a concatenation converts each part (the testbench joins captures). */
  lemma {:induction false} DisplayDataAppend(a: seq<nat>, b: seq<nat>)
    ensures Rgb555ToDisplayData(a + b) == Rgb555ToDisplayData(a) + Rgb555ToDisplayData(b)
  {
    if a == [] {
      assert a + b == b;
    } else {
      assert (a + b)[0] == a[0] && (a + b)[1..] == a[1..] + b;
      DisplayDataAppend(a[1..], b);
    }
  }

  function HDouble(l: seq<nat>): (r: seq<nat>)
    ensures |r| == 2 * |l|
    ensures forall i | 0 <= i < |l| :: r[2 * i] == l[i] && r[2 * i + 1] == l[i]
  {
    if l == [] then []
    else
      var rest := HDouble(l[1..]);
      var r := [l[0], l[0]] + rest;
      assert forall i | 1 <= i < |l| :: r[2 * i] == rest[2 * (i - 1)] && r[2 * i + 1] == rest[2 * (i - 1) + 1];
      r
  }

  /** Keeps every other element, starting with the first. */
  function Undouble(r: seq<nat>): (l: seq<nat>)
    ensures |l| == (|r| + 1) / 2
  {
    if |r| < 2 then r else [r[0]] + Undouble(r[2..])
  }

  lemma {:induction false} UndoubleHDouble(l: seq<nat>)
    ensures Undouble(HDouble(l)) == l
  {
    if l != [] {
      assert HDouble(l)[2..] == HDouble(l[1..]);
      UndoubleHDouble(l[1..]);
    }
  }
}
