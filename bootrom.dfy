/**
 * The boot ROM (software/bootrom/bootrom.c): an Adler-32 checksum, as
 * defined in section 2.2 of RFC 1950, and the loop in `main` that copies a
 * 4 KiB image from one of the first two flash sectors into IRAM and accepts
 * it when its last word holds the checksum of the rest.
 */
module Bootrom {
  import opened Wrappers

  type Byte = b: nat | b < 256

  /** The largest prime below 2^16, the Adler-32 modulus. */
  const PRIME: nat := 65521
  const SECTOR_SIZE: nat := 4096
  const ATTEMPTS: nat := 10
  const WORD: nat := 0x1_0000_0000

  /** C `uint32_t` addition. */
  function Add32(a: nat, b: nat): (r: nat)
    ensures r < WORD
    ensures a + b < WORD ==> r == a + b
  {
    (a + b) % WORD
  }

  // ---- Adler-32 as section 2.2 of RFC 1950 defines it ----

  function Sum(s: seq<Byte>): nat {
    if s == [] then 0 else Sum(s[..|s| - 1]) + s[|s| - 1]
  }

  /** (1 + D1) + (1 + D1 + D2) + ... + (1 + D1 + ... + Dn), before reduction. */
  function RunSum(s: seq<Byte>): nat {
    if s == [] then 0 else RunSum(s[..|s| - 1]) + 1 + Sum(s)
  }

  function AdlerA(s: seq<Byte>): nat { (1 + Sum(s)) % PRIME }

  function AdlerB(s: seq<Byte>): nat { RunSum(s) % PRIME }

  /** The checksum: B in the high 16 bits, A in the low 16 bits. */
  function Adler32(s: seq<Byte>): nat {
    AdlerB(s) * 0x10000 + AdlerA(s)
  }

  lemma ModAddSmall(a: nat, b: nat)
    ensures (a % PRIME + b) % PRIME == (a + b) % PRIME
  {
    var q := a / PRIME;
    assert a == q * PRIME + a % PRIME;
    assert a + b == q * PRIME + (a % PRIME + b);
  }

  /** One byte of the running computation: A gains the byte, B gains the new A. */
  lemma {:induction false} AdlerStep(s: seq<Byte>, b: Byte)
    ensures AdlerA(s + [b]) == (AdlerA(s) + b) % PRIME
    ensures AdlerB(s + [b]) == (AdlerB(s) + AdlerA(s + [b])) % PRIME
  {
    var t := s + [b];
    assert t[..|t| - 1] == s;
    assert Sum(t) == Sum(s) + b;
    ModAddSmall(1 + Sum(s), b);
    assert RunSum(t) == RunSum(s) + (1 + Sum(t));
    ModAddSmall(RunSum(s), 1 + Sum(t));
    calc {
      (AdlerB(s) + AdlerA(t)) % PRIME;
      (RunSum(s) % PRIME + (1 + Sum(t)) % PRIME) % PRIME;
      { ModAddSmall(1 + Sum(t), RunSum(s) % PRIME); }
      (RunSum(s) % PRIME + (1 + Sum(t))) % PRIME;
      (RunSum(s) + (1 + Sum(t))) % PRIME;
    }
  }

  /** `if (x >= PRIME) x -= PRIME` reduces any x below 2 * PRIME. */
  function Reduce(x: nat): (r: nat)
    requires x < 2 * PRIME
    ensures r == x % PRIME
  {
    if x >= PRIME then x - PRIME else x
  }

  /**
   * `(s2 << 16) | (s1 & 0xffff)` on `uint32_t`: the shift drops what passes
   * bit 31, and the two operands of `|` occupy disjoint bits, so `|` adds.
   */
  function Pack(s2: nat, s1: nat): (r: nat)
    ensures r < WORD
    ensures s2 < 0x10000 ==> r == s2 * 0x10000 + s1 % 0x10000
  {
    (s2 * 0x10000) % WORD + s1 % 0x10000
  }

  /**
   * `checksum_adler32`. Both sums stay below PRIME after every byte, so one
   * conditional subtraction reduces them and no `uint32_t` addition wraps.
   */
  method ChecksumAdler32(buf: array<Byte>, len: nat) returns (r: nat)
    requires len <= buf.Length
    ensures r == Adler32(buf[..len])
    ensures len == 0 ==> r == 1
  {
    var s1: nat := 1;
    var s2: nat := 0;
    var i := 0;
    while i < len
      invariant i <= len
      invariant s1 < PRIME && s2 < PRIME
      invariant s1 == AdlerA(buf[..i]) && s2 == AdlerB(buf[..i])
    {
      AdlerStep(buf[..i], buf[i]);
      assert buf[..i + 1] == buf[..i] + [buf[i]];
      s1 := Add32(s1, buf[i]);
      s1 := Reduce(s1);
      s2 := Add32(s2, s1);
      s2 := Reduce(s2);
      i := i + 1;
    }
    r := Pack(s2, s1);
  }

  // ---- Image selection in `main` ----

  /** The first byte address of the flash sector tried on attempt `i`: `(i & 1) * 4096`. */
  function SectorBase(i: nat): (a: nat)
    ensures a == if i % 2 == 0 then 0 else SECTOR_SIZE
  {
    (i % 2) * SECTOR_SIZE
  }

  /** The little-endian `uint32_t` stored in four bytes. */
  function Le32(b: seq<Byte>): (w: nat)
    requires |b| == 4
    ensures w < WORD
  {
    var b0: nat, b1: nat, b2: nat, b3: nat := b[0], b[1], b[2], b[3];
    b0 + 0x100 * b1 + 0x10000 * b2 + 0x1000000 * b3
  }

  /** A bootable image: its last word is the Adler-32 of the 4092 bytes before it. */
  predicate ImageValid(img: seq<Byte>)
    requires |img| == SECTOR_SIZE
  {
    Le32(img[SECTOR_SIZE - 4..]) == Adler32(img[..SECTOR_SIZE - 4])
  }

  /**
   * The 4096 bytes attempt `i` copies into IRAM. `spi(i, a)` is the byte
   * `get_spi_byte(a)` returns on attempt `i`; reads need not repeat.
   */
  function Image(spi: (nat, nat) -> Byte, i: nat): (img: seq<Byte>)
    ensures |img| == SECTOR_SIZE
    ensures forall k | 0 <= k < SECTOR_SIZE :: img[k] == spi(i, SectorBase(i) + k)
  {
    seq<Byte>(SECTOR_SIZE, k requires 0 <= k < SECTOR_SIZE => spi(i, SectorBase(i) + k))
  }

  /** Copies one sector into IRAM and checks it, as one iteration of `main`'s loop. */
  method TryImage(spi: (nat, nat) -> Byte, i: nat, iram: array<Byte>) returns (ok: bool)
    requires iram.Length >= SECTOR_SIZE
    modifies iram
    ensures iram[..SECTOR_SIZE] == Image(spi, i)
    ensures iram[SECTOR_SIZE..] == old(iram[SECTOR_SIZE..])
    ensures ok <==> ImageValid(Image(spi, i))
  {
    var base := SectorBase(i);
    var k := 0;
    while k < SECTOR_SIZE
      invariant k <= SECTOR_SIZE
      invariant forall j | 0 <= j < k :: iram[j] == spi(i, base + j)
      invariant iram[SECTOR_SIZE..] == old(iram[SECTOR_SIZE..])
    {
      iram[k] := spi(i, base + k);
      k := k + 1;
    }
    assert iram[..SECTOR_SIZE] == Image(spi, i);
    var stored := Le32(iram[SECTOR_SIZE - 4..SECTOR_SIZE]);
    var actual := ChecksumAdler32(iram, SECTOR_SIZE - 4);
    assert iram[..SECTOR_SIZE - 4] == Image(spi, i)[..SECTOR_SIZE - 4];
    ok := stored == actual;
  }

  /**
   * `main`: up to ten attempts, alternating between the two sectors. `Some(i)`
   * means the image of attempt `i` was valid and control jumps to IRAM;
   * `None` means every attempt failed and the core parks in `wfi`.
   */
  method BootMain(spi: (nat, nat) -> Byte, iram: array<Byte>) returns (r: Option<nat>)
    requires iram.Length >= SECTOR_SIZE
    modifies iram
    ensures r.Some? ==> r.value < ATTEMPTS && ImageValid(Image(spi, r.value))
    ensures r.Some? ==> iram[..SECTOR_SIZE] == Image(spi, r.value)
    ensures r.Some? ==> forall j | 0 <= j < r.value :: !ImageValid(Image(spi, j))
    ensures r.None? ==> forall j | 0 <= j < ATTEMPTS :: !ImageValid(Image(spi, j))
    ensures r.None? ==> iram[..SECTOR_SIZE] == Image(spi, ATTEMPTS - 1)
  {
    var i := 0;
    while i < ATTEMPTS
      invariant i <= ATTEMPTS
      invariant forall j | 0 <= j < i :: !ImageValid(Image(spi, j))
      invariant i > 0 ==> iram[..SECTOR_SIZE] == Image(spi, i - 1)
    {
      var ok := TryImage(spi, i, iram);
      if ok {
        return Some(i);
      }
      i := i + 1;
    }
    return None;
  }

  /** The stub `get_spi_byte` returns 0 for every address. */
  function ZeroSpi(): (nat, nat) -> Byte {
    (i: nat, a: nat) => 0
  }

  lemma {:induction false} SumsOfZeros(s: seq<Byte>)
    requires forall k | 0 <= k < |s| :: s[k] == 0
    ensures Sum(s) == 0 && RunSum(s) == |s|
  {
    if s != [] {
      SumsOfZeros(s[..|s| - 1]);
    }
  }

  /** With the stub, no image is ever valid: the checksum of zeros is 4092 * 2^16 + 1, the stored word 0. */
  lemma StubNeverBoots(i: nat)
    ensures !ImageValid(Image(ZeroSpi(), i))
  {
    var img := Image(ZeroSpi(), i);
    SumsOfZeros(img[..SECTOR_SIZE - 4]);
    assert Adler32(img[..SECTOR_SIZE - 4]) == 4092 * 0x10000 + 1;
    assert Le32(img[SECTOR_SIZE - 4..]) == 0;
  }
}
