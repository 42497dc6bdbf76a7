/**
 * GPIO and pad control (software/include/gpio.h). The pull enables live in
 * two pad-controller registers that the pull helpers read, modify and write
 * back; the function select, output enable and output registers are changed
 * through write-only aliases that set, clear or toggle the bits written to
 * them, so those helpers are a single one-hot write each.
 */
module Gpio {
  import opened Bits
  import opened Reg32

  const GPIO_SPI_IO0: nat := 0
  const GPIO_SPI_SCK: nat := 1
  const GPIO_SPI_CSN: nat := 2
  const GPIO_SPI_IO1: nat := 3
  const GPIO_LCD_DAT0: nat := 4
  /** Also chip select in SPI mode. */
  const GPIO_LCD_DAT1: nat := 5
  const GPIO_LCD_DAT7: nat := 11
  const GPIO_AUDIO: nat := 12

  /** The pad controller: bit g of `pu` (`pd`) enables the pull-up (pull-down) of GPIO g. */
  class Padctrl {
    var pu: Word
    var pd: Word

    constructor (pu0: Word, pd0: Word)
      ensures pu == pu0 && pd == pd0
    {
      pu := pu0;
      pd := pd0;
    }

    /** Both pulls of one pin enabled at once, which no pull helper leaves behind. */
    predicate Conflict(gpio: nat)
      reads this
    {
      IsSet(pu, gpio) && IsSet(pd, gpio)
    }

    /** `gpio_pull_down`. */
    method PullDown(gpio: nat)
      requires gpio < 32
      modifies this
      ensures IsSet(pd, gpio) && !IsSet(pu, gpio) && !Conflict(gpio)
      ensures Agree(pu, old(pu), {gpio}) && Agree(pd, old(pd), {gpio})
    {
      var mask := Mask(gpio);
      pu := AndNot(pu, mask);
      pd := Or(pd, mask);
    }

    /** `gpio_pull_up`. */
    method PullUp(gpio: nat)
      requires gpio < 32
      modifies this
      ensures IsSet(pu, gpio) && !IsSet(pd, gpio) && !Conflict(gpio)
      ensures Agree(pu, old(pu), {gpio}) && Agree(pd, old(pd), {gpio})
    {
      var mask := Mask(gpio);
      pd := AndNot(pd, mask);
      pu := Or(pu, mask);
    }

    /** `gpio_pull_none`. */
    method PullNone(gpio: nat)
      requires gpio < 32
      modifies this
      ensures !IsSet(pu, gpio) && !IsSet(pd, gpio) && !Conflict(gpio)
      ensures Agree(pu, old(pu), {gpio}) && Agree(pd, old(pd), {gpio})
    {
      var mask := Mask(gpio);
      pd := AndNot(pd, mask);
      pu := AndNot(pu, mask);
    }
  }

  /** The write-only aliases of the GPIO block. */
  datatype Alias = FselSet | FselClr | OenSet | OenClr | OutSet | OutClr | OutXor

  datatype AliasWrite = AliasWrite(alias: Alias, value: Word)

  /** `value` is the mask `1u << gpio`: bit gpio and no other. */
  ghost predicate OneHot(value: nat, gpio: nat) {
    IsSet(value, gpio) && forall j: nat | j != gpio :: BitAt(value, j) == 0
  }

  /** `gpio_set_alternate`. */
  function SetAlternate(gpio: nat, alt: bool): (w: AliasWrite)
    requires gpio < 32
    ensures w.alias == (if alt then FselSet else FselClr) && OneHot(w.value, gpio)
  {
    AliasWrite(if alt then FselSet else FselClr, Mask(gpio))
  }

  /** `gpio_output_enable`. */
  function OutputEnable(gpio: nat, en: bool): (w: AliasWrite)
    requires gpio < 32
    ensures w.alias == (if en then OenSet else OenClr) && OneHot(w.value, gpio)
  {
    AliasWrite(if en then OenSet else OenClr, Mask(gpio))
  }

  /** `gpio_put`. */
  function Put(gpio: nat, high: bool): (w: AliasWrite)
    requires gpio < 32
    ensures w.alias == (if high then OutSet else OutClr) && OneHot(w.value, gpio)
  {
    AliasWrite(if high then OutSet else OutClr, Mask(gpio))
  }

  /** `gpio_toggle`. */
  function Toggle(gpio: nat): (w: AliasWrite)
    requires gpio < 32
    ensures w.alias == OutXor && OneHot(w.value, gpio)
  {
    AliasWrite(OutXor, Mask(gpio))
  }

  /** `gpio_get`: `in & (1u << gpio)`. */
  function Get(input: Word, gpio: nat): (high: bool)
    requires gpio < 32
    ensures high <==> IsSet(input, gpio)
  {
    TestMask(input, gpio);
    And(input, Mask(gpio)) != 0
  }

  /** The registers behind the aliases. */
  datatype GpioRegs = GpioRegs(fsel: Word, oen: Word, out: Word)

  /** What a write to an alias does: `_set` ORs, `_clr` clears, `_xor` toggles the bits written. */
  function Apply(s: GpioRegs, w: AliasWrite): GpioRegs {
    match w.alias
    case FselSet => s.(fsel := Or(s.fsel, w.value))
    case FselClr => s.(fsel := AndNot(s.fsel, w.value))
    case OenSet => s.(oen := Or(s.oen, w.value))
    case OenClr => s.(oen := AndNot(s.oen, w.value))
    case OutSet => s.(out := Or(s.out, w.value))
    case OutClr => s.(out := AndNot(s.out, w.value))
    case OutXor => s.(out := Xor(s.out, w.value))
  }

  /** `gpio_set_alternate` changes the function select of that pin alone. */
  lemma SetAlternateSelects(s: GpioRegs, gpio: nat, alt: bool)
    requires gpio < 32
    ensures IsSet(Apply(s, SetAlternate(gpio, alt)).fsel, gpio) == alt
    ensures Agree(Apply(s, SetAlternate(gpio, alt)).fsel, s.fsel, {gpio})
    ensures Apply(s, SetAlternate(gpio, alt)).(fsel := s.fsel) == s
  {
  }

  /** `gpio_output_enable` changes the output enable of that pin alone. */
  lemma OutputEnableSets(s: GpioRegs, gpio: nat, en: bool)
    requires gpio < 32
    ensures IsSet(Apply(s, OutputEnable(gpio, en)).oen, gpio) == en
    ensures Agree(Apply(s, OutputEnable(gpio, en)).oen, s.oen, {gpio})
    ensures Apply(s, OutputEnable(gpio, en)).(oen := s.oen) == s
  {
  }

  /** `gpio_put` drives that pin's output to the level given and no other. */
  lemma PutDrives(s: GpioRegs, gpio: nat, high: bool)
    requires gpio < 32
    ensures IsSet(Apply(s, Put(gpio, high)).out, gpio) == high
    ensures Agree(Apply(s, Put(gpio, high)).out, s.out, {gpio})
    ensures Apply(s, Put(gpio, high)).(out := s.out) == s
  {
  }

  /** `gpio_toggle` inverts that pin's output and no other; toggling twice restores it. */
  lemma ToggleFlips(s: GpioRegs, gpio: nat)
    requires gpio < 32
    ensures IsSet(Apply(s, Toggle(gpio)).out, gpio) != IsSet(s.out, gpio)
    ensures Agree(Apply(s, Toggle(gpio)).out, s.out, {gpio})
    ensures Apply(Apply(s, Toggle(gpio)), Toggle(gpio)) == s
  {
    var t := Apply(Apply(s, Toggle(gpio)), Toggle(gpio));
    BitsDetermine(t.out, s.out);
  }
}
