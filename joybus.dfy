/**
 * Decoding of the 32-bit controller word delivered by the Joybus receiver
 * (Software/apps/spydvi/joybus.h). The upper half holds one bit per button,
 * the lower half the two analogue stick axes, one signed byte each.
 */
module Joybus {

  /** The fifteen buttons that have a decoding macro. */
  datatype Button =
    | A | B | Z | Start
    | DUp | DDown | DLeft | DRight
    | Reset
    | TL | TR
    | CUp | CDown | CLeft | CRight

  /** The bit each button macro masks out of the word (A_BUTTON ... CR_BUTTON). */
  function Mask(b: Button): (m: bv32)
    ensures m != 0 && m & (m - 1) == 0   // exactly one bit is set
    ensures m & 0xFFFF == 0              // and it lies in the button half
  {
    match b
    case A      => 0x8000_0000
    case B      => 0x4000_0000
    case Z      => 0x2000_0000
    case Start  => 0x1000_0000
    case DUp    => 0x0800_0000
    case DDown  => 0x0400_0000
    case DLeft  => 0x0200_0000
    case DRight => 0x0100_0000
    case Reset  => 0x0080_0000
    case TL     => 0x0020_0000
    case TR     => 0x0010_0000
    case CUp    => 0x0008_0000
    case CDown  => 0x0004_0000
    case CLeft  => 0x0002_0000
    case CRight => 0x0001_0000
  }

  /** Position of each button's bit, counted from bit 0: an independent reading of the table. */
  function BitPosition(b: Button): nat
  {
    match b
    case A => 31  case B => 30  case Z => 29  case Start => 28
    case DUp => 27  case DDown => 26  case DLeft => 25  case DRight => 24
    case Reset => 23  case TL => 21  case TR => 20
    case CUp => 19  case CDown => 18  case CLeft => 17  case CRight => 16
  }

  /** The value of a button macro: non-zero exactly when the button is held. */
  function ButtonValue(b: Button, word: bv32): bv32
  {
    word & Mask(b)
  }

  predicate Held(b: Button, word: bv32)
  {
    ButtonValue(b, word) != 0
  }

  /** Each mask is the single bit at the button's position. */
  lemma MaskIsBitAtPosition(b: Button)
    ensures 16 <= BitPosition(b) < 32
    ensures Mask(b) == (1 as bv32) << BitPosition(b)
  {
  }

  /** A button macro is non-zero exactly when the button's own bit is set. */
  lemma HeldIffBit(b: Button, word: bv32)
    ensures Held(b, word) <==> word & ((1 as bv32) << BitPosition(b)) != 0
  {
    MaskIsBitAtPosition(b);
  }

  /** A button given by its mask value: held exactly when that bit is set. */
  lemma HeldWithMask(b: Button, word: bv32, m: bv32)
    requires Mask(b) == m
    ensures Held(b, word) <==> word & m != 0
  {
  }

  /** No two buttons share a bit. */
  lemma MasksDisjoint(b1: Button, b2: Button)
    requires b1 != b2
    ensures Mask(b1) & Mask(b2) == 0
  {
  }

  /** Bit 0x00400000 belongs to no button. */
  lemma UnusedBit(b: Button)
    ensures Mask(b) & 0x0040_0000 == 0
  {
  }

  /** The button macros read only bits 16-31. */
  lemma ButtonsIgnoreStickBits(b: Button, w1: bv32, w2: bv32)
    requires w1 >> 16 == w2 >> 16
    ensures ButtonValue(b, w1) == ButtonValue(b, w2)
  {
  }

  /** Reinterpret a byte as a two's-complement signed 8-bit value (the int8_t cast). */
  function SignedByte(u: bv32): (v: int)
    requires u < 256
    ensures -128 <= v < 128
    ensures v % 256 == u as int
  {
    if u < 128 then u as int else u as int - 256
  }

  /** X_STICK: bits 8-15 read as int8_t. */
  function XStick(word: bv32): (x: int)
    ensures -128 <= x < 128
    ensures x % 256 == ((word >> 8) & 0xFF) as int
  {
    SignedByte((word & 0x0000_FF00) >> 8)
  }

  /** Y_STICK: bits 0-7 read as int8_t. */
  function YStick(word: bv32): (y: int)
    ensures -128 <= y < 128
    ensures y % 256 == (word & 0xFF) as int
  {
    SignedByte(word & 0x0000_00FF)
  }

  /** The stick macros read only bits 0-15. */
  lemma SticksIgnoreButtonBits(w1: bv32, w2: bv32)
    requires w1 & 0xFFFF == w2 & 0xFFFF
    ensures XStick(w1) == XStick(w2) && YStick(w1) == YStick(w2)
  {
    assert (w1 & 0xFF00) >> 8 == (w2 & 0xFF00) >> 8;
    assert w1 & 0xFF == w2 & 0xFF;
  }
}
