/**
 * The key chord that opens the on-screen menu (Software/apps/spydvi/osd.h):
 * left trigger, right trigger, C-Down and D-pad Down held together.
 */
module OsdKeys {
  import opened Joybus

  /** OSD_SHORTCUT(keys). */
  predicate Shortcut(keys: bv32)
  {
    Held(TL, keys) && Held(TR, keys) && Held(CDown, keys) && Held(DDown, keys)
  }

  /** The four chord bits: TL 0x00200000, TR 0x00100000, C-Down 0x00040000, D-Down 0x04000000. */
  const ChordMask: bv32 := 0x0434_0000

  /** The chord holds exactly when all four of its bits are set. */
  lemma ShortcutIffChordBits(keys: bv32)
    ensures Shortcut(keys) <==> keys & ChordMask == ChordMask
  {
    HeldWithMask(TL, keys, 0x0020_0000);
    HeldWithMask(TR, keys, 0x0010_0000);
    HeldWithMask(CDown, keys, 0x0004_0000);
    HeldWithMask(DDown, keys, 0x0400_0000);
    assert Shortcut(keys) <==> FourBits(keys);
  }

  /** The four chord bits tested one by one. */
  predicate FourBits(keys: bv32)
  {
    keys & 0x0020_0000 != 0 && keys & 0x0010_0000 != 0 &&
    keys & 0x0004_0000 != 0 && keys & 0x0400_0000 != 0
  }

  /** Bits outside the chord do not matter. */
  lemma ShortcutIgnoresOtherBits(k1: bv32, k2: bv32)
    requires k1 & ChordMask == k2 & ChordMask
    ensures Shortcut(k1) == Shortcut(k2)
  {
    ShortcutIffChordBits(k1);
    ShortcutIffChordBits(k2);
  }

  /** Pressing more buttons never releases the chord. */
  lemma ShortcutMonotone(keys: bv32, extra: bv32)
    ensures Shortcut(keys) ==> Shortcut(keys | extra)
  {
    ShortcutIffChordBits(keys);
    ShortcutIffChordBits(keys | extra);
  }

  /** The chord includes D-pad Down. */
  lemma ShortcutHoldsDDown(keys: bv32)
    ensures Shortcut(keys) ==> ButtonValue(DDown, keys) != 0
  {
  }
}
