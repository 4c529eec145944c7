/**
 * The scanline feeder (Software/apps/spydvi/main.c:69-80 and 195-198).
 *
 * The DVI output core asks for one scanline after another.  Before output
 * starts, main pushes the first two rows of g_framebuf onto the DVI
 * library's q_colour_valid; from then on core1_scanline_callback drops every
 * buffer the library has handed back on q_colour_free, pushes the row
 * numbered by its static counter and advances the counter modulo 240.  A
 * pushed buffer pointer is represented by its offset into g_framebuf.
 *
 * The library side (the DVI core taking rows off q_colour_valid and handing
 * them back on q_colour_free) is not part of this model: colourValid is the
 * whole sequence of pushes, and colourFree is whatever the library put back,
 * one ReturnBuffer step per returned row.
 */
module Scanline {
  import opened Gfx

  /** The offsets of the first n rows pushed: row k mod 240 for the k-th push. */
  function PushedRows(n: nat): (rows: seq<nat>)
    ensures |rows| == n
  {
    seq(n, k requires 0 <= k < n => FrameWidth * (k % FrameHeight))
  }

  /** Every pushed pointer addresses the start of a whole row of the frame buffer. */
  lemma PushedRowInFrame(n: nat, k: nat)
    requires k < n
    ensures PushedRows(n)[k] % FrameWidth == 0
    ensures PushedRows(n)[k] + FrameWidth <= FrameSize
  {
    var r := k % FrameHeight;
    assert PushedRows(n)[k] == FrameWidth * r;
    assert FrameWidth * r <= FrameWidth * (FrameHeight - 1);
  }

  /** The pushes repeat with period 240: the frame is sent top to bottom, over and over. */
  lemma PushedRowsCycle(n: nat, k: nat)
    requires k + FrameHeight < n
    ensures PushedRows(n)[k + FrameHeight] == PushedRows(n)[k]
  {
    assert (k + FrameHeight) % FrameHeight == k % FrameHeight;
  }

  /** Consecutive pushes are consecutive rows, wrapping from the last row to the first. */
  lemma PushedRowsStep(n: nat, k: nat)
    requires k + 1 < n
    ensures PushedRows(n)[k + 1] ==
      if PushedRows(n)[k] == FrameWidth * (FrameHeight - 1) then 0 else PushedRows(n)[k] + FrameWidth
  {
    var r := k % FrameHeight;
    if r == FrameHeight - 1 {
      assert (k + 1) % FrameHeight == 0;
    } else {
      assert (k + 1) % FrameHeight == r + 1;
      assert FrameWidth * r != FrameWidth * (FrameHeight - 1);
    }
  }

  class ScanlineFeeder {
    /** The callback's static row counter. */
    var scanline: nat
    /** Everything pushed onto q_colour_valid, oldest first. */
    var colourValid: seq<nat>
    /** Buffers waiting on q_colour_free. */
    var colourFree: seq<nat>

    ghost predicate Valid()
      reads this
    {
      scanline < FrameHeight &&
      scanline == |colourValid| % FrameHeight &&
      colourValid == PushedRows(|colourValid|)
    }

    /** main's two pushes of rows 0 and 1 before output starts, with the counter at its initial 2. */
    constructor ()
      ensures Valid()
      ensures colourValid == [0, FrameWidth] && colourFree == [] && scanline == 2
    {
      scanline := 2;
      colourFree := [];
      var bufptr := 0;
      colourValid := [bufptr];
      bufptr := bufptr + FrameWidth;
      colourValid := colourValid + [bufptr];
      new;
      assert colourValid == PushedRows(2);
    }

    /** The DVI library returning a displayed row on q_colour_free. */
    method ReturnBuffer(offset: nat)
      modifies this
      ensures colourFree == old(colourFree) + [offset]
      ensures scanline == old(scanline) && colourValid == old(colourValid)
    {
      colourFree := colourFree + [offset];
    }

    /** core1_scanline_callback. */
    method Callback()
      requires Valid()
      modifies this
      ensures Valid()
      ensures colourFree == []
      ensures colourValid == old(colourValid) + [FrameWidth * old(scanline)]
      ensures scanline == (old(scanline) + 1) % FrameHeight
    {
      while colourFree != []
        invariant scanline == old(scanline) && colourValid == old(colourValid)
        decreases |colourFree|
      {
        colourFree := colourFree[1..];
      }
      var bufptr := FrameWidth * scanline;
      colourValid := colourValid + [bufptr];
      scanline := (scanline + 1) % FrameHeight;
      assert colourValid == PushedRows(|colourValid|);
    }
  }
}
