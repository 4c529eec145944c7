/**
 * Framebuffer primitives (Software/apps/spydvi/gfx.h, gfx.c): the 320x240
 * RGB565 frame buffer, the RGB888-to-RGB565 colour macro, the unclipped
 * pixel store and the 8x8 bitmap text renderer.
 *
 * The frame buffer is an `array<bv16>` of FrameSize entries, the pixel at
 * column x of row y living at index x + y * FrameWidth.  The font table
 * `font_8x8` is not part of this model: it is a parameter, a sequence of
 * FontSize bytes laid out as FontChars glyph rows per pixel row.
 */
module Gfx {

  const FrameWidth: nat := 320
  const FrameHeight: nat := 240
  const FrameSize: nat := 76800

  const FontCharWidth: nat := 8
  const FontCharHeight: nat := 8
  const FontChars: nat := 95
  const FontFirstAscii: nat := 32
  const FontSize: nat := 760

  /** RGB888_TO_RGB565: keep the top 5, 6 and 5 bits of red, green and blue. */
  function Rgb888ToRgb565(r: bv32, g: bv32, b: bv32): (c: bv32)
    requires r < 256 && g < 256 && b < 256
    ensures c < 0x1_0000
    ensures c >> 11 == r >> 3
    ensures (c >> 5) & 0x3F == g >> 2
    ensures c & 0x1F == b >> 3
  {
    ((r & 0xf8) << 8) | ((g & 0xfc) << 3) | (b >> 3)
  }

  /** The low 3 bits of red, 2 of green and 3 of blue do not reach the result. */
  lemma Rgb565IgnoresLowBits(r1: bv32, g1: bv32, b1: bv32, r2: bv32, g2: bv32, b2: bv32)
    requires r1 < 256 && g1 < 256 && b1 < 256
    requires r2 < 256 && g2 < 256 && b2 < 256
    requires r1 >> 3 == r2 >> 3 && g1 >> 2 == g2 >> 2 && b1 >> 3 == b2 >> 3
    ensures Rgb888ToRgb565(r1, g1, b1) == Rgb888ToRgb565(r2, g2, b2)
  {
    assert r1 & 0xf8 == r2 & 0xf8;
    assert g1 & 0xfc == g2 & 0xfc;
  }

  /** The colours the firmware uses: black, white, red and the menu's magenta. */
  lemma KnownColours()
    ensures Rgb888ToRgb565(0, 0, 0) == 0x0000
    ensures Rgb888ToRgb565(0xff, 0xff, 0xff) == 0xFFFF
    ensures Rgb888ToRgb565(0xff, 0, 0) == 0xF800
    ensures Rgb888ToRgb565(0xff, 0, 0xff) == 0xF81F
  {
  }

  /** gfx_putpixel passes its colour on as a uint16_t: only the low half survives. */
  function Low16(c: bv32): (h: bv16)
    ensures h as bv32 == c & 0xFFFF
    ensures c < 0x1_0000 ==> h as bv32 == c
  {
    (c & 0xFFFF) as bv16
  }

  /** Where pixel (x, y) lives in the frame buffer. */
  function PixelIndex(x: nat, y: nat): nat
  {
    x + y * FrameWidth
  }

  function Row(idx: nat): nat { idx / FrameWidth }

  function Col(idx: nat): nat { idx % FrameWidth }

  /** Inside the frame, the index is in bounds and determines the pixel's coordinates. */
  lemma PixelIndexInFrame(x: nat, y: nat)
    requires x < FrameWidth && y < FrameHeight
    ensures PixelIndex(x, y) < FrameSize
    ensures Row(PixelIndex(x, y)) == y && Col(PixelIndex(x, y)) == x
  {
    RowColOf(x, y);
  }

  /** Two distinct on-screen pixels never share an index. */
  lemma PixelIndexInjective(x1: nat, y1: nat, x2: nat, y2: nat)
    requires x1 < FrameWidth && x2 < FrameWidth
    requires PixelIndex(x1, y1) == PixelIndex(x2, y2)
    ensures x1 == x2 && y1 == y2
  {
    RowColOf(x1, y1);
    RowColOf(x2, y2);
  }

  lemma RowColOf(x: nat, y: nat)
    requires x < FrameWidth
    ensures Row(x + y * FrameWidth) == y && Col(x + y * FrameWidth) == x
  {
  }

  lemma MulMono(a: nat, b: nat)
    ensures a <= b ==> a * FrameWidth <= b * FrameWidth
  {
  }

  /** gfx_putpixel: one store at x + y * 320, with no clipping of x or y. */
  method PutPixel(fb: array<bv16>, x: nat, y: nat, rgb: bv16)
    requires fb.Length == FrameSize
    requires PixelIndex(x, y) < FrameSize
    modifies fb
    ensures fb[..] == old(fb[..])[PixelIndex(x, y) := rgb]
  {
    fb[x + y * FrameWidth] := rgb;
  }

  /** Characters that have a glyph in the font: ' ' (32) to '~' (126). */
  predicate Printable(text: seq<char>)
  {
    forall k :: 0 <= k < |text| ==> 32 <= text[k] as int <= 126
  }

  /** Index of a glyph's pixel row in the font table. */
  function FontIndex(c: char, r: nat): nat
    requires 32 <= c as int <= 126 && r < FontCharHeight
  {
    (c as int - FontFirstAscii) + r * FontChars
  }

  lemma FontIndexInTable(c: char, r: nat)
    requires 32 <= c as int <= 126 && r < FontCharHeight
    ensures FontIndex(c, r) < FontSize
  {
  }

  /** Bit i of a font byte selects the foreground for column i of the cell (bit 0 leftmost). */
  predicate FontBit(bits: bv8, i: nat)
    requires i < 8
  {
    bits & (1 << i) != 0
  }

  /** The colour drawn at column i of pixel row r of character c's cell. */
  function GlyphPixel(font: seq<bv8>, c: char, r: nat, i: nat, bg: bv32, fg: bv32): bv16
    requires |font| == FontSize
    requires 32 <= c as int <= 126 && r < FontCharHeight && i < FontCharWidth
  {
    FontIndexInTable(c, r);
    Low16(if FontBit(font[FontIndex(c, r)], i) then fg else bg)
  }

  /** The pixels covered by a text of n characters whose top-left corner is (x0, y0). */
  predicate InText(x0: nat, y0: nat, n: nat, idx: nat)
  {
    y0 <= Row(idx) < y0 + FontCharHeight && x0 <= Col(idx) < x0 + FontCharWidth * n
  }

  /** What gfx_puttext leaves at a covered pixel. */
  function TextPixel(font: seq<bv8>, text: seq<char>, x0: nat, y0: nat, bg: bv32, fg: bv32, idx: nat): bv16
    requires |font| == FontSize && Printable(text)
    requires InText(x0, y0, |text|, idx)
  {
    var d := Col(idx) - x0;
    GlyphPixel(font, text[d / FontCharWidth], Row(idx) - y0, d % FontCharWidth, bg, fg)
  }

  /** The frame buffer after drawing `text`: covered pixels take their glyph colour, the rest keep theirs. */
  function PaintText(fb: seq<bv16>, font: seq<bv8>, text: seq<char>, x0: nat, y0: nat, bg: bv32, fg: bv32): (s: seq<bv16>)
    requires |font| == FontSize && Printable(text)
    ensures |s| == |fb|
  {
    seq(|fb|, idx requires 0 <= idx < |fb| =>
      if InText(x0, y0, |text|, idx) then TextPixel(font, text, x0, y0, bg, fg, idx) else fb[idx])
  }

  /**
   * Pixel i of pixel row r of character j's cell is at (x0 + 8j + i, y0 + r)
   * and is painted from bit i of font byte (c - 32) + r * 95.
   */
  lemma PaintTextCell(fb: seq<bv16>, font: seq<bv8>, text: seq<char>, x0: nat, y0: nat, bg: bv32, fg: bv32,
                      j: nat, r: nat, i: nat)
    requires |font| == FontSize && Printable(text)
    requires j < |text| && r < FontCharHeight && i < FontCharWidth
    requires x0 + FontCharWidth * |text| <= FrameWidth
    requires PixelIndex(x0 + 8 * j + i, y0 + r) < |fb|
    ensures FontIndex(text[j], r) < |font|
    ensures PaintText(fb, font, text, x0, y0, bg, fg)[PixelIndex(x0 + 8 * j + i, y0 + r)]
         == Low16(if FontBit(font[FontIndex(text[j], r)], i) then fg else bg)
  {
    var idx := PixelIndex(x0 + 8 * j + i, y0 + r);
    RowColOf(x0 + 8 * j + i, y0 + r);
    CellOffset(j, i);
    assert InText(x0, y0, |text|, idx);
  }

  lemma CellOffset(j: nat, i: nat)
    requires i < 8
    ensures (8 * j + i) / 8 == j && (8 * j + i) % 8 == i
  {
  }

  /** Pixels outside the text's cells keep their colour: nothing else changes. */
  lemma PaintTextOutside(fb: seq<bv16>, font: seq<bv8>, text: seq<char>, x0: nat, y0: nat, bg: bv32, fg: bv32,
                         idx: nat)
    requires |font| == FontSize && Printable(text)
    requires idx < |fb| && !InText(x0, y0, |text|, idx)
    ensures PaintText(fb, font, text, x0, y0, bg, fg)[idx] == fb[idx]
  {
  }

  /** The empty string draws nothing. */
  lemma PaintEmptyText(fb: seq<bv16>, font: seq<bv8>, x0: nat, y0: nat, bg: bv32, fg: bv32)
    requires |font| == FontSize
    ensures PaintText(fb, font, [], x0, y0, bg, fg) == fb
  {
  }

  /** `cur` holds `after` below linear index `frontier` and `before` from there on. */
  ghost predicate PaintedUpTo(cur: seq<bv16>, before: seq<bv16>, after: seq<bv16>, frontier: int)
  {
    |cur| == |before| == |after| &&
    forall idx :: 0 <= idx < |cur| ==> cur[idx] == if idx < frontier then after[idx] else before[idx]
  }

  /** Between the end of one pixel row of the text and the start of the next no pixel is covered. */
  lemma NoTextBetweenRows(x0: nat, y0: nat, n: nat, y: nat, idx: nat)
    requires n > 0 && x0 + FontCharWidth * n <= FrameWidth
    requires y * FrameWidth + x0 + FontCharWidth * n <= idx < (y + 1) * FrameWidth + x0
    ensures !InText(x0, y0, n, idx)
  {
    if idx < (y + 1) * FrameWidth {
      RowColOf(idx - y * FrameWidth, y);
    } else {
      RowColOf(idx - (y + 1) * FrameWidth, y + 1);
    }
  }

  /** Before the first covered row and after the last one, nothing is covered either. */
  lemma NoTextOutsideRows(x0: nat, y0: nat, n: nat, idx: nat)
    requires x0 < FrameWidth
    requires idx < y0 * FrameWidth + x0 || (y0 + FontCharHeight) * FrameWidth + x0 <= idx
    ensures !InText(x0, y0, n, idx)
  {
    var y, x := Row(idx), Col(idx);
    assert idx == x + y * FrameWidth;
    MulMono(y0 + 1, y);
    MulMono(y, y0 + FontCharHeight - 1);
  }

  /**
   * gfx_puttext: for each of the 8 pixel rows, walk the string and paint each
   * character's 8 pixels from its font byte, background where the bit is clear.
   * The text must end within its pixel row (see README, "Left out").
   */
  method PutText(fb: array<bv16>, x0: nat, y0: nat, bg: bv32, fg: bv32, text: seq<char>, font: seq<bv8>)
    requires fb.Length == FrameSize && |font| == FontSize && Printable(text)
    requires |text| == 0 || (x0 + FontCharWidth * |text| <= FrameWidth && y0 + FontCharHeight <= FrameHeight)
    modifies fb
    ensures fb[..] == PaintText(old(fb[..]), font, text, x0, y0, bg, fg)
  {
    ghost var before := fb[..];
    ghost var after := PaintText(before, font, text, x0, y0, bg, fg);
    if |text| == 0 {
      PaintEmptyText(before, font, x0, y0, bg, fg);
      return;
    }
    forall idx | 0 <= idx < y0 * FrameWidth + x0 && idx < fb.Length
      ensures after[idx] == before[idx]
    {
      NoTextOutsideRows(x0, y0, |text|, idx);
    }
    var y := y0;
    while y < y0 + FontCharHeight
      invariant y0 <= y <= y0 + FontCharHeight
      invariant PaintedUpTo(fb[..], before, after, y * FrameWidth + x0)
    {
      PutTextRow(fb, before, after, x0, y0, bg, fg, text, font, y);
      y := y + 1;
    }
    forall idx | (y0 + FontCharHeight) * FrameWidth + x0 <= idx < fb.Length
      ensures after[idx] == before[idx]
    {
      NoTextOutsideRows(x0, y0, |text|, idx);
    }
  }

  /** One pass of gfx_puttext's outer loop: pixel row y of every character cell. */
  method PutTextRow(fb: array<bv16>, ghost before: seq<bv16>, ghost after: seq<bv16>,
                    x0: nat, y0: nat, bg: bv32, fg: bv32, text: seq<char>, font: seq<bv8>, y: nat)
    requires fb.Length == FrameSize && |font| == FontSize && Printable(text)
    requires 0 < |text| && x0 + FontCharWidth * |text| <= FrameWidth && y0 + FontCharHeight <= FrameHeight
    requires y0 <= y < y0 + FontCharHeight
    requires after == PaintText(before, font, text, x0, y0, bg, fg)
    requires PaintedUpTo(fb[..], before, after, y * FrameWidth + x0)
    modifies fb
    ensures PaintedUpTo(fb[..], before, after, (y + 1) * FrameWidth + x0)
  {
    var xbase := x0;
    var k := 0;
    while k < |text|
      invariant 0 <= k <= |text|
      invariant xbase == x0 + FontCharWidth * k
      invariant PaintedUpTo(fb[..], before, after, y * FrameWidth + xbase)
    {
      var c := text[k];
      FontIndexInTable(c, y - y0);
      var bits := font[(c as int - FontFirstAscii) + (y - y0) * FontChars];
      PutCellRow(fb, before, after, x0, y0, bg, fg, text, font, y, k, bits);
      xbase := xbase + FontCharWidth;
      k := k + 1;
    }
    forall idx | y * FrameWidth + xbase <= idx < (y + 1) * FrameWidth + x0
      ensures !InText(x0, y0, |text|, idx)
    {
      NoTextBetweenRows(x0, y0, |text|, y, idx);
    }
  }

  /** gfx_puttext's innermost loop: the 8 pixels of character k's cell in pixel row y. */
  method PutCellRow(fb: array<bv16>, ghost before: seq<bv16>, ghost after: seq<bv16>,
                    x0: nat, y0: nat, bg: bv32, fg: bv32, text: seq<char>, font: seq<bv8>,
                    y: nat, k: nat, bits: bv8)
    requires fb.Length == FrameSize && |font| == FontSize && Printable(text)
    requires k < |text| && x0 + FontCharWidth * |text| <= FrameWidth && y0 + FontCharHeight <= FrameHeight
    requires y0 <= y < y0 + FontCharHeight
    requires bits == font[FontIndex(text[k], y - y0)]
    requires after == PaintText(before, font, text, x0, y0, bg, fg)
    requires PaintedUpTo(fb[..], before, after, y * FrameWidth + x0 + FontCharWidth * k)
    modifies fb
    ensures PaintedUpTo(fb[..], before, after, y * FrameWidth + x0 + FontCharWidth * (k + 1))
  {
    var xbase := x0 + FontCharWidth * k;
    var i := 0;
    while i < FontCharWidth
      invariant 0 <= i <= FontCharWidth
      invariant PaintedUpTo(fb[..], before, after, y * FrameWidth + xbase + i)
    {
      PaintTextCell(before, font, text, x0, y0, bg, fg, k, y - y0, i);
      PutPixel(fb, xbase + i, y, Low16(if bits & (1 << i) != 0 then fg else bg));
      i := i + 1;
    }
  }
}
