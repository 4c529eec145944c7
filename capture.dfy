/**
 * The video capture loop of main (Software/apps/spydvi/main.c:486-642).
 *
 * The PIO state machine delivers one 32-bit word per N64 video clock: the
 * colour channels in the upper bits and the four active-low sync/clamp
 * signals C, H, L and V in bits 0-3.  One frame of the loop waits for a word
 * with the V bit set, then walks the rows of the field: each row is found by
 * its first word with V, H and L all set, is either skipped (drained up to
 * its first inactive word) or captured into one row of g_framebuf, and a
 * word with V clear ends the frame.  The row count then selects the PAL or
 * NTSC crop for the next frame.
 *
 * The blocking PIO reads become a cursor over a finite word sequence `w`;
 * running off its end is reported as an incomplete frame instead of blocking.
 *
 * The specification is the pure function DecodeFrame: it gives the row count,
 * where the frame ended, and for every captured row its source position and
 * the number of pixels written.  FrameImage turns that into the frame buffer
 * contents, and the method CaptureFrame, which follows the C loops, is proved
 * to produce exactly DecodeFrame's result and FrameImage's buffer.
 */
module Capture {
  import opened Wrappers
  import opened Gfx

  const CsyncMask: bv32 := 0x1
  const HsyncMask: bv32 := 0x2
  const ClampMask: bv32 := 0x4
  const VsyncMask: bv32 := 0x8
  /** VSYNCB | HSYNCB | CLAMPB: inside the active picture all three are high. */
  const ActivePixelMask: bv32 := 0xE

  /** The V bit is set: not in vertical sync. */
  predicate VsyncHigh(b: bv32) { b & VsyncMask != 0 }

  /** V, H and L all set: an active pixel word. */
  predicate Active(b: bv32) { b & ActivePixelMask == ActivePixelMask }

  lemma ActiveImpliesVsyncHigh(b: bv32)
    ensures Active(b) ==> VsyncHigh(b)
  {
  }

  // ---------------------------------------------------------------- colour

  /** dvi_color_mode values that capture pixels: DVI_RGB_555 (0) and DVI_RGB_565 (1). */
  predicate PixelMode(mode: bv32) { mode == 0 || mode == 1 }

  /**
   * The RGB555 conversion of the capture loop.  Each channel arrives as 7
   * bits (red in bits 8-14, green 16-22, blue 24-30): red keeps its top 5
   * bits, green its top 6 and blue its top 5.
   */
  function Convert555(b: bv32): (c: bv16)
    ensures c >> 11 == ((b >> 10) & 0x1F) as bv16
    ensures (c >> 5) & 0x3F == ((b >> 17) & 0x3F) as bv16
    ensures c & 0x1F == ((b >> 26) & 0x1F) as bv16
  {
    (((b << 1) & 0xf800) | ((b >> 12) & 0x07e0) | ((b >> 26) & 0x001f)) as bv16
  }

  /** The RGB565-mode conversion: green is masked to 5 bits. */
  function Convert565(b: bv32): (c: bv16)
    ensures c & 0x20 == 0
    ensures c >> 11 == ((b >> 10) & 0x1F) as bv16
    ensures (c >> 6) & 0x1F == ((b >> 18) & 0x1F) as bv16
    ensures c & 0x1F == ((b >> 26) & 0x1F) as bv16
  {
    (((b << 1) & 0xf800) | ((b >> 12) & 0x07c0) | ((b >> 26) & 0x001f)) as bv16
  }

  /** The 565-mode pixel is the 555-mode pixel with bit 0x0020 cleared. */
  lemma Convert565Is555WithoutLowGreen(b: bv32)
    ensures Convert565(b) == Convert555(b) & 0xFFDF
  {
  }

  /** The colour bits the conversions read: 10-14, 17-22 and 26-30. */
  const ColourBits: bv32 := 0x7C7E_7C00

  /** Only the colour bits matter; in particular the sync bits 0-3 never do. */
  lemma ConversionReadsOnlyColourBits(b1: bv32, b2: bv32)
    requires b1 & ColourBits == b2 & ColourBits
    ensures Convert555(b1) == Convert555(b2)
    ensures Convert565(b1) == Convert565(b2)
  {
    OnlyColourBits(b1);
    OnlyColourBits(b2);
  }

  lemma OnlyColourBits(b: bv32)
    ensures Convert555(b) == Convert555(b & ColourBits)
    ensures Convert565(b) == Convert565(b & ColourBits)
  {
  }

  lemma SyncBitsAreNotColourBits()
    ensures ColourBits & (CsyncMask | HsyncMask | ClampMask | VsyncMask) == 0
  {
  }

  /** The pixel stored for a word in the configured mode. */
  function Pixel(mode: bv32, b: bv32): bv16
    requires PixelMode(mode)
  {
    if mode == 0 then Convert555(b) else Convert565(b)
  }

  // ------------------------------------------------------------------ crop

  /** Left crop in words and top crop in rows. */
  datatype Crop = Crop(x: nat, y: nat)

  const PalCrop := Crop(36, 90)
  const NtscCrop := Crop(14, 25)
  const RowsPal: int := 615
  const RowsNtsc: int := 511
  const RowsTolerance: int := 5

  /** The detection after each frame: PAL when the row count is within 5 of 615, NTSC otherwise. */
  function DetectCrop(rows: int): (c: Crop)
    ensures c == PalCrop <==> 610 <= rows <= 620
    ensures c == NtscCrop <==> !(610 <= rows <= 620)
  {
    if RowsPal - RowsTolerance <= rows <= RowsPal + RowsTolerance then PalCrop else NtscCrop
  }

  /** The NTSC row count is never consulted: any count outside the PAL window selects NTSC. */
  lemma NtscIsTheFallback(rows: int)
    requires rows < RowsPal - RowsTolerance || rows > RowsPal + RowsTolerance
    ensures DetectCrop(rows) == NtscCrop
  {
  }

  // ----------------------------------------------------------- word scans

  /** How a scan of the word stream ended. */
  datatype Scan = Hit(at: nat) | FrameEnd(at: nat) | OutOfInput

  /** Step 1: the first word at or after i with V set. */
  function SeekVsync(w: seq<bv32>, i: nat): (r: Option<nat>)
    decreases |w| - i
    ensures r.Some? ==> i <= r.value < |w| && VsyncHigh(w[r.value])
    ensures r.Some? ==> forall k :: i <= k < r.value ==> !VsyncHigh(w[k])
    ensures r.None? ==> forall k :: i <= k < |w| ==> !VsyncHigh(w[k])
  {
    if i >= |w| then None
    else if VsyncHigh(w[i]) then Some(i)
    else SeekVsync(w, i + 1)
  }

  /** Step 2: the first active word at or after i, unless a word with V clear comes first. */
  function SeekActive(w: seq<bv32>, i: nat): (r: Scan)
    decreases |w| - i
    ensures r.Hit? ==> i <= r.at < |w| && Active(w[r.at])
    ensures r.FrameEnd? ==> i <= r.at < |w| && !VsyncHigh(w[r.at])
    ensures !r.OutOfInput? ==> forall k :: i <= k < r.at ==> VsyncHigh(w[k]) && !Active(w[k])
    ensures r.OutOfInput? ==> forall k :: i <= k < |w| ==> VsyncHigh(w[k]) && !Active(w[k])
  {
    if i >= |w| then OutOfInput
    else if !VsyncHigh(w[i]) then FrameEnd(i)
    else if Active(w[i]) then Hit(i)
    else SeekActive(w, i + 1)
  }

  /** A skipped row: the first inactive word at or after i; if its V bit is clear the frame ends. */
  function SkipRest(w: seq<bv32>, i: nat): (r: Scan)
    decreases |w| - i
    ensures r.Hit? ==> i <= r.at < |w| && VsyncHigh(w[r.at]) && !Active(w[r.at])
    ensures r.FrameEnd? ==> i <= r.at < |w| && !VsyncHigh(w[r.at])
    ensures !r.OutOfInput? ==> forall k :: i <= k < r.at ==> Active(w[k])
    ensures r.OutOfInput? ==> forall k :: i <= k < |w| ==> Active(w[k])
  {
    if i >= |w| then OutOfInput
    else if !VsyncHigh(w[i]) then FrameEnd(i)
    else if !Active(w[i]) then Hit(i)
    else SkipRest(w, i + 1)
  }

  /** After the last pixel of a captured row: the first inactive word, whatever its V bit. */
  function DrainActive(w: seq<bv32>, i: nat): (r: Option<nat>)
    decreases |w| - i
    ensures r.Some? ==> i <= r.value < |w| && !Active(w[r.value])
    ensures r.Some? ==> forall k :: i <= k < r.value ==> Active(w[k])
    ensures r.None? ==> forall k :: i <= k < |w| ==> Active(w[k])
  {
    if i >= |w| then None
    else if !Active(w[i]) then Some(i)
    else DrainActive(w, i + 1)
  }

  // --------------------------------------------------------------- frames

  /**
   * A captured row: its row number in the field, the index of the active
   * word that started it, and how many pixels were stored.
   */
  datatype KeptRow = KeptRow(row: nat, start: nat, written: nat)

  /**
   * The shape of one frame: whether it ended on a word with V clear (rather
   * than running out of input), the cursor after it, the value of `row` at
   * the end, and the captured rows in order; captured row a is frame buffer
   * row a.
   */
  datatype Decoded = Decoded(complete: bool, next: nat, rows: nat, kept: seq<KeptRow>)

  /** Index of the word holding pixel 0 of a row whose active word is at `start`. */
  function FirstPixel(start: nat, crop: Crop): nat
  {
    start + 1 + crop.x
  }

  /** Pixels stored before the input runs out or the row is full; pixel k comes from word q + 2k. */
  function PixelsAvailable(len: nat, q: nat): (n: nat)
    requires q < len
    ensures 0 < n <= FrameWidth
    ensures n == FrameWidth || q + 2 * (n - 1) < len <= q + 2 * n
    ensures q + 2 * (n - 1) < len
  {
    if q + 2 * (FrameWidth - 1) < len then FrameWidth else (len - q + 1) / 2
  }

  /** The row is skipped: odd, above the crop, or the buffer already has 240 rows. */
  predicate SkipRow(row: nat, crop: Crop, activeRow: nat)
  {
    row % 2 != 0 || row < crop.y || activeRow >= FrameHeight
  }

  /** Captured rows lie inside the input and the buffer; only pixel modes store pixels. */
  predicate WellFormed(w: seq<bv32>, crop: Crop, mode: bv32, kept: seq<KeptRow>)
  {
    |kept| <= FrameHeight &&
    forall a :: 0 <= a < |kept| ==>
      kept[a].written <= FrameWidth &&
      (kept[a].written > 0 ==> PixelMode(mode) && FirstPixel(kept[a].start, crop) + 2 * (kept[a].written - 1) < |w|)
  }

  /** Every captured row holds a full line in a pixel mode, and nothing otherwise. */
  predicate FullRows(mode: bv32, kept: seq<KeptRow>)
  {
    forall a :: 0 <= a < |kept| ==> kept[a].written == if PixelMode(mode) then FrameWidth else 0
  }

  /** The outcome of one pass of the row loop: the frame is over, or the next row starts at p. */
  datatype Step = Done(d: Decoded) | Next(p: nat, kept: seq<KeptRow>)

  /** Captured row a is field row FirstKeptRow(crop.y) + 2a. */
  predicate OnSchedule(cropY: nat, kept: seq<KeptRow>)
  {
    forall a :: 0 <= a < |kept| ==> kept[a].row == FirstKeptRow(cropY) + 2 * a
  }

  /** `kept` is `acc`, or `acc` with one more captured row numbered `row`. */
  predicate AddsAtMostRow(acc: seq<KeptRow>, kept: seq<KeptRow>, row: nat)
  {
    kept == acc || (|kept| == |acc| + 1 && kept[..|acc|] == acc && kept[|acc|].row == row)
  }

  /**
   * One pass of the row loop for row number `row` from cursor p, with `acc`
   * captured so far (active_row is |acc|).
   */
  function RowStep(w: seq<bv32>, p: nat, row: nat, crop: Crop, mode: bv32, acc: seq<KeptRow>): (s: Step)
    requires p <= |w| && WellFormed(w, crop, mode, acc)
    ensures s.Next? ==> p < s.p <= |w| && WellFormed(w, crop, mode, s.kept)
    ensures s.Next? ==> AddsAtMostRow(acc, s.kept, row)
    ensures s.Done? ==> s.d.rows == row && WellFormed(w, crop, mode, s.d.kept)
    ensures s.Done? ==> AddsAtMostRow(acc, s.d.kept, row)
    ensures s.Done? && s.d.complete ==> s.d.kept == acc && p < s.d.next <= |w| && !VsyncHigh(w[s.d.next - 1])
    ensures s.Next? && FullRows(mode, acc) ==> FullRows(mode, s.kept)
    ensures (s.Next? && s.kept != acc) || (s.Done? && s.d.kept != acc) ==> !SkipRow(row, crop, |acc|)
  {
    match SeekActive(w, p)
    case OutOfInput => Done(Decoded(false, |w|, row, acc))
    case FrameEnd(j) => Done(Decoded(true, j + 1, row, acc))
    case Hit(j) =>
      if SkipRow(row, crop, |acc|) then
        match SkipRest(w, j + 1)
        case OutOfInput => Done(Decoded(false, |w|, row, acc))
        case FrameEnd(k) => Done(Decoded(true, k + 1, row, acc))
        case Hit(k) => Next(k + 1, acc)
      else KeepRow(w, j, row, crop, mode, acc)
  }

  /** The rest of a captured row whose active word is at j: crop, store, drain. */
  function KeepRow(w: seq<bv32>, j: nat, row: nat, crop: Crop, mode: bv32, acc: seq<KeptRow>): (s: Step)
    requires j < |w| && WellFormed(w, crop, mode, acc) && |acc| < FrameHeight
    ensures s.Next? ==> j < s.p <= |w| && WellFormed(w, crop, mode, s.kept)
    ensures s.Next? ==> |s.kept| == |acc| + 1 && s.kept[..|acc|] == acc && s.kept[|acc|].row == row
    ensures s.Done? ==> s.d.rows == row && !s.d.complete && WellFormed(w, crop, mode, s.d.kept)
    ensures s.Done? ==> |s.d.kept| == |acc| + 1 && s.d.kept[..|acc|] == acc && s.d.kept[|acc|].row == row
    ensures s.Next? && FullRows(mode, acc) ==> FullRows(mode, s.kept)
  {
    var q := FirstPixel(j, crop);
    if q >= |w| then
      Done(Decoded(false, |w|, row, acc + [KeptRow(row, j, 0)]))
    else if !PixelMode(mode) then
      Next(q + 1, acc + [KeptRow(row, j, 0)])
    else
      var n := PixelsAvailable(|w|, q);
      var kept := acc + [KeptRow(row, j, n)];
      if n < FrameWidth then Done(Decoded(false, |w|, row, kept))
      else match DrainActive(w, q + 2 * FrameWidth - 1)
        case None => Done(Decoded(false, |w|, row, kept))
        case Some(k) => Next(k + 1, kept)
  }

  /** The row loop from cursor p at row number `row`, until the frame ends or the input does. */
  function RowsFrom(w: seq<bv32>, p: nat, row: nat, crop: Crop, mode: bv32, acc: seq<KeptRow>): (d: Decoded)
    requires p <= |w| && WellFormed(w, crop, mode, acc)
    decreases |w| - p
    ensures WellFormed(w, crop, mode, d.kept)
    ensures d.rows >= row
    ensures d.complete ==> p < d.next <= |w| && !VsyncHigh(w[d.next - 1])
    ensures d.complete && FullRows(mode, acc) ==> FullRows(mode, d.kept)
  {
    match RowStep(w, p, row, crop, mode, acc)
    case Done(d) => d
    case Next(p', kept) => RowsFrom(w, p', row + 1, crop, mode, kept)
  }

  lemma RowsFromUnfold(w: seq<bv32>, p: nat, row: nat, crop: Crop, mode: bv32, acc: seq<KeptRow>)
    requires p <= |w| && WellFormed(w, crop, mode, acc)
    ensures var s := RowStep(w, p, row, crop, mode, acc);
      (s.Done? ==> RowsFrom(w, p, row, crop, mode, acc) == s.d) &&
      (s.Next? ==> RowsFrom(w, p, row, crop, mode, acc) == RowsFrom(w, s.p, row + 1, crop, mode, s.kept))
  {
  }

  /** One frame from cursor p: wait for V, then walk the rows from row 0. */
  function DecodeFrame(w: seq<bv32>, p: nat, crop: Crop, mode: bv32): (d: Decoded)
    requires p <= |w|
    ensures WellFormed(w, crop, mode, d.kept)
    ensures d.complete ==> FullRows(mode, d.kept)
    ensures d.complete ==> p < d.next <= |w| && !VsyncHigh(w[d.next - 1])
  {
    match SeekVsync(w, p)
    case None => Decoded(false, |w|, 0, [])
    case Some(j) => RowsFrom(w, j + 1, 0, crop, mode, [])
  }

  // ------------------------------------------------------- frame buffer

  /** Row a of the buffer after storing n pixels read from words q, q + 2, q + 4, ... */
  function RowWrite(fb: seq<bv16>, a: nat, n: nat, w: seq<bv32>, q: nat, mode: bv32): (s: seq<bv16>)
    requires |fb| == FrameSize && a < FrameHeight && n <= FrameWidth
    requires n > 0 ==> PixelMode(mode) && q + 2 * (n - 1) < |w|
    ensures |s| == FrameSize
  {
    seq(|fb|, idx requires 0 <= idx < |fb| =>
      if a * FrameWidth <= idx < a * FrameWidth + n then Pixel(mode, w[q + 2 * (idx - a * FrameWidth)]) else fb[idx])
  }

  /** The buffer after capturing the rows `kept` of a frame, starting from `fb`. */
  function FrameImage(fb: seq<bv16>, w: seq<bv32>, crop: Crop, mode: bv32, kept: seq<KeptRow>): (s: seq<bv16>)
    requires |fb| == FrameSize && WellFormed(w, crop, mode, kept)
    decreases |kept|
    ensures |s| == FrameSize
  {
    if kept == [] then fb
    else
      var a := |kept| - 1;
      assert WellFormed(w, crop, mode, kept[..a]);
      RowWrite(FrameImage(fb, w, crop, mode, kept[..a]), a, kept[a].written, w, FirstPixel(kept[a].start, crop), mode)
  }

  /**
   * Pixel k of captured row a is the converted word crop.x + 1 + 2k places
   * after the active word that started the row.
   */
  lemma {:induction false} FrameImagePixel(fb: seq<bv16>, w: seq<bv32>, crop: Crop, mode: bv32, kept: seq<KeptRow>,
                                            a: nat, k: nat)
    requires |fb| == FrameSize && WellFormed(w, crop, mode, kept)
    requires a < |kept| && k < kept[a].written
    ensures PixelMode(mode) && kept[a].start + crop.x + 1 + 2 * k < |w|
    ensures FrameImage(fb, w, crop, mode, kept)[a * FrameWidth + k]
         == Pixel(mode, w[kept[a].start + crop.x + 1 + 2 * k])
  {
    var last := |kept| - 1;
    var prefix := kept[..last];
    assert WellFormed(w, crop, mode, prefix);
    if a < last {
      FrameImagePixel(fb, w, crop, mode, prefix, a, k);
      assert prefix[a] == kept[a];
      MulMono(a + 1, last);
    } else {
      RowColOf(k, a);
    }
  }

  /** A pixel outside the stored part of every captured row keeps its old value. */
  lemma {:induction false} FrameImageUntouched(fb: seq<bv16>, w: seq<bv32>, crop: Crop, mode: bv32, kept: seq<KeptRow>,
                                                idx: nat)
    requires |fb| == FrameSize && WellFormed(w, crop, mode, kept) && idx < FrameSize
    requires Row(idx) >= |kept| || Col(idx) >= kept[Row(idx)].written
    ensures FrameImage(fb, w, crop, mode, kept)[idx] == fb[idx]
  {
    if kept != [] {
      var last := |kept| - 1;
      var prefix := kept[..last];
      assert WellFormed(w, crop, mode, prefix);
      if Row(idx) < last {
        assert prefix[Row(idx)] == kept[Row(idx)];
      }
      FrameImageUntouched(fb, w, crop, mode, prefix, idx);
      RowColOf(Col(idx), Row(idx));
      MulMono(last + 1, Row(idx));
      if last > 0 {
        MulMono(Row(idx), last - 1);
      }
    }
  }

  /** Outside a pixel mode a frame changes nothing in the buffer. */
  lemma {:induction false} NoPixelModeLeavesBuffer(fb: seq<bv16>, w: seq<bv32>, crop: Crop, mode: bv32, kept: seq<KeptRow>)
    requires |fb| == FrameSize && WellFormed(w, crop, mode, kept) && !PixelMode(mode)
    ensures FrameImage(fb, w, crop, mode, kept) == fb
  {
    if kept != [] {
      var last := |kept| - 1;
      assert WellFormed(w, crop, mode, kept[..last]);
      NoPixelModeLeavesBuffer(fb, w, crop, mode, kept[..last]);
    }
  }

  // ----------------------------------------------------------- schedule

  /** The first row that can be captured: crop.y, rounded up to even. */
  function FirstKeptRow(cropY: nat): nat
  {
    if cropY % 2 == 0 then cropY else cropY + 1
  }

  /** How many of rows 0 .. row-1 are even and not above crop.y (row >= crop.y). */
  function EligibleBefore(cropY: nat, row: nat): nat
  {
    if row <= FirstKeptRow(cropY) then 0 else (row - FirstKeptRow(cropY) + 1) / 2
  }

  function Min(a: nat, b: nat): nat { if a <= b then a else b }

  /** The count of captured rows so far: one per eligible row, capped at 240. */
  predicate Schedule(cropY: nat, row: nat, kept: seq<KeptRow>)
  {
    |kept| == Min(FrameHeight, EligibleBefore(cropY, row)) && OnSchedule(cropY, kept)
  }

  lemma EligibleStep(cropY: nat, row: nat)
    ensures EligibleBefore(cropY, row + 1) ==
      if row % 2 == 0 && row >= cropY then EligibleBefore(cropY, row) + 1 else EligibleBefore(cropY, row)
    ensures row % 2 == 0 && row >= cropY ==> row == FirstKeptRow(cropY) + 2 * EligibleBefore(cropY, row)
  {
  }

  /** One pass of the row loop keeps the schedule. */
  lemma RowStepSchedule(w: seq<bv32>, p: nat, row: nat, crop: Crop, mode: bv32, acc: seq<KeptRow>)
    requires p <= |w| && WellFormed(w, crop, mode, acc)
    requires Schedule(crop.y, row, acc)
    ensures var s := RowStep(w, p, row, crop, mode, acc);
      (s.Next? ==> Schedule(crop.y, row + 1, s.kept)) &&
      (s.Done? ==> OnSchedule(crop.y, s.d.kept)) &&
      (s.Done? && s.d.complete ==> Schedule(crop.y, s.d.rows, s.d.kept))
  {
    EligibleStep(crop.y, row);
  }

  /**
   * Rows are captured exactly on schedule: captured row a is field row
   * FirstKeptRow(crop.y) + 2a, and a complete frame captured every even row
   * from crop.y on before its end, up to 240 of them.
   */
  lemma {:induction false} RowsFromSchedule(w: seq<bv32>, p: nat, row: nat, crop: Crop, mode: bv32, acc: seq<KeptRow>)
    requires p <= |w| && WellFormed(w, crop, mode, acc)
    requires Schedule(crop.y, row, acc)
    decreases |w| - p
    ensures var d := RowsFrom(w, p, row, crop, mode, acc);
      OnSchedule(crop.y, d.kept) && (d.complete ==> Schedule(crop.y, d.rows, d.kept))
  {
    RowStepSchedule(w, p, row, crop, mode, acc);
    match RowStep(w, p, row, crop, mode, acc)
    case Done(d) =>
    case Next(p', kept) => RowsFromSchedule(w, p', row + 1, crop, mode, kept);
  }

  /** The whole frame keeps the schedule. */
  lemma DecodeFrameSchedule(w: seq<bv32>, p: nat, crop: Crop, mode: bv32)
    requires p <= |w|
    ensures var d := DecodeFrame(w, p, crop, mode);
      OnSchedule(crop.y, d.kept) &&
      (d.complete ==> |d.kept| == Min(FrameHeight, EligibleBefore(crop.y, d.rows)))
  {
    match SeekVsync(w, p)
    case None =>
    case Some(j) =>
      assert Schedule(crop.y, 0, []);
      RowsFromSchedule(w, j + 1, 0, crop, mode, []);
  }

  /** A frame starts right after the first word with V set; the words before it are ignored. */
  lemma DecodeFrameStart(w: seq<bv32>, p: nat, crop: Crop, mode: bv32)
    requires p <= |w|
    ensures var d := DecodeFrame(w, p, crop, mode);
      d.complete ==>
        SeekVsync(w, p).Some? && SeekVsync(w, p).value < d.next &&
        d == RowsFrom(w, SeekVsync(w, p).value + 1, 0, crop, mode, [])
  {
  }

  // ------------------------------------------------------------ row count

  /** Word k starts a run of active words in the field whose first word is lo. */
  predicate RunStart(w: seq<bv32>, lo: nat, k: nat)
    requires lo <= k < |w|
  {
    Active(w[k]) && (k == lo || !Active(w[k - 1]))
  }

  /** The number of active runs of the field from lo that start in p .. end-1. */
  function RunCount(w: seq<bv32>, lo: nat, p: nat, end: nat): nat
    requires lo <= p <= end <= |w|
    decreases end - p
  {
    if p == end then 0
    else (if RunStart(w, lo, p) then 1 else 0) + RunCount(w, lo, p + 1, end)
  }

  /** Words k .. k+n-1 are all active. */
  predicate ActiveFor(w: seq<bv32>, k: nat, n: nat)
  {
    k + n <= |w| && forall m :: k <= m < k + n ==> Active(w[m])
  }

  /**
   * A well-shaped field from lo: V stays set up to the word at end, which
   * clears it; the word before that is blanking; and every active run is at
   * least as long as a captured row reads, crop.x + 640 words.
   */
  predicate FieldShape(w: seq<bv32>, lo: nat, end: nat, crop: Crop)
  {
    lo <= end < |w| && !VsyncHigh(w[end]) &&
    (forall k :: lo <= k < end ==> VsyncHigh(w[k])) &&
    (lo < end ==> !Active(w[end - 1])) &&
    (forall k :: lo <= k < end && RunStart(w, lo, k) ==> ActiveFor(w, k, crop.x + 2 * FrameWidth))
  }

  /** Skipping words that start no run leaves the count unchanged. */
  lemma {:induction false} RunCountSkip(w: seq<bv32>, lo: nat, p: nat, x: nat, end: nat)
    requires lo <= p <= x <= end <= |w|
    requires forall k :: p <= k < x ==> !RunStart(w, lo, k)
    decreases x - p
    ensures RunCount(w, lo, p, end) == RunCount(w, lo, x, end)
  {
    if p < x {
      RunCountSkip(w, lo, p + 1, x, end);
    }
  }

  /** Inside a well-shaped field, step 2 stops at the next active word, or at the V-clear word if there is none. */
  lemma SeekActiveInField(w: seq<bv32>, lo: nat, end: nat, crop: Crop, p: nat)
    requires FieldShape(w, lo, end, crop) && lo <= p <= end
    ensures SeekActive(w, p).Hit? || SeekActive(w, p).FrameEnd?
    ensures SeekActive(w, p).FrameEnd? ==> SeekActive(w, p).at == end
    ensures SeekActive(w, p).Hit? ==> SeekActive(w, p).at < end
    ensures SeekActive(w, p).Hit? || SeekActive(w, p).FrameEnd? ==>
      forall k :: p <= k < SeekActive(w, p).at ==> !Active(w[k])
  {
    var r := SeekActive(w, p);
    assert !VsyncHigh(w[end]);
    if r.Hit? {
      ActiveImpliesVsyncHigh(w[r.at]);
    }
  }

  /** The first inactive word at or after i, when it is at e. */
  lemma {:induction false} DrainAt(w: seq<bv32>, i: nat, e: nat)
    requires i <= e < |w| && !Active(w[e])
    requires forall k :: i <= k < e ==> Active(w[k])
    decreases e - i
    ensures DrainActive(w, i) == Some(e)
  {
    if i < e {
      DrainAt(w, i + 1, e);
    }
  }

  /** The same word ends a skipped row, when its V bit is set. */
  lemma {:induction false} SkipRestAt(w: seq<bv32>, i: nat, e: nat)
    requires i <= e < |w| && !Active(w[e]) && VsyncHigh(w[e])
    requires forall k :: i <= k < e ==> Active(w[k])
    decreases e - i
    ensures SkipRest(w, i) == Hit(e)
  {
    if i < e {
      ActiveImpliesVsyncHigh(w[i]);
      SkipRestAt(w, i + 1, e);
    }
  }

  /** A run that starts at a in a well-shaped field ends, at its first inactive word e, before the field does. */
  lemma RunEnd(w: seq<bv32>, lo: nat, end: nat, crop: Crop, a: nat) returns (e: nat)
    requires FieldShape(w, lo, end, crop) && lo <= a < end && RunStart(w, lo, a)
    ensures a + crop.x + 2 * FrameWidth <= e < end && !Active(w[e]) && VsyncHigh(w[e])
    ensures forall k :: a <= k < e ==> Active(w[k])
  {
    assert ActiveFor(w, a, crop.x + 2 * FrameWidth);
    assert !Active(w[end - 1]);
    e := DrainActive(w, a).value;
  }

  /** A kept row whose run reaches past the 640 words it reads ends at the run's first inactive word e. */
  lemma KeepRowInRun(w: seq<bv32>, j: nat, e: nat, row: nat, crop: Crop, mode: bv32, acc: seq<KeptRow>)
    requires j < |w| && WellFormed(w, crop, mode, acc) && |acc| < FrameHeight && PixelMode(mode)
    requires j + crop.x + 2 * FrameWidth <= e < |w| && !Active(w[e])
    requires forall k :: j + crop.x + 2 * FrameWidth <= k < e ==> Active(w[k])
    ensures KeepRow(w, j, row, crop, mode, acc).Next? && KeepRow(w, j, row, crop, mode, acc).p == e + 1
  {
    DrainAt(w, j + crop.x + 2 * FrameWidth, e);
    assert FirstPixel(j, crop) + 2 * FrameWidth - 1 == j + crop.x + 2 * FrameWidth;
    assert PixelsAvailable(|w|, FirstPixel(j, crop)) == FrameWidth;
  }

  /**
   * In a pixel mode, one pass of the row loop over a well-shaped field either
   * finds no run left and ends the frame at its V-clear word, or consumes
   * exactly one run, up to and including the blanking word after it.
   */
  lemma RowStepInField(w: seq<bv32>, lo: nat, end: nat, crop: Crop, mode: bv32, p: nat, row: nat, acc: seq<KeptRow>)
    requires FieldShape(w, lo, end, crop) && PixelMode(mode)
    requires lo <= p <= end && (p == lo || !Active(w[p - 1]))
    requires WellFormed(w, crop, mode, acc)
    ensures var s := RowStep(w, p, row, crop, mode, acc);
      (s.Done? ==> s.d.complete && s.d.next == end + 1 && RunCount(w, lo, p, end) == 0) &&
      (s.Next? ==> s.p <= end && !Active(w[s.p - 1]) && RunCount(w, lo, p, end) == 1 + RunCount(w, lo, s.p, end))
  {
    SeekActiveInField(w, lo, end, crop, p);
    var r := SeekActive(w, p);
    RunCountSkip(w, lo, p, r.at, end);
    if r.Hit? {
      var a := r.at;
      var e := RunEnd(w, lo, end, crop, a);
      if SkipRow(row, crop, |acc|) {
        SkipRestAt(w, a + 1, e);
      } else {
        KeepRowInRun(w, a, e, row, crop, mode, acc);
      }
      assert RowStep(w, p, row, crop, mode, acc).Next? && RowStep(w, p, row, crop, mode, acc).p == e + 1;
      RunCountSkip(w, lo, a + 1, e + 1, end);
    }
  }

  /** The row loop over a well-shaped field in a pixel mode counts one row per active run. */
  lemma {:induction false} RowsFromInField(w: seq<bv32>, lo: nat, end: nat, crop: Crop, mode: bv32,
                                           p: nat, row: nat, acc: seq<KeptRow>)
    requires FieldShape(w, lo, end, crop) && PixelMode(mode)
    requires lo <= p <= end && (p == lo || !Active(w[p - 1]))
    requires WellFormed(w, crop, mode, acc)
    decreases end - p
    ensures var d := RowsFrom(w, p, row, crop, mode, acc);
      d.complete && d.next == end + 1 && d.rows == row + RunCount(w, lo, p, end)
  {
    RowStepInField(w, lo, end, crop, mode, p, row, acc);
    RowsFromUnfold(w, p, row, crop, mode, acc);
    match RowStep(w, p, row, crop, mode, acc)
    case Done(d) =>
    case Next(p', kept) =>
      RowsFromInField(w, lo, end, crop, mode, p', row + 1, kept);
  }

  /**
   * What the row count counts: in a pixel mode, a field that follows the
   * first word with V set and is well shaped up to its V-clear word at end
   * decodes completely, ends after that word, and has one row per active run.
   */
  lemma DecodeFrameCountsRuns(w: seq<bv32>, p: nat, crop: Crop, mode: bv32, end: nat)
    requires p <= |w| && PixelMode(mode)
    requires SeekVsync(w, p).Some? && FieldShape(w, SeekVsync(w, p).value + 1, end, crop)
    ensures var d := DecodeFrame(w, p, crop, mode);
      var lo := SeekVsync(w, p).value + 1;
      d.complete && d.next == end + 1 && d.rows == RunCount(w, lo, lo, end)
  {
    var lo := SeekVsync(w, p).value + 1;
    RowsFromInField(w, lo, end, crop, mode, lo, 0, []);
  }

  /** So the next frame's crop is PAL exactly when such a field has 610 to 620 active runs. */
  lemma PalIffRunsInWindow(w: seq<bv32>, p: nat, crop: Crop, mode: bv32, end: nat)
    requires p <= |w| && PixelMode(mode)
    requires SeekVsync(w, p).Some? && FieldShape(w, SeekVsync(w, p).value + 1, end, crop)
    ensures var lo := SeekVsync(w, p).value + 1;
      DetectCrop(DecodeFrame(w, p, crop, mode).rows) == PalCrop <==> 610 <= RunCount(w, lo, lo, end) <= 620
  {
    DecodeFrameCountsRuns(w, p, crop, mode, end);
  }

  // ------------------------------------------------------------ methods

  /** The do-while of step 1. */
  method WaitVsync(w: seq<bv32>, p: nat) returns (r: Option<nat>)
    requires p <= |w|
    ensures r == SeekVsync(w, p)
  {
    var i := p;
    while i < |w|
      invariant p <= i <= |w|
      invariant SeekVsync(w, i) == SeekVsync(w, p)
      decreases |w| - i
    {
      var bgrs := w[i];
      if bgrs & VsyncMask != 0 {
        return Some(i);
      }
      i := i + 1;
    }
    return None;
  }

  /** The do-while of step 2. */
  method WaitActive(w: seq<bv32>, p: nat) returns (r: Scan)
    requires p <= |w|
    ensures r == SeekActive(w, p)
  {
    var i := p;
    while i < |w|
      invariant p <= i <= |w|
      invariant SeekActive(w, i) == SeekActive(w, p)
      decreases |w| - i
    {
      var bgrs := w[i];
      if bgrs & VsyncMask == 0 {
        return FrameEnd(i);
      }
      if bgrs & ActivePixelMask == ActivePixelMask {
        return Hit(i);
      }
      i := i + 1;
    }
    return OutOfInput;
  }

  /** The do-while that drains a skipped row. */
  method SkipActive(w: seq<bv32>, p: nat) returns (r: Scan)
    requires p <= |w|
    ensures r == SkipRest(w, p)
  {
    var i := p;
    while i < |w|
      invariant p <= i <= |w|
      invariant SkipRest(w, i) == SkipRest(w, p)
      decreases |w| - i
    {
      var bgrs := w[i];
      if bgrs & VsyncMask == 0 {
        return FrameEnd(i);
      }
      if bgrs & ActivePixelMask != ActivePixelMask {
        return Hit(i);
      }
      i := i + 1;
    }
    return OutOfInput;
  }

  /** The do-while that consumes the active words left after a full row. */
  method ConsumeActive(w: seq<bv32>, p: nat) returns (r: Option<nat>)
    requires p <= |w|
    ensures r == DrainActive(w, p)
  {
    var i := p;
    while i < |w|
      invariant p <= i <= |w|
      invariant DrainActive(w, i) == DrainActive(w, p)
      decreases |w| - i
    {
      var bgrs := w[i];
      if bgrs & ActivePixelMask != ActivePixelMask {
        return Some(i);
      }
      i := i + 1;
    }
    return None;
  }

  /**
   * Steps 3.3-3.5 for one row in a pixel mode: store the word at q, skip one
   * word, take the next, until 320 pixels are stored; then drain the row.
   */
  method CapturePixels(fb: array<bv16>, w: seq<bv32>, q: nat, a: nat, mode: bv32)
    returns (written: nat, drained: Option<nat>)
    requires fb.Length == FrameSize && a < FrameHeight && PixelMode(mode) && q < |w|
    modifies fb
    ensures written == PixelsAvailable(|w|, q)
    ensures fb[..] == RowWrite(old(fb[..]), a, written, w, q, mode)
    ensures drained == if written == FrameWidth then DrainActive(w, q + 2 * FrameWidth - 1) else None
  {
    ghost var before := fb[..];
    var count := a * FrameWidth;
    var countMax := count + FrameWidth;
    var i := q;
    var bgrs := w[i];
    PixelIndexInFrame(0, a);
    PixelIndexInFrame(FrameWidth - 1, a);
    while true
      invariant a * FrameWidth <= count < countMax && countMax == a * FrameWidth + FrameWidth
      invariant i == q + 2 * (count - a * FrameWidth) && i < |w| && bgrs == w[i]
      invariant fb[..] == RowWrite(before, a, count - a * FrameWidth, w, q, mode)
      decreases countMax - count
    {
      var px := if mode == 0 then
        (((bgrs << 1) & 0xf800) | ((bgrs >> 12) & 0x07e0) | ((bgrs >> 26) & 0x001f)) as bv16
      else
        (((bgrs << 1) & 0xf800) | ((bgrs >> 12) & 0x07c0) | ((bgrs >> 26) & 0x001f)) as bv16;
      assert px == Pixel(mode, w[i]);
      fb[count] := px;
      count := count + 1;
      assert fb[..] == RowWrite(before, a, count - a * FrameWidth, w, q, mode);
      if count >= countMax {
        written := FrameWidth;
        drained := ConsumeActive(w, i + 1);
        return;
      }
      if i + 2 >= |w| {
        written := count - a * FrameWidth;
        drained := None;
        return;
      }
      i := i + 2;
      bgrs := w[i];
    }
  }

  /** How a pass of the row loop ended: go on with the next row at p, or leave the frame. */
  datatype RowOutcome = Continue(p: nat) | Stop(complete: bool, next: nat)

  /**
   * One pass of the row loop (main.c:500-613) for row number `row`:
   * find the row's first active word, then drain it if it is skipped, or
   * crop, capture and drain it.  active_row is |acc| before and |kept| after.
   */
  method CaptureRow(fb: array<bv16>, w: seq<bv32>, p: nat, row: nat, crop: Crop, mode: bv32, activeRow: nat,
                    ghost before: seq<bv16>, ghost acc: seq<KeptRow>)
    returns (out: RowOutcome, newActiveRow: nat, ghost kept: seq<KeptRow>)
    requires fb.Length == FrameSize && |before| == FrameSize && p <= |w|
    requires activeRow == |acc| && WellFormed(w, crop, mode, acc)
    requires fb[..] == FrameImage(before, w, crop, mode, acc)
    modifies fb
    ensures match RowStep(w, p, row, crop, mode, acc)
      case Next(p', k) => out == Continue(p') && kept == k
      case Done(d) => out == Stop(d.complete, d.next) && kept == d.kept
    ensures newActiveRow == |kept| && WellFormed(w, crop, mode, kept)
    ensures fb[..] == FrameImage(before, w, crop, mode, kept)
  {
    kept := acc;
    newActiveRow := activeRow;
    var skipRow := row % 2 != 0 || row < crop.y || activeRow >= FrameHeight;
    var s := WaitActive(w, p);
    if s.OutOfInput? {
      return Stop(false, |w|), newActiveRow, kept;
    }
    if s.FrameEnd? {
      return Stop(true, s.at + 1), newActiveRow, kept;
    }
    var j := s.at;
    if skipRow {
      var t := SkipActive(w, j + 1);
      if t.OutOfInput? {
        return Stop(false, |w|), newActiveRow, kept;
      }
      if t.FrameEnd? {
        return Stop(true, t.at + 1), newActiveRow, kept;
      }
      return Continue(t.at + 1), newActiveRow, kept;
    }
    out, kept := CaptureKeptRow(fb, w, j, row, crop, mode, activeRow, before, acc);
    newActiveRow := activeRow + 1;
  }

  /** Appending a well-formed row to the captured rows writes that row over the image of the others. */
  lemma KeptRowImage(before: seq<bv16>, w: seq<bv32>, crop: Crop, mode: bv32, acc: seq<KeptRow>, r: KeptRow)
    requires |before| == FrameSize && WellFormed(w, crop, mode, acc) && |acc| < FrameHeight
    requires r.written <= FrameWidth
    requires r.written > 0 ==> PixelMode(mode) && FirstPixel(r.start, crop) + 2 * (r.written - 1) < |w|
    ensures WellFormed(w, crop, mode, acc + [r])
    ensures FrameImage(before, w, crop, mode, acc + [r])
         == RowWrite(FrameImage(before, w, crop, mode, acc), |acc|, r.written, w, FirstPixel(r.start, crop), mode)
  {
    assert (acc + [r])[..|acc|] == acc;
  }

  /** Steps 3.1-3.5 for a row that is not skipped; its active word is at j. */
  method CaptureKeptRow(fb: array<bv16>, w: seq<bv32>, j: nat, row: nat, crop: Crop, mode: bv32, a: nat,
                        ghost before: seq<bv16>, ghost acc: seq<KeptRow>)
    returns (out: RowOutcome, ghost kept: seq<KeptRow>)
    requires fb.Length == FrameSize && |before| == FrameSize && j < |w|
    requires a == |acc| && a < FrameHeight && WellFormed(w, crop, mode, acc)
    requires fb[..] == FrameImage(before, w, crop, mode, acc)
    modifies fb
    ensures match KeepRow(w, j, row, crop, mode, acc)
      case Next(p', k) => out == Continue(p') && kept == k
      case Done(d) => out == Stop(d.complete, d.next) && kept == d.kept
    ensures |kept| == a + 1 && WellFormed(w, crop, mode, kept)
    ensures fb[..] == FrameImage(before, w, crop, mode, kept)
  {
    var q := j + 1;
    var leftCtr := 0;
    while leftCtr < crop.x
      invariant 0 <= leftCtr <= crop.x && q == j + 1 + leftCtr
    {
      q := q + 1;
      leftCtr := leftCtr + 1;
    }
    assert q == FirstPixel(j, crop);
    ghost var step := KeepRow(w, j, row, crop, mode, acc);
    if q >= |w| || !(mode == 0 || mode == 1) {
      kept := acc + [KeptRow(row, j, 0)];
      KeptRowImage(before, w, crop, mode, acc, KeptRow(row, j, 0));
      assert RowWrite(FrameImage(before, w, crop, mode, acc), a, 0, w, q, mode)
          == FrameImage(before, w, crop, mode, acc);
      if q >= |w| {
        assert step == Done(Decoded(false, |w|, row, kept));
        return Stop(false, |w|), kept;
      }
      assert step == Next(q + 1, kept);
      return Continue(q + 1), kept;
    }
    var written, drained := CapturePixels(fb, w, q, a, mode);
    kept := acc + [KeptRow(row, j, written)];
    KeptRowImage(before, w, crop, mode, acc, KeptRow(row, j, written));
    if written < FrameWidth || drained.None? {
      assert step == Done(Decoded(false, |w|, row, kept));
      return Stop(false, |w|), kept;
    }
    assert step == Next(drained.value + 1, kept);
    return Continue(drained.value + 1), kept;
  }

  /**
   * One pass of the frame loop after osd_run: wait for V, capture the rows
   * of the field, then choose the crop for the next frame from the row
   * count.  On running out of input the crop is left as it was.
   */
  method CaptureFrame(fb: array<bv16>, w: seq<bv32>, p0: nat, crop: Crop, mode: bv32)
    returns (complete: bool, next: nat, rows: nat, nextCrop: Crop)
    requires fb.Length == FrameSize && p0 <= |w|
    modifies fb
    ensures var d := DecodeFrame(w, p0, crop, mode);
      complete == d.complete && next == d.next && rows == d.rows &&
      fb[..] == FrameImage(old(fb[..]), w, crop, mode, d.kept)
    ensures nextCrop == if complete then DetectCrop(rows) else crop
  {
    ghost var before := fb[..];
    ghost var d := DecodeFrame(w, p0, crop, mode);
    var vs := WaitVsync(w, p0);
    if vs.None? {
      return false, |w|, 0, crop;
    }
    var p := vs.value + 1;
    var row := 0;
    var activeRow := 0;
    ghost var kept: seq<KeptRow> := [];
    while true
      invariant p <= |w| && activeRow == |kept|
      invariant WellFormed(w, crop, mode, kept)
      invariant RowsFrom(w, p, row, crop, mode, kept) == d
      invariant fb[..] == FrameImage(before, w, crop, mode, kept)
      decreases |w| - p
    {
      ghost var step := RowStep(w, p, row, crop, mode, kept);
      RowsFromUnfold(w, p, row, crop, mode, kept);
      var out;
      out, activeRow, kept := CaptureRow(fb, w, p, row, crop, mode, activeRow, before, kept);
      if out.Stop? {
        complete, next, rows := out.complete, out.next, row;
        break;
      }
      p := out.p;
      row := row + 1;
    }
    if complete {
      nextCrop := DetectCrop(rows);
    } else {
      nextCrop := crop;
    }
  }

  // ------------------------------------------------------- the frame loop

  /**
   * The crop each frame of the endless loop uses, from cursor p with the
   * given crop, up to and including the frame during which the input runs out.
   */
  function FrameCrops(w: seq<bv32>, p: nat, crop: Crop, mode: bv32): (cs: seq<Crop>)
    requires p <= |w|
    decreases |w| - p
    ensures |cs| >= 1 && cs[0] == crop
  {
    var d := DecodeFrame(w, p, crop, mode);
    if d.complete then [crop] + FrameCrops(w, d.next, DetectCrop(d.rows), mode) else [crop]
  }

  /** The buffer after those frames. */
  function FramesImage(fb: seq<bv16>, w: seq<bv32>, p: nat, crop: Crop, mode: bv32): (s: seq<bv16>)
    requires |fb| == FrameSize && p <= |w|
    decreases |w| - p
    ensures |s| == FrameSize
  {
    var d := DecodeFrame(w, p, crop, mode);
    var image := FrameImage(fb, w, crop, mode, d.kept);
    if d.complete then FramesImage(image, w, d.next, DetectCrop(d.rows), mode) else image
  }

  lemma FrameLoopUnfold(fb: seq<bv16>, w: seq<bv32>, p: nat, crop: Crop, mode: bv32)
    requires |fb| == FrameSize && p <= |w|
    ensures var d := DecodeFrame(w, p, crop, mode);
      var image := FrameImage(fb, w, crop, mode, d.kept);
      (d.complete ==>
        FrameCrops(w, p, crop, mode) == [crop] + FrameCrops(w, d.next, DetectCrop(d.rows), mode) &&
        FramesImage(fb, w, p, crop, mode) == FramesImage(image, w, d.next, DetectCrop(d.rows), mode)) &&
      (!d.complete ==>
        FrameCrops(w, p, crop, mode) == [crop] && FramesImage(fb, w, p, crop, mode) == image)
  {
  }

  /** Every frame after the first uses a crop chosen by the detection, PAL or NTSC. */
  lemma {:induction false} LaterCropsDetected(w: seq<bv32>, p: nat, crop: Crop, mode: bv32, k: nat)
    requires p <= |w| && 1 <= k < |FrameCrops(w, p, crop, mode)|
    ensures FrameCrops(w, p, crop, mode)[k] == PalCrop || FrameCrops(w, p, crop, mode)[k] == NtscCrop
    decreases |w| - p
  {
    var d := DecodeFrame(w, p, crop, mode);
    var next := DetectCrop(d.rows);
    assert FrameCrops(w, p, crop, mode)[k] == FrameCrops(w, d.next, next, mode)[k - 1];
    if k > 1 {
      LaterCropsDetected(w, d.next, next, mode, k - 1);
    }
  }

  /** One pass of the outer loop: a frame, and the crop for the next one. */
  method CaptureNextFrame(fb: array<bv16>, w: seq<bv32>, p: nat, crop: Crop, mode: bv32)
    returns (complete: bool, next: nat, nextCrop: Crop)
    requires fb.Length == FrameSize && p <= |w|
    modifies fb
    ensures complete ==> p < next <= |w|
    ensures complete ==> FrameCrops(w, p, crop, mode) == [crop] + FrameCrops(w, next, nextCrop, mode)
    ensures complete ==> FramesImage(old(fb[..]), w, p, crop, mode) == FramesImage(fb[..], w, next, nextCrop, mode)
    ensures !complete ==>
      FrameCrops(w, p, crop, mode) == [crop] && FramesImage(old(fb[..]), w, p, crop, mode) == fb[..]
  {
    FrameLoopUnfold(fb[..], w, p, crop, mode);
    var rows;
    complete, next, rows, nextCrop := CaptureFrame(fb, w, p, crop, mode);
  }

  lemma AppendFirst(all: seq<Crop>, done: seq<Crop>, c: Crop, rest: seq<Crop>)
    requires all == done + ([c] + rest)
    ensures all == (done + [c]) + rest
  {
  }

  /**
   * The outer loop of main: the crop starts as the PAL crop, every frame is
   * captured with the crop the previous one detected, and the loop ends
   * when the input does.  frames counts the frames that ended normally.
   */
  method CaptureLoop(fb: array<bv16>, w: seq<bv32>, mode: bv32) returns (frames: nat, crop: Crop)
    requires fb.Length == FrameSize
    modifies fb
    ensures frames + 1 == |FrameCrops(w, 0, PalCrop, mode)|
    ensures crop == FrameCrops(w, 0, PalCrop, mode)[frames]
    ensures fb[..] == FramesImage(old(fb[..]), w, 0, PalCrop, mode)
  {
    ghost var all := FrameCrops(w, 0, PalCrop, mode);
    ghost var image := FramesImage(fb[..], w, 0, PalCrop, mode);
    ghost var done: seq<Crop> := [];
    crop := PalCrop;
    var p := 0;
    frames := 0;
    var complete := true;
    while complete
      invariant p <= |w| && frames == |done|
      invariant complete ==> all == done + FrameCrops(w, p, crop, mode) && image == FramesImage(fb[..], w, p, crop, mode)
      invariant !complete ==> all == done + [crop] && image == fb[..]
      decreases |w| - p, if complete then 1 else 0
    {
      var next, nextCrop;
      complete, next, nextCrop := CaptureNextFrame(fb, w, p, crop, mode);
      if complete {
        AppendFirst(all, done, crop, FrameCrops(w, next, nextCrop, mode));
        done := done + [crop];
        p := next;
        crop := nextCrop;
        frames := frames + 1;
      }
    }
  }
}
