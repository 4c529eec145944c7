# N64-SpyDVI firmware core in Dafny

N64-SpyDVI is RP2040 firmware that takes the digital video bus of a
Nintendo 64 and shows it over DVI. It also puts an on-screen menu (OSD) over
the picture, driven by the controller. This project models the parts of the
firmware that decide what ends up in the 320 x 240 RGB565 frame buffer
`g_framebuf`, and proves properties of them.

- **Joybus** (`joybus.dfy`). The 32-bit controller word: one bit per
  button (`A_BUTTON` ... `CR_BUTTON`), and the two stick axes as signed bytes.
- **OsdKeys** (`osd_keys.dfy`). `OSD_SHORTCUT`, the chord L + R + C-Down +
  D-Down that opens the menu.
- **Gfx** (`gfx.dfy`). `RGB888_TO_RGB565`, `gfx_putpixel` and
  `gfx_puttext`. The frame buffer is an `array<bv16>`. `PutText` follows the
  three nested C loops, and is proved to leave the buffer equal to the pure
  function `PaintText`. Lemmas state what `PaintText` draws in each glyph
  cell and that it leaves every other pixel alone.
- **Config** (`config.dfy`). `config_t`, `default_config`, and the holder of
  `g_config` as a class with `config_init`, `config_load` and `config_save`.
- **Audio** (`audio.dfy`). The HDMI clock-regeneration parameters (CTS, N)
  from `set_audio_dvi_parameters`, and the DMA timer fraction from
  `set_audio_sampling_parameters`. Both are modelled with the C integer
  widths written out.
- **Scanline** (`scanline.dfy`). `core1_scanline_callback` and main's two
  initial pushes, as a class over the two queues. It proves that the pushed
  row pointers cycle through the frame top to bottom.
- **Capture** (`capture.dfy`). The video capture loop of `main`.
  - The PIO word stream is a finite sequence with a cursor.
  - `DecodeFrame` is a pure description of one frame. It gives the row
    count, where the frame ended, and each captured row with its source
    position and pixel count.
  - `FrameImage` is the buffer that results from a decoded frame.
  - The methods `CaptureFrame` and `CaptureLoop` follow the C loops. They
    are proved to produce exactly `DecodeFrame`'s results and `FrameImage`'s
    buffer, including the PAL/NTSC crop chosen for the next frame.
- **Osd** (`osd.dfy`). `osd_run`: its menu tables, its state struct, the
  render loop and the input handling.
  - The pure semantics are `Step` (one pass of input handling), `LoopFrom`
    and `RunSpec` (the whole call). The invariant `ValidView` is proved to
    be kept.
  - The class `OsdState` holds the C statics. Its methods `Render`,
    `HandleInput` and `Run` are proved against those functions, including
    the pixels drawn.
  - A walk-through lemma follows a concrete controller sequence: open the
    menu, move down to "Sub menu", enter it, go Back.

Controller samples (`joybus_rx_get_latest`) and video words
(`pio_sm_get_blocking`) become input sequences. The font table
(`font_8x8.h`) is a parameter of 95 x 8 bytes.

## Model

| member | source | states |
|---|---|---|
| Joybus.Mask | Software/apps/spydvi/joybus.h:17-117 | each button macro masks exactly one bit, and it lies in the upper (button) half of the word |
| Joybus.MaskIsBitAtPosition | Software/apps/spydvi/joybus.h:17-117 | each mask is the single bit at the button's documented position, between 16 and 31 |
| Joybus.HeldIffBit | Software/apps/spydvi/joybus.h:17-117 | a button macro is non-zero exactly when that button's bit is set in the word |
| Joybus.MasksDisjoint | Software/apps/spydvi/joybus.h:17-117 | no two buttons share a bit |
| Joybus.UnusedBit | Software/apps/spydvi/joybus.h:73-82 | bit 0x00400000 belongs to no button |
| Joybus.ButtonsIgnoreStickBits | Software/apps/spydvi/joybus.h:17-117 | the button macros depend only on bits 16-31 |
| Joybus.XStick | Software/apps/spydvi/joybus.h:124 | X_STICK is bits 8-15 read as a signed byte: in -128..127 and congruent to that byte mod 256 |
| Joybus.YStick | Software/apps/spydvi/joybus.h:131 | Y_STICK is bits 0-7 read as a signed byte: in -128..127 and congruent to that byte mod 256 |
| Joybus.SticksIgnoreButtonBits | Software/apps/spydvi/joybus.h:124-131 | the stick macros depend only on bits 0-15 |
| OsdKeys.ShortcutIffChordBits | Software/apps/spydvi/osd.h:20-25 | OSD_SHORTCUT holds exactly when all four bits of 0x04340000 (TL, TR, C-Down, D-Down) are set |
| OsdKeys.ShortcutIgnoresOtherBits | Software/apps/spydvi/osd.h:20-25 | bits outside the chord never change whether the chord is held |
| OsdKeys.ShortcutMonotone | Software/apps/spydvi/osd.h:20-25 | holding more buttons never releases the chord |
| OsdKeys.ShortcutHoldsDDown | Software/apps/spydvi/osd.h:20-25 | the chord includes D-Down |
| Gfx.Rgb888ToRgb565 | Software/apps/spydvi/gfx.h:21-26 | the result fits in 16 bits and holds the top 5 bits of red, the top 6 of green and the top 5 of blue, in that order |
| Gfx.Rgb565IgnoresLowBits | Software/apps/spydvi/gfx.h:21-26 | the discarded low bits of each channel never affect the result |
| Gfx.KnownColours | Software/apps/spydvi/gfx.h:21-26 | black, white, red and magenta convert to 0x0000, 0xFFFF, 0xF800 and 0xF81F |
| Gfx.Low16 | Software/apps/spydvi/gfx.h:36 | passing a colour as uint16_t keeps its low 16 bits, and any value below 0x10000 unchanged |
| Gfx.PixelIndexInFrame | Software/apps/spydvi/gfx.h:36-40 | for an on-screen (x, y), index x + 320y is inside the buffer, and row and column recover y and x |
| Gfx.PixelIndexInjective | Software/apps/spydvi/gfx.h:36-40 | two pixels whose x is within the frame width never share an index |
| Gfx.PutPixel | Software/apps/spydvi/gfx.h:36-40 | exactly one cell, index x + 320y, changes, and it takes the colour |
| Gfx.FontIndexInTable | Software/apps/spydvi/gfx.c:14-17 | the glyph row index (c - 32) + r * 95 of a printable character lies inside the 95 x 8 font table |
| Gfx.PaintTextCell | Software/apps/spydvi/gfx.c:24-33 | pixel i of pixel row r of character j's cell gets the foreground colour if font bit i is set, else the background colour |
| Gfx.PaintTextOutside | Software/apps/spydvi/gfx.c:22-35 | every pixel outside the text's cells keeps its old value |
| Gfx.PaintEmptyText | Software/apps/spydvi/gfx.c:28 | an empty string draws nothing |
| Gfx.NoTextBetweenRows | Software/apps/spydvi/gfx.c:24-33 | no pixel between the end of one pixel row of the text and the start of the next belongs to a cell |
| Gfx.NoTextOutsideRows | Software/apps/spydvi/gfx.c:24 | no pixel above the text's first pixel row or below its eighth belongs to a cell |
| Gfx.PutText | Software/apps/spydvi/gfx.c:22-35 | the three nested loops of gfx_puttext leave the buffer equal to PaintText of the old buffer |
| Gfx.PutTextRow | Software/apps/spydvi/gfx.c:24-34 | one pass of the outer loop extends the painted prefix of the buffer by one pixel row |
| Gfx.PutCellRow | Software/apps/spydvi/gfx.c:28-33 | the innermost loop extends the painted prefix by one character cell of the row |
| Config.DefaultConfig | Software/apps/spydvi/config.c:22-29 | the default record passes the magic check and selects 96000 Hz and RGB555 |
| Config.ZeroConfigInvalid | Software/apps/spydvi/config.h:153-163 | an all-zero record fails the magic check |
| Config.ConfigStore.constructor | Software/apps/spydvi/config.c:10 | g_config starts as static zero storage |
| Config.ConfigStore.Init | Software/apps/spydvi/config.c:31-34 | config_init overwrites g_config with the defaults, which then pass the magic check |
| Config.ConfigStore.Load | Software/apps/spydvi/config.c:36-39 | config_load leaves g_config unchanged |
| Config.ConfigStore.Save | Software/apps/spydvi/config.c:41-44 | config_save leaves g_config unchanged |
| Audio.Wrap32 | Software/apps/spydvi/main.c:85-86 | a uint32_t result is the value mod 2^32, and a value that fits is unchanged |
| Audio.AudioDviParametersAsWritten | Software/apps/spydvi/main.c:82-110 | N fits in 32 bits. For the four listed rates, 128 * rate * CTS = 25.2 MHz * N exactly. For any other rate CTS is 25200 |
| Audio.AsWrittenExactBelowWrap | Software/apps/spydvi/main.c:105-109 | for unlisted rates up to 1331 Hz, N is 128 * rate * CTS / 25.2 MHz rounded down |
| Audio.AsWrittenWrapsAt22050 | Software/apps/spydvi/main.c:105-109 | at 22050 Hz the 32-bit product wraps: the code gives N = 95, the corrected formula 2822 |
| Audio.AudioDviParametersCorrected | Software/apps/spydvi/main.c:82-110 | for every rate, N is the exact rounded-down HDMI value, so 25.2 MHz * N <= 128 * rate * CTS < 25.2 MHz * (N + 1); exact for the listed rates |
| Audio.CorrectedAgreesBelowWrap | Software/apps/spydvi/main.c:82-110 | the corrected version agrees with the code wherever the code does not overflow |
| Audio.Wrap16 | Software/apps/spydvi/main.c:121-122 | a uint16_t result is below 2^16, and a value that fits is unchanged |
| Audio.AudioSamplingParameters | Software/apps/spydvi/main.c:119-148 | both fields fit in 16 bits. For 96, 48 and 32 kHz the timer rate 252 MHz * num / den is exactly the sample rate. Every other rate has numerator 1 |
| Audio.Sampling44100NotExact | Software/apps/spydvi/main.c:133-136 | 44100 Hz uses 4 / 22857, which runs slightly fast: 1008000000 / 22857 is not 44100 |
| Audio.SamplingDefaultRoundsDown | Software/apps/spydvi/main.c:141-144 | for unlisted rates of at least 3846 Hz, the denominator is 252 MHz / rate rounded down, so the timer runs at or above the rate and within one step of it |
| Scanline.PushedRowInFrame | Software/apps/spydvi/main.c:69-80 | every pushed pointer is the start of a whole row inside the frame buffer |
| Scanline.PushedRowsCycle | Software/apps/spydvi/main.c:76-79 | pushes repeat with period 240 |
| Scanline.PushedRowsStep | Software/apps/spydvi/main.c:76-79 | consecutive pushes are consecutive rows, wrapping from row 239 to row 0 |
| Scanline.ScanlineFeeder.constructor | Software/apps/spydvi/main.c:195-198 | before output starts, rows 0 and 1 are queued and the callback's counter is 2 |
| Scanline.ScanlineFeeder.ReturnBuffer | Software/apps/spydvi/main.c:71-74 | a returned buffer is appended to the free queue and nothing else changes |
| Scanline.ScanlineFeeder.Callback | Software/apps/spydvi/main.c:69-80 | the callback empties the free queue, pushes row `scanline`, advances the counter mod 240, and keeps the invariant that the pushes are PushedRows |
| Capture.ActiveImpliesVsyncHigh | Software/apps/spydvi/main.c:454-464 | an active-pixel word always has V set |
| Capture.Convert555 | Software/apps/spydvi/main.c:552-560 | the RGB555-mode pixel holds the top 5, 6 and 5 bits of the 7-bit red, green and blue channels |
| Capture.Convert565 | Software/apps/spydvi/main.c:581-589 | the RGB565-mode pixel keeps 5 bits of green, and bit 0x0020 is always clear |
| Capture.Convert565Is555WithoutLowGreen | Software/apps/spydvi/main.c:552-589 | the 565-mode pixel is the 555-mode pixel with bit 0x0020 cleared |
| Capture.ConversionReadsOnlyColourBits | Software/apps/spydvi/main.c:555-587 | only colour bits 10-14, 17-22 and 26-30 affect a pixel |
| Capture.SyncBitsAreNotColourBits | Software/apps/spydvi/main.c:454-474 | the sync and clamp bits are disjoint from the colour bits |
| Capture.DetectCrop | Software/apps/spydvi/main.c:634-642 | the PAL crop is chosen exactly when the row count is in 610..620; otherwise NTSC |
| Capture.NtscIsTheFallback | Software/apps/spydvi/main.c:638-642 | any count outside the PAL window selects NTSC: the NTSC row count is never tested |
| Capture.SeekVsync | Software/apps/spydvi/main.c:492-495 | the result is the first word with V set at or after the cursor, or none |
| Capture.SeekActive | Software/apps/spydvi/main.c:508-517 | the result is the first active word, or the first word with V clear if that comes first, or the end of input |
| Capture.SkipRest | Software/apps/spydvi/main.c:519-530 | the result is the first inactive word, which ends the frame if its V bit is clear |
| Capture.DrainActive | Software/apps/spydvi/main.c:564-570 | the result is the first inactive word, whatever its V bit |
| Capture.PixelsAvailable | Software/apps/spydvi/main.c:553-580 | between 1 and 320 pixels are stored, and fewer than 320 only when the input runs out |
| Capture.RowStep | Software/apps/spydvi/main.c:500-613 | one row pass advances the cursor or ends the frame. It captures at most one row, and only when the row is not skipped. A frame ends only on a word with V clear |
| Capture.KeepRow | Software/apps/spydvi/main.c:534-612 | a row that is not skipped appends exactly one captured row, numbered `row` |
| Capture.RowsFrom | Software/apps/spydvi/main.c:500-615 | the row loop keeps captured rows inside the input and the buffer. A complete frame ends on a word with V clear |
| Capture.DecodeFrame | Software/apps/spydvi/main.c:492-615 | a complete frame captures only full 320-pixel rows, or none outside a pixel mode, and ends after its start on a word with V clear |
| Capture.RunCountSkip | Software/apps/spydvi/main.c:508-530 | words that start no active run add nothing to the run count |
| Capture.SeekActiveInField | Software/apps/spydvi/main.c:508-517 | inside a field with V set up to its V-clear word, step 2 stops at the next active word, or at the V-clear word when no active word is left |
| Capture.DrainAt | Software/apps/spydvi/main.c:564-570 | the drain stops at the first inactive word of the run |
| Capture.SkipRestAt | Software/apps/spydvi/main.c:519-530 | a skipped row ends at the first inactive word of its run when that word has V set |
| Capture.RunEnd | Software/apps/spydvi/main.c:519-570 | in a well-shaped field, a run ends on a blanking word with V set, at least crop_x + 640 words after it starts and before the field ends |
| Capture.KeepRowInRun | Software/apps/spydvi/main.c:534-612 | in a pixel mode, a captured row whose run is long enough stores 320 pixels and ends right after its run |
| Capture.RowStepInField | Software/apps/spydvi/main.c:500-613 | one row pass over a well-shaped field in a pixel mode consumes exactly one active run, or finds none left and ends the frame on the V-clear word |
| Capture.RowsFromInField | Software/apps/spydvi/main.c:500-615 | over a well-shaped field in a pixel mode, the row loop completes and counts one row per active run |
| Capture.DecodeFrameCountsRuns | Software/apps/spydvi/main.c:492-615 | a well-shaped field in a pixel mode decodes completely, ends after its V-clear word, and its row count is the number of active runs in it |
| Capture.PalIffRunsInWindow | Software/apps/spydvi/main.c:634-642 | for such a field, the next crop is PAL exactly when it holds 610 to 620 active runs |
| Capture.FrameImagePixel | Software/apps/spydvi/main.c:543-580 | pixel k of captured row a is the converted word crop_x + 1 + 2k places after that row's first active word |
| Capture.FrameImageUntouched | Software/apps/spydvi/main.c:534-580 | pixels outside the stored part of every captured row keep their old value |
| Capture.NoPixelModeLeavesBuffer | Software/apps/spydvi/main.c:610-612 | with a colour mode other than 555 or 565, a frame leaves the buffer unchanged |
| Capture.RowStepSchedule | Software/apps/spydvi/main.c:502-506 | one row pass keeps the schedule: one captured row per even row from crop_y on, capped at 240 |
| Capture.RowsFromSchedule | Software/apps/spydvi/main.c:500-613 | captured row a is field row crop_y (rounded up to even) + 2a. A complete frame captured every such row before its end, up to 240 |
| Capture.DecodeFrameSchedule | Software/apps/spydvi/main.c:492-615 | the same schedule holds for a whole frame from the V wait on |
| Capture.DecodeFrameStart | Software/apps/spydvi/main.c:492-500 | a complete frame starts right after the first word with V set, at row 0 with nothing captured |
| Capture.WaitVsync | Software/apps/spydvi/main.c:493-495 | the do-while finds exactly SeekVsync's word |
| Capture.WaitActive | Software/apps/spydvi/main.c:509-517 | the do-while finds exactly SeekActive's word |
| Capture.SkipActive | Software/apps/spydvi/main.c:521-528 | the do-while finds exactly SkipRest's word |
| Capture.ConsumeActive | Software/apps/spydvi/main.c:565-568 | the do-while finds exactly DrainActive's word |
| Capture.CapturePixels | Software/apps/spydvi/main.c:547-580 | the store loop writes PixelsAvailable pixels of row a, from every second word, and then drains the row |
| Capture.CaptureRow | Software/apps/spydvi/main.c:500-613 | one pass of the row loop has RowStep's outcome, and leaves the buffer as FrameImage of the rows captured so far |
| Capture.CaptureKeptRow | Software/apps/spydvi/main.c:534-612 | crop, store and drain have KeepRow's outcome, and leave the buffer as FrameImage with the new row |
| Capture.CaptureFrame | Software/apps/spydvi/main.c:492-642 | one frame has DecodeFrame's outcome and FrameImage's buffer. The next crop is DetectCrop of the row count, or unchanged if the input ran out |
| Capture.FrameCrops | Software/apps/spydvi/main.c:478-479 | the first frame uses the crop it is given |
| Capture.LaterCropsDetected | Software/apps/spydvi/main.c:634-642 | every frame after the first uses the PAL or the NTSC crop |
| Capture.CaptureNextFrame | Software/apps/spydvi/main.c:486-642 | one outer pass advances the cursor and consumes one entry of FrameCrops and of FramesImage |
| Capture.CaptureLoop | Software/apps/spydvi/main.c:476-690 | starting with the PAL crop, the loop captures every frame with the crop detected on the previous one until the input ends. The buffer equals FramesImage |
| Osd.MenuColours | Software/apps/spydvi/osd.c:117-118 | the menu colours are the converted RGB888 magenta, black and white |
| Osd.EntryCount | Software/apps/spydvi/osd.c:116 | the render loop walks exactly the entries before the first NULL text |
| Osd.EntryCountByTexts | Software/apps/spydvi/osd.c:116 | only the texts decide where a table ends |
| Osd.InitialViewValid | Software/apps/spydvi/osd.c:36-83 | the static tables and state satisfy the invariant osd_run keeps |
| Osd.MainTableOk | Software/apps/spydvi/osd.c:49-71 | menu has five entries, no Back, and a Submenu entry pointing at menu_audio |
| Osd.AudioTableOk | Software/apps/spydvi/osd.c:36-47 | menu_audio has two entries and is well formed |
| Osd.Opened | Software/apps/spydvi/osd.c:91-101 | the chord opens the menu on the root table with no focus and records the sample as the last buttons. Otherwise nothing changes. The tables never change |
| Osd.OpenedValid | Software/apps/spydvi/osd.c:91-101 | opening keeps the invariant |
| Osd.FocusReset | Software/apps/spydvi/osd.c:111-113 | a NULL focus becomes the first entry; any other focus is kept |
| Osd.Step | Software/apps/spydvi/osd.c:124-154 | every pass ends by recording the sample as last_buttons |
| Osd.SetParentValid | Software/apps/spydvi/osd.c:137-143 | storing the parent in the submenu's first entry keeps the tables well formed and every stored parent showable |
| Osd.SetParentKeepsTable | Software/apps/spydvi/osd.c:140 | the store changes no text or type, so each table stays well formed and each showable table stays showable |
| Osd.StepValid | Software/apps/spydvi/osd.c:124-154 | a pass of the input handling keeps the invariant: the focus stays on an entry, and Back always finds a parent |
| Osd.EntryBg | Software/apps/spydvi/osd.c:117 | the focused entry is drawn on magenta, every other entry on black |
| Osd.PaintEntriesCell | Software/apps/spydvi/osd.c:107-122 | each pixel of entry k's text box at (5, (3 + k) * 8) is white where the glyph is set, else magenta if focused or black if not; later entries do not overwrite it |
| Osd.LoopFrom | Software/apps/spydvi/osd.c:106-155 | the loop keeps the invariant, consumes samples in order, and draws only well-formed tables |
| Osd.LoopFromPass | Software/apps/spydvi/osd.c:106-155 | one pass resets the focus, draws the table, then handles a sample or ends for lack of one |
| Osd.RunSpec | Software/apps/spydvi/osd.c:88-156 | a whole call keeps the invariant, uses no more samples than given, and draws only well-formed tables |
| Osd.PaintAllAppend | Software/apps/spydvi/osd.c:106-122 | each later pass paints over the buffer the earlier passes left |
| Osd.ChordIsNotAPress | Software/apps/spydvi/osd.c:85-96 | opening records the chord as last_buttons, so its D-Down is not a press in the first pass |
| Osd.ClosedStaysClosed | Software/apps/spydvi/osd.c:92-106 | while closed and without the chord, a call draws nothing and changes nothing |
| Osd.NoPressNoAction | Software/apps/spydvi/osd.c:124-154 | with no new press of Down, Up or A, a pass changes only last_buttons |
| Osd.HeldIsNoPress | Software/apps/spydvi/osd.c:85 | a button held in both samples is no press |
| Osd.DownFirst | Software/apps/spydvi/osd.c:126-130 | a Down press, whatever else is pressed, moves the focus to the next entry if there is one and changes nothing else |
| Osd.UpSecond | Software/apps/spydvi/osd.c:131-135 | an Up press without Down moves the focus to the previous entry unless it is on the first one |
| Osd.FocusStaysOnEntry | Software/apps/spydvi/osd.c:124-154 | a pass that neither closes nor asks for a redraw keeps the table and leaves the focus on one of its entries |
| Osd.EnterSubmenu | Software/apps/spydvi/osd.c:137-143 | A on a Submenu entry makes the target current with no focus, stores the previous table as its parent and asks for a redraw. The whole new state is given, so nothing else in the tables changes |
| Osd.GoBack | Software/apps/spydvi/osd.c:144-148 | A on a Back entry makes the stored parent current with no focus and asks for a redraw |
| Osd.SubmenuThenBack | Software/apps/spydvi/osd.c:137-148 | entering a submenu and taking its Back entry returns to the table it was entered from |
| Osd.ExitCloses | Software/apps/spydvi/osd.c:149-151 | A on Exit closes the menu and changes nothing else |
| Osd.InertEntries | Software/apps/spydvi/osd.c:136-152 | A on a Text or value entry changes only last_buttons |
| Osd.WalkOpen | Software/apps/spydvi/osd.c:88-122 | worked example: from the initial state the chord opens the menu, and an idle sample then focuses "OSD Menu" |
| Osd.WalkDownAndRelease | Software/apps/spydvi/osd.c:124-130 | worked example: pressing and releasing Down moves the focus one entry |
| Osd.WalkEnter | Software/apps/spydvi/osd.c:136-143 | worked example: the last Down, then A on "Sub menu", ends the call in menu_audio with menu as its parent |
| Osd.WalkFrom | Software/apps/spydvi/osd.c:106-155 | worked example: from any of the first three entries, the walk reaches menu_audio |
| Osd.WalkIntoSubmenu | Software/apps/spydvi/osd.c:88-156 | worked example: chord, idle, three Down presses with releases, then A: osd_run returns inside menu_audio, with menu recorded as its parent |
| Osd.EnteredState | Software/apps/spydvi/osd.c:137-143 | after entering, menu_audio is current, unfocused, and its first entry names menu |
| Osd.ReturnedState | Software/apps/spydvi/osd.c:144-148 | after Back, menu is current and unfocused |
| Osd.WalkBack | Software/apps/spydvi/osd.c:106-155 | worked example: the next call: Down moves from the header to "Back", and A on it returns to menu |
| Osd.WalkHome | Software/apps/spydvi/osd.c:106-122 | worked example: the call after that focuses menu's header and draws menu |
| Osd.OsdState.constructor | Software/apps/spydvi/osd.c:73-83 | the static state is the initial view, which satisfies the invariant |
| Osd.OsdState.Render | Software/apps/spydvi/osd.c:107-122 | the render loop leaves the buffer as PaintMenu of the current table and focus |
| Osd.OsdState.HandleInput | Software/apps/spydvi/osd.c:124-154 | the C branches produce exactly Step's new state and redraw flag, and keep the invariant |
| Osd.OsdState.Activate | Software/apps/spydvi/osd.c:136-152 | the A branch produces Step's state, apart from last_buttons, which is recorded afterwards |
| Osd.OsdState.OpenOnChord | Software/apps/spydvi/osd.c:90-101 | the opening check produces exactly Opened |
| Osd.OsdState.Pass | Software/apps/spydvi/osd.c:106-155 | one pass draws the current table and either handles the next sample or finds none, and stays on the way to RunSpec |
| Osd.OsdState.Run | Software/apps/spydvi/osd.c:88-156 | osd_run reaches exactly RunSpec's state, return status and sample count, and leaves the buffer as PaintAll of RunSpec's drawings |

## Left out

- PIO programs, DMA channels, DVI/TMDS output, the voltage regulator, the
  clock, UART, GPIO set-up, and the Joybus receiver are hardware. Their
  outputs become input sequences or parameters.
- Core 1 runs concurrently with the capture loop. That concurrency, and
  tearing between the two, is not modelled.
- The endless loops end when their input sequence does. Running out of
  input is an outcome ("incomplete frame", `returned == false`), not a
  precondition.
- `osd_run` and the frame capture are modelled and proved separately.
  `CaptureLoop` does not call `Run` between frames.
- Gfx.PutText: requires each text to fit on one pixel row of the frame
  (x0 + 8 * length <= 320). The C code then wraps into the next row, or
  writes past the buffer. Every menu entry fits.
  It also requires printable text (characters 32 to 126) and y0 + 8 <= 240.
  Any other character makes gfx.c:29 index outside `font_8x8`. A text
  starting below row 232 makes `gfx_putpixel` write past `g_framebuf`. Both
  are undefined behaviour in C. No caller reaches them: the menu texts are
  printable ASCII, and the tables are short enough to end above row 240.
- Audio.AudioSamplingParameters: requires a rate other than 0, because
  main.c:143 divides 252000000 by the rate. A zero rate is undefined
  behaviour in C. The only caller passes the configured rate, which is
  96000 Hz.
- Gfx.PutPixel: requires the index to be inside the buffer. The C function
  does no clipping, so an off-screen index is undefined behaviour there.
- `gfx_puttextf` and `vsnprintf` are not modelled. The menu passes only
  "%s" with texts shorter than its 128-byte buffer, so `Render` calls
  `PutText` on the text directly.
- The contents of `font_8x8.h` are a parameter. font_8x8.h is not part of
  this model.
- `gfx_get_framebuf`, `gfx_init` (empty), `joybus_rx_init`, and the
  `DIAGNOSTICS` / `DIAGNOSTICS_JOYBUS` blocks are not modelled. The last two
  are compiled out.
- `sprite_fill16`, which clears the buffer at start-up, is not modelled. The
  capture and OSD methods start from any buffer.
- Scanline.ScanlineFeeder.ReturnBuffer stands in for the DVI library
  handing buffers back. Queue capacity and blocking are not modelled.
- The `root` and `stack` fields of the OSD state are written but never read
  by the code, so they are left out.
- The value pointers of `ITEM_TYPE_VALUE_*` entries are not modelled. No
  table entry uses them. Only the table pointer of the value union is kept.
- Osd.TableOk and Osd.Safe are facts that the static tables meet, proved
  for the initial tables (MainTableOk, AudioTableOk). Tables that break
  them, for example a Back entry with no parent stored, are outside the
  model.
- Capture.DecodeFrameCountsRuns: stated for well-shaped fields in a pixel
  mode only (FieldShape). Outside the 555 and 565 modes, the next row pass
  starts inside the same active run and finds it again, so the row count
  exceeds the number of runs. The drain at main.c:565-568 ignores the V
  bit, so a V-clear word right after a long captured run is consumed and
  does not end the frame. FieldShape therefore asks for a blanking word
  before the V-clear word, and runs of at least crop_x + 640 words.
- Audio.SamplingDefaultRoundsDown: stated only for rates of at least
  3846 Hz. Below that, 252000000 / rate no longer fits the uint16_t
  denominator and is truncated; `Wrap16` models that truncation.
- The calls `dvi_set_audio_freq`, `dvi_update_audio_freq` and
  `dma_timer_set_fraction` are library calls. The model returns their
  arguments instead.

## Findings

| source | as written | input that shows it | evidently intended | confidence | as-written member | corrected member |
|---|---|---|---|---|---|---|
| Software/apps/spydvi/main.c:105-109 | `n = (128 * samplerate * cts) / 25200000` in uint32_t arithmetic. The product exceeds 2^32 for any rate above 1331 Hz and wraps | a rate of 22050 Hz gives N = 95 instead of 2822 | N = 128 * rate * 25200 / 25200000, computed without overflow (64-bit arithmetic, or dividing first) | not executed | Audio.AsWrittenWrapsAt22050 | Audio.AudioDviParametersCorrected |
