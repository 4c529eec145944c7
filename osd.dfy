/**
 * The on-screen menu (Software/apps/spydvi/osd.c).
 *
 * osd_run is called once per main-loop pass.  It samples the controller; if
 * the OSD chord is held it opens the menu on the root table.  While the menu
 * is open and nothing asks for a redraw from scratch, it draws the entries of
 * the current table, samples the controller again and reacts to the button
 * that was newly pressed: D-Down and D-Up move the focus, A activates the
 * focused entry.
 *
 * The menu tables are C arrays of menu_item_t ended by an entry whose text is
 * NULL.  A table is named by a MenuId and an entry pointer by its index in
 * the table.  The tables are mutable: entering a submenu stores the parent
 * table in the value slot of the submenu's first entry, and Back reads it
 * from there.  Each sample of joybus_rx_get_latest is taken from an input
 * sequence of controller words.
 */
module Osd {
  import opened Wrappers
  import opened Joybus
  import opened OsdKeys
  import opened Gfx

  /** OSD_X_OFFSET and OSD_Y_OFFSET: the first entry is drawn at pixel (5, 3 * 8). */
  const OsdXOffset: nat := 5
  const OsdYOffset: nat := 3

  /** RGB888_TO_RGB565(0xff, 0x00, 0xff), RGB888_TO_RGB565(0, 0, 0), RGB888_TO_RGB565(0xff, 0xff, 0xff). */
  const FocusBg: bv32 := 0xF81F
  const NormalBg: bv32 := 0x0000
  const TextFg: bv32 := 0xFFFF

  /** The menu colours are the converted RGB888 colours the drawing code names. */
  lemma MenuColours()
    ensures FocusBg == Rgb888ToRgb565(0xff, 0x00, 0xff)
    ensures NormalBg == Rgb888ToRgb565(0x00, 0x00, 0x00)
    ensures TextFg == Rgb888ToRgb565(0xff, 0xff, 0xff)
  {
    KnownColours();
  }

  /** item_type_t; TEXT is 0, so an entry that names no type is a TEXT entry. */
  datatype ItemType = Text | ValueRwU32 | ValueRwI32 | ValueRoU32 | ValueRoI32 | Submenu | Back | Exit

  /** The two tables, menu and menu_audio. */
  datatype MenuId = MainMenu | AudioMenu

  /**
   * menu_item_t.  Of the value union only the table pointer is modelled: the
   * target of a Submenu entry, or the parent stored in a table's first entry.
   */
  datatype MenuItem = MenuItem(text: Option<string>, kind: ItemType, link: Option<MenuId>)

  const Terminator := MenuItem(None, Text, None)

  /** The static initialisers of menu and menu_audio. */
  function InitialMenus(): map<MenuId, seq<MenuItem>>
  {
    map[
      MainMenu := [
        MenuItem(Some("OSD Menu"), Text, None),
        MenuItem(Some("Second"), Text, None),
        MenuItem(Some("Third"), Text, None),
        MenuItem(Some("Sub menu"), Submenu, Some(AudioMenu)),
        MenuItem(Some("Exit OSD"), Exit, None),
        Terminator],
      AudioMenu := [
        MenuItem(Some("OSD Audio Menu"), Text, None),
        MenuItem(Some("Back"), Back, None),
        Terminator]]
  }

  /** The number of entries before the first NULL text: what the render loop walks over. */
  function EntryCount(items: seq<MenuItem>): (n: nat)
    ensures n <= |items|
    ensures forall k :: 0 <= k < n ==> items[k].text.Some?
    ensures n < |items| ==> items[n].text.None?
  {
    if items == [] || items[0].text.None? then 0
    else 1 + EntryCount(items[1..])
  }

  /** Only the texts decide where a table ends. */
  lemma {:induction false} EntryCountByTexts(a: seq<MenuItem>, b: seq<MenuItem>)
    requires |a| == |b|
    requires forall k :: 0 <= k < |a| ==> a[k].text == b[k].text
    ensures EntryCount(a) == EntryCount(b)
  {
    if a != [] && a[0].text.Some? {
      EntryCountByTexts(a[1..], b[1..]);
    }
  }

  /** An entry can be drawn at row k of the menu without leaving the frame. */
  predicate EntryDrawable(item: MenuItem)
  {
    item.text.Some? && Printable(item.text.value) &&
    OsdXOffset + FontCharWidth * |item.text.value| <= FrameWidth
  }

  /**
   * A table as the code needs it: ended by a NULL text after at least one
   * entry, short enough to be drawn inside the frame, and every Submenu
   * entry pointing at a table.
   */
  predicate TableOk(menus: map<MenuId, seq<MenuItem>>, items: seq<MenuItem>)
  {
    1 <= EntryCount(items) < |items| &&
    OsdYOffset + EntryCount(items) <= FrameHeight / FontCharHeight &&
    forall k :: 0 <= k < EntryCount(items) ==>
      EntryDrawable(items[k]) &&
      (items[k].kind == Submenu ==> items[k].link.Some? && items[k].link.value in menus)
  }

  predicate TablesOk(menus: map<MenuId, seq<MenuItem>>)
  {
    forall m :: m in menus ==> TableOk(menus, menus[m])
  }

  /** The table has a Back entry. */
  predicate HasBack(items: seq<MenuItem>)
  {
    exists k :: 0 <= k < EntryCount(items) && items[k].kind == Back
  }

  /** A table that can be shown: if it has a Back entry, its parent slot is set. */
  predicate Safe(menus: map<MenuId, seq<MenuItem>>, m: MenuId)
  {
    m in menus && |menus[m]| > 0 &&
    (HasBack(menus[m]) ==> menus[m][0].link.Some?)
  }

  /** The static state struct, less root and stack, together with the tables. */
  datatype OsdView = OsdView(
    open: bool,
    currentRoot: Option<MenuId>,
    focused: Option<nat>,
    lastButtons: bv32,
    menus: map<MenuId, seq<MenuItem>>)

  /**
   * The invariant osd_run keeps: the tables are well formed, every stored
   * parent is a table that can be shown, and while open the current table
   * can be shown and the focus is one of its entries.
   */
  predicate ValidView(v: OsdView)
  {
    TablesOk(v.menus) && Safe(v.menus, MainMenu) &&
    (forall m :: m in v.menus && v.menus[m][0].link.Some? ==> Safe(v.menus, v.menus[m][0].link.value)) &&
    (v.open ==>
      v.currentRoot.Some? && Safe(v.menus, v.currentRoot.value) &&
      (v.focused.Some? ==> v.focused.value < EntryCount(v.menus[v.currentRoot.value])))
  }

  /** The state before the first call: everything zero except the tables. */
  function InitialView(): (v: OsdView)
    ensures !v.open && v.lastButtons == 0
  {
    OsdView(false, None, None, 0, InitialMenus())
  }

  lemma InitialViewValid()
    ensures ValidView(InitialView())
  {
    var menus := InitialMenus();
    MainTableOk();
    AudioTableOk();
    assert TablesOk(menus);
  }

  /** menu: five entries, no Back entry, the Submenu entry pointing at menu_audio. */
  lemma MainTableOk()
    ensures EntryCount(InitialMenus()[MainMenu]) == 5
    ensures TableOk(InitialMenus(), InitialMenus()[MainMenu])
    ensures !HasBack(InitialMenus()[MainMenu])
  {
    var main := InitialMenus()[MainMenu];
    assert EntryCount(main[5..]) == 0;
    assert main[1..][1..][1..][1..][1..] == main[5..];
  }

  /** menu_audio: two entries, a header and Back. */
  lemma AudioTableOk()
    ensures EntryCount(InitialMenus()[AudioMenu]) == 2
    ensures TableOk(InitialMenus(), InitialMenus()[AudioMenu])
  {
    var audio := InitialMenus()[AudioMenu];
    assert EntryCount(audio[2..]) == 0;
    assert audio[1..][1..] == audio[2..];
  }

  /** BUTTON_PRESSED: up in the previous sample, down in this one. */
  predicate Pressed(last: bv32, buttons: bv32, b: Button)
  {
    !Held(b, last) && Held(b, buttons)
  }

  /** The start of osd_run: the chord opens the menu on the root table. */
  function Opened(v: OsdView, buttons: bv32): (r: OsdView)
    ensures Shortcut(buttons) ==>
      r.open && r.lastButtons == buttons && r.currentRoot == Some(MainMenu) && r.focused.None?
    ensures !Shortcut(buttons) ==> r == v
    ensures r.menus == v.menus
  {
    if Shortcut(buttons) then
      v.(open := true, lastButtons := buttons, currentRoot := Some(MainMenu), focused := None)
    else v
  }

  lemma OpenedValid(v: OsdView, buttons: bv32)
    requires ValidView(v)
    ensures ValidView(Opened(v, buttons))
  {
  }

  /** A NULL focus is put on the first entry before drawing. */
  function FocusReset(v: OsdView): (r: OsdView)
    ensures r.focused.Some?
    ensures v.focused.Some? ==> r == v
    ensures v.focused.None? ==> r == v.(focused := Some(0))
  {
    if v.focused.None? then v.(focused := Some(0)) else v
  }

  /** Storing the parent in the first entry of table t. */
  function SetParent(menus: map<MenuId, seq<MenuItem>>, t: MenuId, parent: MenuId): map<MenuId, seq<MenuItem>>
    requires t in menus && |menus[t]| > 0
  {
    menus[t := menus[t][0 := menus[t][0].(link := Some(parent))]]
  }

  /** The result of one pass of the input handling: the new state and whether to leave for a redraw. */
  datatype StepResult = StepResult(view: OsdView, rerender: bool)

  /** The focused entry of an open, focused state. */
  function FocusedItem(v: OsdView): MenuItem
    requires ValidView(v) && v.open && v.focused.Some?
  {
    v.menus[v.currentRoot.value][v.focused.value]
  }

  /** One pass of the input handling, on the sample buttons. */
  function Step(v: OsdView, buttons: bv32): (r: StepResult)
    requires ValidView(v) && v.open && v.focused.Some?
    ensures r.view.lastButtons == buttons
  {
    var cr := v.currentRoot.value;
    var items := v.menus[cr];
    var f := v.focused.value;
    if Pressed(v.lastButtons, buttons, DDown) then
      StepResult(v.(focused := if items[f + 1].text.Some? then Some(f + 1) else Some(f), lastButtons := buttons), false)
    else if Pressed(v.lastButtons, buttons, DUp) then
      StepResult(v.(focused := if f != 0 then Some(f - 1) else Some(f), lastButtons := buttons), false)
    else if Pressed(v.lastButtons, buttons, A) then
      match items[f].kind
      case Submenu =>
        var t := items[f].link.value;
        StepResult(v.(currentRoot := Some(t), menus := SetParent(v.menus, t, cr),
                      focused := None, lastButtons := buttons), true)
      case Back =>
        StepResult(v.(currentRoot := items[0].link, focused := None, lastButtons := buttons), true)
      case Exit =>
        StepResult(v.(open := false, lastButtons := buttons), false)
      case _ =>
        StepResult(v.(lastButtons := buttons), false)
    else
      StepResult(v.(lastButtons := buttons), false)
  }

  /** Storing a parent keeps the tables well formed and every shown table showable. */
  lemma SetParentValid(v: OsdView, t: MenuId, cr: MenuId)
    requires ValidView(v) && t in v.menus && Safe(v.menus, cr)
    ensures var menus := SetParent(v.menus, t, cr);
      TablesOk(menus) && Safe(menus, MainMenu) && Safe(menus, t) &&
      (forall m :: m in menus && menus[m][0].link.Some? ==> Safe(menus, menus[m][0].link.value))
  {
    var menus := SetParent(v.menus, t, cr);
    assert menus.Keys == v.menus.Keys;
    forall m | m in menus
      ensures TableOk(menus, menus[m]) && (Safe(v.menus, m) ==> Safe(menus, m))
    {
      SetParentKeepsTable(v.menus, t, cr, m);
    }
    assert Safe(menus, t);
  }

  /** Storing a parent changes one link: each table stays well formed and showable tables stay showable. */
  lemma SetParentKeepsTable(menus: map<MenuId, seq<MenuItem>>, t: MenuId, cr: MenuId, m: MenuId)
    requires TablesOk(menus) && t in menus && cr in menus && m in menus && |menus[t]| > 0
    ensures var after := SetParent(menus, t, cr);
      TableOk(after, after[m]) && (Safe(menus, m) ==> Safe(after, m))
  {
    var after := SetParent(menus, t, cr);
    assert after.Keys == menus.Keys;
    if m != t {
      assert after[m] == menus[m];
    } else {
      var a := menus[t];
      var b := after[t];
      EntryCountByTexts(a, b);
      forall k | 0 <= k < EntryCount(a)
        ensures EntryDrawable(b[k]) && (b[k].kind == Submenu ==> b[k].link.Some? && b[k].link.value in after)
      {
        assert b[k].text == a[k].text && b[k].kind == a[k].kind;
      }
      if HasBack(a) {
        var k :| 0 <= k < EntryCount(a) && a[k].kind == Back;
        assert b[k].kind == Back;
      }
    }
  }

  /** One pass keeps the invariant. */
  lemma StepValid(v: OsdView, buttons: bv32)
    requires ValidView(v) && v.open && v.focused.Some?
    ensures ValidView(Step(v, buttons).view)
  {
    var cr := v.currentRoot.value;
    var items := v.menus[cr];
    var f := v.focused.value;
    if !Pressed(v.lastButtons, buttons, DDown) && !Pressed(v.lastButtons, buttons, DUp) &&
       Pressed(v.lastButtons, buttons, A) {
      if items[f].kind == Submenu {
        SetParentValid(v, items[f].link.value, cr);
      } else if items[f].kind == Back {
        assert HasBack(items);
      }
    }
  }

  /** What one pass drew: the entries of a table and the focused index. */
  datatype Drawn = Drawn(items: seq<MenuItem>, focus: nat)

  predicate DrawnOk(d: Drawn)
  {
    EntryCount(d.items) < |d.items| &&
    OsdYOffset + EntryCount(d.items) <= FrameHeight / FontCharHeight &&
    (forall k :: 0 <= k < EntryCount(d.items) ==> EntryDrawable(d.items[k])) &&
    d.focus < EntryCount(d.items)
  }

  /** The background gfx_puttextf gets for entry k. */
  function EntryBg(k: nat, focus: nat): (bg: bv32)
    ensures bg == (if k == focus then FocusBg else NormalBg)
  {
    if k == focus then FocusBg else NormalBg
  }

  /** The frame buffer after the render loop has drawn the first n entries. */
  function PaintEntries(fb: seq<bv16>, font: seq<bv8>, items: seq<MenuItem>, focus: nat, n: nat): (s: seq<bv16>)
    requires |font| == FontSize
    requires n <= |items| && forall k :: 0 <= k < n ==> EntryDrawable(items[k])
    ensures |s| == |fb|
  {
    if n == 0 then fb
    else
      assert EntryDrawable(items[n - 1]);
      PaintText(PaintEntries(fb, font, items, focus, n - 1), font, items[n - 1].text.value,
                OsdXOffset, (OsdYOffset + (n - 1)) * FontCharHeight, EntryBg(n - 1, focus), TextFg)
  }

  /** The frame buffer after one pass drew d. */
  function PaintMenu(fb: seq<bv16>, font: seq<bv8>, d: Drawn): (s: seq<bv16>)
    requires |font| == FontSize && DrawnOk(d)
    ensures |s| == |fb|
  {
    PaintEntries(fb, font, d.items, d.focus, EntryCount(d.items))
  }

  /** The frame buffer after every pass in ds, in order. */
  function PaintAll(fb: seq<bv16>, font: seq<bv8>, ds: seq<Drawn>): (s: seq<bv16>)
    requires |font| == FontSize && forall k :: 0 <= k < |ds| ==> DrawnOk(ds[k])
    ensures |s| == |fb|
  {
    if ds == [] then fb
    else PaintMenu(PaintAll(fb, font, ds[..|ds| - 1]), font, ds[|ds| - 1])
  }

  /**
   * Entry k is drawn at x = 5, y = (3 + k) * 8: every pixel of its text box
   * is the glyph pixel in white on magenta when k is the focus, on black
   * otherwise.  Later entries are drawn on rows below and leave it alone.
   */
  lemma {:induction false} PaintEntriesCell(fb: seq<bv16>, font: seq<bv8>, items: seq<MenuItem>, focus: nat, n: nat,
                                            k: nat, j: nat, r: nat, i: nat)
    requires |font| == FontSize && |fb| == FrameSize
    requires n <= |items| && forall e :: 0 <= e < n ==> EntryDrawable(items[e])
    requires OsdYOffset + n <= FrameHeight / FontCharHeight
    requires k < n && EntryDrawable(items[k])
    requires j < |items[k].text.value| && r < FontCharHeight && i < FontCharWidth
    ensures FontIndex(items[k].text.value[j], r) < |font|
    ensures PaintEntries(fb, font, items, focus, n)[PixelIndex(OsdXOffset + 8 * j + i, (OsdYOffset + k) * 8 + r)] ==
      Low16(if FontBit(font[FontIndex(items[k].text.value[j], r)], i) then TextFg
            else if k == focus then FocusBg else NormalBg)
  {
    var text := items[k].text.value;
    var x := OsdXOffset + 8 * j + i;
    var y := (OsdYOffset + k) * 8 + r;
    FontIndexInTable(text[j], r);
    PixelIndexInFrame(x, y);
    var prev := PaintEntries(fb, font, items, focus, n - 1);
    if k == n - 1 {
      PaintTextCell(prev, font, text, OsdXOffset, (OsdYOffset + k) * 8, EntryBg(k, focus), TextFg, j, r, i);
    } else {
      PaintEntriesCell(fb, font, items, focus, n - 1, k, j, r, i);
      var y0 := (OsdYOffset + (n - 1)) * 8;
      assert y + 1 <= y0;
      MulMono(y + 1, y0);
      NoTextOutsideRows(OsdXOffset, y0, |items[n - 1].text.value|, PixelIndex(x, y));
      PaintTextOutside(prev, font, items[n - 1].text.value, OsdXOffset, y0, EntryBg(n - 1, focus), TextFg, PixelIndex(x, y));
    }
  }

  /** The result of osd_run: the new state, whether it returned (rather than running out of samples), how many samples it took, and what it drew. */
  datatype RunResult = RunResult(view: OsdView, returned: bool, consumed: nat, drawn: seq<Drawn>)

  predicate AllDrawnOk(ds: seq<Drawn>)
  {
    forall k :: 0 <= k < |ds| ==> DrawnOk(ds[k])
  }

  /** Before drawing, the focus is put on an entry of a table that can be drawn. */
  lemma FocusResetValid(v: OsdView)
    requires ValidView(v) && v.open
    ensures var f := FocusReset(v);
      ValidView(f) && f.open && DrawnOk(Drawn(f.menus[f.currentRoot.value], f.focused.value))
  {
  }

  lemma AllDrawnOkPrepend(d: Drawn, ds: seq<Drawn>)
    requires DrawnOk(d) && AllDrawnOk(ds)
    ensures AllDrawnOk([d] + ds)
  {
    assert forall k :: 1 <= k < |[d] + ds| ==> ([d] + ds)[k] == ds[k - 1];
  }

  /** The drawing loop of osd_run from sample i on. */
  function LoopFrom(v: OsdView, inputs: seq<bv32>, i: nat): (r: RunResult)
    requires ValidView(v) && i <= |inputs|
    ensures ValidView(r.view) && i <= r.consumed <= |inputs| && AllDrawnOk(r.drawn)
    decreases |inputs| - i
  {
    if !v.open then RunResult(v, true, i, [])
    else
      FocusResetValid(v);
      var f := FocusReset(v);
      var d := Drawn(f.menus[f.currentRoot.value], f.focused.value);
      if i == |inputs| then RunResult(f, false, i, [d])
      else
        StepValid(f, inputs[i]);
        var s := Step(f, inputs[i]);
        if s.rerender then RunResult(s.view, true, i + 1, [d])
        else
          var rest := LoopFrom(s.view, inputs, i + 1);
          AllDrawnOkPrepend(d, rest.drawn);
          RunResult(rest.view, rest.returned, rest.consumed, [d] + rest.drawn)
  }

  /** One pass of the loop from an open state: reset the focus, draw, then either run out of samples or handle one. */
  lemma LoopFromPass(v: OsdView, inputs: seq<bv32>, i: nat)
    requires ValidView(v) && v.open && i <= |inputs|
    ensures var f := FocusReset(v);
      var d := Drawn(f.menus[f.currentRoot.value], f.focused.value);
      ValidView(f) && f.open && DrawnOk(d) &&
      (i == |inputs| ==> LoopFrom(v, inputs, i) == RunResult(f, false, i, [d])) &&
      (i < |inputs| ==>
        var s := Step(f, inputs[i]);
        ValidView(s.view) &&
        (s.rerender ==> LoopFrom(v, inputs, i) == RunResult(s.view, true, i + 1, [d])) &&
        (!s.rerender ==> var rest := LoopFrom(s.view, inputs, i + 1);
          LoopFrom(v, inputs, i) == RunResult(rest.view, rest.returned, rest.consumed, [d] + rest.drawn)))
  {
    FocusResetValid(v);
    if i < |inputs| {
      StepValid(FocusReset(v), inputs[i]);
    }
  }

  /**
   * Where the loop of osd_run stands against the whole call: having drawn
   * drawn and reached state v at sample i, what is left to do is LoopFrom
   * from there, or nothing once a redraw was requested.
   */
  ghost predicate LoopInv(target: RunResult, v: OsdView, inputs: seq<bv32>, i: nat, drawn: seq<Drawn>, rerender: bool)
  {
    ValidView(v) && i <= |inputs| &&
    (!rerender ==> var rest := LoopFrom(v, inputs, i);
      target.view == rest.view && target.returned == rest.returned &&
      target.consumed == rest.consumed && target.drawn == drawn + rest.drawn) &&
    (rerender ==>
      target.view == v && target.returned && target.consumed == i && target.drawn == drawn)
  }

  /** The loop starts after the opening check, with nothing drawn. */
  lemma LoopInvStart(v: OsdView, inputs: seq<bv32>)
    requires ValidView(v) && |inputs| > 0
    ensures ValidView(Opened(v, inputs[0]))
    ensures LoopInv(RunSpec(v, inputs), Opened(v, inputs[0]), inputs, 1, [], false)
  {
    OpenedValid(v, inputs[0]);
    var rest := LoopFrom(Opened(v, inputs[0]), inputs, 1);
    assert [] + rest.drawn == rest.drawn;
  }

  /** A pass that handles a sample keeps LoopInv. */
  lemma LoopInvPass(target: RunResult, v: OsdView, inputs: seq<bv32>, i: nat, drawn: seq<Drawn>)
    requires LoopInv(target, v, inputs, i, drawn, false) && v.open && i < |inputs|
    ensures var f := FocusReset(v);
      var s := Step(f, inputs[i]);
      LoopInv(target, s.view, inputs, i + 1, drawn + [Drawn(f.menus[f.currentRoot.value], f.focused.value)], s.rerender)
  {
    LoopFromPass(v, inputs, i);
    var f := FocusReset(v);
    var d := Drawn(f.menus[f.currentRoot.value], f.focused.value);
    var s := Step(f, inputs[i]);
    if !s.rerender {
      var rest := LoopFrom(s.view, inputs, i + 1);
      assert drawn + ([d] + rest.drawn) == (drawn + [d]) + rest.drawn;
    }
  }

  /** A pass that finds no sample left ends the call unreturned. */
  lemma LoopInvEnd(target: RunResult, v: OsdView, inputs: seq<bv32>, i: nat, drawn: seq<Drawn>)
    requires LoopInv(target, v, inputs, i, drawn, false) && v.open && i == |inputs|
    ensures var f := FocusReset(v);
      target == RunResult(f, false, i, drawn + [Drawn(f.menus[f.currentRoot.value], f.focused.value)])
  {
    LoopFromPass(v, inputs, i);
  }

  /** Leaving the loop: closed, or a redraw requested. */
  lemma LoopInvExit(target: RunResult, v: OsdView, inputs: seq<bv32>, i: nat, drawn: seq<Drawn>, rerender: bool)
    requires LoopInv(target, v, inputs, i, drawn, rerender) && (!v.open || rerender)
    ensures target == RunResult(v, true, i, drawn)
  {
  }

  /** Drawing one more pass paints over what the earlier passes left. */
  lemma PaintAllAppend(fb: seq<bv16>, font: seq<bv8>, ds: seq<Drawn>, d: Drawn)
    requires |font| == FontSize && AllDrawnOk(ds) && DrawnOk(d)
    ensures AllDrawnOk(ds + [d])
    ensures PaintAll(fb, font, ds + [d]) == PaintMenu(PaintAll(fb, font, ds), font, d)
  {
    assert (ds + [d])[..|ds|] == ds;
  }

  /** osd_run on the samples inputs: the first decides on opening, the loop takes one per pass. */
  function RunSpec(v: OsdView, inputs: seq<bv32>): (r: RunResult)
    requires ValidView(v)
    ensures ValidView(r.view) && r.consumed <= |inputs| && AllDrawnOk(r.drawn)
  {
    if inputs == [] then RunResult(v, false, 0, [])
    else
      OpenedValid(v, inputs[0]);
      LoopFrom(Opened(v, inputs[0]), inputs, 1)
  }

  /** The chord opens the menu without D-Down counting as a press in the first pass. */
  lemma ChordIsNotAPress(v: OsdView, chord: bv32, buttons: bv32)
    requires Shortcut(chord)
    ensures Opened(v, chord).lastButtons == chord
    ensures !Pressed(Opened(v, chord).lastButtons, buttons, DDown)
  {
  }

  /** Closed, and the chord not held: nothing is drawn and nothing changes. */
  lemma ClosedStaysClosed(v: OsdView, inputs: seq<bv32>)
    requires ValidView(v) && !v.open && |inputs| > 0 && !Shortcut(inputs[0])
    ensures RunSpec(v, inputs) == RunResult(v, true, 1, [])
  {
  }

  /** With no new press of Down, Up or A a pass changes only last_buttons. */
  lemma NoPressNoAction(v: OsdView, buttons: bv32)
    requires ValidView(v) && v.open && v.focused.Some?
    requires !Pressed(v.lastButtons, buttons, DDown) && !Pressed(v.lastButtons, buttons, DUp) &&
             !Pressed(v.lastButtons, buttons, A)
    ensures Step(v, buttons) == StepResult(v.(lastButtons := buttons), false)
  {
  }

  /** Holding a button does not repeat it: a button held in both samples is no press. */
  lemma HeldIsNoPress(last: bv32, buttons: bv32, b: Button)
    requires Held(b, last)
    ensures !Pressed(last, buttons, b)
  {
  }

  /**
   * Down wins over Up and A: it moves the focus to the next entry, or leaves
   * it on the last one, and does nothing else.
   */
  lemma DownFirst(v: OsdView, buttons: bv32)
    requires ValidView(v) && v.open && v.focused.Some?
    requires Pressed(v.lastButtons, buttons, DDown)
    ensures var n := EntryCount(v.menus[v.currentRoot.value]);
      var f := v.focused.value;
      Step(v, buttons) == StepResult(v.(focused := Some(if f + 1 < n then f + 1 else f), lastButtons := buttons), false)
  {
  }

  /** Up wins over A: it moves the focus to the previous entry, or leaves it on the first one. */
  lemma UpSecond(v: OsdView, buttons: bv32)
    requires ValidView(v) && v.open && v.focused.Some?
    requires !Pressed(v.lastButtons, buttons, DDown) && Pressed(v.lastButtons, buttons, DUp)
    ensures var f := v.focused.value;
      Step(v, buttons) == StepResult(v.(focused := Some(if f > 0 then f - 1 else 0), lastButtons := buttons), false)
  {
  }

  /** A pass that does not leave for a redraw keeps the focus on an entry of the current table. */
  lemma FocusStaysOnEntry(v: OsdView, buttons: bv32)
    requires ValidView(v) && v.open && v.focused.Some?
    ensures var s := Step(v, buttons);
      s.view.open && !s.rerender ==>
        s.view.currentRoot == v.currentRoot &&
        s.view.focused.Some? && s.view.focused.value < EntryCount(v.menus[v.currentRoot.value])
  {
    StepValid(v, buttons);
  }

  /** A alone, on a Submenu entry: the target becomes current, remembers the parent, and the loop leaves. */
  lemma EnterSubmenu(v: OsdView, buttons: bv32)
    requires ValidView(v) && v.open && v.focused.Some?
    requires !Pressed(v.lastButtons, buttons, DDown) && !Pressed(v.lastButtons, buttons, DUp) &&
             Pressed(v.lastButtons, buttons, A)
    requires FocusedItem(v).kind == Submenu
    ensures var s := Step(v, buttons);
      var t := FocusedItem(v).link.value;
      s.rerender && s.view.open && s.view.currentRoot == Some(t) && s.view.focused.None? &&
      t in s.view.menus && s.view.menus[t][0].link == v.currentRoot
    ensures var t := FocusedItem(v).link.value;
      t in v.menus && |v.menus[t]| > 0 &&
      Step(v, buttons) == StepResult(v.(currentRoot := Some(t), focused := None, lastButtons := buttons,
                                        menus := v.menus[t := v.menus[t][0 := v.menus[t][0].(link := v.currentRoot)]]),
                                     true)
  {
  }

  /** A alone, on a Back entry: the parent stored in the first entry becomes current and the loop leaves. */
  lemma GoBack(v: OsdView, buttons: bv32)
    requires ValidView(v) && v.open && v.focused.Some?
    requires !Pressed(v.lastButtons, buttons, DDown) && !Pressed(v.lastButtons, buttons, DUp) &&
             Pressed(v.lastButtons, buttons, A)
    requires FocusedItem(v).kind == Back
    ensures var s := Step(v, buttons);
      s.rerender && s.view.open && s.view.focused.None? && s.view.menus == v.menus &&
      s.view.currentRoot == v.menus[v.currentRoot.value][0].link && s.view.currentRoot.Some?
  {
    assert HasBack(v.menus[v.currentRoot.value]);
  }

  /** Entering a submenu and then taking its Back entry returns to the table it was entered from. */
  lemma {:induction false} SubmenuThenBack(v: OsdView, b1: bv32, v2: OsdView, b2: bv32)
    requires ValidView(v) && v.open && v.focused.Some?
    requires !Pressed(v.lastButtons, b1, DDown) && !Pressed(v.lastButtons, b1, DUp) && Pressed(v.lastButtons, b1, A)
    requires FocusedItem(v).kind == Submenu
    requires v2.menus == Step(v, b1).view.menus && v2.currentRoot == Step(v, b1).view.currentRoot
    requires ValidView(v2) && v2.open && v2.focused.Some?
    requires !Pressed(v2.lastButtons, b2, DDown) && !Pressed(v2.lastButtons, b2, DUp) && Pressed(v2.lastButtons, b2, A)
    requires FocusedItem(v2).kind == Back
    ensures Step(v2, b2).view.currentRoot == v.currentRoot
  {
    EnterSubmenu(v, b1);
    GoBack(v2, b2);
  }

  /** A alone, on Exit: the menu closes and the loop stops. */
  lemma ExitCloses(v: OsdView, buttons: bv32)
    requires ValidView(v) && v.open && v.focused.Some?
    requires !Pressed(v.lastButtons, buttons, DDown) && !Pressed(v.lastButtons, buttons, DUp) &&
             Pressed(v.lastButtons, buttons, A)
    requires FocusedItem(v).kind == Exit
    ensures Step(v, buttons) == StepResult(v.(open := false, lastButtons := buttons), false)
  {
  }

  /** A alone, on a Text or value entry (the headers): only last_buttons changes. */
  lemma InertEntries(v: OsdView, buttons: bv32)
    requires ValidView(v) && v.open && v.focused.Some?
    requires !Pressed(v.lastButtons, buttons, DDown) && !Pressed(v.lastButtons, buttons, DUp) &&
             Pressed(v.lastButtons, buttons, A)
    requires FocusedItem(v).kind !in {Submenu, Back, Exit}
    ensures Step(v, buttons) == StepResult(v.(lastButtons := buttons), false)
  {
  }

  // ---------------------------------------------------------- worked example
  //
  // A fixed scenario, not a general property: from the initial state, open
  // the menu with the chord, step down to the audio entry and enter it, then
  // go back to the main menu. The general facts it uses are the lemmas above.

  /** Controller words for the walk-through: the chord, D-Down alone, A alone, nothing. */
  const ChordWord: bv32 := 0x0434_0000
  const DownWord: bv32 := 0x0400_0000
  const AWord: bv32 := 0x8000_0000

  /** A pass that handles a sample without asking for a redraw hands the rest of the call to the next pass. */
  lemma LoopFromContinues(v: OsdView, inputs: seq<bv32>, i: nat)
    requires ValidView(v) && v.open && i < |inputs|
    requires FocusReset(v).focused.Some? && !Step(FocusReset(v), inputs[i]).rerender
    ensures ValidView(Step(FocusReset(v), inputs[i]).view)
    ensures var r := LoopFrom(v, inputs, i);
      var rest := LoopFrom(Step(FocusReset(v), inputs[i]).view, inputs, i + 1);
      r.view == rest.view && r.returned == rest.returned && r.consumed == rest.consumed
  {
    LoopFromPass(v, inputs, i);
  }

  /** Which of the walk-through words count as presses after which. */
  lemma WalkPresses()
    ensures forall last: bv32 :: !Pressed(last, 0, DDown) && !Pressed(last, 0, DUp) && !Pressed(last, 0, A)
    ensures Pressed(0, DownWord, DDown)
    ensures !Pressed(DownWord, AWord, DDown) && !Pressed(DownWord, AWord, DUp) && Pressed(DownWord, AWord, A)
    ensures Pressed(AWord, DownWord, DDown)
    ensures !Shortcut(0)
  {
  }

  /** A sample with no button down, in an open state: the pass only records it. */
  lemma WalkIdle(v: OsdView, inputs: seq<bv32>, i: nat)
    requires ValidView(v) && v.open && v.focused.Some? && i < |inputs| && inputs[i] == 0
    ensures ValidView(v.(lastButtons := 0))
    ensures var r := LoopFrom(v, inputs, i);
      var rest := LoopFrom(v.(lastButtons := 0), inputs, i + 1);
      r.view == rest.view && r.returned == rest.returned && r.consumed == rest.consumed
  {
    WalkPresses();
    NoPressNoAction(v, 0);
    LoopFromContinues(v, inputs, i);
  }

  /** D-Down pressed on entry f of menu, not its last: the focus moves to entry f + 1. */
  lemma WalkDown(v: OsdView, inputs: seq<bv32>, i: nat, f: nat)
    requires ValidView(v) && v.open && v.lastButtons == 0 && v.focused == Some(f)
    requires v.currentRoot == Some(MainMenu) && v.menus == InitialMenus() && f + 1 < 5
    requires i < |inputs| && inputs[i] == DownWord
    ensures ValidView(v.(focused := Some(f + 1), lastButtons := DownWord))
    ensures var r := LoopFrom(v, inputs, i);
      var rest := LoopFrom(v.(focused := Some(f + 1), lastButtons := DownWord), inputs, i + 1);
      r.view == rest.view && r.returned == rest.returned && r.consumed == rest.consumed
  {
    WalkPresses();
    MainTableOk();
    DownFirst(v, DownWord);
    LoopFromContinues(v, inputs, i);
  }

  /** Two results that agree on everything but the drawing. */
  predicate SameEnd(a: RunResult, b: RunResult)
  {
    a.view == b.view && a.returned == b.returned && a.consumed == b.consumed
  }

  /** The walk-through samples. */
  predicate WalkInputs(inputs: seq<bv32>)
  {
    |inputs| == 8 && inputs[0] == ChordWord && inputs[1] == 0 && inputs[2] == DownWord && inputs[3] == 0 &&
    inputs[4] == DownWord && inputs[5] == 0 && inputs[6] == DownWord && inputs[7] == AWord
  }

  /** The state after the first idle pass: the menu open on entry 0 of menu. */
  function WalkState(f: nat, last: bv32): OsdView
  {
    OsdView(true, Some(MainMenu), Some(f), last, InitialMenus())
  }

  lemma WalkStateValid(f: nat, last: bv32)
    requires f < 5
    ensures ValidView(WalkState(f, last))
  {
    InitialViewValid();
    MainTableOk();
  }

  /** The chord opens the menu, and the idle sample after it changes nothing else. */
  lemma WalkOpen(inputs: seq<bv32>)
    requires WalkInputs(inputs)
    ensures ValidView(InitialView()) && ValidView(WalkState(0, 0))
    ensures SameEnd(RunSpec(InitialView(), inputs), LoopFrom(WalkState(0, 0), inputs, 2))
  {
    InitialViewValid();
    var v1 := OsdView(true, Some(MainMenu), None, ChordWord, InitialMenus());
    assert Opened(InitialView(), ChordWord) == v1;
    WalkStateValid(0, ChordWord);
    assert FocusReset(v1) == WalkState(0, ChordWord);
    WalkIdle(WalkState(0, ChordWord), inputs, 1);
    LoopFromPass(v1, inputs, 1);
  }

  /** Press and release D-Down: from entry f to entry f + 1. */
  lemma WalkDownAndRelease(inputs: seq<bv32>, f: nat, i: nat)
    requires f + 1 < 5 && i + 1 < |inputs| && inputs[i] == DownWord && inputs[i + 1] == 0
    ensures ValidView(WalkState(f, 0)) && ValidView(WalkState(f + 1, 0))
    ensures SameEnd(LoopFrom(WalkState(f, 0), inputs, i), LoopFrom(WalkState(f + 1, 0), inputs, i + 2))
  {
    WalkStateValid(f, 0);
    WalkDown(WalkState(f, 0), inputs, i, f);
    assert WalkState(f, 0).(focused := Some(f + 1), lastButtons := DownWord) == WalkState(f + 1, DownWord);
    WalkStateValid(f + 1, DownWord);
    WalkIdle(WalkState(f + 1, DownWord), inputs, i + 1);
  }

  /** Where the walk-through ends: back from osd_run, inside menu_audio, with menu recorded as its parent. */
  predicate InSubmenu(r: RunResult)
  {
    r.returned && r.consumed == 8 && r.view == EnteredState()
  }

  /** Open in menu_audio with no focus, its first entry naming menu as the parent. */
  function EnteredState(): (v: OsdView)
    ensures v.open && v.currentRoot == Some(AudioMenu) && v.focused.None?
    ensures AudioMenu in v.menus && MainMenu in v.menus && |v.menus[AudioMenu]| > 0
    ensures v.menus[AudioMenu][0].link == Some(MainMenu)
    ensures v.menus[MainMenu] == InitialMenus()[MainMenu]
  {
    OsdView(true, Some(AudioMenu), None, AWord, SetParent(InitialMenus(), AudioMenu, MainMenu))
  }

  lemma SameEndInSubmenu(a: RunResult, b: RunResult)
    requires SameEnd(a, b) && InSubmenu(b)
    ensures InSubmenu(a)
  {
  }

  /** The last D-Down, then A on "Sub menu". */
  lemma WalkEnter(inputs: seq<bv32>)
    requires WalkInputs(inputs)
    ensures ValidView(WalkState(2, 0))
    ensures InSubmenu(LoopFrom(WalkState(2, 0), inputs, 6))
  {
    WalkStateValid(2, 0);
    WalkDown(WalkState(2, 0), inputs, 6, 2);
    var v7 := WalkState(3, DownWord);
    assert WalkState(2, 0).(focused := Some(3), lastButtons := DownWord) == v7;
    WalkStateValid(3, DownWord);
    WalkPresses();
    assert FocusedItem(v7).kind == Submenu;
    EnterSubmenu(v7, AWord);
    LoopFromPass(v7, inputs, 7);
  }

  /** The walk from entry f on: D-Down and release until "Sub menu", then A. */
  lemma {:induction false} WalkFrom(inputs: seq<bv32>, f: nat)
    requires WalkInputs(inputs) && f <= 2
    ensures ValidView(WalkState(f, 0))
    ensures InSubmenu(LoopFrom(WalkState(f, 0), inputs, 2 + 2 * f))
    decreases 2 - f
  {
    if f == 2 {
      WalkEnter(inputs);
    } else {
      assert inputs[2 + 2 * f] == DownWord && inputs[3 + 2 * f] == 0;
      WalkDownAndRelease(inputs, f, 2 + 2 * f);
      WalkFrom(inputs, f + 1);
      SameEndInSubmenu(LoopFrom(WalkState(f, 0), inputs, 2 + 2 * f), LoopFrom(WalkState(f + 1, 0), inputs, 2 + 2 * (f + 1)));
    }
  }

  /**
   * From the initial state: the chord opens the menu; three D-Down presses
   * (with releases in between) reach "Sub menu", and A enters menu_audio,
   * recording menu as its parent.
   */
  lemma WalkIntoSubmenu(inputs: seq<bv32>)
    requires WalkInputs(inputs)
    ensures ValidView(InitialView())
    ensures InSubmenu(RunSpec(InitialView(), inputs))
    ensures ValidView(EnteredState())
  {
    WalkOpen(inputs);
    WalkFrom(inputs, 0);
    SameEndInSubmenu(RunSpec(InitialView(), inputs), LoopFrom(WalkState(0, 0), inputs, 2));
  }

  /** Back in menu, focus still cleared; menu_audio keeps its parent. */
  function ReturnedState(): (v: OsdView)
    ensures v.open && v.currentRoot == Some(MainMenu) && v.focused.None?
  {
    EnteredState().(currentRoot := Some(MainMenu), lastButtons := AWord)
  }

  /**
   * The next call, inside menu_audio: no chord, D-Down moves the focus from
   * the header to "Back", and A on it returns to menu.
   */
  lemma WalkBack(inputs: seq<bv32>)
    requires |inputs| == 3 && inputs[0] == 0 && inputs[1] == DownWord && inputs[2] == AWord
    requires ValidView(EnteredState())
    ensures ValidView(ReturnedState())
    ensures SameEnd(RunSpec(EnteredState(), inputs), RunResult(ReturnedState(), true, 3, []))
  {
    var v0 := EnteredState();
    WalkPresses();
    assert Opened(v0, 0) == v0;
    AudioTableOk();
    var items := v0.menus[AudioMenu];
    EntryCountByTexts(InitialMenus()[AudioMenu], items);
    var e0 := v0.(focused := Some(0));
    assert FocusReset(v0) == e0;
    DownFirst(e0, DownWord);
    var e1 := e0.(focused := Some(1), lastButtons := DownWord);
    LoopFromContinues(v0, inputs, 1);
    assert Step(e0, DownWord).view == e1;
    assert FocusedItem(e1).kind == Back;
    GoBack(e1, AWord);
    LoopFromPass(e1, inputs, 2);
  }

  /** The call after that: the focus is put on the first entry of menu, its header, and menu is drawn. */
  lemma WalkHome(inputs: seq<bv32>)
    requires |inputs| == 1 && inputs[0] == 0
    requires ValidView(ReturnedState())
    ensures var r := RunSpec(ReturnedState(), inputs);
      r == RunResult(ReturnedState().(focused := Some(0)), false, 1, [Drawn(InitialMenus()[MainMenu], 0)])
  {
    WalkPresses();
    assert Opened(ReturnedState(), 0) == ReturnedState();
    LoopFromPass(ReturnedState(), inputs, 1);
  }

  /** The static state of osd.c, with the two tables it mutates. */
  class OsdState {
    var lastButtons: bv32
    var currentRoot: Option<MenuId>
    var focused: Option<nat>
    var open: bool
    var menus: map<MenuId, seq<MenuItem>>

    function View(): OsdView
      reads this
    {
      OsdView(open, currentRoot, focused, lastButtons, menus)
    }

    ghost predicate Valid()
      reads this
    {
      ValidView(View())
    }

    /** The static initialisers. */
    constructor ()
      ensures View() == InitialView()
      ensures Valid()
    {
      lastButtons := 0;
      currentRoot := None;
      focused := None;
      open := false;
      menus := InitialMenus();
      new;
      InitialViewValid();
    }

    /** The render loop: the entries of the current table, one text row each. */
    method Render(fb: array<bv16>, font: seq<bv8>)
      requires Valid() && open && focused.Some?
      requires fb.Length == FrameSize && |font| == FontSize
      modifies fb
      ensures DrawnOk(Drawn(menus[currentRoot.value], focused.value))
      ensures fb[..] == PaintMenu(old(fb[..]), font, Drawn(menus[currentRoot.value], focused.value))
    {
      var items := menus[currentRoot.value];
      var y := OsdYOffset;
      var x := OsdXOffset;
      var k := 0;
      while k < |items| && items[k].text.Some?
        invariant k <= EntryCount(items) && y == OsdYOffset + k
        invariant fb[..] == PaintEntries(old(fb[..]), font, items, focused.value, k)
        decreases |items| - k
      {
        var bg := if k == focused.value then FocusBg else NormalBg;
        PutText(fb, x, y * FontCharHeight, bg, TextFg, items[k].text.value, font);
        y := y + 1;
        k := k + 1;
      }
    }

    /** The input handling of one pass, on the sample buttons. */
    method HandleInput(buttons: bv32) returns (rerender: bool)
      requires Valid() && open && focused.Some?
      modifies this
      ensures Valid()
      ensures StepResult(View(), rerender) == Step(old(View()), buttons)
    {
      StepValid(View(), buttons);
      var items := menus[currentRoot.value];
      var f := focused.value;
      rerender := false;
      if Pressed(lastButtons, buttons, DDown) {
        if items[f + 1].text.Some? {
          focused := Some(f + 1);
        }
      } else if Pressed(lastButtons, buttons, DUp) {
        if f != 0 {
          focused := Some(f - 1);
        }
      } else if Pressed(lastButtons, buttons, A) {
        rerender := Activate(buttons);
      }
      lastButtons := buttons;
    }

    /** A pressed on the focused entry: enter a submenu, go back, or close. */
    method Activate(buttons: bv32) returns (rerender: bool)
      requires Valid() && open && focused.Some?
      requires !Pressed(lastButtons, buttons, DDown) && !Pressed(lastButtons, buttons, DUp)
      requires Pressed(lastButtons, buttons, A)
      modifies this
      ensures StepResult(View().(lastButtons := buttons), rerender) == Step(old(View()), buttons)
    {
      var items := menus[currentRoot.value];
      var f := focused.value;
      rerender := false;
      if items[f].kind == Submenu {
        var previous := currentRoot.value;
        var t := items[f].link.value;
        currentRoot := Some(t);
        menus := menus[t := menus[t][0 := menus[t][0].(link := Some(previous))]];
        focused := None;
        rerender := true;
      } else if items[f].kind == Back {
        currentRoot := items[0].link;
        focused := None;
        rerender := true;
      } else if items[f].kind == Exit {
        open := false;
      }
    }

    /**
     * One pass of the loop of osd_run: reset a NULL focus, draw the current
     * table, and handle sample i if there is one (more is false if not).
     */
    method Pass(fb: array<bv16>, font: seq<bv8>, inputs: seq<bv32>, i: nat,
                ghost fb0: seq<bv16>, ghost target: RunResult, ghost drawn: seq<Drawn>)
      returns (rerender: bool, more: bool, ghost drawn': seq<Drawn>)
      requires Valid() && open && fb.Length == FrameSize && |font| == FontSize
      requires AllDrawnOk(drawn) && fb[..] == PaintAll(fb0, font, drawn)
      requires LoopInv(target, View(), inputs, i, drawn, false)
      modifies this, fb
      ensures Valid() && AllDrawnOk(drawn') && fb[..] == PaintAll(fb0, font, drawn')
      ensures more ==> i < |inputs| && LoopInv(target, View(), inputs, i + 1, drawn', rerender)
      ensures !more ==> i == |inputs| && target == RunResult(View(), false, i, drawn')
    {
      ghost var v0 := View();
      LoopFromPass(v0, inputs, i);
      if focused.None? {
        focused := Some(0);
      }
      assert View() == FocusReset(v0);
      ghost var d := Drawn(menus[currentRoot.value], focused.value);
      Render(fb, font);
      PaintAllAppend(fb0, font, drawn, d);
      drawn' := drawn + [d];
      if i == |inputs| {
        LoopInvEnd(target, v0, inputs, i, drawn);
        return false, false, drawn';
      }
      LoopInvPass(target, v0, inputs, i, drawn);
      var buttons := inputs[i];
      rerender := HandleInput(buttons);
      more := true;
    }

    /** The opening check: the chord opens the menu on the root table with no focus. */
    method OpenOnChord(buttons: bv32)
      requires Valid()
      modifies this
      ensures Valid()
      ensures View() == Opened(old(View()), buttons)
    {
      OpenedValid(View(), buttons);
      if Shortcut(buttons) {
        open := true;
        lastButtons := buttons;
        currentRoot := Some(MainMenu);
        focused := None;
      }
    }

    /** osd_run, sampling the controller from inputs and drawing into fb. */
    method Run(fb: array<bv16>, font: seq<bv8>, inputs: seq<bv32>) returns (returned: bool, consumed: nat)
      requires Valid() && fb.Length == FrameSize && |font| == FontSize
      modifies this, fb
      ensures Valid()
      ensures var r := RunSpec(old(View()), inputs);
        View() == r.view && returned == r.returned && consumed == r.consumed &&
        fb[..] == PaintAll(old(fb[..]), font, r.drawn)
    {
      ghost var v0 := View();
      ghost var target := RunSpec(v0, inputs);
      if |inputs| == 0 {
        return false, 0;
      }
      var buttons := inputs[0];
      OpenOnChord(buttons);
      LoopInvStart(v0, inputs);
      var rerender := false;
      var i := 1;
      ghost var drawn: seq<Drawn> := [];
      while open && !rerender
        invariant Valid() && 1 <= i <= |inputs| && AllDrawnOk(drawn)
        invariant fb[..] == PaintAll(old(fb[..]), font, drawn)
        invariant LoopInv(target, View(), inputs, i, drawn, rerender)
        decreases |inputs| - i, if rerender then 0 else 1
      {
        var more;
        rerender, more, drawn := Pass(fb, font, inputs, i, old(fb[..]), target, drawn);
        if !more {
          return false, i;
        }
        i := i + 1;
      }
      LoopInvExit(target, View(), inputs, i, drawn, rerender);
      return true, i;
    }
  }
}
