/** The menu scroll state (SCROLL_STATE) under InitScroll and UpdateScroll,
    and the keyboard shortcut search FindMenuShortcutEntry.

    A menu lists entries 0 .. MaxIndex. The first MaxScroll + 1 of them (row
    0) scroll through a window of MaxVisible + 1 lines starting at
    FirstVisible; in the graphical main menu the remaining ones (row 1) are
    always shown. Text menus have a single row: MaxScroll == MaxIndex. */
module Menu {

  // ---------------------------------------------------------------------
  // Scroll state

  /** The eight movement codes SCROLL_LINE_UP .. SCROLL_SCROLLBAR_MOVE. */
  datatype Movement = LineUp | LineDown | PageUp | PageDown | First | Last | None | ScrollbarMove

  /** The fields of SCROLL_STATE that InitScroll fixes and UpdateScroll only
      reads. */
  datatype Sizes = Sizes(maxIndex: int, maxScroll: int, maxVisible: int, maxFirstVisible: int, isScrolling: bool)

  /** SCROLL_STATE; loopMode is ScrollMode == SCROLL_MODE_LOOP. */
  datatype Scroll = Scroll(
    sizes: Sizes, loopMode: bool,
    currentSelection: int, lastSelection: int,
    firstVisible: int, lastVisible: int,
    paintAll: bool, paintSelection: bool)

  function Min(a: int, b: int): int { if a < b then a else b }
  function Max(a: int, b: int): int { if a < b then b else a }

  /** The Selected value that stands for "no entry chosen yet". */
  const NoSelection: int := 0xFFFF

  /** InitScroll: itemCount entries scroll, maxCount entries in all,
      visibleSpace lines fit on the screen. The scroll mode is left as it
      was. */
  function Init(itemCount: int, maxCount: nat, visibleSpace: nat, selected: int, loopMode: bool): (s: Scroll)
    ensures s.sizes.maxIndex == maxCount - 1 && s.sizes.maxScroll == itemCount - 1
    ensures s.sizes.maxVisible == Min(if visibleSpace == 0 then itemCount - 1 else visibleSpace - 1, itemCount - 1)
    ensures s.sizes.maxFirstVisible == Max(0, s.sizes.maxScroll - s.sizes.maxVisible)
    ensures s.sizes.isScrolling <==> s.sizes.maxFirstVisible > 0
    ensures selected == NoSelection ==> s.currentSelection == s.lastSelection == 1 && s.firstVisible == 0
    ensures selected != NoSelection ==>
      s.currentSelection == s.lastSelection == selected && s.firstVisible == Min(selected, s.sizes.maxFirstVisible)
    ensures s.lastVisible == s.firstVisible + s.sizes.maxVisible
    ensures s.paintAll && !s.paintSelection && s.loopMode == loopMode
  {
    var maxScroll := itemCount - 1;
    var mv0 := if visibleSpace == 0 then maxScroll else visibleSpace - 1;
    var mv := if mv0 >= itemCount then itemCount - 1 else mv0;
    var mfv := if maxScroll - mv < 0 then 0 else maxScroll - mv;
    var cur := if selected == NoSelection then 1 else selected;
    var fv := if selected == NoSelection then 0 else Min(selected, mfv);
    Scroll(Sizes(maxCount - 1, maxScroll, mv, mfv, mfv > 0), loopMode, cur, cur, fv, fv + mv, true, false)
  }

  /** The derived sizes agree with each other, as InitScroll leaves them. */
  predicate Sized(z: Sizes) {
    && 0 <= z.maxVisible && 0 <= z.maxScroll <= z.maxIndex
    && z.maxFirstVisible == Max(0, z.maxScroll - z.maxVisible)
    && (z.isScrolling <==> z.maxFirstVisible > 0)
  }

  /** Selection c is an entry and a window starting at f may start there. */
  predicate InBounds(z: Sizes, c: int, f: int) {
    0 <= c <= z.maxIndex && 0 <= f <= z.maxFirstVisible
  }

  /** Selection c is on screen in a window starting at f: at or below its
      first line and, when c is in row 0, at or above its last one; when c is
      in row 1, the end of row 0 is on screen. */
  predicate Shown(z: Sizes, c: int, f: int) {
    f <= c && Min(c, z.maxScroll) <= f + z.maxVisible
  }

  predicate InRange(s: Scroll) {
    && Sized(s.sizes)
    && s.lastVisible == s.firstVisible + s.sizes.maxVisible
    && InBounds(s.sizes, s.currentSelection, s.firstVisible)
  }

  predicate SelectionVisible(s: Scroll) {
    InRange(s) && Shown(s.sizes, s.currentSelection, s.firstVisible)
  }

  /** A menu with at least one scrolling entry and a chosen entry that
      exists starts in range, with the chosen entry on screen. */
  lemma InitInRange(itemCount: int, maxCount: nat, visibleSpace: nat, selected: int, loopMode: bool)
    requires 1 <= itemCount <= maxCount
    requires if selected == NoSelection then 2 <= maxCount else 0 <= selected < maxCount
    ensures InRange(Init(itemCount, maxCount, visibleSpace, selected, loopMode))
    ensures selected != NoSelection ==> SelectionVisible(Init(itemCount, maxCount, visibleSpace, selected, loopMode))
  {
  }

  /** Where a movement leaves the selection, the window start and PaintAll. */
  datatype Pos = Pos(selection: int, first: int, paintAll: bool)

  /** SCROLL_LINE_UP away from entry 0; lv is the stored LastVisible. */
  function LineUpPos(z: Sizes, c: int, f: int, lv: int, pa: bool): Pos {
    var c' := c - 1;
    if c' < z.maxScroll && c' > lv then Pos(c', c' - z.maxVisible, true)
    else if c' < f then Pos(c', c', true)
    else Pos(c', f, pa || c' == z.maxScroll)
  }

  /** SCROLL_LINE_DOWN away from entry MaxIndex. */
  function LineDownPos(z: Sizes, c: int, f: int, lv: int, pa: bool): Pos {
    var c' := c + 1;
    if c' > lv && c' <= z.maxScroll then Pos(c', Min(f + 1, z.maxFirstVisible), true)
    else Pos(c', f, pa)
  }

  /** SCROLL_PAGE_UP away from entry 0 up to the last test: the selection
      and the window move a page, or from the last entry to the second line
      (to entry 0 when nothing scrolls), clamped at 0; corrected adds the
      missing clamp at MaxIndex. */
  function PageUpJump(z: Sizes, c: int, f: int, pa: bool, corrected: bool): Pos {
    var atLast := c == z.maxIndex;
    var c0 := if atLast then (if z.isScrolling then c - (z.maxVisible - 1) else 0) else c - z.maxVisible;
    var f0 := if atLast then f else f - z.maxVisible;
    var c1 := Max(c0, 0);
    Pos(if corrected then Min(c1, z.maxIndex) else c1, Max(f0, 0), pa || (!atLast && f > 0))
  }

  /** SCROLL_PAGE_UP away from entry 0: the window follows a selection
      above it. */
  function PageUpPos(z: Sizes, c: int, f: int, pa: bool, corrected: bool): Pos {
    var j := PageUpJump(z, c, f, pa, corrected);
    if j.selection < j.first then Pos(j.selection, j.selection, true) else j
  }

  /** SCROLL_PAGE_DOWN away from entry MaxIndex up to the last test, the
      mirror image of PageUpJump; corrected adds the missing clamp at 0. */
  function PageDownJump(z: Sizes, c: int, f: int, pa: bool, corrected: bool): Pos {
    var atFirst := c == 0;
    var c0 := if atFirst then (if z.isScrolling then c + (z.maxVisible - 1) else z.maxIndex) else c + z.maxVisible;
    var f0 := if atFirst then f else f + z.maxVisible;
    var c1 := Min(c0, z.maxIndex);
    Pos(if corrected then Max(c1, 0) else c1, Min(f0, z.maxFirstVisible), pa || (!atFirst && f < z.maxFirstVisible))
  }

  /** SCROLL_PAGE_DOWN away from entry MaxIndex: a selection in row 0 below
      the window scrolls it another page. As written the test compares with
      the stored LastVisible lv; corrected compares with the moved window. */
  function PageDownPos(z: Sizes, c: int, f: int, lv: int, pa: bool, corrected: bool): Pos {
    var j := PageDownJump(z, c, f, pa, corrected);
    var last := if corrected then j.first + z.maxVisible else lv;
    if j.selection > last && j.selection <= z.maxScroll then Pos(j.selection, Min(j.first + z.maxVisible, z.maxFirstVisible), true)
    else j
  }

  /** SCROLL_FIRST away from entry 0. */
  function FirstPos(z: Sizes, f: int, pa: bool): Pos {
    if f > 0 then Pos(0, 0, true) else Pos(0, f, pa)
  }

  /** SCROLL_LAST away from entry MaxIndex. */
  function LastPos(z: Sizes, f: int, pa: bool): Pos {
    if f < z.maxFirstVisible then Pos(z.maxIndex, z.maxFirstVisible, true) else Pos(z.maxIndex, f, pa)
  }

  /** SCROLL_NONE: the caller has moved the selection; scroll it into view. */
  function NonePos(z: Sizes, c: int, f: int, lv: int, pa: bool): Pos {
    if c < f then Pos(c, Max(c, 0), true)
    else if c > lv && c <= z.maxScroll then Pos(c, Min(c - z.maxVisible, z.maxFirstVisible), true)
    else Pos(c, f, pa)
  }

  /** The state after a movement that ends at p: the opening and closing
      lines of UpdateScroll around the switch. */
  function Moved(s: Scroll, p: Pos): Scroll {
    Scroll(s.sizes, s.loopMode, p.selection, s.currentSelection, p.first, p.first + s.sizes.maxVisible,
           p.paintAll, s.paintSelection || (!p.paintAll && p.selection != s.currentSelection))
  }

  function Stay(s: Scroll): Pos {
    Pos(s.currentSelection, s.firstVisible, s.paintAll)
  }

  /** UpdateScroll. With corrected false it is the source as written; with
      corrected true the page moves are the corrected ones (see Scrolled).
      A line move at an end in loop mode is the recursive call for SCROLL_LAST
      or SCROLL_FIRST, written out; the closing lines that run again after
      it change nothing. */
  function Update(s: Scroll, m: Movement, corrected: bool): Scroll {
    var z := s.sizes;
    var c := s.currentSelection;
    var f := s.firstVisible;
    match m
    case LineUp =>
      if c > 0 then Moved(s, LineUpPos(z, c, f, s.lastVisible, s.paintAll))
      else if s.loopMode then
        var s' := s.(currentSelection := 0, firstVisible := 0);
        Moved(s', if 0 < z.maxIndex then LastPos(z, 0, s.paintAll) else Stay(s'))
      else Moved(s, Stay(s))
    case LineDown =>
      if c < z.maxIndex then Moved(s, LineDownPos(z, c, f, s.lastVisible, s.paintAll))
      else if s.loopMode then
        var s' := s.(currentSelection := z.maxIndex, firstVisible := z.maxIndex);
        Moved(s', if z.maxIndex > 0 then FirstPos(z, z.maxIndex, s.paintAll) else Stay(s'))
      else Moved(s, Stay(s))
    case PageUp =>
      if c > 0 then Moved(s, PageUpPos(z, c, f, s.paintAll, corrected)) else Moved(s, Stay(s))
    case PageDown =>
      if c < z.maxIndex then Moved(s, PageDownPos(z, c, f, s.lastVisible, s.paintAll, corrected))
      else Moved(s, Stay(s))
    case First =>
      if c > 0 then Moved(s, FirstPos(z, f, s.paintAll)) else Moved(s, Stay(s))
    case Last =>
      if c < z.maxIndex then Moved(s, LastPos(z, f, s.paintAll)) else Moved(s, Stay(s))
    case None => Moved(s, NonePos(z, c, f, s.lastVisible, s.paintAll))
    case ScrollbarMove => Moved(s, Stay(s))
  }

  /** UpdateScroll as the rest of the model uses it: the page moves keep the
      selection an entry, and PAGE_DOWN scrolls a second time only when the
      selection is below the moved window. */
  function Scrolled(s: Scroll, m: Movement): Scroll {
    Update(s, m, true)
  }

  /** Every update ends the same way: the last visible line follows the
      first, the previous selection is recorded, the selection is repainted
      alone exactly when it moved and no full repaint is due, and the sizes,
      the mode and a pending full repaint are kept. */
  lemma UpdateFinishes(s: Scroll, m: Movement, corrected: bool)
    requires InRange(s)
    ensures var t := Update(s, m, corrected);
      && t.lastVisible == t.firstVisible + t.sizes.maxVisible
      && t.lastSelection == s.currentSelection
      && (t.paintSelection <==> s.paintSelection || (!t.paintAll && t.currentSelection != s.currentSelection))
      && (s.paintAll ==> t.paintAll)
      && t.sizes == s.sizes && t.loopMode == s.loopMode
  {
  }

  // Each movement, on integers.

  lemma LineUpKeeps(z: Sizes, c: int, f: int, pa: bool)
    requires Sized(z) && InBounds(z, c, f) && c > 0
    ensures var p := LineUpPos(z, c, f, f + z.maxVisible, pa);
      InBounds(z, p.selection, p.first) && (Shown(z, c, f) ==> Shown(z, p.selection, p.first))
  {
  }

  lemma LineDownKeeps(z: Sizes, c: int, f: int, pa: bool)
    requires Sized(z) && InBounds(z, c, f) && c < z.maxIndex
    ensures var p := LineDownPos(z, c, f, f + z.maxVisible, pa);
      InBounds(z, p.selection, p.first) && (Shown(z, c, f) ==> Shown(z, p.selection, p.first))
  {
  }

  lemma PageUpKeeps(z: Sizes, c: int, f: int, pa: bool)
    requires Sized(z) && InBounds(z, c, f) && c > 0
    ensures var p := PageUpPos(z, c, f, pa, true);
      InBounds(z, p.selection, p.first)
      && (Shown(z, c, f) && z.maxScroll == z.maxIndex ==> Shown(z, p.selection, p.first))
  {
  }

  lemma PageDownKeeps(z: Sizes, c: int, f: int, pa: bool)
    requires Sized(z) && InBounds(z, c, f) && c < z.maxIndex
    ensures var p := PageDownPos(z, c, f, f + z.maxVisible, pa, true);
      InBounds(z, p.selection, p.first) && (Shown(z, c, f) ==> Shown(z, p.selection, p.first))
  {
  }

  lemma NoneKeeps(z: Sizes, c: int, f: int, pa: bool)
    requires Sized(z) && InBounds(z, c, f)
    ensures var p := NonePos(z, c, f, f + z.maxVisible, pa);
      InBounds(z, p.selection, p.first)
      && (c <= z.maxScroll || Shown(z, c, f) ==> Shown(z, p.selection, p.first))
  {
  }

  /** Every movement keeps the selection an entry and the window in its
      bounds. */
  lemma ScrollKeepsRange(s: Scroll, m: Movement)
    requires InRange(s)
    ensures InRange(Scrolled(s, m))
  {
    match m
    case LineUp => LineUpState(s);
    case LineDown => LineDownState(s);
    case PageUp => PageUpState(s);
    case PageDown => PageDownState(s);
    case First => EndsState(s);
    case Last => EndsState(s);
    case None => NoneState(s);
    case ScrollbarMove => MovedKeeps(s, Stay(s));
  }

  /** Every movement but PAGE_UP leaves the selection on screen, and PAGE_UP
      does so in a single-row menu; SCROLL_NONE brings a selection the caller
      moved in row 0 back on screen. */
  lemma ScrollKeepsVisible(s: Scroll, m: Movement)
    requires InRange(s) && (m == None || SelectionVisible(s))
    requires m == PageUp ==> s.sizes.maxScroll == s.sizes.maxIndex
    requires m == None ==> s.currentSelection <= s.sizes.maxScroll
    ensures SelectionVisible(Scrolled(s, m))
  {
    match m
    case LineUp => LineUpState(s);
    case LineDown => LineDownState(s);
    case PageUp => PageUpState(s);
    case PageDown => PageDownState(s);
    case First => EndsState(s);
    case Last => EndsState(s);
    case None => NoneState(s);
    case ScrollbarMove => MovedKeeps(s, Stay(s));
  }

  /** SCROLL_LINE_UP keeps the state in range and the selection on screen. */
  lemma LineUpState(s: Scroll)
    requires InRange(s)
    ensures InRange(Scrolled(s, LineUp))
    ensures SelectionVisible(s) ==> SelectionVisible(Scrolled(s, LineUp))
  {
    var z, c, f, pa := s.sizes, s.currentSelection, s.firstVisible, s.paintAll;
    if c > 0 {
      LineUpKeeps(z, c, f, pa);
      MovedKeeps(s, LineUpPos(z, c, f, s.lastVisible, pa));
    } else if s.loopMode {
      var s' := s.(currentSelection := 0, firstVisible := 0);
      MovedKeeps(s', if 0 < z.maxIndex then LastPos(z, 0, pa) else Stay(s'));
    } else {
      MovedKeeps(s, Stay(s));
    }
  }

  /** SCROLL_LINE_DOWN keeps the state in range and the selection on screen. */
  lemma LineDownState(s: Scroll)
    requires InRange(s)
    ensures InRange(Scrolled(s, LineDown))
    ensures SelectionVisible(s) ==> SelectionVisible(Scrolled(s, LineDown))
  {
    var z, c, f, pa := s.sizes, s.currentSelection, s.firstVisible, s.paintAll;
    if c < z.maxIndex {
      LineDownKeeps(z, c, f, pa);
      MovedKeeps(s, LineDownPos(z, c, f, s.lastVisible, pa));
    } else if s.loopMode {
      var s' := s.(currentSelection := z.maxIndex, firstVisible := z.maxIndex);
      MovedKeeps(s', if z.maxIndex > 0 then FirstPos(z, z.maxIndex, pa) else Stay(s'));
    } else {
      MovedKeeps(s, Stay(s));
    }
  }

  /** The corrected SCROLL_PAGE_UP keeps the state in range, and the
      selection on screen in a single-row menu. */
  lemma PageUpState(s: Scroll)
    requires InRange(s)
    ensures InRange(Scrolled(s, PageUp))
    ensures SelectionVisible(s) && s.sizes.maxScroll == s.sizes.maxIndex ==> SelectionVisible(Scrolled(s, PageUp))
  {
    var z, c, f, pa := s.sizes, s.currentSelection, s.firstVisible, s.paintAll;
    if c > 0 {
      PageUpKeeps(z, c, f, pa);
      MovedKeeps(s, PageUpPos(z, c, f, pa, true));
    } else {
      MovedKeeps(s, Stay(s));
    }
  }

  /** The corrected SCROLL_PAGE_DOWN keeps the state in range and the
      selection on screen. */
  lemma PageDownState(s: Scroll)
    requires InRange(s)
    ensures InRange(Scrolled(s, PageDown))
    ensures SelectionVisible(s) ==> SelectionVisible(Scrolled(s, PageDown))
  {
    var z, c, f, pa := s.sizes, s.currentSelection, s.firstVisible, s.paintAll;
    if c < z.maxIndex {
      PageDownKeeps(z, c, f, pa);
      MovedKeeps(s, PageDownPos(z, c, f, s.lastVisible, pa, true));
    } else {
      MovedKeeps(s, Stay(s));
    }
  }

  /** SCROLL_FIRST and SCROLL_LAST keep the state in range and the
      selection on screen. */
  lemma EndsState(s: Scroll)
    requires InRange(s)
    ensures InRange(Scrolled(s, First)) && InRange(Scrolled(s, Last))
    ensures SelectionVisible(s) ==> SelectionVisible(Scrolled(s, First)) && SelectionVisible(Scrolled(s, Last))
  {
    var z, c, f, pa := s.sizes, s.currentSelection, s.firstVisible, s.paintAll;
    MovedKeeps(s, if c > 0 then FirstPos(z, f, pa) else Stay(s));
    MovedKeeps(s, if c < z.maxIndex then LastPos(z, f, pa) else Stay(s));
  }

  /** SCROLL_NONE keeps the state in range and brings a selection in row 0
      on screen; a selection in row 1 stays where it was shown. */
  lemma NoneState(s: Scroll)
    requires InRange(s)
    ensures InRange(Scrolled(s, None))
    ensures s.currentSelection <= s.sizes.maxScroll || SelectionVisible(s) ==> SelectionVisible(Scrolled(s, None))
  {
    var z, c, f, pa := s.sizes, s.currentSelection, s.firstVisible, s.paintAll;
    NoneKeeps(z, c, f, pa);
    MovedKeeps(s, NonePos(z, c, f, s.lastVisible, pa));
  }

  /** A movement that ends in bounds leaves the state in range, and with the
      selection on screen when it ends on screen. */
  lemma MovedKeeps(s: Scroll, p: Pos)
    requires Sized(s.sizes) && InBounds(s.sizes, p.selection, p.first)
    ensures InRange(Moved(s, p))
    ensures Shown(s.sizes, p.selection, p.first) ==> SelectionVisible(Moved(s, p))
  {
  }

  /** SCROLL_FIRST selects entry 0 and SCROLL_LAST entry MaxIndex; the
      window moves to its first or last position, at once when the
      selection was on screen. */
  lemma FirstAndLast(s: Scroll)
    requires InRange(s)
    ensures Scrolled(s, First).currentSelection == 0
    ensures Scrolled(s, First).firstVisible <= s.firstVisible
    ensures s.currentSelection > 0 ==> Scrolled(s, First).firstVisible == 0
    ensures Scrolled(s, Last).currentSelection == s.sizes.maxIndex
    ensures Scrolled(s, Last).firstVisible >= s.firstVisible
    ensures s.currentSelection < s.sizes.maxIndex ==> Scrolled(s, Last).firstVisible == s.sizes.maxFirstVisible
    ensures SelectionVisible(s) ==>
      Scrolled(s, First).firstVisible == 0 && Scrolled(s, Last).firstVisible == s.sizes.maxFirstVisible
  {
  }

  /** The line moves step by one entry; at an end they wrap round in loop
      mode and change neither the selection nor the window otherwise. */
  lemma LineMoves(s: Scroll)
    requires InRange(s)
    ensures s.currentSelection > 0 ==> Scrolled(s, LineUp).currentSelection == s.currentSelection - 1
    ensures s.currentSelection == 0 && s.loopMode ==> Scrolled(s, LineUp).currentSelection == s.sizes.maxIndex
    ensures s.currentSelection == 0 && !s.loopMode ==>
      Scrolled(s, LineUp).currentSelection == 0 && Scrolled(s, LineUp).firstVisible == s.firstVisible
      && Scrolled(s, LineUp).paintAll == s.paintAll
    ensures s.currentSelection < s.sizes.maxIndex ==>
      Scrolled(s, LineDown).currentSelection == s.currentSelection + 1
    ensures s.currentSelection == s.sizes.maxIndex && s.loopMode ==> Scrolled(s, LineDown).currentSelection == 0
    ensures s.currentSelection == s.sizes.maxIndex && !s.loopMode ==>
      Scrolled(s, LineDown).currentSelection == s.sizes.maxIndex
      && Scrolled(s, LineDown).firstVisible == s.firstVisible && Scrolled(s, LineDown).paintAll == s.paintAll
  {
  }

  /** As written, the page moves keep the bounds they clamp: PAGE_UP keeps
      the selection and the window start at or above 0, PAGE_DOWN keeps them
      at or below MaxIndex and MaxFirstVisible. */
  lemma PageClampsAsWritten(s: Scroll)
    requires InRange(s)
    ensures Update(s, PageUp, false).currentSelection >= 0 && Update(s, PageUp, false).firstVisible >= 0
    ensures Update(s, PageDown, false).currentSelection <= s.sizes.maxIndex
    ensures Update(s, PageDown, false).firstVisible <= s.sizes.maxFirstVisible
  {
  }

  /** As written, the page moves leave the other bound open: with a
      one-line window (MaxVisible 0) over two entries, PAGE_UP from the last
      entry selects entry 2 of 0 .. 1, and PAGE_DOWN from the first selects
      entry -1. */
  lemma PageUpAsWrittenLeavesRange()
    ensures var s := Init(2, 2, 1, 1, false);
      InRange(s) && Update(s, PageUp, false).currentSelection == 2 > s.sizes.maxIndex
  {
    var s := Init(2, 2, 1, 1, false);
    assert s == Scroll(Sizes(1, 1, 0, 1, true), false, 1, 1, 1, 1, true, false);
    assert PageUpPos(s.sizes, 1, 1, true, false).selection == 2;
  }

  lemma PageDownAsWrittenLeavesRange()
    ensures var s := Init(2, 2, 1, 0, false);
      InRange(s) && Update(s, PageDown, false).currentSelection == -1
  {
    var s := Init(2, 2, 1, 0, false);
    assert s == Scroll(Sizes(1, 1, 0, 1, true), false, 0, 0, 0, 0, true, false);
    assert PageDownPos(s.sizes, 0, 0, 0, true, false).selection == -1;
  }

  /** As written, PAGE_DOWN compares the moved selection with the window
      before the move and so scrolls a second page: in a 101-entry text menu
      with a six-line window, after one LINE_DOWN the selection is entry 1 of
      lines 0 .. 5; PAGE_DOWN selects entry 6 but shows lines 10 .. 15. */
  lemma PageDownAsWrittenHidesSelection()
    ensures var s := Update(Init(101, 101, 6, 0, true), LineDown, false);
      var t := Update(s, PageDown, false);
      && SelectionVisible(s) && s.currentSelection == 1
      && t.currentSelection == 6 && t.firstVisible == 10 && !SelectionVisible(t)
  {
  }

  /** SCROLL_STATE as a record updated in place. */
  class ScrollState {
    var currentSelection: int
    var lastSelection: int
    var maxScroll: int
    var maxIndex: int
    var firstVisible: int
    var lastVisible: int
    var maxVisible: int
    var maxFirstVisible: int
    var isScrolling: bool
    var paintAll: bool
    var paintSelection: bool
    var loopMode: bool

    function State(): Scroll
      reads this
    {
      Scroll(Sizes(maxIndex, maxScroll, maxVisible, maxFirstVisible, isScrolling), loopMode,
             currentSelection, lastSelection, firstVisible, lastVisible, paintAll, paintSelection)
    }

    method InitScroll(itemCount: int, maxCount: nat, visibleSpace: nat, selected: int)
      modifies this
      ensures State() == Init(itemCount, maxCount, visibleSpace, selected, old(loopMode))
    {
      currentSelection := selected;
      lastSelection := selected;
      maxIndex := maxCount - 1;
      maxScroll := itemCount - 1;
      maxVisible := if visibleSpace == 0 then maxScroll else visibleSpace - 1;
      if maxVisible >= itemCount {
        maxVisible := itemCount - 1;
      }
      maxFirstVisible := Max(maxScroll - maxVisible, 0);
      if selected == NoSelection {
        firstVisible := 0;
        currentSelection := 1;
        lastSelection := 1;
      } else {
        firstVisible := Min(selected, maxFirstVisible);
      }
      isScrolling := maxFirstVisible > 0;
      paintAll := true;
      paintSelection := false;
      lastVisible := firstVisible + maxVisible;
    }

    /** UpdateScroll: one method per movement code. */
    method UpdateScroll(movement: Movement)
      modifies this
      ensures State() == Scrolled(old(State()), movement)
    {
      match movement {
        case LineUp => ScrollLineUp();
        case LineDown => ScrollLineDown();
        case PageUp => ScrollPageUp();
        case PageDown => ScrollPageDown();
        case First => ScrollFirst();
        case Last => ScrollLast();
        case None => ScrollNone();
        case ScrollbarMove =>
          lastSelection := currentSelection;
          Finish();
      }
    }

    /** The closing lines of UpdateScroll: the selection is repainted alone
        when it moved and no full repaint is due, and the last visible line
        follows the first. */
    method Finish()
      modifies this
      ensures paintSelection == (old(paintSelection) || (!paintAll && currentSelection != lastSelection))
      ensures lastVisible == firstVisible + maxVisible
      ensures currentSelection == old(currentSelection) && lastSelection == old(lastSelection)
      ensures firstVisible == old(firstVisible) && paintAll == old(paintAll) && loopMode == old(loopMode)
      ensures maxIndex == old(maxIndex) && maxScroll == old(maxScroll) && maxVisible == old(maxVisible)
      ensures maxFirstVisible == old(maxFirstVisible) && isScrolling == old(isScrolling)
    {
      if !paintAll && currentSelection != lastSelection {
        paintSelection := true;
      }
      lastVisible := firstVisible + maxVisible;
    }

    /** SCROLL_FIRST. */
    method ScrollFirst()
      modifies this
      ensures State() == Scrolled(old(State()), First)
    {
      lastSelection := currentSelection;
      if currentSelection > 0 {
        currentSelection := 0;
        if firstVisible > 0 {
          paintAll := true;
          firstVisible := 0;
        }
      }
      Finish();
    }

    /** SCROLL_LAST. */
    method ScrollLast()
      modifies this
      ensures State() == Scrolled(old(State()), Last)
    {
      lastSelection := currentSelection;
      if currentSelection < maxIndex {
        currentSelection := maxIndex;
        if firstVisible < maxFirstVisible {
          paintAll := true;
          firstVisible := maxFirstVisible;
        }
      }
      Finish();
    }

    /** SCROLL_LINE_UP; from entry 0 in loop mode it continues as
        SCROLL_LAST from the top of the list. */
    method ScrollLineUp()
      modifies this
      ensures State() == Scrolled(old(State()), LineUp)
    {
      lastSelection := currentSelection;
      if currentSelection > 0 {
        currentSelection := currentSelection - 1;
        if currentSelection < firstVisible {
          paintAll := true;
          firstVisible := currentSelection;
        }
        if currentSelection == maxScroll {
          paintAll := true;
        }
        if currentSelection < maxScroll && currentSelection > lastVisible {
          paintAll := true;
          lastVisible := currentSelection;
          firstVisible := lastVisible - maxVisible;
        }
      } else if loopMode {
        currentSelection := 0;
        firstVisible := 0;
        ScrollLast();
      }
      Finish();
    }

    /** SCROLL_LINE_DOWN; from entry MaxIndex in loop mode it continues as
        SCROLL_FIRST. */
    method ScrollLineDown()
      modifies this
      ensures State() == Scrolled(old(State()), LineDown)
    {
      lastSelection := currentSelection;
      if currentSelection < maxIndex {
        currentSelection := currentSelection + 1;
        if currentSelection > lastVisible && currentSelection <= maxScroll {
          paintAll := true;
          firstVisible := firstVisible + 1;
          if firstVisible > maxFirstVisible {
            firstVisible := maxFirstVisible;
          }
        }
      } else if loopMode {
        currentSelection := maxIndex;
        firstVisible := maxIndex;
        ScrollFirst();
      }
      Finish();
    }

    /** SCROLL_NONE. */
    method ScrollNone()
      modifies this
      ensures State() == Scrolled(old(State()), None)
    {
      lastSelection := currentSelection;
      if currentSelection < firstVisible {
        paintAll := true;
        firstVisible := Max(currentSelection, 0);
      } else if currentSelection > lastVisible && currentSelection <= maxScroll {
        paintAll := true;
        firstVisible := Min(currentSelection - maxVisible, maxFirstVisible);
      }
      Finish();
    }

    /** SCROLL_PAGE_UP, with the clamp at MaxIndex added. */
    method ScrollPageUp()
      modifies this
      ensures State() == Scrolled(old(State()), PageUp)
    {
      lastSelection := currentSelection;
      if currentSelection > 0 {
        PageUpJumpStep();
        if currentSelection < firstVisible {
          paintAll := true;
          firstVisible := currentSelection;
        }
      }
      Finish();
    }

    /** SCROLL_PAGE_DOWN, with the clamp at 0 added and the second scroll
        tested against the moved window. */
    method ScrollPageDown()
      modifies this
      ensures State() == Scrolled(old(State()), PageDown)
    {
      lastSelection := currentSelection;
      if currentSelection < maxIndex {
        PageDownJumpStep();
        if currentSelection > firstVisible + maxVisible && currentSelection <= maxScroll {
          paintAll := true;
          firstVisible := Min(firstVisible + maxVisible, maxFirstVisible);
        }
      }
      Finish();
    }

    /** The page move of SCROLL_PAGE_UP and its clamps. */
    method PageUpJumpStep()
      modifies this
      ensures var p := PageUpJump(old(State()).sizes, old(currentSelection), old(firstVisible), old(paintAll), true);
        currentSelection == p.selection && firstVisible == p.first && paintAll == p.paintAll
      ensures maxIndex == old(maxIndex) && maxScroll == old(maxScroll) && maxVisible == old(maxVisible)
      ensures maxFirstVisible == old(maxFirstVisible) && isScrolling == old(isScrolling) && loopMode == old(loopMode)
      ensures lastSelection == old(lastSelection) && lastVisible == old(lastVisible) && paintSelection == old(paintSelection)
    {
      if currentSelection == maxIndex {
        if isScrolling {
          currentSelection := currentSelection - (maxVisible - 1);
        } else {
          currentSelection := 0;
        }
      } else {
        if firstVisible > 0 {
          paintAll := true;
        }
        currentSelection := currentSelection - maxVisible;
        firstVisible := firstVisible - maxVisible;
      }
      currentSelection := Min(Max(currentSelection, 0), maxIndex);
      firstVisible := Max(firstVisible, 0);
    }

    /** The page move of SCROLL_PAGE_DOWN and its clamps. */
    method PageDownJumpStep()
      modifies this
      ensures var p := PageDownJump(old(State()).sizes, old(currentSelection), old(firstVisible), old(paintAll), true);
        currentSelection == p.selection && firstVisible == p.first && paintAll == p.paintAll
      ensures maxIndex == old(maxIndex) && maxScroll == old(maxScroll) && maxVisible == old(maxVisible)
      ensures maxFirstVisible == old(maxFirstVisible) && isScrolling == old(isScrolling) && loopMode == old(loopMode)
      ensures lastSelection == old(lastSelection) && lastVisible == old(lastVisible) && paintSelection == old(paintSelection)
    {
      if currentSelection == 0 {
        if isScrolling {
          currentSelection := currentSelection + (maxVisible - 1);
        } else {
          currentSelection := maxIndex;
        }
      } else {
        if firstVisible < maxFirstVisible {
          paintAll := true;
        }
        currentSelection := currentSelection + maxVisible;
        firstVisible := firstVisible + maxVisible;
      }
      currentSelection := Max(Min(currentSelection, maxIndex), 0);
      firstVisible := Min(firstVisible, maxFirstVisible);
    }
  }

  // ---------------------------------------------------------------------
  // Shortcut keys

  /** The two shortcut characters of a menu entry. */
  datatype MenuEntry = MenuEntry(shortcutDigit: char, shortcutLetter: char)

  predicate IsDigit(c: char) { '0' <= c <= '9' }
  predicate IsAlfa(c: char) { 'a' <= c <= 'z' || 'A' <= c <= 'Z' }

  predicate Hits(e: MenuEntry, key: char) {
    e.shortcutDigit == key || e.shortcutLetter == key
  }

  /** The first entry whose shortcut digit or letter is the key, or -1 when
      the key is neither a digit nor a letter or no entry has it. */
  method FindMenuShortcutEntry(entries: seq<MenuEntry>, shortcut: char) returns (r: int)
    ensures -1 <= r < |entries|
    ensures r >= 0 ==> (IsDigit(shortcut) || IsAlfa(shortcut)) && Hits(entries[r], shortcut)
    ensures r >= 0 ==> forall j :: 0 <= j < r ==> !Hits(entries[j], shortcut)
    ensures r == -1 <==>
      !(IsDigit(shortcut) || IsAlfa(shortcut)) || forall j :: 0 <= j < |entries| ==> !Hits(entries[j], shortcut)
  {
    if IsDigit(shortcut) || IsAlfa(shortcut) {
      var i := 0;
      while i < |entries|
        invariant 0 <= i <= |entries|
        invariant forall j :: 0 <= j < i ==> !Hits(entries[j], shortcut)
      {
        if entries[i].shortcutDigit == shortcut || entries[i].shortcutLetter == shortcut {
          return i;
        }
        i := i + 1;
      }
    }
    return -1;
  }
}
