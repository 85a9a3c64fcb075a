/** Properties of the selection engine's transitions. */
module EngineFacts {
  import opened Wrappers
  import opened Utf8
  import opened Model
  import opened Keys
  import opened Ranking
  import opened Style
  import opened Engine

  // ---------------------------------------------------------------------------
  // Modifiers (keymap.rs dispatch_key)

  /** Ctrl-c exits in either mode and changes nothing; any other Control key, and
      any modifier set other than NONE and CONTROL, is ignored. */
  lemma ModifierFilter<T>(s: State<T>, key: KeyEvent, m: Matcher)
    requires CursorOk(s)
    ensures key == KeyEvent(Char('c'), CONTROL) ==> DispatchKey(s, key, m) == Step(s, true)
    ensures key.modifiers == CONTROL && key.code != Char('c') ==> DispatchKey(s, key, m) == Step(s, false)
    ensures key.modifiers != CONTROL && key.modifiers != NONE ==> DispatchKey(s, key, m) == Step(s, false)
  {
  }

  // ---------------------------------------------------------------------------
  // Navigation

  /** Up moves the highlighted position up by one, stopping at the top; at the
      top of the screen it scrolls instead of moving the row. */
  lemma KeyUpMoves<T>(s: State<T>)
    ensures Pos(KeyUp(s)) == Sat(Pos(s), 1)
    ensures s.selectionIdx == 0 ==> KeyUp(s).selectionIdx == 0 && KeyUp(s).scrollOffset == Sat(s.scrollOffset, 1)
    ensures s.selectionIdx > 0 ==> KeyUp(s).selectionIdx + 1 == s.selectionIdx && KeyUp(s).scrollOffset == s.scrollOffset
    ensures KeyUp(s) == s.(selectionIdx := KeyUp(s).selectionIdx, scrollOffset := KeyUp(s).scrollOffset)
  {
  }

  /** Down moves the highlighted position down by one unless it is on the last
      row of the active list; at the bottom of the screen it scrolls instead. */
  lemma KeyDownMoves<T>(s: State<T>)
    ensures Pos(s) + 1 >= ActiveCount(s) ==> KeyDown(s) == s
    ensures Pos(s) + 1 < ActiveCount(s) ==> Pos(KeyDown(s)) == Pos(s) + 1
    ensures Pos(s) + 1 < ActiveCount(s) && s.selectionIdx + 3 == s.maxRow ==>
      KeyDown(s).selectionIdx == s.selectionIdx && KeyDown(s).scrollOffset == s.scrollOffset + 1
    ensures Pos(s) + 1 < ActiveCount(s) && s.selectionIdx + 3 < s.maxRow ==>
      KeyDown(s).selectionIdx == s.selectionIdx + 1 && KeyDown(s).scrollOffset == s.scrollOffset
    ensures KeyDown(s) == s.(selectionIdx := KeyDown(s).selectionIdx, scrollOffset := KeyDown(s).scrollOffset)
  {
  }

  /** A record that differs only in the selection, the scroll offset or the
      selected flag keeps the record invariant. */
  lemma WFFrame<T>(s: State<T>, r: State<T>)
    requires WF(s)
    requires r.query == s.query && r.insertPos == s.insertPos && r.queryCursorCol == s.queryCursorCol
    requires r.mode == s.mode && r.matched == s.matched && r.items == s.items
    ensures WF(r)
  {
  }

  /** Up keeps the record invariant and the highlighted row on the screen and
      inside the list. */
  lemma KeyUpKeepsWF<T>(s: State<T>)
    requires WF(s)
    ensures WF(KeyUp(s)) && (InBounds(s) ==> InBounds(KeyUp(s)))
  {
    WFFrame(s, KeyUp(s));
  }

  /** Down keeps the record invariant and the highlighted row on the screen and
      inside the list. */
  lemma KeyDownKeepsWF<T>(s: State<T>)
    requires WF(s)
    ensures WF(KeyDown(s)) && (InBounds(s) ==> InBounds(KeyDown(s)))
  {
    KeyDownMoves(s);
    WFFrame(s, KeyDown(s));
    if InBounds(s) {
      KeyDownInBounds(s);
    }
  }

  lemma KeyDownInBounds<T>(s: State<T>)
    requires InBounds(s) && |s.matched| <= |s.items|
    ensures InBounds(KeyDown(s))
  {
  }

  // ---------------------------------------------------------------------------
  // The key tables

  /** Normal mode: Enter selects and exits, Esc exits without selecting, '/'
      switches to Query mode, every other key does nothing. */
  lemma NormalModeKeys<T>(s: State<T>, code: KeyCode, m: Matcher)
    requires CursorOk(s) && s.mode == Normal
    ensures var r := DispatchKey(s, KeyEvent(code, NONE), m);
      (code == Enter ==> r.exit && r.state == s.(selected := true)) &&
      (code == Esc ==> r == Step(s, true)) &&
      (code == Char('/') ==> !r.exit && r.state.mode == Query) &&
      (code !in {Up, Char('k'), Down, Char('j'), Esc, Enter, Char('/')} ==> r == Step(s, false))
  {
  }

  /** Query mode: Esc returns to Normal mode and never exits; Enter selects and
      exits, even when nothing matched. */
  lemma QueryModeEscEnter<T>(s: State<T>, m: Matcher)
    requires CursorOk(s) && s.mode == Query
    ensures DispatchKey(s, KeyEvent(Esc, NONE), m) == Step(EnterNormal(s), false)
    ensures EnterNormal(s).mode == Normal
    ensures DispatchKey(s, KeyEvent(Enter, NONE), m) == Step(s.(selected := true), true)
  {
  }

  // ---------------------------------------------------------------------------
  // Query editing

  /** Typing a character inserts it at the cursor, moves the cursor over it by its
      UTF-8 length and the column by its cells, and re-runs matching. */
  lemma InsertCharFacts<T>(s: State<T>, c: char, m: Matcher)
    requires CursorOk(s)
    ensures var r := InsertChar(s, c, m);
      var k := CharIndex(s.query, s.insertPos);
      r.query == s.query[..k] + [c] + s.query[k..] &&
      r.insertPos == s.insertPos + Utf8Len(c) &&
      r.queryCursorCol == s.queryCursorCol + Cells(c) &&
      CursorOk(r) && CharIndex(r.query, r.insertPos) == k + 1 &&
      r.selectionIdx == 0 && r.scrollOffset == 0 &&
      r.matched == Rank(m, s.items, r.query)
  {
    var k := CharIndex(s.query, s.insertPos);
    var q := InsertAt(s.query, s.insertPos, c);
    InsertAtSplits(s.query, s.insertPos, c);
    WidthStep(q, k);
    assert q[..k] == s.query[..k];
  }

  /** Backspace on an empty query does nothing; otherwise it removes exactly one
      character, the one before the cursor (the first one when the cursor is at
      0), moves the cursor back over it, and re-runs matching. */
  lemma BackspaceFacts<T>(s: State<T>, m: Matcher)
    requires CursorOk(s)
    ensures s.query == [] ==> KeyBackspace(s, m) == s
    ensures s.query != [] ==>
      var r := KeyBackspace(s, m);
      var k := CharIndex(s.query, s.insertPos);
      var j := if k == 0 then 0 else k - 1;
      j < |s.query| &&
      r.query == s.query[..j] + s.query[j + 1..] &&
      r.insertPos == PrevBoundary(s.query, s.insertPos) &&
      CursorOk(r) && r.selectionIdx == 0 && r.scrollOffset == 0 &&
      r.matched == Rank(m, s.items, r.query)
  {
    if s.query != [] {
      BackspaceEditFacts(s);
    }
  }

  /** The edit of Backspace, before matching runs again. */
  lemma BackspaceEditFacts<T>(s: State<T>)
    requires CursorOk(s) && s.query != []
    ensures var e := BackspaceEdit(s);
      var k := CharIndex(s.query, s.insertPos);
      var j := if k == 0 then 0 else k - 1;
      j < |s.query| &&
      e.query == s.query[..j] + s.query[j + 1..] &&
      e.insertPos == PrevBoundary(s.query, s.insertPos) && CursorOk(e)
  {
    var q, b := s.query, s.insertPos;
    var pos := PrevBoundary(q, b);
    BackspaceText(q, b);
    var t, c := RemoveAt(q, pos), CharAt(q, pos);
    BackspaceEditRemoves(s, t, c);
    if b > 0 {
      TakeOutBefore(q, b, t, c);
      CursorStepBack(q, b);
    }
  }

  /** Left never changes the query text; away from the start it moves the cursor
      to the previous boundary and the column back by that character's cells. */
  lemma MoveLeftFacts<T>(s: State<T>)
    requires CursorOk(s)
    ensures MoveLeft(s).query == s.query
    ensures s.insertPos == 0 ==> MoveLeft(s) == s
    ensures s.insertPos > 0 ==>
      MoveLeft(s).insertPos == PrevBoundary(s.query, s.insertPos) &&
      CharIndex(s.query, MoveLeft(s).insertPos) + 1 == CharIndex(s.query, s.insertPos)
    ensures CursorOk(MoveLeft(s))
    ensures MoveLeft(s) == s.(insertPos := MoveLeft(s).insertPos, queryCursorCol := MoveLeft(s).queryCursorCol)
  {
    if s.insertPos > 0 {
      CursorStepBack(s.query, s.insertPos);
    }
  }

  /** Right never changes the query text; before the end it moves the cursor to
      the next boundary and the column on by that character's cells. */
  lemma MoveRightFacts<T>(s: State<T>)
    requires CursorOk(s)
    ensures MoveRight(s).query == s.query
    ensures s.insertPos == ByteLen(s.query) ==> MoveRight(s) == s
    ensures s.insertPos < ByteLen(s.query) ==>
      MoveRight(s).insertPos == NextBoundary(s.query, s.insertPos) &&
      CharIndex(s.query, MoveRight(s).insertPos) == CharIndex(s.query, s.insertPos) + 1
    ensures CursorOk(MoveRight(s))
    ensures MoveRight(s) == s.(insertPos := MoveRight(s).insertPos, queryCursorCol := MoveRight(s).queryCursorCol)
  {
    var k := CharIndex(s.query, s.insertPos);
    OffsetEnd(s.query);
    OffsetBounded(s.query, k);
    if s.insertPos < ByteLen(s.query) {
      WidthStep(s.query, k);
    }
  }

  /** On an ASCII query, Right as written leaves the text alone and steps the
      cursor by one while it is before the last character: it agrees with Right. */
  lemma RightAsWrittenOnAscii<T>(s: State<T>)
    requires CursorOk(s) && IsAscii(s.query) && s.insertPos + 1 < |s.query|
    ensures MoveRightAsWritten(s) == Some(MoveRight(s))
    ensures MoveRight(s).query == s.query && MoveRight(s).insertPos == s.insertPos + 1
  {
    var q, b := s.query, s.insertPos;
    AsciiShiftNext(q, b);
    var c := q[b + 1];
    assert Cells(c) == 1 && Cells(q[b]) == 1;
    RightAsWrittenShifts(s, q, c);
    RightSteps(s);
  }

  /** Right as written before the last character, given what ShiftNext returns. */
  lemma RightAsWrittenShifts<T>(s: State<T>, q: string, c: char)
    requires IsBoundary(s.query, s.insertPos) && s.insertPos < LastCharPos(s.query)
    requires ShiftNext(s.query, s.insertPos) == Some(q) && ShiftedChar(s.query, s.insertPos) == c
    ensures MoveRightAsWritten(s) == Some(s.(query := q, insertPos := s.insertPos + Utf8Len(c),
                                             queryCursorCol := s.queryCursorCol + Cells(c)))
  {
  }

  /** Right before the end steps to the next boundary and over one character's cells. */
  lemma RightSteps<T>(s: State<T>)
    requires IsBoundary(s.query, s.insertPos) && s.insertPos < ByteLen(s.query)
    ensures CharIndex(s.query, s.insertPos) < |s.query|
    ensures MoveRight(s) == s.(insertPos := NextBoundary(s.query, s.insertPos),
                               queryCursorCol := s.queryCursorCol + Cells(s.query[CharIndex(s.query, s.insertPos)]))
  {
    OffsetEnd(s.query);
    OffsetBounded(s.query, CharIndex(s.query, s.insertPos));
  }

  /** On ASCII text before the last character, ShiftNext puts the moved
      character back where it was. */
  lemma AsciiShiftNext(q: string, b: nat)
    requires IsAscii(q) && b + 1 < |q|
    ensures IsBoundary(q, b) && CharIndex(q, b) == b && b < LastCharPos(q)
    ensures NextBoundary(q, b) == b + 1 && b + 1 < ByteLen(q)
    ensures ShiftNext(q, b) == Some(q) && ShiftedChar(q, b) == q[b + 1] && Utf8Len(q[b + 1]) == 1
  {
    AsciiStep(q, b);
    ShiftNextOneByte(q, b);
  }

  /** On ASCII text the cursor at `b` and the next boundary `b + 1` are both
      character indices, and the character at `b + 1` is one byte long. */
  lemma AsciiStep(q: string, b: nat)
    requires IsAscii(q) && b + 1 < |q|
    ensures IsBoundary(q, b) && CharIndex(q, b) == b && b < LastCharPos(q)
    ensures NextBoundary(q, b) == b + 1 && b + 1 < ByteLen(q)
    ensures IsBoundary(q, b + 1) && CharIndex(q, b + 1) == b + 1 && Utf8Len(q[b + 1]) == 1
  {
    AsciiAt(q, b);
    AsciiBeforeLast(q, b);
    AsciiNextBoundary(q, b);
    AsciiLen(q);
    AsciiAt(q, b + 1);
  }

  /** When the character starting at the next boundary is one byte long, ShiftNext
      puts it back where it was. */
  lemma ShiftNextOneByte(q: string, b: nat)
    requires IsBoundary(q, b) && b < LastCharPos(q) && NextBoundary(q, b) == b + 1 && b + 1 < ByteLen(q)
    requires IsBoundary(q, b + 1) && CharIndex(q, b + 1) == b + 1 && b + 1 < |q| && Utf8Len(q[b + 1]) == 1
    ensures ShiftNext(q, b) == Some(q) && ShiftedChar(q, b) == q[b + 1]
  {
    assert ShiftFrom(q, b) == b + 1;
    RemoveAtSplits(q, b + 1);
    assert ShiftedChar(q, b) == q[b + 1];
    RemoveAtInverse(q, b + 1);
    assert IsBoundary(RemoveAt(q, b + 1), b + 1);
  }

  /** On ASCII text a byte two or more before the end is before the last character. */
  lemma AsciiBeforeLast(q: string, b: nat)
    requires IsAscii(q) && b + 1 < |q|
    ensures b < LastCharPos(q)
  {
    AsciiLastCharPos(q);
  }

  /** On nonempty ASCII text the last character starts one byte before the end. */
  lemma AsciiLastCharPos(q: string)
    requires IsAscii(q) && q != []
    ensures LastCharPos(q) + 1 == |q|
  {
    AsciiOffset(q, |q|);
    OffsetEnd(q);
    AsciiBoundary(q, LastCharPos(q));
  }

  // ---------------------------------------------------------------------------
  // Matching

  /** After matching the selection is at the top, the matched list holds each
      accepted index exactly once and nothing else, it is ordered by
      non-increasing score with ties in index order, and accepted items carry the
      matcher's score and positions while the others keep theirs. */
  lemma RematchFacts<T>(s: State<T>, m: Matcher)
    ensures var r := Rematch(s, m);
      r.selectionIdx == 0 && r.scrollOffset == 0 && r.query == s.query &&
      |r.items| == |s.items| &&
      (forall i: nat :: multiset(r.matched)[i] == if i < |s.items| && Accepts(m, s.items[i], s.query) then 1 else 0) &&
      Descending(r.items, r.matched) && TiesAscending(r.items, r.matched) &&
      |r.matched| <= |r.items| && (forall i :: 0 <= i < |r.matched| ==> r.matched[i] < |r.items|)
    ensures forall i :: 0 <= i < |s.items| ==>
      var it := Rematch(s, m).items[i];
      it.alias == s.items[i].alias && it.value == s.items[i].value &&
      (Accepts(m, s.items[i], s.query) ==>
        it.score == Some(m(s.items[i].alias, s.query).value.score) &&
        it.matchedIndices == Some(m(s.items[i].alias, s.query).value.positions)) &&
      (!Accepts(m, s.items[i], s.query) ==> it == s.items[i])
  {
    forall i: nat {
      RankCount(m, s.items, s.query, i);
    }
    RankOrdered(m, s.items, s.query);
    RankLength(m, s.items, s.query);
    var r := Rematch(s, m);
    forall i | 0 <= i < |r.matched| ensures r.matched[i] < |r.items| {
      assert r.matched[i] in r.matched;
    }
    forall i | 0 <= i < |s.items| {
      ScoredItems(m, s.items, s.query, i);
    }
  }

  // ---------------------------------------------------------------------------
  // Invariants under dispatch

  /** Matching keeps the record invariant, and with at least three rows it puts
      the highlighted row back inside the list. */
  lemma RematchKeeps<T>(s: State<T>, m: Matcher)
    requires CursorOk(s) && s.mode == Query
    ensures WF(Rematch(s, m))
    ensures s.maxRow >= 3 ==> InBounds(Rematch(s, m))
  {
    RankLength(m, s.items, s.query);
    var r := Rematch(s, m);
    assert r.query == s.query && r.insertPos == s.insertPos && r.queryCursorCol == s.queryCursorCol;
    assert CursorOk(r);
  }

  lemma LeftKeeps<T>(s: State<T>)
    requires WF(s)
    ensures WF(MoveLeft(s)) && (InBounds(s) ==> InBounds(MoveLeft(s)))
  {
    MoveLeftFacts(s);
  }

  lemma RightKeeps<T>(s: State<T>)
    requires WF(s)
    ensures WF(MoveRight(s)) && (InBounds(s) ==> InBounds(MoveRight(s)))
  {
    MoveRightFacts(s);
  }

  lemma InsertCharKeeps<T>(s: State<T>, c: char, m: Matcher)
    requires WF(s) && s.mode == Query
    ensures WF(InsertChar(s, c, m)) && (InBounds(s) ==> InBounds(InsertChar(s, c, m)))
  {
    InsertCharFacts(s, c, m);
    var r := InsertChar(s, c, m);
    RankLength(m, s.items, r.query);
  }

  lemma BackspaceKeeps<T>(s: State<T>, m: Matcher)
    requires WF(s) && s.mode == Query
    ensures WF(KeyBackspace(s, m)) && (InBounds(s) ==> InBounds(KeyBackspace(s, m)))
  {
    BackspaceFacts(s, m);
    if s.query != [] {
      RankLength(m, s.items, KeyBackspace(s, m).query);
    }
  }

  lemma EnterKeeps<T>(s: State<T>)
    requires WF(s)
    ensures WF(KeyEnter(s)) && (InBounds(s) ==> InBounds(KeyEnter(s)))
  {
    WFFrame(s, KeyEnter(s));
  }

  lemma EscKeeps<T>(s: State<T>)
    requires WF(s)
    ensures WF(KeyEsc(s).state) && (InBounds(s) ==> InBounds(KeyEsc(s).state))
  {
  }

  /** Each Query-mode key keeps the record invariant and the bounds. */
  lemma QueryKeyKeeps<T>(s: State<T>, code: KeyCode, m: Matcher)
    requires WF(s) && s.mode == Query
    ensures WF(DispatchQuery(s, code, m).state)
    ensures InBounds(s) ==> InBounds(DispatchQuery(s, code, m).state)
  {
    if code == Esc {
      EscKeeps(s);
    } else if code == Up {
      KeyUpKeepsWF(s);
    } else if code == Down {
      KeyDownKeepsWF(s);
    } else if code == Left {
      LeftKeeps(s);
    } else if code == Right {
      RightKeeps(s);
    } else if code == Enter {
      EnterKeeps(s);
    } else if code.Char? {
      InsertCharKeeps(s, code.c, m);
    } else if code == Backspace {
      BackspaceKeeps(s, m);
    }
  }

  /** Each Normal-mode key keeps the record invariant and the bounds. */
  lemma NormalKeyKeeps<T>(s: State<T>, code: KeyCode)
    requires WF(s) && s.mode == Normal
    ensures WF(DispatchNormal(s, code).state)
    ensures InBounds(s) ==> InBounds(DispatchNormal(s, code).state)
  {
    if code == Up || code == Char('k') {
      KeyUpKeepsWF(s);
    } else if code == Down || code == Char('j') {
      KeyDownKeepsWF(s);
    } else if code == Esc {
      EscKeeps(s);
    } else if code == Enter {
      EnterKeeps(s);
    }
  }

  /** One key keeps the record invariant, and the highlighted row on the screen
      and inside the list. */
  lemma DispatchKeeps<T>(s: State<T>, key: KeyEvent, m: Matcher)
    requires WF(s)
    ensures WF(DispatchKey(s, key, m).state)
    ensures InBounds(s) ==> InBounds(DispatchKey(s, key, m).state)
  {
    if key.modifiers == NONE {
      if s.mode == Query {
        QueryKeyKeeps(s, key.code, m);
      } else {
        NormalKeyKeeps(s, key.code);
      }
    }
  }

  // ---------------------------------------------------------------------------
  // Modes

  /** Entering Normal mode empties the matched list and touches nothing else but
      the mode; doing it twice is doing it once. */
  lemma EnterNormalFacts<T>(s: State<T>)
    ensures EnterNormal(s).mode == Normal && EnterNormal(s).matched == []
    ensures EnterNormal(s) == s.(mode := Normal, matched := [])
    ensures EnterNormal(EnterNormal(s)) == EnterNormal(s)
    ensures WF(s) ==> WF(EnterNormal(s))
  {
  }

  /** Entering Query mode empties the query and puts the cursor at 0, leaving the
      matched list and the selection alone; doing it twice is doing it once. */
  lemma EnterQueryFacts<T>(s: State<T>)
    ensures EnterQuery(s).mode == Query && EnterQuery(s).query == [] && EnterQuery(s).insertPos == 0
    ensures EnterQuery(s) == s.(mode := Query, query := [], insertPos := 0)
    ensures EnterQuery(EnterQuery(s)) == EnterQuery(s)
    ensures WF(s) ==> WF(EnterQuery(s))
  {
  }

  // ---------------------------------------------------------------------------
  // Store, reset and layout

  /** `add` appends one item at the end, `add_list` all the given ones in order;
      what was there is untouched. */
  lemma AddFacts<T>(s: State<T>, it: Item<T>, its: seq<Item<T>>)
    ensures Add(s, it).items == s.items + [it] && Add(s, it) == s.(items := Add(s, it).items)
    ensures AddList(s, its).items[..|s.items|] == s.items && AddList(s, its).items[|s.items|..] == its
    ensures AddList(s, its) == s.(items := AddList(s, its).items)
    ensures WF(s) ==> WF(Add(s, it)) && WF(AddList(s, its))
  {
  }

  /** `set_max_height` ignores percentages outside (0, 1]; otherwise it records the
      percentage and lowers `max_row` to at most the capped height below the
      anchor.  `max_row` never grows. */
  lemma SetMaxHeightFacts<T>(s: State<T>, f: Fraction)
    ensures SetMaxHeight(s, f).maxRow <= s.maxRow
    ensures !InUnitRange(f) ==> SetMaxHeight(s, f) == s
    ensures InUnitRange(f) ==>
      var r := SetMaxHeight(s, f);
      r.maxHeight == f &&
      r.maxRow == Min(s.maxRow, Cap(s.maxRow, f) + s.anchorRow + 1) &&
      r.maxRow <= s.maxRow * f.num / f.den + s.anchorRow + 1 &&
      r == s.(maxHeight := f, maxRow := r.maxRow)
  {
  }

  /** `reset` as the code writes it: it empties the items, the matched list and
      the query, clears the selection, returns to Normal mode and takes the new
      anchor and height; the reusable settings are kept, and so are the
      selection index and the query cursor column, which it does not touch. */
  lemma ResetFacts<T>(s: State<T>, row: nat, rows: nat)
    ensures var r := ResetAsWritten(s, row, rows);
      r.items == [] && r.matched == [] && !r.selected && r.mode == Normal &&
      r.query == [] && r.insertPos == 0 && r.scrollOffset == 0 &&
      r.selectionIdx == s.selectionIdx && r.queryCursorCol == s.queryCursorCol &&
      r.anchorRow == row && r.maxRow == rows &&
      r.title == s.title && r.colorscheme == s.colorscheme &&
      r.showEndTag == s.showEndTag && r.enablePrintResult == s.enablePrintResult &&
      r.isPipe == s.isPipe && r.maxHeight == s.maxHeight
    ensures WF(ResetAsWritten(s, row, rows))
  {
    OffsetEnd([]);
    CharIndexOfOffsetIs([], 0);
  }

  /** The corrected reset also returns the highlight to the first row, so on any
      terminal of three rows or more it is on screen; the code's reset leaves it
      off screen whenever the old index does not fit the new height. */
  lemma ResetInBounds<T>(s: State<T>, row: nat, rows: nat)
    ensures Reset(s, row, rows).selectionIdx == 0
    ensures WF(Reset(s, row, rows))
    ensures rows >= 3 ==> InBounds(Reset(s, row, rows))
    ensures s.selectionIdx + 3 > rows ==> !InBounds(ResetAsWritten(s, row, rows))
  {
    ResetFacts(s, row, rows);
  }

  /** After a reset, adding any non-empty list and pressing Enter picks its first
      item. */
  lemma ResetThenEnterPicksFirst<T>(s: State<T>, row: nat, rows: nat, its: seq<Item<T>>)
    requires its != []
    ensures Selection(KeyEnter(AddList(Reset(s, row, rows), its))) == Picked(0)
  {
  }

  /** `scroll_to_fit`: when the menu (its rows plus title and tag) fits below the
      anchor nothing changes; otherwise it scrolls by the overflow, at most
      `max_row - 1`, and moves the anchor up by the overflow (stopping at row 0),
      so that the menu then ends exactly at the bottom of the terminal. */
  lemma ScrollToFitFacts<T>(s: State<T>, termRows: nat)
    requires s.anchorRow <= termRows
    requires FitCount(s) + 2 >= termRows - s.anchorRow ==> s.maxRow >= 1
    ensures var r, amount := ScrollToFit(s, termRows).state, ScrollToFit(s, termRows).amount;
      var cnt := FitCount(s);
      (s.anchorRow + cnt + 2 < termRows <==> amount.None?) &&
      (amount.None? ==> r == s) &&
      (amount.Some? ==>
        var diff := s.anchorRow + cnt + 2 - termRows;
        amount.value == Min(diff, s.maxRow - 1) &&
        r == s.(anchorRow := Sat(s.anchorRow, diff)) &&
        (diff <= s.anchorRow ==> r.anchorRow + cnt + 2 == termRows))
    ensures FitCount(s) <= |s.items|
    ensures InUnitRange(s.maxHeight) ==> FitCount(s) <= s.maxRow
  {
    FitCountBounds(s);
  }

  /** The rows the menu wants are at most the items, and at most the terminal
      rows when the height percentage is in (0, 1]. */
  lemma FitCountBounds<T>(s: State<T>)
    ensures FitCount(s) <= |s.items|
    ensures InUnitRange(s.maxHeight) ==> FitCount(s) <= s.maxRow
  {
    CapBounds(s.maxRow, s.maxHeight);
  }

  /** `get_selection`: nothing unless Enter was pressed; in Normal mode the item at
      the highlighted position, in Query mode the matched index there; Enter in
      Query mode with nothing matched indexes an empty list. */
  lemma SelectionFacts<T>(s: State<T>)
    requires s.selected ==> WF(s) && InBounds(s)
    ensures !s.selected ==> Selection(s) == NoPick
    ensures s.selected && s.mode == Normal && s.items != [] ==> Selection(s) == Picked(Pos(s))
    ensures s.selected && s.mode == Query && s.matched != [] ==> Selection(s) == Picked(s.matched[Pos(s)])
    ensures s.selected && s.mode == Query && s.matched == [] ==> Selection(s) == OutOfRange
  {
  }

  /** Esc in Normal mode and Ctrl-c leave the menu unselected, so nothing is
      picked. */
  lemma CancelPicksNothing<T>(s: State<T>, m: Matcher)
    requires CursorOk(s) && !s.selected
    ensures Selection(DispatchKey(s, KeyEvent(Char('c'), CONTROL), m).state) == NoPick
    ensures s.mode == Normal ==> Selection(DispatchKey(s, KeyEvent(Esc, NONE), m).state) == NoPick
  {
  }

  /** The title line starts with the title, ends with the query in Query mode,
      and is `": /"` plus the query longer in bytes than the title: the byte
      length that Right compares the query cursor column against. */
  lemma TitleLineFacts<T>(s: State<T>)
    ensures GetTitle(s) <= TitleLine(s)
    ensures s.mode == Query ==>
      |s.query| <= |TitleLine(s)| && TitleLine(s)[|TitleLine(s)| - |s.query|..] == s.query
    ensures ByteLen(TitleLine(s)) ==
      ByteLen(GetTitle(s)) + (if s.mode == Query then 3 + ByteLen(s.query) else 0)
    ensures s.title.None? ==> TitleLine(s)[..6] == "select"
  {
    if s.mode == Query {
      ByteLenConcat(GetTitle(s), ": /");
      ByteLenConcat(GetTitle(s) + ": /", s.query);
    }
  }
}
