/**
 * The selection engine as pure transitions on a snapshot of the menu record:
 * what every key, mode switch, store operation and layout step does to the
 * fields.  The `Core.Menu` class performs these updates in place and is proved
 * against these functions; the properties of the engine are lemmas here.
 */
module Engine {
  import opened Wrappers
  import opened Utf8
  import opened Model
  import opened Keys
  import opened Ranking
  import opened Style

  type Denominator = d: nat | d > 0 witness 1

  /** An `f32` percentage, written as the fraction num / den. */
  datatype Fraction = Fraction(num: int, den: Denominator)

  /** The percentage lies in (0, 1]. */
  predicate InUnitRange(f: Fraction)
  {
    0 < f.num <= f.den
  }

  /** `(n as f32 * percent) as u16`: the product rounded down, saturating at 0. */
  function Cap(n: nat, f: Fraction): nat
  {
    if f.num <= 0 then 0
    else
      MulMono(0, f.num, n);
      n * f.num / f.den
  }

  /** The cap is the floor of n * percent, and a percentage in (0, 1] never
      raises it above n. */
  lemma CapBounds(n: nat, f: Fraction)
    ensures f.num > 0 ==> Cap(n, f) * f.den <= n * f.num < (Cap(n, f) + 1) * f.den
    ensures InUnitRange(f) ==> Cap(n, f) <= n
  {
    if f.num > 0 {
      MulMono(0, f.num, n);
      DivisionBounds(n * f.num, f.den);
      QuotientBelow(n, f.num, f.den);
    }
  }

  /** Euclidean division by a positive denominator brackets the dividend. */
  lemma DivisionBounds(p: nat, d: Denominator)
    ensures (p / d) * d <= p < (p / d + 1) * d
  {
    var q, r := p / d, p % d;
    assert p == q * d + r;
    assert (q + 1) * d == q * d + d;
  }

  /** n * num / d stays at most n when num <= d. */
  lemma QuotientBelow(n: nat, num: int, d: Denominator)
    requires num > 0
    ensures num <= d ==> n * num / d <= n
  {
    if num <= d {
      var q := n * num / d;
      DivisionBounds(n * num, d);
      MulMono(num, d, n);
      if q > n {
        MulMono(n + 1, q, d);
      }
    }
  }

  /** Multiplying by a natural number keeps the order. */
  lemma MulMono(a: int, b: int, k: nat)
    requires a <= b
    ensures a * k <= b * k
  {
    assert b * k - a * k == (b - a) * k;
  }

  /** The menu record.  The anchor is `cursor_abs_pos`, whose column is always 0
      in the code, so only its row is kept. */
  datatype State<T> = State(
    isPipe: bool,
    enablePrintResult: bool,
    colorscheme: ColorScheme,
    title: Option<string>,
    items: seq<Item<T>>,
    mode: Mode,
    anchorRow: nat,
    maxRow: nat,
    selectionIdx: nat,
    selected: bool,
    query: string,
    queryCursorCol: nat,
    matched: seq<nat>,
    insertPos: nat,
    scrollOffset: nat,
    maxHeight: Fraction,
    showEndTag: bool)

  /** What one key does: the new record and whether the event loop exits. */
  datatype Step<T> = Step(state: State<T>, exit: bool)

  /** `Menu::new()`, with the cursor row and the terminal height as parameters.
      `query_cursor_col` is not set by the constructor shown; it starts at 0. */
  function New<T>(isPipe: bool, row: nat, rows: nat): (s: State<T>)
    ensures s.items == [] && s.matched == [] && s.mode == Normal
    ensures s.selectionIdx == 0 && s.scrollOffset == 0 && !s.selected
    ensures s.query == [] && s.insertPos == 0
    ensures s.anchorRow == row && s.maxRow == rows
    ensures s.enablePrintResult && s.showEndTag && s.title.None?
    ensures s.colorscheme == DefaultScheme() && s.maxHeight == Fraction(1, 1)
  {
    State(isPipe, true, DefaultScheme(), None, [], Normal, row, rows, 0, false, "", 0, [], 0, 0, Fraction(1, 1), true)
  }

  /** The position of the highlighted row in the active list. */
  function Pos<T>(s: State<T>): nat
  {
    s.selectionIdx + s.scrollOffset
  }

  /** Length of the list the user moves through: all items in Normal mode, the
      matched ones in Query mode. */
  function ActiveCount<T>(s: State<T>): nat
  {
    if s.mode == Normal then |s.items| else |s.matched|
  }

  /** Saturating subtraction (`saturating_sub`). */
  function Sat(a: nat, b: nat): nat
  {
    if a >= b then a - b else 0
  }

  function Min(a: nat, b: nat): (r: nat)
    ensures r <= a && r <= b && (r == a || r == b)
  {
    if a <= b then a else b
  }

  // ---------------------------------------------------------------------------
  // Invariants of the record

  /** The query cursor sits on a character boundary, and the display column is at
      least the width of the text before it (so moving left never underflows). */
  predicate CursorOk<T>(s: State<T>)
  {
    IsBoundary(s.query, s.insertPos) &&
    s.queryCursorCol >= Width(s.query[..CharIndex(s.query, s.insertPos)])
  }

  /** The record invariant: cursor well placed, no matched list outside Query
      mode, and every matched index names an item. */
  predicate WF<T>(s: State<T>)
  {
    CursorOk(s) &&
    (s.mode == Normal ==> s.matched == []) &&
    |s.matched| <= |s.items| &&
    (forall i :: 0 <= i < |s.matched| ==> s.matched[i] < |s.items|)
  }

  /** The highlighted row is on the screen (`selection_idx <= max_row - 3`) and
      inside the list (`selection_idx + scroll_offset <= item_cnt - 1`), where
      the list is the matched one in Query mode once it is non-empty. */
  predicate InBounds<T>(s: State<T>)
  {
    s.selectionIdx + 3 <= s.maxRow &&
    (|s.items| == 0 || Pos(s) < |s.items|) &&
    (s.mode == Query && |s.matched| > 0 ==> Pos(s) < |s.matched|)
  }

  // ---------------------------------------------------------------------------
  // Store and settings (core.rs)

  /** `get_title` */
  function GetTitle<T>(s: State<T>): (t: string)
    ensures s.title.Some? ==> t == s.title.value
    ensures s.title.None? ==> t == "select"
  {
    if s.title.Some? then s.title.value else "select"
  }

  /** `set_title` */
  function SetTitle<T>(s: State<T>, t: string): (r: State<T>)
    ensures GetTitle(r) == t
    ensures r.(title := s.title) == s
  {
    s.(title := Some(t))
  }

  /** `add` */
  function Add<T>(s: State<T>, it: Item<T>): (r: State<T>)
  {
    s.(items := s.items + [it])
  }

  /** `add_list` */
  function AddList<T>(s: State<T>, its: seq<Item<T>>): (r: State<T>)
  {
    s.(items := s.items + its)
  }

  /** `set_max_height`, the percentage as a fraction. */
  function SetMaxHeight<T>(s: State<T>, f: Fraction): (r: State<T>)
  {
    if !InUnitRange(f) then s
    else s.(maxHeight := f, maxRow := Min(s.maxRow, Cap(s.maxRow, f) + s.anchorRow + 1))
  }

  /** `reset`, with the cursor row and terminal height as parameters, and with the
      selection index cleared as well (see ResetAsWritten). */
  function Reset<T>(s: State<T>, row: nat, rows: nat): (r: State<T>)
  {
    ResetAsWritten(s, row, rows).(selectionIdx := 0)
  }

  /** `reset` as the code writes it: `selection_idx` keeps its old value. */
  function ResetAsWritten<T>(s: State<T>, row: nat, rows: nat): (r: State<T>)
  {
    s.(items := [], matched := [], selected := false, mode := Normal,
       anchorRow := row, maxRow := rows, query := "", insertPos := 0, scrollOffset := 0)
  }

  /** How many rows the menu wants: the items, capped by the height percentage. */
  function FitCount<T>(s: State<T>): nat
  {
    Min(|s.items|, Cap(s.maxRow, s.maxHeight))
  }

  /** `scroll_to_fit`, with the terminal height as a parameter: the new record and
      the number of rows scrolled up, if any. */
  function ScrollToFit<T>(s: State<T>, termRows: nat): (r: Scroll<T>)
    requires s.anchorRow <= termRows
    requires FitCount(s) + 2 >= termRows - s.anchorRow ==> s.maxRow >= 1
  {
    var leftRows := termRows - s.anchorRow;
    var cnt := FitCount(s);
    if cnt + 2 < leftRows then Scroll(s, None)
    else
      var diff := cnt + 2 - leftRows;
      Scroll(s.(anchorRow := Sat(s.anchorRow, diff)), Some(Min(diff, s.maxRow - 1)))
  }

  /** What `scroll_to_fit` does: the new record and the rows scrolled up, if any. */
  datatype Scroll<T> = Scroll(state: State<T>, amount: Option<nat>)

  /** The chosen item, as `get_selection` finds it: nothing unless Enter was
      pressed, else an index into the item list, or OutOfRange where the code
      indexes past a list (a panic). */
  datatype Pick = NoPick | Picked(index: nat) | OutOfRange

  function Selection<T>(s: State<T>): (p: Pick)
    ensures p.Picked? ==> p.index < |s.items|
  {
    if !s.selected then NoPick
    else if s.mode == Normal then
      if Pos(s) < |s.items| then Picked(Pos(s)) else OutOfRange
    else if Pos(s) < |s.matched| && s.matched[Pos(s)] < |s.items| then Picked(s.matched[Pos(s)])
    else OutOfRange
  }

  // ---------------------------------------------------------------------------
  // Modes (mode.rs) and matching (query.rs)

  /** `enter_normal_mode` (the cursor Hide write is left out). */
  function EnterNormal<T>(s: State<T>): (r: State<T>)
  {
    s.(mode := Normal, matched := [])
  }

  /** `enter_query_mode` (the cursor Show write is left out). */
  function EnterQuery<T>(s: State<T>): (r: State<T>)
  {
    s.(mode := Query, query := "", insertPos := 0)
  }

  /** `fuzzy_match`: selection back to the top, every accepted item rescored and
      the accepted indices ranked by descending score. */
  function Rematch<T>(s: State<T>, m: Matcher): (r: State<T>)
  {
    s.(selectionIdx := 0, scrollOffset := 0,
       items := Scored(m, s.items, s.query),
       matched := Rank(m, s.items, s.query))
  }

  // ---------------------------------------------------------------------------
  // Navigation (keymap.rs)

  /** `key_up` */
  function KeyUp<T>(s: State<T>): (r: State<T>)
  {
    if s.selectionIdx == 0 then s.(scrollOffset := Sat(s.scrollOffset, 1))
    else s.(selectionIdx := Sat(s.selectionIdx, 1))
  }

  /** `key_down`, bounded by the list `get_selection` indexes, which is the
      matched list in Query mode (see KeyDownAsWritten).  With fewer than three
      rows the highlighted row cannot move down on screen, so the list scrolls. */
  function KeyDown<T>(s: State<T>): (r: State<T>)
  {
    if Pos(s) + 1 >= ActiveCount(s) then s
    else if s.selectionIdx + 3 >= s.maxRow then s.(scrollOffset := s.scrollOffset + 1)
    else s.(selectionIdx := s.selectionIdx + 1)
  }

  /** `key_down` as the code writes it: the bound is `item_list.len() as u16` in
      both modes; None where `item_cnt - 1` or `max_row - 3` underflows. */
  function KeyDownAsWritten<T>(s: State<T>): (r: Option<State<T>>)
  {
    var itemCnt := |s.items| % 0x1_0000;
    if itemCnt == 0 then None
    else if Pos(s) == itemCnt - 1 then Some(s)
    else if s.maxRow < 3 then None
    else if s.selectionIdx == s.maxRow - 3 then Some(s.(scrollOffset := s.scrollOffset + 1))
    else Some(s.(selectionIdx := s.selectionIdx + 1))
  }

  /** `key_esc` */
  function KeyEsc<T>(s: State<T>): (r: Step<T>)
  {
    if s.mode == Normal then Step(s, true) else Step(EnterNormal(s), false)
  }

  /** `key_enter` */
  function KeyEnter<T>(s: State<T>): (r: State<T>)
  {
    s.(selected := true)
  }

  // ---------------------------------------------------------------------------
  // Query editing (keymap.rs)

  /** `get_title_line` (draw.rs): the title, followed in Query mode by ": /" and
      the query. */
  function TitleLine<T>(s: State<T>): (line: string)
  {
    if s.mode == Query then GetTitle(s) + ": /" + s.query else GetTitle(s)
  }

  /** Typing `c`: insert it at the cursor, step the cursor over it, re-match. */
  function InsertChar<T>(s: State<T>, c: char, m: Matcher): (r: State<T>)
    requires IsBoundary(s.query, s.insertPos)
  {
    Rematch(s.(query := InsertAt(s.query, s.insertPos, c),
               insertPos := s.insertPos + Utf8Len(c),
               queryCursorCol := s.queryCursorCol + Cells(c)), m)
  }

  /** Backspace: on a non-empty query remove the character at `prev_boundary` of
      the cursor and re-match. */
  function KeyBackspace<T>(s: State<T>, m: Matcher): (r: State<T>)
    requires CursorOk(s)
  {
    if s.query == [] then s else Rematch(BackspaceEdit(s), m)
  }

  /** The edit of Backspace on a non-empty query: the character at
      `prev_boundary` of the cursor is removed, and the cursor steps back over it
      unless it is at 0 (where that character is the first one). */
  function BackspaceEdit<T>(s: State<T>): (r: State<T>)
    requires CursorOk(s) && s.query != []
  {
    var pos := PrevBoundary(s.query, s.insertPos);
    assert pos < ByteLen(s.query) by {
      OffsetEnd(s.query);
      OffsetBounded(s.query, CharIndex(s.query, s.insertPos));
      if s.insertPos == 0 {
        OffsetStep(s.query, 0);
      }
    }
    var t, c := RemoveAt(s.query, pos), CharAt(s.query, pos);
    if s.insertPos > 0 then
      CursorStepBack(s.query, s.insertPos);
      s.(query := t, insertPos := s.insertPos - Utf8Len(c), queryCursorCol := s.queryCursorCol - Cells(c))
    else
      s.(query := t)
  }

  /** The edit of Backspace, given the character it removes. */
  lemma BackspaceEditRemoves<T>(s: State<T>, t: string, c: char)
    requires CursorOk(s) && s.query != []
    requires PrevBoundary(s.query, s.insertPos) < ByteLen(s.query)
    requires t == RemoveAt(s.query, PrevBoundary(s.query, s.insertPos))
    requires c == CharAt(s.query, PrevBoundary(s.query, s.insertPos))
    ensures s.insertPos > 0 ==> s.insertPos >= Utf8Len(c) && s.queryCursorCol >= Cells(c)
    ensures BackspaceEdit(s) ==
      if s.insertPos > 0 then s.(query := t, insertPos := s.insertPos - Utf8Len(c), queryCursorCol := s.queryCursorCol - Cells(c))
      else s.(query := t)
  {
    if s.insertPos > 0 {
      CursorStepBack(s.query, s.insertPos);
    }
  }

  /** The text half of Backspace: with `j` the index of the character
      `prev_boundary` names (the one before the cursor, or the first one when the
      cursor is at 0), removing it leaves the characters around index `j`. */
  lemma BackspaceText(q: string, b: nat)
    requires IsBoundary(q, b) && q != []
    ensures var pos := PrevBoundary(q, b);
      var k := CharIndex(q, b);
      var j := if k == 0 then 0 else k - 1;
      pos < ByteLen(q) && j < |q| && CharIndex(q, pos) == j &&
      RemoveAt(q, pos) == q[..j] + q[j + 1..] && RemoveAt(q, pos)[..j] == q[..j]
  {
    BackspaceIndex(q, b);
    var pos := PrevBoundary(q, b);
    RemoveAtSplits(q, pos);
    var j := CharIndex(q, pos);
    assert RemoveAt(q, pos)[..j] == q[..j];
  }

  /** `prev_boundary` names the character before the cursor, or the first one. */
  lemma BackspaceIndex(q: string, b: nat)
    requires IsBoundary(q, b) && q != []
    ensures var k := CharIndex(q, b);
      PrevBoundary(q, b) < ByteLen(q) &&
      CharIndex(q, PrevBoundary(q, b)) == if k == 0 then 0 else k - 1
  {
    if b == 0 {
      OffsetEnd(q);
      OffsetStep(q, 0);
    } else {
      CursorStepBack(q, b);
    }
  }

  /** The character before a boundary `b > 0` spans prev_boundary .. b, and the
      width before it is the width before `b` less its cells. */
  lemma CursorStepBack(q: string, b: nat)
    requires IsBoundary(q, b) && b > 0
    ensures PrevBoundary(q, b) < ByteLen(q)
    ensures var k := CharIndex(q, PrevBoundary(q, b));
      k < |q| && b == PrevBoundary(q, b) + Utf8Len(q[k]) &&
      Width(q[..CharIndex(q, b)]) == Width(q[..k]) + Cells(q[k])
  {
    var k := CharIndex(q, PrevBoundary(q, b));
    OffsetStep(q, k);
    WidthStep(q, k);
    OffsetEnd(q);
    OffsetBounded(q, k + 1);
    OffsetStrictlyIncreasing(q, k, k + 1);
  }

  /** Taking out the character before a boundary `b > 0`: it is the one at
      `prev_boundary`, `b` less its length is that boundary, and putting it back
      there gives the text back. */
  lemma TakeOutBefore(q: string, b: nat, t: string, c: char)
    requires IsBoundary(q, b) && b > 0
    requires PrevBoundary(q, b) < ByteLen(q)
    requires t == RemoveAt(q, PrevBoundary(q, b)) && c == CharAt(q, PrevBoundary(q, b))
    ensures b >= Utf8Len(c) && b - Utf8Len(c) == PrevBoundary(q, b)
    ensures c == q[CharIndex(q, PrevBoundary(q, b))]
    ensures IsBoundary(t, b - Utf8Len(c)) && InsertAt(t, b - Utf8Len(c), c) == q
  {
    CursorStepBack(q, b);
    RemoveAtInverse(q, PrevBoundary(q, b));
  }

  /** Left: the cursor steps back over the character before it, to the previous
      boundary, and the column back by that character's cells.  The code takes
      the character out and puts it back one character earlier, which leaves the
      text as it was (TakeOutBefore); `Core.Menu.MoveLeft` performs those two
      edits. */
  function MoveLeft<T>(s: State<T>): (r: State<T>)
    requires CursorOk(s)
  {
    if s.insertPos > 0 then
      CursorStepBack(s.query, s.insertPos);
      var pos := PrevBoundary(s.query, s.insertPos);
      s.(insertPos := pos, queryCursorCol := s.queryCursorCol - Cells(s.query[CharIndex(s.query, pos)]))
    else s
  }

  /** Right: step the cursor over the character after it, if any (see
      MoveRightAsWritten). */
  function MoveRight<T>(s: State<T>): (r: State<T>)
    requires IsBoundary(s.query, s.insertPos)
  {
    if s.insertPos < ByteLen(s.query) then
      var k := CharIndex(s.query, s.insertPos);
      OffsetEnd(s.query);
      OffsetBounded(s.query, k);
      s.(insertPos := NextBoundary(s.query, s.insertPos), queryCursorCol := s.queryCursorCol + Cells(s.query[k]))
    else s
  }

  /** The byte offset of the last character of `q` (`prev_boundary!` of the end). */
  function LastCharPos(q: string): (p: nat)
    ensures IsBoundary(q, p) && p <= ByteLen(q)
    ensures q != [] ==> CharIndex(q, p) + 1 == |q|
  {
    OffsetEnd(q);
    CharIndexOfOffsetIs(q, |q|);
    PrevBoundary(q, ByteLen(q))
  }

  /** Where Right as written takes a character out, for a cursor before the last
      character: the next boundary, which is before the end. */
  function ShiftFrom(q: string, b: nat): (pos: nat)
    requires IsBoundary(q, b) && b < LastCharPos(q)
    ensures IsBoundary(q, pos) && b < pos < ByteLen(q)
  {
    OffsetEnd(q);
    var k := CharIndex(q, b);
    OffsetOrder(q, k, CharIndex(q, LastCharPos(q)));
    OffsetBounded(q, k + 1);
    NextBoundary(q, b)
  }

  /** The character Right as written moves: the one starting at `next_boundary!`,
      right after the character under the cursor. */
  function ShiftedChar(q: string, b: nat): char
    requires IsBoundary(q, b) && b < LastCharPos(q)
  {
    CharAt(q, ShiftFrom(q, b))
  }

  /** The text step of Right as written, for a cursor before the last character:
      remove the character at `next_boundary` of `b` and insert it again at `b`
      plus its length.  The new text, or None where the insertion is off a
      boundary (a panic). */
  function ShiftNext(q: string, b: nat): (r: Option<string>)
    requires IsBoundary(q, b) && b < LastCharPos(q)
  {
    var t, c := RemoveAt(q, ShiftFrom(q, b)), ShiftedChar(q, b);
    if IsBoundary(t, b + Utf8Len(c)) then Some(InsertAt(t, b + Utf8Len(c), c)) else None
  }

  /** Right as the code writes it.  Before the last character it moves the
      character starting at `next_boundary!`, the one right after the character
      under the cursor (ShiftNext), the cursor by that character's
      length and the column by its cells.  From the last character on, the query
      is popped and pushed back unchanged, the cursor stays, and the column grows
      while it is below the title line's length. */
  function MoveRightAsWritten<T>(s: State<T>): (r: Option<State<T>>)
    requires IsBoundary(s.query, s.insertPos)
  {
    if s.insertPos < LastCharPos(s.query) then
      var c := ShiftedChar(s.query, s.insertPos);
      match ShiftNext(s.query, s.insertPos)
      case None => None
      case Some(q) =>
        Some(s.(query := q, insertPos := s.insertPos + Utf8Len(c), queryCursorCol := s.queryCursorCol + Cells(c)))
    else if s.query == [] then Some(s)
    else
      var c := s.query[|s.query| - 1];
      if s.queryCursorCol < ByteLen(TitleLine(s)) then Some(s.(queryCursorCol := s.queryCursorCol + Cells(c)))
      else Some(s)
  }

  // ---------------------------------------------------------------------------
  // Dispatch (keymap.rs)

  /** `dispatch_normal` */
  function DispatchNormal<T>(s: State<T>, code: KeyCode): (r: Step<T>)
  {
    if code == Up || code == Char('k') then Step(KeyUp(s), false)
    else if code == Down || code == Char('j') then Step(KeyDown(s), false)
    else if code == Esc then KeyEsc(s)
    else if code == Enter then Step(KeyEnter(s), true)
    else if code == Char('/') then Step(EnterQuery(s), false)
    else Step(s, false)
  }

  /** `dispatch_query` */
  function DispatchQuery<T>(s: State<T>, code: KeyCode, m: Matcher): (r: Step<T>)
    requires CursorOk(s)
  {
    if code == Esc then KeyEsc(s)
    else if code == Up then Step(KeyUp(s), false)
    else if code == Down then Step(KeyDown(s), false)
    else if code == Left then Step(MoveLeft(s), false)
    else if code == Right then Step(MoveRight(s), false)
    else if code == Enter then Step(KeyEnter(s), true)
    else if code.Char? then Step(InsertChar(s, code.c, m), false)
    else if code == Backspace then Step(KeyBackspace(s, m), false)
    else Step(s, false)
  }

  /** `dispatch_code` */
  function DispatchCode<T>(s: State<T>, code: KeyCode, m: Matcher): (r: Step<T>)
    requires CursorOk(s)
  {
    if s.mode == Normal then DispatchNormal(s, code) else DispatchQuery(s, code, m)
  }

  /** `dispatch_key`: Control keys only ever exit (Ctrl-c), unmodified keys go to
      the mode's handler, every other modifier set is ignored. */
  function DispatchKey<T>(s: State<T>, key: KeyEvent, m: Matcher): (r: Step<T>)
    requires CursorOk(s)
  {
    if key.modifiers == CONTROL then Step(s, key.code == Char('c'))
    else if key.modifiers == NONE then DispatchCode(s, key.code, m)
    else Step(s, false)
  }
}
