/**
 * The menu object of termenu: the record whose fields `Menu`'s methods update
 * in place (core.rs, keymap.rs, mode.rs, query.rs).  Every method is proved to
 * leave the record in the state the matching transition of `Engine` computes
 * from the old one, and to keep the record invariant `Engine.WF`.
 */
module Core {
  import opened Wrappers
  import opened Utf8
  import opened Model
  import opened Keys
  import opened Ranking
  import opened Style
  import opened Engine
  import opened EngineFacts

  /** How one `select0` session ends: with an item or nothing (Esc, Ctrl-c, or an
      empty list), still waiting for keys when the script runs out, or in a
      panic of the code (an index past a list, a `u16` subtraction below 0). */
  datatype Session<T> = Chosen(item: Option<Item<T>>) | Waiting | Panic

  /** The items of `b` are those of `a`, rescored at most. */
  ghost predicate SameItems<T>(a: seq<Item<T>>, b: seq<Item<T>>)
  {
    |a| == |b| && forall i :: 0 <= i < |a| ==> a[i].alias == b[i].alias && a[i].value == b[i].value
  }

  /** Matching only rescores the items. */
  lemma RematchKeepsItems<T>(s: State<T>, m: Matcher)
    ensures SameItems(s.items, Rematch(s, m).items)
  {
    forall i | 0 <= i < |s.items|
      ensures s.items[i].alias == Rematch(s, m).items[i].alias && s.items[i].value == Rematch(s, m).items[i].value
    {
      ScoredItems(m, s.items, s.query, i);
    }
  }

  /** No key adds, drops, renames or reorders an item; matching only rescores. */
  lemma DispatchKeepsItems<T>(s: State<T>, key: KeyEvent, m: Matcher)
    requires CursorOk(s)
    ensures SameItems(s.items, DispatchKey(s, key, m).state.items)
  {
    if key.modifiers == NONE {
      assert DispatchKey(s, key, m) == DispatchCode(s, key.code, m);
      if s.mode == Normal {
        NormalKeepsItems(s, key.code);
      } else {
        QueryKeepsItems(s, key.code, m);
      }
    }
  }

  lemma NormalKeepsItems<T>(s: State<T>, code: KeyCode)
    ensures DispatchNormal(s, code).state.items == s.items
  {
  }

  lemma QueryKeepsItems<T>(s: State<T>, code: KeyCode, m: Matcher)
    requires CursorOk(s)
    ensures SameItems(s.items, DispatchQuery(s, code, m).state.items)
  {
    var r := DispatchQuery(s, code, m).state;
    if code in {Esc, Up, Down, Left, Right, Enter} {
      assert r.items == s.items;
    } else if code.Char? {
      var t := s.(query := InsertAt(s.query, s.insertPos, code.c),
                  insertPos := s.insertPos + Utf8Len(code.c),
                  queryCursorCol := s.queryCursorCol + Cells(code.c));
      assert r == Rematch(t, m);
      RematchKeepsItems(t, m);
    } else if code == KeyCode.Backspace && s.query != [] {
      QueryBackspaceItems(s, m);
    } else {
      assert r.items == s.items;
    }
  }

  lemma QueryBackspaceItems<T>(s: State<T>, m: Matcher)
    requires CursorOk(s) && s.query != []
    ensures SameItems(s.items, KeyBackspace(s, m).items)
  {
    var r := KeyBackspace(s, m);
    assert r.items == Scored(m, s.items, r.query);
    RematchKeepsItems(s.(query := r.query), m);
  }

  /** The event loop over a script of keys: dispatch each key until one asks
      to exit; `exit` is false when the script runs out first. */
  function Run<T>(s: State<T>, keys: seq<KeyEvent>, m: Matcher): (r: Step<T>)
    requires WF(s)
    ensures WF(r.state)
    ensures SameItems(s.items, r.state.items)
    ensures InBounds(s) ==> InBounds(r.state)
    decreases |keys|
  {
    if keys == [] then Step(s, false)
    else
      DispatchKeeps(s, keys[0], m);
      DispatchKeepsItems(s, keys[0], m);
      var st := DispatchKey(s, keys[0], m);
      if st.exit then st else Run(st.state, keys[1..], m)
  }

  /** No key clears `selected`. */
  lemma DispatchKeepsSelected<T>(s: State<T>, key: KeyEvent, m: Matcher)
    requires CursorOk(s)
    ensures s.selected ==> DispatchKey(s, key, m).state.selected
  {
    if key.modifiers == NONE && s.mode == Query {
      QueryKeepsSelected(s, key.code, m);
    }
  }

  /** In Query mode too: Enter sets `selected` and no other key touches it. */
  lemma QueryKeepsSelected<T>(s: State<T>, code: KeyCode, m: Matcher)
    requires CursorOk(s)
    ensures s.selected ==> DispatchQuery(s, code, m).state.selected
  {
    if code.Char? {
      assert code != Esc && code != Up && code != Down && code != Left && code != Right && code != Enter;
      assert DispatchQuery(s, code, m).state == InsertChar(s, code.c, m);
    } else if code == Backspace {
      assert DispatchQuery(s, code, m).state == KeyBackspace(s, m);
    }
  }

  /** Once a menu is confirmed it stays confirmed through any script of keys:
      the event loop never clears `selected`. */
  lemma {:induction false} RunKeepsSelected<T>(s: State<T>, keys: seq<KeyEvent>, m: Matcher)
    requires WF(s)
    ensures s.selected ==> Run(s, keys, m).state.selected
    decreases |keys|
  {
    if keys != [] {
      DispatchKeeps(s, keys[0], m);
      DispatchKeepsSelected(s, keys[0], m);
      var st := DispatchKey(s, keys[0], m);
      if !st.exit {
        RunKeepsSelected(st.state, keys[1..], m);
      }
    }
  }

  /** `scroll_to_fit` subtracts in `u16`: the anchor must not lie below the
      terminal, and `max_row - 1` is only formed when the menu overflows. */
  predicate CanScroll<T>(s: State<T>, termRows: nat)
  {
    s.anchorRow <= termRows && (FitCount(s) + 2 >= termRows - s.anchorRow ==> s.maxRow >= 1)
  }

  /** The record `select0` starts its loop from. */
  function Prepared<T>(s: State<T>, termRows: nat): (r: State<T>)
    requires CanScroll(s, termRows)
  {
    EnterNormal(ScrollToFit(s, termRows).state)
  }

  lemma PreparedFacts<T>(s: State<T>, termRows: nat)
    requires WF(s) && CanScroll(s, termRows)
    ensures WF(Prepared(s, termRows)) && Prepared(s, termRows).mode == Normal
    ensures Prepared(s, termRows).items == s.items && Pos(Prepared(s, termRows)) == Pos(s)
    ensures Prepared(s, termRows).selected == s.selected
  {
    ScrollToFitFacts(s, termRows);
    WFFrame(s, ScrollToFit(s, termRows).state);
  }

  /** `select0` on a script of keys: nothing for an empty list; else fit the menu
      to the terminal, enter Normal mode, run the keys, and look up the
      selection. */
  function SessionResult<T>(s: State<T>, keys: seq<KeyEvent>, termRows: nat, m: Matcher): (r: Session<T>)
    requires WF(s)
  {
    if s.items == [] then Chosen(None)
    else if !CanScroll(s, termRows) then Panic
    else
      PreparedFacts(s, termRows);
      var fin := Run(Prepared(s, termRows), keys, m);
      if !fin.exit then Waiting
      else match Selection(fin.state)
        case NoPick => Chosen(None)
        case Picked(i) => Chosen(Some(fin.state.items[i]))
        case OutOfRange => Panic
  }

  /** An empty menu returns nothing without reading a key. */
  lemma SessionOnEmpty<T>(s: State<T>, keys: seq<KeyEvent>, termRows: nat, m: Matcher)
    requires WF(s) && s.items == []
    ensures SessionResult(s, keys, termRows, m) == Chosen(None)
  {
  }

  /** Esc or Ctrl-c as the first key ends the session with nothing chosen. */
  lemma SessionCancelled<T>(s: State<T>, keys: seq<KeyEvent>, termRows: nat, m: Matcher)
    requires WF(s) && s.items != [] && CanScroll(s, termRows) && !s.selected
    requires keys != [] && (keys[0] == KeyEvent(Esc, NONE) || keys[0] == KeyEvent(Char('c'), CONTROL))
    ensures SessionResult(s, keys, termRows, m) == Chosen(None)
  {
    PreparedFacts(s, termRows);
    var p := Prepared(s, termRows);
    assert DispatchKey(p, keys[0], m) == Step(p, true);
  }

  // ---------------------------------------------------------------------------
  // select0 keeps an earlier confirmation (Findings row 5 of the README).

  /** `select0` never clears `selected`.  On a menu confirmed by an earlier
      session, Esc or Ctrl-c as the first key returns the highlighted item
      instead of nothing. */
  lemma StaleSelectionOnCancel<T>(s: State<T>, keys: seq<KeyEvent>, termRows: nat, m: Matcher)
    requires WF(s) && CanScroll(s, termRows) && s.selected && Pos(s) < |s.items|
    requires keys != [] && (keys[0] == KeyEvent(Esc, NONE) || keys[0] == KeyEvent(Char('c'), CONTROL))
    ensures SessionResult(s, keys, termRows, m) == Chosen(Some(s.items[Pos(s)]))
  {
    PreparedFacts(s, termRows);
    var p := Prepared(s, termRows);
    assert DispatchKey(p, keys[0], m) == Step(p, true);
  }

  /** `select0` starting from an unconfirmed menu, as its documentation
      promises: a session only picks what its own keys confirm. */
  function FreshSession<T>(s: State<T>, keys: seq<KeyEvent>, termRows: nat, m: Matcher): (r: Session<T>)
    requires WF(s)
    ensures !s.selected ==> r == SessionResult(s, keys, termRows, m)
  {
    WFFrame(s, s.(selected := false));
    SessionResult(s.(selected := false), keys, termRows, m)
  }

  /** In the corrected session Esc or Ctrl-c as the first key returns nothing,
      whatever an earlier session confirmed. */
  lemma FreshSessionCancels<T>(s: State<T>, keys: seq<KeyEvent>, termRows: nat, m: Matcher)
    requires WF(s) && s.items != [] && CanScroll(s, termRows)
    requires keys != [] && (keys[0] == KeyEvent(Esc, NONE) || keys[0] == KeyEvent(Char('c'), CONTROL))
    ensures FreshSession(s, keys, termRows, m) == Chosen(None)
  {
    WFFrame(s, s.(selected := false));
    SessionCancelled(s.(selected := false), keys, termRows, m);
  }

  /** Enter as the first key chooses the highlighted item itself. */
  lemma SessionEnterChooses<T>(s: State<T>, keys: seq<KeyEvent>, termRows: nat, m: Matcher)
    requires WF(s) && CanScroll(s, termRows) && Pos(s) < |s.items|
    requires keys != [] && keys[0] == KeyEvent(Enter, NONE)
    ensures SessionResult(s, keys, termRows, m) == Chosen(Some(s.items[Pos(s)]))
  {
    PreparedFacts(s, termRows);
    var p := Prepared(s, termRows);
    assert DispatchKey(p, keys[0], m) == Step(KeyEnter(p), true);
  }

  /** Whatever the keys, a chosen item is one of the menu's items (its alias and
      value; only its score may be new). */
  lemma SessionChoosesAnItem<T>(s: State<T>, keys: seq<KeyEvent>, termRows: nat, m: Matcher)
    requires WF(s)
    ensures var r := SessionResult(s, keys, termRows, m);
      r.Chosen? && r.item.Some? ==>
        exists i :: 0 <= i < |s.items| && r.item.value.alias == s.items[i].alias && r.item.value.value == s.items[i].value
  {
    var r := SessionResult(s, keys, termRows, m);
    if r.Chosen? && r.item.Some? {
      PreparedFacts(s, termRows);
      var fin := Run(Prepared(s, termRows), keys, m);
      var i := Selection(fin.state).index;
      assert r.item.value == fin.state.items[i];
      assert r.item.value.alias == s.items[i].alias && r.item.value.value == s.items[i].value;
    }
  }

  /** Where the highlighted row starts on screen and inside the list, a session
      that ends in Normal mode never panics. */
  lemma SessionNormalNoPanic<T>(s: State<T>, keys: seq<KeyEvent>, termRows: nat, m: Matcher)
    requires WF(s) && InBounds(s) && CanScroll(s, termRows) && s.items != []
    requires Run(Prepared(s, termRows), keys, m).state.mode == Normal
    ensures SessionResult(s, keys, termRows, m) != Panic
  {
    PreparedFacts(s, termRows);
    ScrollToFitFacts(s, termRows);
    var p := Prepared(s, termRows);
    assert InBounds(p);
    var fin := Run(p, keys, m);
    assert Pos(fin.state) < |fin.state.items|;
  }

  /** The menu.  Its fields are those of `Engine.State`; the fuzzy matcher is
      fixed at construction. */
  class Menu<T> {
    var isPipe: bool
    var enablePrintResult: bool
    var colorscheme: ColorScheme
    var title: Option<string>
    var items: seq<Item<T>>
    var mode: Mode
    var anchorRow: nat
    var maxRow: nat
    var selectionIdx: nat
    var selected: bool
    var query: string
    var queryCursorCol: nat
    var matched: seq<nat>
    var insertPos: nat
    var scrollOffset: nat
    var maxHeight: Fraction
    var showEndTag: bool
    const matcher: Matcher

    /** The record the fields make up. */
    function Snapshot(): State<T>
      reads this
    {
      State(isPipe, enablePrintResult, colorscheme, title, items, mode, anchorRow, maxRow,
            selectionIdx, selected, query, queryCursorCol, matched, insertPos, scrollOffset,
            maxHeight, showEndTag)
    }

    ghost predicate Valid()
      reads this
    {
      WF(Snapshot())
    }

    /** `Menu::new`, given whether stdin is a pipe, the cursor row and the terminal
        height, which the code reads from the terminal. */
    constructor (pipe: bool, row: nat, rows: nat, m: Matcher)
      ensures Valid() && Snapshot() == New(pipe, row, rows) && matcher == m
    {
      isPipe, enablePrintResult, colorscheme, title := pipe, true, DefaultScheme(), None;
      items, mode, anchorRow, maxRow := [], Normal, row, rows;
      selectionIdx, selected, query, queryCursorCol := 0, false, "", 0;
      matched, insertPos, scrollOffset := [], 0, 0;
      maxHeight, showEndTag := Fraction(1, 1), true;
      matcher := m;
      new;
      OffsetEnd([]);
      CharIndexOfOffsetIs([], 0);
    }

    // ------------------------------------------------------------- settings

    method ShowEndTag(b: bool)
      modifies this
      ensures Snapshot() == old(Snapshot()).(showEndTag := b)
      ensures old(Valid()) ==> Valid()
    {
      showEndTag := b;
    }

    method EnablePrintResult(b: bool)
      modifies this
      ensures Snapshot() == old(Snapshot()).(enablePrintResult := b)
      ensures old(Valid()) ==> Valid()
    {
      enablePrintResult := b;
    }

    /** `set_colorscheme` (color.rs). */
    method SetColorscheme(cs: ColorScheme)
      modifies this
      ensures Snapshot() == old(Snapshot()).(colorscheme := cs)
      ensures old(Valid()) ==> Valid()
    {
      colorscheme := cs;
    }

    method SetTitle(t: string)
      modifies this
      ensures Snapshot() == Engine.SetTitle(old(Snapshot()), t)
      ensures old(Valid()) ==> Valid()
    {
      title := Some(t);
    }

    method SetMaxHeight(f: Fraction)
      modifies this
      ensures Snapshot() == Engine.SetMaxHeight(old(Snapshot()), f)
      ensures old(Valid()) ==> Valid()
    {
      if f.num <= 0 || f.num > f.den {
        return;
      }
      var displayCnt := Cap(maxRow, f);
      maxHeight := f;
      maxRow := Min(maxRow, displayCnt + anchorRow + 1);
    }

    method Add(it: Item<T>)
      modifies this
      ensures Snapshot() == Engine.Add(old(Snapshot()), it)
      ensures old(Valid()) ==> Valid()
    {
      items := items + [it];
    }

    method AddList(its: seq<Item<T>>)
      modifies this
      ensures Snapshot() == Engine.AddList(old(Snapshot()), its)
      ensures old(Valid()) ==> Valid()
    {
      items := items + its;
    }

    /** `reset`, given the new cursor row and terminal height (the corrected
        reset, that also puts the selection back on the top row). */
    method Reset(row: nat, rows: nat)
      modifies this
      ensures Snapshot() == Engine.Reset(old(Snapshot()), row, rows)
      ensures Valid()
      ensures rows >= 3 ==> InBounds(Snapshot())
    {
      ClearLists();
      ClearCursor(row, rows);
      ClearQuery();
      BackToTop();
      ResetInBounds(old(Snapshot()), row, rows);
    }

    /** The list half of `reset`. */
    method ClearLists()
      modifies this`items, this`matched, this`selected
      ensures Snapshot() == old(Snapshot()).(items := [], matched := [], selected := false)
    {
      items, matched, selected := [], [], false;
    }

    /** The screen half of `reset`: Normal mode at a new anchor row and height. */
    method ClearCursor(row: nat, rows: nat)
      modifies this`mode, this`anchorRow, this`maxRow
      ensures Snapshot() == old(Snapshot()).(mode := Normal, anchorRow := row, maxRow := rows)
    {
      mode, anchorRow, maxRow := Normal, row, rows;
    }

    /** The query half of `reset`. */
    method ClearQuery()
      modifies this`query, this`insertPos
      ensures Snapshot() == old(Snapshot()).(query := "", insertPos := 0)
    {
      query, insertPos := "", 0;
    }

    // ------------------------------------------------------------- layout

    /** `scroll_to_fit`, given the terminal height; the amount is what the code
        asks the terminal to scroll up by. */
    method ScrollToFit(termRows: nat) returns (amount: Option<nat>)
      requires anchorRow <= termRows
      requires Engine.FitCount(Snapshot()) + 2 >= termRows - anchorRow ==> maxRow >= 1
      modifies this
      ensures Scroll(Snapshot(), amount) == Engine.ScrollToFit(old(Snapshot()), termRows)
      ensures old(Valid()) ==> Valid()
    {
      var leftRows := termRows - anchorRow;
      var itemCnt := Min(|items|, Cap(maxRow, maxHeight));
      if itemCnt + 2 < leftRows {
        return None;
      }
      var diff := itemCnt + 2 - leftRows;
      amount := Some(Min(diff, maxRow - 1));
      anchorRow := Sat(anchorRow, diff);
    }

    // ------------------------------------------------------------- modes

    method EnterNormal()
      modifies this
      ensures Snapshot() == Engine.EnterNormal(old(Snapshot()))
      ensures old(Valid()) ==> Valid()
    {
      mode := Normal;
      matched := [];
    }

    method EnterQuery()
      modifies this
      ensures Snapshot() == Engine.EnterQuery(old(Snapshot()))
      ensures old(Valid()) ==> Valid()
    {
      mode := Query;
      query := "";
      insertPos := 0;
      EnterQueryFacts(old(Snapshot()));
    }

    // ------------------------------------------------------------- matching

    /** The sequential loop of `fuzzy_match`: rescore every accepted item in
        place and push its index. */
    method MatchSequential()
      modifies this`items, this`matched
      ensures items == Scored(matcher, old(items), query)
      ensures matched == Hits(matcher, old(items), query)
    {
      ghost var before := items;
      matched := [];
      var i := 0;
      while i < |items|
        invariant 0 <= i <= |items| == |before|
        invariant forall k :: 0 <= k < i ==> items[k] == Rescore(matcher, before[k], query)
        invariant forall k :: i <= k < |items| ==> items[k] == before[k]
        invariant matched == HitsBelow(matcher, before, query, i)
      {
        var hit := RescoreAt(i);
        if hit {
          matched := matched + [i];
        }
        i := i + 1;
      }
      assert items == Scored(matcher, before, query);
    }

    /** The body both matching loops share: ask the matcher about item `i` and, on
        a hit with a positive score, record the score and the matched positions. */
    method RescoreAt(i: nat) returns (hit: bool)
      requires i < |items|
      modifies this`items
      ensures items == old(items)[i := Rescore(matcher, old(items)[i], query)]
      ensures hit == Accepts(matcher, old(items)[i], query)
    {
      hit := false;
      match matcher(items[i].alias, query) {
        case None =>
        case Some(res) =>
          if res.score > 0 {
            items := items[i := items[i].(score := Some(res.score), matchedIndices := Some(res.positions))];
            hit := true;
          }
      }
      if !hit {
        assert items == old(items)[i := Rescore(matcher, old(items)[i], query)];
      }
    }

    /** `fuzzy_match_rayon`, with the chunks handed out one after the other: chunk
        `c` rescores items `c * 50 ..` and pushes their global indices. */
    method MatchChunked() returns (collected: seq<nat>)
      modifies this`items
      ensures items == Scored(matcher, old(items), query)
      ensures collected == Hits(matcher, old(items), query)
    {
      ghost var before := items;
      var n := |items|;
      collected := [];
      var c := 0;
      while c < ChunkCount(n)
        invariant c <= ChunkCount(n) && |items| == n
        invariant forall k :: 0 <= k < n ==>
          items[k] == if k < c * ChunkSize then Rescore(matcher, before[k], query) else before[k]
        invariant collected == CollectedUpTo(matcher, before, query, c)
      {
        var hits := MatchChunk(before, c);
        collected := collected + hits;
        c := c + 1;
      }
      assert items == Scored(matcher, before, query);
      ChunkedCollectsSequentialHits(matcher, before, query);
    }

    /** The worker of chunk `c`: rescore its items in order and return the global
        indices of those the matcher accepts. */
    method MatchChunk(ghost before: seq<Item<T>>, c: nat) returns (hits: seq<nat>)
      requires |items| == |before| && c < ChunkCount(|before|)
      requires forall k :: 0 <= k < |before| ==>
        items[k] == if k < c * ChunkSize then Rescore(matcher, before[k], query) else before[k]
      modifies this`items
      ensures |items| == |before|
      ensures forall k :: 0 <= k < |before| ==>
        items[k] == if k < (c + 1) * ChunkSize then Rescore(matcher, before[k], query) else before[k]
      ensures hits == WorkerHits(matcher, before, query, c, ChunkLen(|before|, c))
    {
      var n := |items|;
      var baseIdx := c * ChunkSize;
      ChunkLenFacts(n, c);
      var len := ChunkLen(n, c);
      hits := [];
      var o := 0;
      while o < len
        invariant o <= len && |items| == n
        invariant forall k :: 0 <= k < n ==>
          items[k] == if k < baseIdx + o then Rescore(matcher, before[k], query) else before[k]
        invariant hits == WorkerHits(matcher, before, query, c, o)
      {
        var i := baseIdx + o;
        var hit := RescoreAt(i);
        if hit {
          hits := hits + [i];
        }
        o := o + 1;
      }
    }

    /** `fuzzy_match`: back to the top row, match on one of the two paths, and
        sort the indices by descending score. */
    method FuzzyMatch()
      modifies this
      ensures Snapshot() == Rematch(old(Snapshot()), matcher)
    {
      BackToTop();
      RankItems();
    }

    /** The first step of `fuzzy_match`: the top row is highlighted again. */
    method BackToTop()
      modifies this`selectionIdx, this`scrollOffset
      ensures Snapshot() == old(Snapshot()).(selectionIdx := 0, scrollOffset := 0)
    {
      selectionIdx, scrollOffset := 0, 0;
    }

    /** Match on one of the two paths, then sort the indices by descending score. */
    method RankItems()
      modifies this`items, this`matched
      ensures Snapshot() == old(Snapshot()).(items := Scored(matcher, old(items), query),
        matched := Rank(matcher, old(items), query))
    {
      if |items| > ParallelThreshold {
        matched := MatchChunked();
      } else {
        MatchSequential();
      }
      matched := SortByScore(items, matched);
    }

    // ------------------------------------------------------------- keys

    method KeyUp()
      modifies this
      ensures Snapshot() == Engine.KeyUp(old(Snapshot()))
      ensures old(Valid()) ==> Valid()
    {
      if selectionIdx == 0 {
        scrollOffset := Sat(scrollOffset, 1);
        return;
      }
      selectionIdx := Sat(selectionIdx, 1);
    }

    /** The corrected `key_down`, bounded by the list `get_selection` indexes
        (the matched list in Query mode). */
    method KeyDown()
      modifies this
      ensures Snapshot() == Engine.KeyDown(old(Snapshot()))
      ensures old(Valid()) ==> Valid()
    {
      var itemCnt := if mode == Normal then |items| else |matched|;
      if selectionIdx + scrollOffset + 1 >= itemCnt {
        return;
      }
      if selectionIdx + 3 >= maxRow {
        scrollOffset := scrollOffset + 1;
        return;
      }
      selectionIdx := selectionIdx + 1;
    }

    method KeyEsc() returns (exit: bool)
      modifies this
      ensures Step(Snapshot(), exit) == Engine.KeyEsc(old(Snapshot()))
      ensures old(Valid()) ==> Valid()
    {
      if mode == Normal {
        return true;
      }
      EnterNormal();
      exit := false;
    }

    method KeyEnter()
      modifies this
      ensures Snapshot() == Engine.KeyEnter(old(Snapshot()))
      ensures old(Valid()) ==> Valid()
    {
      selected := true;
    }

    /** Left in Query mode. */
    method MoveLeft()
      requires Valid()
      modifies this`query, this`insertPos, this`queryCursorCol
      ensures Snapshot() == Engine.MoveLeft(old(Snapshot()))
      ensures Valid()
    {
      LeftKeeps(Snapshot());
      if insertPos > 0 {
        ShiftCursorBack();
      }
    }

    /** The edits Left makes away from 0: take out the character before the
        cursor, step the cursor and the column back over it, and insert it again
        at the new cursor.  The text ends as it was. */
    method ShiftCursorBack()
      requires IsBoundary(query, insertPos) && insertPos > 0
      requires queryCursorCol >= Width(query[..CharIndex(query, insertPos)])
      modifies this`query, this`insertPos, this`queryCursorCol
      ensures query == old(query) && insertPos == PrevBoundary(query, old(insertPos))
      ensures CharIndex(query, insertPos) < |query|
      ensures queryCursorCol == old(queryCursorCol) - Cells(query[CharIndex(query, insertPos)])
    {
      var q, b := query, insertPos;
      var pos := PrevBoundary(q, b);
      CursorStepBack(q, b);
      var t, c := RemoveAt(q, pos), CharAt(q, pos);
      TakeOutBefore(q, b, t, c);
      query := t;
      insertPos := b - Utf8Len(c);
      queryCursorCol := queryCursorCol - Cells(c);
      query := InsertAt(query, insertPos, c);
    }

    /** Right in Query mode (the corrected step over the next character). */
    method MoveRight()
      requires Valid()
      modifies this
      ensures Snapshot() == Engine.MoveRight(old(Snapshot()))
      ensures Valid()
    {
      RightKeeps(Snapshot());
      if insertPos < ByteLen(query) {
        var k := CharIndex(query, insertPos);
        OffsetEnd(query);
        OffsetBounded(query, k);
        queryCursorCol := queryCursorCol + Cells(query[k]);
        insertPos := NextBoundary(query, insertPos);
      }
    }

    /** A character typed in Query mode. */
    method InsertChar(c: char)
      requires Valid() && mode == Query
      modifies this
      ensures Snapshot() == Engine.InsertChar(old(Snapshot()), c, matcher)
      ensures Valid()
    {
      InsertCharKeeps(Snapshot(), c, matcher);
      TypeAtCursor(c);
      FuzzyMatch();
    }

    /** `query.insert(insert_pos, c)`, with the cursor and the column stepped
        over the new character. */
    method TypeAtCursor(c: char)
      requires IsBoundary(query, insertPos)
      modifies this`query, this`insertPos, this`queryCursorCol
      ensures Snapshot() == old(Snapshot()).(query := InsertAt(old(query), old(insertPos), c),
        insertPos := old(insertPos) + Utf8Len(c), queryCursorCol := old(queryCursorCol) + Cells(c))
    {
      query, insertPos, queryCursorCol := InsertAt(query, insertPos, c), insertPos + Utf8Len(c), queryCursorCol + Cells(c);
    }

    /** Backspace in Query mode. */
    method Backspace()
      requires Valid() && mode == Query
      modifies this
      ensures Snapshot() == KeyBackspace(old(Snapshot()), matcher)
      ensures Valid()
    {
      BackspaceKeeps(Snapshot(), matcher);
      if query == [] {
        return;
      }
      RemoveBeforeCursor();
      FuzzyMatch();
    }

    /** The edit part of Backspace on a non-empty query. */
    method RemoveBeforeCursor()
      requires CursorOk(Snapshot()) && query != []
      modifies this`query, this`insertPos, this`queryCursorCol
      ensures Snapshot() == BackspaceEdit(old(Snapshot()))
    {
      BackspaceIndex(query, insertPos);
      var pos := PrevBoundary(query, insertPos);
      BackspaceEditRemoves(Snapshot(), RemoveAt(query, pos), CharAt(query, pos));
      CutBeforeCursor();
    }

    /** Backspace's `query.remove(prev_boundary)`, with the cursor and the column
        stepped back over the removed character unless the cursor is at 0. */
    method CutBeforeCursor()
      requires IsBoundary(query, insertPos) && query != []
      requires queryCursorCol >= Width(query[..CharIndex(query, insertPos)])
      modifies this`query, this`insertPos, this`queryCursorCol
      ensures PrevBoundary(old(query), old(insertPos)) < ByteLen(old(query))
      ensures var pos := PrevBoundary(old(query), old(insertPos));
        var c := CharAt(old(query), pos);
        query == RemoveAt(old(query), pos) &&
        (old(insertPos) > 0 ==> old(insertPos) >= Utf8Len(c) && old(queryCursorCol) >= Cells(c) &&
                                insertPos == old(insertPos) - Utf8Len(c) && queryCursorCol == old(queryCursorCol) - Cells(c)) &&
        (old(insertPos) == 0 ==> insertPos == 0 && queryCursorCol == old(queryCursorCol))
    {
      var q, b := query, insertPos;
      var pos := PrevBoundary(q, b);
      assert pos < ByteLen(q) by {
        OffsetEnd(q);
        OffsetBounded(q, CharIndex(q, b));
        if b == 0 {
          OffsetStep(q, 0);
        }
      }
      var c := CharAt(q, pos);
      query := RemoveAt(q, pos);
      if b > 0 {
        CursorStepBack(q, b);
        insertPos := b - Utf8Len(c);
        queryCursorCol := queryCursorCol - Cells(c);
      }
    }

    // ------------------------------------------------------------- dispatch

    method DispatchNormal(code: KeyCode) returns (exit: bool)
      requires Valid() && mode == Normal
      modifies this
      ensures Step(Snapshot(), exit) == Engine.DispatchNormal(old(Snapshot()), code)
      ensures Valid()
    {
      NormalKeyKeeps(Snapshot(), code);
      exit := false;
      if code == Up || code == Char('k') {
        KeyUp();
      } else if code == Down || code == Char('j') {
        KeyDown();
      } else if code == Esc {
        exit := KeyEsc();
      } else if code == Enter {
        KeyEnter();
        exit := true;
      } else if code == Char('/') {
        EnterQuery();
      }
    }

    method DispatchQuery(code: KeyCode) returns (exit: bool)
      requires Valid() && mode == Query
      modifies this
      ensures Step(Snapshot(), exit) == Engine.DispatchQuery(old(Snapshot()), code, matcher)
      ensures Valid()
    {
      QueryKeyKeeps(Snapshot(), code, matcher);
      exit := false;
      if code == Esc {
        exit := KeyEsc();
      } else if code == Up {
        KeyUp();
      } else if code == Down {
        KeyDown();
      } else if code == Left {
        MoveLeft();
      } else if code == Right {
        MoveRight();
      } else if code == Enter {
        KeyEnter();
        exit := true;
      } else if code.Char? {
        InsertChar(code.c);
      } else if code == KeyCode.Backspace {
        Backspace();
      }
    }

    method DispatchCode(code: KeyCode) returns (exit: bool)
      requires Valid()
      modifies this
      ensures Step(Snapshot(), exit) == Engine.DispatchCode(old(Snapshot()), code, matcher)
      ensures Valid()
    {
      if mode == Normal {
        exit := DispatchNormal(code);
      } else {
        exit := DispatchQuery(code);
      }
    }

    /** `dispatch_key`: whether the event loop should exit. */
    method DispatchKey(key: KeyEvent) returns (exit: bool)
      requires Valid()
      modifies this
      ensures Step(Snapshot(), exit) == Engine.DispatchKey(old(Snapshot()), key, matcher)
      ensures Valid()
    {
      if key.modifiers == CONTROL {
        return key.code == Char('c');
      } else if key.modifiers == NONE {
        exit := DispatchCode(key.code);
      } else {
        exit := false;
      }
    }

    // ------------------------------------------------------------- selection

    /** `get_selection`, where it does not panic: the chosen item, or nothing
        unless Enter was pressed. */
    method GetSelection() returns (r: Option<Item<T>>)
      requires Selection(Snapshot()) != OutOfRange
      ensures Selection(Snapshot()) == NoPick ==> r.None?
      ensures Selection(Snapshot()).Picked? ==> r == Some(items[Selection(Snapshot()).index])
      ensures r.Some? ==> selected && r.value in items
      ensures r.Some? && mode == Normal ==> r.value == items[selectionIdx + scrollOffset]
    {
      if !selected {
        return None;
      }
      var itemIdx := if mode == Normal then selectionIdx + scrollOffset else matched[selectionIdx + scrollOffset];
      r := Some(items[itemIdx]);
    }

    /** The event loop of `select0`: dispatch keys until one asks to exit or the
        script runs out. */
    method RunKeys(keys: seq<KeyEvent>) returns (exit: bool)
      requires Valid()
      modifies this
      ensures Valid()
      ensures Step(Snapshot(), exit) == Run(old(Snapshot()), keys, matcher)
    {
      ghost var start := Snapshot();
      var i := 0;
      exit := false;
      while i < |keys| && !exit
        invariant Valid() && 0 <= i <= |keys|
        invariant !exit ==> Run(start, keys, matcher) == Run(Snapshot(), keys[i..], matcher)
        invariant exit ==> Run(start, keys, matcher) == Step(Snapshot(), true)
        decreases |keys| - i
      {
        assert keys[i..][1..] == keys[i + 1..];
        exit := DispatchKey(keys[i]);
        i := i + 1;
      }
    }

    /** `select0` on a script of keys and a terminal height (the drawing between
        keys is left out). */
    method Select0(keys: seq<KeyEvent>, termRows: nat) returns (outcome: Session<T>)
      requires Valid()
      modifies this
      ensures outcome == SessionResult(old(Snapshot()), keys, termRows, matcher)
      ensures Valid()
      ensures old(|items|) > 0 && CanScroll(old(Snapshot()), termRows) ==>
        Snapshot() == Run(Prepared(old(Snapshot()), termRows), keys, matcher).state
      ensures !(old(|items|) > 0 && CanScroll(old(Snapshot()), termRows)) ==> Snapshot() == old(Snapshot())
      ensures old(selected) ==> selected
    {
      if |items| == 0 {
        return Chosen(None);
      }
      if !CanScroll(Snapshot(), termRows) {
        return Panic;
      }
      PreparedFacts(Snapshot(), termRows);
      var _ := ScrollToFit(termRows);
      EnterNormal();
      assert Snapshot() == Prepared(old(Snapshot()), termRows);
      RunKeepsSelected(Snapshot(), keys, matcher);
      var exit := RunKeys(keys);
      if !exit {
        return Waiting;
      }
      if Selection(Snapshot()) == OutOfRange {
        return Panic;
      }
      var it := GetSelection();
      outcome := Chosen(it);
    }
  }
}
