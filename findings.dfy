/**
 * Four places where the code of keymap.rs and core.rs does not do what it
 * evidently means to do.  Each is shown on a concrete record for the function
 * written as the code reads (the AsWritten functions of Engine), next to the
 * corrected function the rest of the model uses.  A fifth, `select0` never
 * clearing `selected`, is in core.dfy (StaleSelectionOnCancel).
 */
module Findings {
  import opened Wrappers
  import opened Utf8
  import opened Model
  import opened Keys
  import opened Ranking
  import opened Style
  import opened Engine
  import opened EngineFacts

  /** A fresh menu in Query mode with query `q`, cursor at byte `b` and display
      column `col`. */
  function QueryDemo(q: string, b: nat, col: nat): State<int>
  {
    EnterQuery(New(false, 0, 10)).(query := q, insertPos := b, queryCursorCol := col)
  }

  /** Byte offsets of "aéb": 'a' at 0, 'é' (two bytes) at 1, 'b' at 3, end at 4. */
  lemma AccentedOffsets()
    ensures Utf8Len('é') == 2
    ensures ByteLen("aéb") == 4 && ByteLen("abé") == 4 && ByteLen("ab") == 2
    ensures IsBoundary("aéb", 0) && CharIndex("aéb", 0) == 0
    ensures IsBoundary("aéb", 4) && CharIndex("aéb", 4) == 3
    ensures IsBoundary("aéb", 1) && CharIndex("aéb", 1) == 1
    ensures IsBoundary("aéb", 3) && CharIndex("aéb", 3) == 2
    ensures IsBoundary("ab", 2) && CharIndex("ab", 2) == 2
  {
    var s := "aéb";
    assert s[..0] == [] && s[..1] == ['a'] && s[..2] == ['a', 'é'] && s[..3] == s;
    OffsetStep(s, 0);
    OffsetStep(s, 1);
    OffsetStep(s, 2);
    CharIndexOfOffsetIs(s, 0);
    CharIndexOfOffsetIs(s, 1);
    CharIndexOfOffsetIs(s, 2);
    CharIndexOfOffsetIs(s, 3);
    OffsetEnd(s);
    var t := "ab";
    OffsetStep(t, 0);
    OffsetStep(t, 1);
    OffsetEnd(t);
    assert t[..2] == t;
    CharIndexOfOffsetIs(t, 2);
    ByteLenConcat("ab", "é");
    assert "ab" + "é" == "abé";
    assert ByteLen("é") == Utf8Len('é') + ByteLen([]);
  }

  // ---------------------------------------------------------------------------
  // Finding 1: Right moves the wrong character.

  /** Right as written, cursor at 0 of "aéb": it takes out 'é', the character
      starting at `next_boundary!` (right after the 'a' under the cursor), and
      puts it back two bytes later, in "ab" at offset 2, so the query becomes "abé". */
  lemma RightScramblesQuery()
    ensures MoveRightAsWritten(QueryDemo("aéb", 0, 0)).Some?
    ensures MoveRightAsWritten(QueryDemo("aéb", 0, 0)).value.query == "abé"
  {
    var s := QueryDemo("aéb", 0, 0);
    AccentedOffsets();
    assert LastCharPos("aéb") == 3;
    assert NextBoundary("aéb", 0) == 1;
    RemoveAtSplits("aéb", 1);
    var t := RemoveAt("aéb", 1);
    assert t == "ab";
    assert CharAt("aéb", 1) == 'é';
    InsertAtSplits("ab", 2, 'é');
    assert InsertAt("ab", 2, 'é') == "abé";
    assert ShiftFrom("aéb", 0) == 1;
    assert ShiftNext("aéb", 0) == Some("abé");
  }

  /** The corrected Right on the same record keeps the text and steps over 'a'. */
  lemma RightKeepsQuery()
    ensures MoveRight(QueryDemo("aéb", 0, 0)).query == "aéb"
    ensures MoveRight(QueryDemo("aéb", 0, 0)).insertPos == 1
  {
    AccentedOffsets();
    MoveRightFacts(QueryDemo("aéb", 0, 0));
  }

  // ---------------------------------------------------------------------------
  // Finding 2: Right on the last character does not move the cursor.

  /** Right as written with the cursor before the last character of "ab" leaves
      the cursor there, so a following 'x' lands before 'b'. */
  lemma RightStopsBeforeLast(m: Matcher)
    ensures MoveRightAsWritten(QueryDemo("ab", 1, 1)).Some?
    ensures MoveRightAsWritten(QueryDemo("ab", 1, 1)).value.insertPos == 1
    ensures InsertChar(MoveRightAsWritten(QueryDemo("ab", 1, 1)).value, 'x', m).query == "axb"
  {
    RightAsWrittenStays();
    var r := MoveRightAsWritten(QueryDemo("ab", 1, 1)).value;
    assert InsertChar(r, 'x', m).query == InsertAt("ab", 1, 'x');
    TypeInMiddle();
  }

  /** 'x' inserted at byte 1 of "ab". */
  lemma TypeInMiddle()
    ensures IsBoundary("ab", 1) && InsertAt("ab", 1, 'x') == "axb"
  {
    AsciiBoundary("ab", 1);
    InsertAtSplits("ab", 1, 'x');
  }

  /** On "ab" with the cursor on 'b', Right as written keeps the text and the cursor. */
  lemma RightAsWrittenStays()
    ensures MoveRightAsWritten(QueryDemo("ab", 1, 1)).Some?
    ensures MoveRightAsWritten(QueryDemo("ab", 1, 1)).value.query == "ab"
    ensures MoveRightAsWritten(QueryDemo("ab", 1, 1)).value.insertPos == 1
  {
    AsciiBoundary("ab", 1);
    AsciiBoundary("ab", 2);
    AsciiOffset("ab", 2);
    OffsetEnd("ab");
    assert LastCharPos("ab") == 1 by {
      AsciiBoundary("ab", LastCharPos("ab"));
    }
  }

  /** The corrected Right steps over 'b', so a following 'x' is appended. */
  lemma RightReachesEnd(m: Matcher)
    ensures MoveRight(QueryDemo("ab", 1, 1)).insertPos == 2
    ensures InsertChar(MoveRight(QueryDemo("ab", 1, 1)), 'x', m).query == "abx"
  {
    var s := QueryDemo("ab", 1, 1);
    AsciiBoundary("ab", 1);
    AsciiBoundary("ab", 2);
    AsciiOffset("ab", 2);
    OffsetEnd("ab");
    AsciiBoundary("ab", 0);
    assert "ab"[..1] == "a" && Width("a") == 1;
    MoveRightFacts(s);
    AsciiBoundary("ab", MoveRight(s).insertPos);
    InsertAtSplits("ab", 2, 'x');
  }

  // ---------------------------------------------------------------------------
  // Finding 3: Down in Query mode runs past the matched list.

  /** Down as written bounds the row by all items even in Query mode.  On the last
      match, with more items than matches and room on screen, it moves below the
      matched list, and Enter then indexes that list out of range. */
  lemma DownPastMatches<T>(s: State<T>)
    requires s.mode == Query && Pos(s) + 1 == |s.matched| && |s.matched| < |s.items| < 0x1_0000
    requires s.selectionIdx + 3 < s.maxRow
    ensures KeyDownAsWritten(s) == Some(s.(selectionIdx := s.selectionIdx + 1))
    ensures Selection(KeyEnter(KeyDownAsWritten(s).value)) == OutOfRange
  {
  }

  /** The corrected Down stays on the last match, which Enter then picks. */
  lemma DownStaysOnMatches<T>(s: State<T>)
    requires s.mode == Query && Pos(s) + 1 == |s.matched| && WF(s)
    ensures KeyDown(s) == s
    ensures Selection(KeyEnter(KeyDown(s))) == Picked(s.matched[Pos(s)])
  {
  }

  /** Wherever the code's Down does not misbehave (Normal mode, fewer than 65536
      items, the row on screen and in the list) it agrees with the corrected one. */
  lemma KeyDownAgrees<T>(s: State<T>)
    requires s.mode == Normal && 0 < |s.items| < 0x1_0000 && InBounds(s)
    ensures KeyDownAsWritten(s) == Some(KeyDown(s))
  {
  }

  /** The code's law for Down, in either mode: from a row on screen and inside
      the item list (fewer than 65536 items, at least three rows), it moves one
      entry further unless on the last item, stays on screen and inside
      `item_list`, and changes nothing but the row and the scroll offset.  In
      Query mode that bound is the item list, not the matched one. */
  lemma KeyDownAsWrittenBounds<T>(s: State<T>)
    requires 0 < |s.items| < 0x1_0000 && s.selectionIdx + 3 <= s.maxRow && Pos(s) < |s.items|
    ensures KeyDownAsWritten(s).Some?
    ensures var r := KeyDownAsWritten(s).value;
      r.selectionIdx + 3 <= r.maxRow && Pos(r) < |r.items| &&
      Pos(r) == (if Pos(s) + 1 == |s.items| then Pos(s) else Pos(s) + 1) &&
      r == s.(selectionIdx := r.selectionIdx, scrollOffset := r.scrollOffset)
  {
  }

  // ---------------------------------------------------------------------------
  // Finding 4: reset keeps the old selection index.

  /** After `reset` as written on a record whose highlighted row was not the
      top one, adding one item and pressing Enter picks past the end of the list. */
  lemma ResetKeepsStaleRow<T>(s: State<T>, row: nat, rows: nat, it: Item<T>)
    requires s.selectionIdx > 0
    ensures ResetAsWritten(s, row, rows).selectionIdx == s.selectionIdx
    ensures Selection(KeyEnter(Add(ResetAsWritten(s, row, rows), it))) == OutOfRange
  {
  }
}
