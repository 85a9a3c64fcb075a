/**
 * Drawing the menu (draw.rs).  The terminal writes become a list of commands in
 * the order the code issues them; the crossterm command names are kept.
 */
module Render {
  import opened Model
  import opened Engine

  /** The crossterm commands draw.rs issues.  `MoveTo` takes the column first. */
  datatype Cmd = MoveTo(col: nat, row: nat) | ClearFromCursorDown | Print(text: string) | MoveToNextLine(n: nat)

  /** The prefix of an option row: "> " on the highlighted row, two spaces elsewhere. */
  function Marker(highlighted: bool): (p: string)
    ensures |p| == 2 && p[1] == ' '
    ensures p[0] == '>' <==> highlighted
  {
    if highlighted then "> " else "  "
  }

  /** The text of option row `i`. */
  function OptionRow(alias: string, highlighted: bool): (row: string)
    ensures |row| == 2 + |alias|
    ensures row[..2] == Marker(highlighted) && row[2..] == alias
  {
    Marker(highlighted) + alias
  }

  /** Whether a printed row carries the highlight marker. */
  predicate MarkedRow(c: Cmd)
  {
    c.Print? && |c.text| >= 2 && c.text[..2] == "> "
  }

  /** `clear`: back to the anchor (`cursor_abs_pos`, whose column is 0), then
      clear everything below it. */
  function ClearCmds<T>(s: State<T>): seq<Cmd>
  {
    [MoveTo(0, s.anchorRow), ClearFromCursorDown]
  }

  /** `print_cursor`: only in Query mode, to the query column on the anchor row. */
  function CursorCmds<T>(s: State<T>): (out: seq<Cmd>)
  {
    if s.mode == Query then [MoveTo(s.queryCursorCol, s.anchorRow)] else []
  }

  /** The command pair of option row `i`: down one line, then print the row. */
  predicate OptionAt<T>(out: seq<Cmd>, items: seq<Item<T>>, sel: nat, i: nat)
    requires i < |items| && 2 * i + 1 < |out|
  {
    out[2 * i] == MoveToNextLine(1) && out[2 * i + 1] == Print(OptionRow(items[i].alias, i == sel))
  }

  /** `print_options`: one row for every item of the list, in list order; the
      row whose position equals `selection_idx` is highlighted. */
  method PrintOptions<T>(s: State<T>) returns (out: seq<Cmd>)
    ensures |out| == 2 * |s.items|
    ensures forall i :: 0 <= i < |s.items| ==> OptionAt(out, s.items, s.selectionIdx, i)
  {
    out := [];
    var i := 0;
    while i < |s.items|
      invariant i <= |s.items| && |out| == 2 * i
      invariant forall k :: 0 <= k < i ==> OptionAt(out, s.items, s.selectionIdx, k)
    {
      var row := if i == s.selectionIdx then "> " + s.items[i].alias else "  " + s.items[i].alias;
      ghost var before := out;
      out := out + [MoveToNextLine(1), Print(row)];
      assert row == OptionRow(s.items[i].alias, i == s.selectionIdx);
      forall k | 0 <= k < i ensures OptionAt(out, s.items, s.selectionIdx, k) {
        assert OptionAt(before, s.items, s.selectionIdx, k);
        assert out[2 * k] == before[2 * k] && out[2 * k + 1] == before[2 * k + 1];
      }
      assert OptionAt(out, s.items, s.selectionIdx, i);
      i := i + 1;
    }
  }

  /** `draw`: clear, title, options, cursor, in that order. */
  method Draw<T>(s: State<T>) returns (out: seq<Cmd>)
    ensures |out| == 3 + 2 * |s.items| + |CursorCmds(s)|
    ensures out[..2] == ClearCmds(s)
    ensures out[2] == Print(TitleLine(s))
    ensures forall i :: 0 <= i < |s.items| ==> OptionAt(out[3..], s.items, s.selectionIdx, i)
    ensures out[3 + 2 * |s.items|..] == CursorCmds(s)
    ensures s.mode == Normal ==> |out| == 3 + 2 * |s.items|
    ensures s.mode == Query ==> out[|out| - 1] == MoveTo(s.queryCursorCol, s.anchorRow)
  {
    out := [MoveTo(0, s.anchorRow), ClearFromCursorDown];
    out := out + [Print(TitleLine(s))];
    var options := PrintOptions(s);
    out := out + options;
    assert out[3..] == options;
    if s.mode == Query {
      out := out + [MoveTo(s.queryCursorCol, s.anchorRow)];
    }
    assert out[3..][..2 * |s.items|] == options;
    assert forall i :: 0 <= i < |s.items| ==> OptionAt(out[3..], s.items, s.selectionIdx, i) by {
      forall i | 0 <= i < |s.items| ensures OptionAt(out[3..], s.items, s.selectionIdx, i) {
        assert OptionAt(options, s.items, s.selectionIdx, i);
        assert out[3..][2 * i] == options[2 * i] && out[3..][2 * i + 1] == options[2 * i + 1];
      }
    }
  }

  /** Row `i` carries the marker exactly when `i` is the selection index, so at
      most one row is marked, and one is exactly when the index is inside the list. */
  lemma MarkedRowIsSelection<T>(out: seq<Cmd>, items: seq<Item<T>>, sel: nat, i: nat)
    requires i < |items| && 2 * i + 1 < |out| && OptionAt(out, items, sel, i)
    ensures MarkedRow(out[2 * i + 1]) <==> i == sel
  {
    var row := OptionRow(items[i].alias, i == sel);
    assert row[..2] == Marker(i == sel);
    if i != sel {
      assert row[..2][0] == ' ';
    }
  }

  /** At most one option row is marked: two marked rows are the same row. */
  lemma AtMostOneMarked<T>(out: seq<Cmd>, items: seq<Item<T>>, sel: nat, i: nat, j: nat)
    requires i < |items| && j < |items| && 2 * i + 1 < |out| && 2 * j + 1 < |out|
    requires OptionAt(out, items, sel, i) && OptionAt(out, items, sel, j)
    requires MarkedRow(out[2 * i + 1]) && MarkedRow(out[2 * j + 1])
    ensures i == j
  {
    MarkedRowIsSelection(out, items, sel, i);
    MarkedRowIsSelection(out, items, sel, j);
  }
}
