/**
 * Colour schemes and the styling of item labels.  The `colored` crate, which turns
 * a string and one styling step into an ANSI-escaped string, is a parameter
 * `paint`; what is modelled is which steps `colorize` applies, in what order, and
 * how the query-mode highlighter splices styled characters into a label.
 */
module Style {
  import opened Wrappers
  import opened Utf8
  import opened Model

  /** The eight basic named colours of the `colored` crate (its Bright
      variants and TrueColor are not modelled). */
  datatype Color = Black | Red | Green | Yellow | Blue | Magenta | Cyan | White

  newtype u8 = x: int | 0 <= x < 256

  /** An RGB triple, as `(u8, u8, u8)`. */
  datatype Rgb = Rgb(r: u8, g: u8, b: u8)

  /** `FontShape`, a bit-flag code; its OR (`BitOr`) is not modelled. */
  datatype FontShape = FontShape(code: bv8)

  const Bold := FontShape(1)
  const Italic := FontShape(2)
  const Underline := FontShape(4)

  /** `impl BitAnd for FontShape`: the AND of the two codes, as a `u8`. */
  function BitAnd(a: FontShape, b: FontShape): (r: bv8)
    ensures r & a.code == r && r & b.code == r
    ensures a.code == b.code ==> r == a.code
  {
    a.code & b.code
  }

  lemma BitAndCommutes(a: FontShape, b: FontShape)
    ensures BitAnd(a, b) == BitAnd(b, a)
  {
  }

  /** `FontStyle`: an optional shape and optional foreground/background colours,
      each either named or RGB. */
  datatype FontStyle = FontStyle(
    shape: Option<FontShape>,
    fgColor: Option<Color>,
    bgColor: Option<Color>,
    fgColor256: Option<Rgb>,
    bgColor256: Option<Rgb>)
  {
    /** `set_shape` */
    function SetShape(s: FontShape): (r: FontStyle)
      ensures r.shape == Some(s)
      ensures r.fgColor == fgColor && r.bgColor == bgColor && r.fgColor256 == fgColor256 && r.bgColor256 == bgColor256
    {
      this.(shape := Some(s))
    }

    /** `set_fg_color` */
    function SetFgColor(c: Color): (r: FontStyle)
      ensures r.fgColor == Some(c)
      ensures r.shape == shape && r.bgColor == bgColor && r.fgColor256 == fgColor256 && r.bgColor256 == bgColor256
    {
      this.(fgColor := Some(c))
    }

    /** `set_bg_color` */
    function SetBgColor(c: Color): (r: FontStyle)
      ensures r.bgColor == Some(c)
      ensures r.shape == shape && r.fgColor == fgColor && r.fgColor256 == fgColor256 && r.bgColor256 == bgColor256
    {
      this.(bgColor := Some(c))
    }

    /** `set_fg_color_256` */
    function SetFgColor256(c: Rgb): (r: FontStyle)
      ensures r.fgColor256 == Some(c)
      ensures r.shape == shape && r.fgColor == fgColor && r.bgColor == bgColor && r.bgColor256 == bgColor256
    {
      this.(fgColor256 := Some(c))
    }

    /** `set_bg_color_256` */
    function SetBgColor256(c: Rgb): (r: FontStyle)
      ensures r.bgColor256 == Some(c)
      ensures r.shape == shape && r.fgColor == fgColor && r.bgColor == bgColor && r.fgColor256 == fgColor256
    {
      this.(bgColor256 := Some(c))
    }
  }

  /** `FontStyle::default()`: nothing set. */
  const PlainStyle := FontStyle(None, None, None, None, None)

  /** `FontStyle::default_matched()`: yellow foreground only. */
  const MatchedStyle := FontStyle(None, Some(Yellow), None, None, None)

  /** `ColorScheme`: one style per part of the menu. */
  datatype ColorScheme = ColorScheme(
    title: FontStyle,
    query: FontStyle,
    items: FontStyle,
    chosenLn: FontStyle,
    matched: FontStyle,
    moreTag: FontStyle)
  {
    /** `set_title_style` */
    function SetTitleStyle(s: FontStyle): (r: ColorScheme)
      ensures r.title == s
      ensures r.query == query && r.items == items && r.chosenLn == chosenLn && r.matched == matched && r.moreTag == moreTag
    {
      this.(title := s)
    }

    /** `set_query_style` */
    function SetQueryStyle(s: FontStyle): (r: ColorScheme)
      ensures r.query == s
      ensures r.title == title && r.items == items && r.chosenLn == chosenLn && r.matched == matched && r.moreTag == moreTag
    {
      this.(query := s)
    }

    /** `set_items_style` */
    function SetItemsStyle(s: FontStyle): (r: ColorScheme)
      ensures r.items == s
      ensures r.title == title && r.query == query && r.chosenLn == chosenLn && r.matched == matched && r.moreTag == moreTag
    {
      this.(items := s)
    }

    /** `set_chosen_ln_style` */
    function SetChosenLnStyle(s: FontStyle): (r: ColorScheme)
      ensures r.chosenLn == s
      ensures r.title == title && r.query == query && r.items == items && r.matched == matched && r.moreTag == moreTag
    {
      this.(chosenLn := s)
    }

    /** `set_matched_style` */
    function SetMatchedStyle(s: FontStyle): (r: ColorScheme)
      ensures r.matched == s
      ensures r.title == title && r.query == query && r.items == items && r.chosenLn == chosenLn && r.moreTag == moreTag
    {
      this.(matched := s)
    }

    /** `set_more_tag_style` */
    function SetMoreTagStyle(s: FontStyle): (r: ColorScheme)
      ensures r.moreTag == s
      ensures r.title == title && r.query == query && r.items == items && r.chosenLn == chosenLn && r.matched == matched
    {
      this.(moreTag := s)
    }
  }

  /** `ColorScheme::default()`: the matched characters and the chosen line in
      yellow, every other part unstyled. */
  function DefaultScheme(): (cs: ColorScheme)
    ensures cs.matched == cs.chosenLn && cs.matched.fgColor == Some(Yellow)
    ensures cs.matched.shape.None? && cs.matched.bgColor.None? && cs.matched.fgColor256.None? && cs.matched.bgColor256.None?
    ensures cs.title == cs.query == cs.items == cs.moreTag == PlainStyle
  {
    ColorScheme(PlainStyle, PlainStyle, PlainStyle, MatchedStyle, MatchedStyle, PlainStyle)
  }

  /** Setting two different parts of a scheme gives the same scheme in either order:
      each setter touches its own field only. */
  lemma SchemeSettersCommute(cs: ColorScheme, a: FontStyle, b: FontStyle)
    ensures cs.SetTitleStyle(a).SetMatchedStyle(b) == cs.SetMatchedStyle(b).SetTitleStyle(a)
    ensures cs.SetItemsStyle(a).SetChosenLnStyle(b) == cs.SetChosenLnStyle(b).SetItemsStyle(a)
    ensures cs.SetQueryStyle(a).SetMoreTagStyle(b) == cs.SetMoreTagStyle(b).SetQueryStyle(a)
  {
  }

  /** One call into the `colored` crate. */
  datatype Paint =
    | PaintBold | PaintItalic | PaintUnderline
    | Fg(color: Color) | FgRgb(rgb: Rgb)
    | Bg(color: Color) | BgRgb(rgb: Rgb)

  /** Styling function of the `colored` crate: the string with one more step applied. */
  type Painter = (string, Paint) -> string

  /** The shape block of `colorize`: bold, italic, underline, each if its bit is set. */
  function PaintShape(s: string, shape: Option<FontShape>, paint: Painter): string
  {
    if shape.None? then s
    else
      var b := if BitAnd(shape.value, Bold) != 0 then paint(s, PaintBold) else s;
      var i := if BitAnd(shape.value, Italic) != 0 then paint(b, PaintItalic) else b;
      if BitAnd(shape.value, Underline) != 0 then paint(i, PaintUnderline) else i
  }

  /** The foreground block of `colorize`: the named colour, else the RGB one. */
  function PaintFg(s: string, style: FontStyle, paint: Painter): string
  {
    if style.fgColor.Some? then paint(s, Fg(style.fgColor.value))
    else if style.fgColor256.Some? then paint(s, FgRgb(style.fgColor256.value))
    else s
  }

  /** The background block of `colorize`: the named colour, else the RGB one. */
  function PaintBg(s: string, style: FontStyle, paint: Painter): string
  {
    if style.bgColor.Some? then paint(s, Bg(style.bgColor.value))
    else if style.bgColor256.Some? then paint(s, BgRgb(style.bgColor256.value))
    else s
  }

  /** `colorize(s, style)`: the shape, then the foreground, then the background. */
  function Colorize(s: string, style: FontStyle, paint: Painter): string
  {
    PaintBg(PaintFg(PaintShape(s, style.shape, paint), style, paint), style, paint)
  }

  function ShapeSteps(shape: Option<FontShape>): (r: seq<Paint>)
    ensures forall p :: p in r ==> p == PaintBold || p == PaintItalic || p == PaintUnderline
    ensures PaintBold in r <==> shape.Some? && BitAnd(shape.value, Bold) != 0
    ensures PaintItalic in r <==> shape.Some? && BitAnd(shape.value, Italic) != 0
    ensures PaintUnderline in r <==> shape.Some? && BitAnd(shape.value, Underline) != 0
    ensures |r| <= 3
  {
    if shape.None? then []
    else
      (if BitAnd(shape.value, Bold) != 0 then [PaintBold] else []) +
      (if BitAnd(shape.value, Italic) != 0 then [PaintItalic] else []) +
      (if BitAnd(shape.value, Underline) != 0 then [PaintUnderline] else [])
  }

  function FgSteps(style: FontStyle): (r: seq<Paint>)
    ensures forall p :: p in r ==> p.Fg? || p.FgRgb?
    ensures forall c :: Fg(c) in r <==> style.fgColor == Some(c)
    ensures forall x :: FgRgb(x) in r <==> style.fgColor.None? && style.fgColor256 == Some(x)
    ensures |r| <= 1
  {
    if style.fgColor.Some? then [Fg(style.fgColor.value)]
    else if style.fgColor256.Some? then [FgRgb(style.fgColor256.value)]
    else []
  }

  function BgSteps(style: FontStyle): (r: seq<Paint>)
    ensures forall p :: p in r ==> p.Bg? || p.BgRgb?
    ensures forall c :: Bg(c) in r <==> style.bgColor == Some(c)
    ensures forall x :: BgRgb(x) in r <==> style.bgColor.None? && style.bgColor256 == Some(x)
    ensures |r| <= 1
  {
    if style.bgColor.Some? then [Bg(style.bgColor.value)]
    else if style.bgColor256.Some? then [BgRgb(style.bgColor256.value)]
    else []
  }

  /** The steps `colorize` takes for `style`, in order: shape, then foreground,
      then background. */
  function Steps(style: FontStyle): seq<Paint>
  {
    ShapeSteps(style.shape) + FgSteps(style) + BgSteps(style)
  }

  /** Colours in the steps: a named foreground colour wins over an RGB one, and
      likewise for the background. */
  lemma StepsColors(style: FontStyle)
    ensures forall c :: Fg(c) in Steps(style) <==> style.fgColor == Some(c)
    ensures forall x :: FgRgb(x) in Steps(style) <==> style.fgColor.None? && style.fgColor256 == Some(x)
    ensures forall c :: Bg(c) in Steps(style) <==> style.bgColor == Some(c)
    ensures forall x :: BgRgb(x) in Steps(style) <==> style.bgColor.None? && style.bgColor256 == Some(x)
  {
  }

  /** Shapes in the steps, one per bit set, and at most five steps in all. */
  lemma StepsShape(style: FontStyle)
    ensures PaintBold in Steps(style) <==> style.shape.Some? && BitAnd(style.shape.value, Bold) != 0
    ensures PaintItalic in Steps(style) <==> style.shape.Some? && BitAnd(style.shape.value, Italic) != 0
    ensures PaintUnderline in Steps(style) <==> style.shape.Some? && BitAnd(style.shape.value, Underline) != 0
    ensures |Steps(style)| <= 5
  {
  }

  /** Apply the steps left to right. */
  function ApplySteps(s: string, steps: seq<Paint>, paint: Painter): string
    decreases |steps|
  {
    if steps == [] then s else ApplySteps(paint(s, steps[0]), steps[1..], paint)
  }

  lemma {:induction false} ApplyStepsConcat(s: string, a: seq<Paint>, b: seq<Paint>, paint: Painter)
    ensures ApplySteps(s, a + b, paint) == ApplySteps(ApplySteps(s, a, paint), b, paint)
    decreases |a|
  {
    if a != [] {
      assert (a + b)[1..] == a[1..] + b;
      ApplyStepsConcat(paint(s, a[0]), a[1..], b, paint);
    } else {
      assert a + b == b;
    }
  }

  lemma ShapeFollowsSteps(s: string, shape: Option<FontShape>, paint: Painter)
    ensures PaintShape(s, shape, paint) == ApplySteps(s, ShapeSteps(shape), paint)
  {
    if shape.Some? {
      var b := if BitAnd(shape.value, Bold) != 0 then [PaintBold] else [];
      var i := if BitAnd(shape.value, Italic) != 0 then [PaintItalic] else [];
      var u := if BitAnd(shape.value, Underline) != 0 then [PaintUnderline] else [];
      ApplyStepsConcat(s, b + i, u, paint);
      ApplyStepsConcat(s, b, i, paint);
    }
  }

  lemma FgFollowsSteps(s: string, style: FontStyle, paint: Painter)
    ensures PaintFg(s, style, paint) == ApplySteps(s, FgSteps(style), paint)
  {
    if FgSteps(style) != [] {
      assert FgSteps(style)[1..] == [];
    }
  }

  lemma BgFollowsSteps(s: string, style: FontStyle, paint: Painter)
    ensures PaintBg(s, style, paint) == ApplySteps(s, BgSteps(style), paint)
  {
    if BgSteps(style) != [] {
      assert BgSteps(style)[1..] == [];
    }
  }

  /** `colorize` is the colored crate applied along Steps(style). */
  lemma ColorizeFollowsSteps(s: string, style: FontStyle, paint: Painter)
    ensures Colorize(s, style, paint) == ApplySteps(s, Steps(style), paint)
  {
    var a, b, c := ShapeSteps(style.shape), FgSteps(style), BgSteps(style);
    ApplyStepsConcat(s, a + b, c, paint);
    ApplyStepsConcat(s, a, b, paint);
    ShapeFollowsSteps(s, style.shape, paint);
    var t := PaintShape(s, style.shape, paint);
    FgFollowsSteps(t, style, paint);
    BgFollowsSteps(PaintFg(t, style, paint), style, paint);
  }

  /** With a painter that adds nothing, colorize returns its input. */
  lemma ColorizePlainPainter(s: string, style: FontStyle, paint: Painter)
    requires forall t, p :: paint(t, p) == t
    ensures Colorize(s, style, paint) == s
  {
  }

  /** `get_colored_alias_for_normal_mode`: the whole alias in the items style. */
  function AliasForNormalMode<T>(it: Item<T>, cs: ColorScheme, paint: Painter): string
  {
    Colorize(it.alias, cs.items, paint)
  }

  /** Prefix `d` to a result that may have panicked. */
  function Prepend(d: string, r: Option<string>): (o: Option<string>)
    ensures o.Some? <==> r.Some?
    ensures o.Some? ==> o.value == d + r.value
  {
    if r.Some? then Some(d + r.value) else None
  }

  /** The query-mode highlighter from byte offset `last` on: the gap up to the
      next matched index left unstyled, the byte at that index styled as matched,
      and after the last index the rest of the alias.  None where a slice of the
      alias would panic. */
  function Splice(alias: string, idxs: seq<nat>, last: nat, style: FontStyle, paint: Painter): Option<string>
  {
    if idxs == [] then Slice(alias, last, ByteLen(alias))
    else
      var gap := Slice(alias, last, idxs[0]);
      var ch := Slice(alias, idxs[0], idxs[0] + 1);
      if gap.None? || ch.None? then None
      else Prepend(gap.value + Colorize(ch.value, style, paint), Splice(alias, idxs[1..], idxs[0] + 1, style, paint))
  }

  /** What `get_colored_alias_for_query_mode` returns: without match positions the
      alias in the items style, otherwise the splice; None where it would panic. */
  function AliasForQueryMode<T>(it: Item<T>, cs: ColorScheme, paint: Painter): Option<string>
  {
    if it.matchedIndices.None? || it.matchedIndices.value == [] then Some(Colorize(it.alias, cs.items, paint))
    else Splice(it.alias, it.matchedIndices.value, 0, cs.matched, paint)
  }

  /** One round of the highlighter loop: the splice from index `i` on. */
  lemma SpliceUnfold(alias: string, idxs: seq<nat>, i: nat, last: nat, style: FontStyle, paint: Painter)
    requires i < |idxs|
    ensures var gap, ch := Slice(alias, last, idxs[i]), Slice(alias, idxs[i], idxs[i] + 1);
      Splice(alias, idxs[i..], last, style, paint) ==
        if gap.None? || ch.None? then None
        else Prepend(gap.value + Colorize(ch.value, style, paint), Splice(alias, idxs[i + 1..], idxs[i] + 1, style, paint))
  {
    assert idxs[i..][0] == idxs[i] && idxs[i..][1..] == idxs[i + 1..];
  }

  lemma PrependPrepend(d: string, e: string, r: Option<string>)
    ensures Prepend(d, Prepend(e, r)) == Prepend(d + e, r)
  {
    if r.Some? {
      assert d + (e + r.value) == (d + e) + r.value;
    }
  }

  /** The highlighter, written as the source writes it: a loop that keeps the end
      of the previous highlight in `last` and appends to `display`. */
  method ColoredAliasForQueryMode<T>(it: Item<T>, cs: ColorScheme, paint: Painter) returns (r: Option<string>)
    ensures r == AliasForQueryMode(it, cs, paint)
  {
    if it.matchedIndices.None? || it.matchedIndices.value == [] {
      return Some(Colorize(it.alias, cs.items, paint));
    }
    r := Highlight(it.alias, it.matchedIndices.value, cs.matched, paint);
  }

  /** The loop of the highlighter over the matched byte indices: `last` is the
      end of the previous highlight and `display` the text built so far. */
  method Highlight(alias: string, indices: seq<nat>, style: FontStyle, paint: Painter) returns (r: Option<string>)
    ensures r == Splice(alias, indices, 0, style, paint)
  {
    ghost var whole := Splice(alias, indices, 0, style, paint);
    var display := "";
    var last := 0;
    var i := 0;
    assert indices[0..] == indices;
    PrependEmpty(whole);
    while i < |indices|
      invariant 0 <= i <= |indices|
      invariant Prepend(display, Splice(alias, indices[i..], last, style, paint)) == whole
    {
      var ok, next := AppendHighlight(alias, indices, i, last, display, style, paint);
      if !ok {
        return None;
      }
      display := next;
      last := indices[i] + 1;
      i := i + 1;
    }
    r := AppendTail(alias, indices, last, display, style, paint);
  }

  lemma PrependEmpty(r: Option<string>)
    ensures Prepend("", r) == r
  {
    if r.Some? {
      assert "" + r.value == r.value;
    }
  }

  /** One round of the highlighter: append the gap up to `indices[i]` and the
      styled byte there, or report that a slice would panic. */
  method AppendHighlight(alias: string, indices: seq<nat>, i: nat, last: nat, display: string, style: FontStyle, paint: Painter)
    returns (ok: bool, next: string)
    requires i < |indices|
    ensures !ok ==> Splice(alias, indices[i..], last, style, paint).None?
    ensures ok ==> Prepend(display, Splice(alias, indices[i..], last, style, paint)) ==
                   Prepend(next, Splice(alias, indices[i + 1..], indices[i] + 1, style, paint))
  {
    var idx := indices[i];
    var gap := Slice(alias, last, idx);
    var ch := Slice(alias, idx, idx + 1);
    ok := gap.Some? && ch.Some?;
    next := if ok then display + gap.value + Colorize(ch.value, style, paint) else display;
    HighlightRound(alias, indices, i, last, display, style, paint, gap, ch, ok, next);
  }

  /** What one round of the highlighter appends is the head of the splice. */
  lemma HighlightRound(alias: string, indices: seq<nat>, i: nat, last: nat, display: string, style: FontStyle, paint: Painter,
                       gap: Option<string>, ch: Option<string>, ok: bool, next: string)
    requires i < |indices| && gap == Slice(alias, last, indices[i]) && ch == Slice(alias, indices[i], indices[i] + 1)
    requires ok == (gap.Some? && ch.Some?)
    requires ok ==> next == display + gap.value + Colorize(ch.value, style, paint)
    ensures !ok ==> Splice(alias, indices[i..], last, style, paint).None?
    ensures ok ==> Prepend(display, Splice(alias, indices[i..], last, style, paint)) ==
                   Prepend(next, Splice(alias, indices[i + 1..], indices[i] + 1, style, paint))
  {
    SpliceUnfold(alias, indices, i, last, style, paint);
    if ok {
      var piece := gap.value + Colorize(ch.value, style, paint);
      assert next == display + piece;
      PrependPrepend(display, piece, Splice(alias, indices[i + 1..], indices[i] + 1, style, paint));
    }
  }

  /** After the last index the highlighter appends the rest of the alias. */
  method AppendTail(alias: string, indices: seq<nat>, last: nat, display: string, style: FontStyle, paint: Painter)
    returns (r: Option<string>)
    ensures r == Prepend(display, Splice(alias, indices[|indices|..], last, style, paint))
  {
    assert indices[|indices|..] == [];
    var tail := Slice(alias, last, ByteLen(alias));
    if tail.None? {
      return None;
    }
    r := Some(display + tail.value);
  }

  /** Every matched index starts a one-byte character of the alias. */
  predicate SingleByteAt(alias: string, idxs: seq<nat>)
  {
    forall i :: 0 <= i < |idxs| ==> IsBoundary(alias, idxs[i]) && IsBoundary(alias, idxs[i] + 1)
  }

  /** Dropping the first index keeps the indices increasing and single-byte. */
  lemma RestOfIndices(alias: string, idxs: seq<nat>, last: nat)
    requires idxs != [] && StrictlyAbove(idxs, last) && SingleByteAt(alias, idxs)
    ensures StrictlyAbove(idxs[1..], idxs[0] + 1) && SingleByteAt(alias, idxs[1..])
  {
    var rest := idxs[1..];
    forall i | 0 <= i < |rest| ensures idxs[0] + 1 <= rest[i] {
      assert rest[i] == idxs[i + 1];
    }
    forall i, j | 0 <= i < j < |rest| ensures rest[i] < rest[j] {
      assert rest[i] == idxs[i + 1] && rest[j] == idxs[j + 1];
    }
    forall i | 0 <= i < |rest| ensures IsBoundary(alias, rest[i]) && IsBoundary(alias, rest[i] + 1) {
      assert rest[i] == idxs[i + 1];
    }
  }

  /** The tail slice from a boundary is the rest of the alias. */
  lemma TailSlice(alias: string, last: nat)
    requires IsBoundary(alias, last)
    ensures Slice(alias, last, ByteLen(alias)) == Some(alias[CharIndex(alias, last)..])
  {
    OffsetEnd(alias);
    CharIndexOfOffsetIs(alias, |alias|);
    OffsetBounded(alias, CharIndex(alias, last));
    assert alias[CharIndex(alias, last)..|alias|] == alias[CharIndex(alias, last)..];
  }

  /** The two slices one round of the splice takes, on boundaries in order. */
  lemma SpliceHead(alias: string, last: nat, idx: nat)
    requires IsBoundary(alias, last) && IsBoundary(alias, idx) && IsBoundary(alias, idx + 1) && last <= idx
    ensures CharIndex(alias, last) <= CharIndex(alias, idx) <= CharIndex(alias, idx + 1) <= |alias|
    ensures Slice(alias, last, idx) == Some(alias[CharIndex(alias, last)..CharIndex(alias, idx)])
    ensures Slice(alias, idx, idx + 1) == Some(alias[CharIndex(alias, idx)..CharIndex(alias, idx + 1)])
  {
    SliceFacts(alias, last, idx);
    SliceFacts(alias, idx, idx + 1);
  }

  /** One round of the splice, once its two slices are known. */
  lemma SpliceStep(alias: string, idxs: seq<nat>, last: nat, style: FontStyle, paint: Painter, gap: string, ch: string)
    requires idxs != []
    requires Slice(alias, last, idxs[0]) == Some(gap) && Slice(alias, idxs[0], idxs[0] + 1) == Some(ch)
    ensures Splice(alias, idxs, last, style, paint) ==
      Prepend(gap + Colorize(ch, style, paint), Splice(alias, idxs[1..], idxs[0] + 1, style, paint))
  {
  }

  lemma PrependJoin(gap: string, ch: string, colored: string, rest: string, r: Option<string>, whole: string)
    requires colored == ch && r == Some(rest) && (gap + ch) + rest == whole
    ensures Prepend(gap + colored, r) == Some(whole)
  {
  }

  lemma JoinSlices(a: seq<char>, k0: nat, k1: nat, k2: nat)
    requires k0 <= k1 <= k2 <= |a|
    ensures (a[k0..k1] + a[k1..k2]) + a[k2..] == a[k0..]
  {
    assert a[k0..k1] + a[k1..k2] == a[k0..k2];
    assert a[k0..k2] + a[k2..] == a[k0..];
  }

  /** With a painter that adds nothing and strictly increasing indices of one-byte
      characters, the splice from `last` on gives back the alias from `last` on. */
  lemma {:induction false} SpliceRestoresAlias(alias: string, idxs: seq<nat>, last: nat, style: FontStyle, paint: Painter)
    requires forall t, p :: paint(t, p) == t
    requires IsBoundary(alias, last)
    requires StrictlyAbove(idxs, last)
    requires SingleByteAt(alias, idxs)
    ensures Splice(alias, idxs, last, style, paint) == Some(alias[CharIndex(alias, last)..])
  {
    if idxs == [] {
      TailSlice(alias, last);
    } else {
      var idx := idxs[0];
      assert IsBoundary(alias, idx) && IsBoundary(alias, idx + 1) && last <= idx;
      RestOfIndices(alias, idxs, last);
      SpliceRestoresAlias(alias, idxs[1..], idx + 1, style, paint);
      SpliceRestoresStep(alias, idxs, last, style, paint);
    }
  }

  /** One round of SpliceRestoresAlias: the gap, the uncoloured matched character
      and the restored rest join up to the alias from `last` on. */
  lemma SpliceRestoresStep(alias: string, idxs: seq<nat>, last: nat, style: FontStyle, paint: Painter)
    requires forall t, p :: paint(t, p) == t
    requires idxs != [] && last <= idxs[0]
    requires IsBoundary(alias, last) && IsBoundary(alias, idxs[0]) && IsBoundary(alias, idxs[0] + 1)
    requires Splice(alias, idxs[1..], idxs[0] + 1, style, paint) == Some(alias[CharIndex(alias, idxs[0] + 1)..])
    ensures Splice(alias, idxs, last, style, paint) == Some(alias[CharIndex(alias, last)..])
  {
    var idx := idxs[0];
    var k0, k1, k2 := CharIndex(alias, last), CharIndex(alias, idx), CharIndex(alias, idx + 1);
    SpliceHead(alias, last, idx);
    ColorizePlainPainter(alias[k1..k2], style, paint);
    SpliceJoin(alias, idxs, last, style, paint, k0, k1, k2);
  }

  /** The gap `k0 .. k1`, the character `k1 .. k2` left as it was and the rest
      from `k2` join up to the alias from `k0` on. */
  lemma SpliceJoin(alias: string, idxs: seq<nat>, last: nat, style: FontStyle, paint: Painter, k0: nat, k1: nat, k2: nat)
    requires idxs != [] && k0 <= k1 <= k2 <= |alias|
    requires Slice(alias, last, idxs[0]) == Some(alias[k0..k1]) && Slice(alias, idxs[0], idxs[0] + 1) == Some(alias[k1..k2])
    requires Colorize(alias[k1..k2], style, paint) == alias[k1..k2]
    requires Splice(alias, idxs[1..], idxs[0] + 1, style, paint) == Some(alias[k2..])
    ensures Splice(alias, idxs, last, style, paint) == Some(alias[k0..])
  {
    SpliceStep(alias, idxs, last, style, paint, alias[k0..k1], alias[k1..k2]);
    JoinSlices(alias, k0, k1, k2);
    PrependJoin(alias[k0..k1], alias[k1..k2], Colorize(alias[k1..k2], style, paint), alias[k2..],
                Splice(alias, idxs[1..], idxs[0] + 1, style, paint), alias[k0..]);
  }

  /** Every index is at least `last`, and they strictly increase. */
  predicate StrictlyAbove(idxs: seq<nat>, last: nat)
  {
    (forall i :: 0 <= i < |idxs| ==> last <= idxs[i]) &&
    (forall i, j :: 0 <= i < j < |idxs| ==> idxs[i] < idxs[j])
  }

  /** For an ASCII alias and strictly increasing matched indices inside it, the
      highlighting with a painter that adds nothing is the alias itself. */
  lemma QueryModeAliasRestoresAscii<T>(it: Item<T>, cs: ColorScheme, paint: Painter)
    requires forall t, p :: paint(t, p) == t
    requires IsAscii(it.alias)
    requires it.matchedIndices.Some?
    requires StrictlyAbove(it.matchedIndices.value, 0)
    requires forall i :: 0 <= i < |it.matchedIndices.value| ==> it.matchedIndices.value[i] < |it.alias|
    ensures AliasForQueryMode(it, cs, paint) == Some(it.alias)
  {
    var idxs := it.matchedIndices.value;
    AsciiBoundary(it.alias, 0);
    if idxs != [] {
      forall i | 0 <= i < |idxs|
        ensures IsBoundary(it.alias, idxs[i]) && IsBoundary(it.alias, idxs[i] + 1)
      {
        AsciiBoundary(it.alias, idxs[i]);
        AsciiBoundary(it.alias, idxs[i] + 1);
      }
      SpliceRestoresAlias(it.alias, idxs, 0, cs.matched, paint);
    } else {
      ColorizePlainPainter(it.alias, cs.items, paint);
    }
  }

  /** Without match positions the query-mode rendering is the normal-mode one. */
  lemma QueryModeWithoutMatches<T>(it: Item<T>, cs: ColorScheme, paint: Painter)
    requires it.matchedIndices.None? || it.matchedIndices.value == []
    ensures AliasForQueryMode(it, cs, paint) == Some(AliasForNormalMode(it, cs, paint))
  {
  }
}
