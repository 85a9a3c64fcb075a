# termenu selection engine, modelled in Dafny

termenu is a Rust library that shows an interactive menu in the terminal.
The user moves a highlighted row with the arrow keys (or `j`/`k`), presses `/`
to filter the list with a fuzzy query, and presses Enter to choose an item
(Esc or Ctrl-c to cancel). This project models the library's selection
engine and proves properties of it:

- the menu record and the keys that change it (`keymap.rs`, `mode.rs`);
- the ranking of items against the query (`query.rs`);
- the item store, `reset`, the layout arithmetic and the final choice (`core.rs`, and the older API in `menu.rs`);
- how the menu is drawn and how a matched alias is highlighted (`draw.rs`, `color.rs`);
- the terminal side of a piped session (`term.rs`, `examples/tty_pos.rs`):
  - the cursor position query and reply, as Device Status Report and Cursor Position Report (sections 8.3.35 and 8.3.14 of ECMA-48);
  - single bytes read from the tty, turned into key events (`KeyListener::read_key_event`), and what each does when dispatched.

Layout:

| file | module | models |
|---|---|---|
| wrappers.dfy | Wrappers | `Option` |
| model.dfy | Model | `Item`, `Mode`, the fuzzy matcher as a parameter |
| keys.dfy | Keys | crossterm's `KeyCode`, `KeyModifiers`, `KeyEvent` |
| utf8.dfy | Utf8 | byte offsets into a `String`: `len_utf8`, `insert`, `remove`, slicing, the previous and next character boundary |
| ranking.dfy | Ranking | `fuzzy_match`: filter, stable sort by descending score, the chunked parallel path |
| style.dfy | Style | `colorize`, `FontShape`, `FontStyle`, `ColorScheme`, and the normal-mode and query-mode alias rendering |
| engine.dfy | Engine | the menu record as a value and every transition as a function |
| engine_facts.dfy | EngineFacts | lemmas about the transitions |
| core.dfy | Core | class `Menu` with the record's fields; each method is proved to change them as the Engine function says; the `select0` session |
| render.dfy | Render | `draw` as the list of terminal commands it issues |
| term.dfy | Term | the cursor report reader and parser, and the byte-to-key decoder |
| basic_menu.dfy | BasicMenu | the earlier `Menu`/`Item` API of `menu.rs` |
| findings.dfy | Findings | the first four defects listed under Findings, each shown on a concrete record (the fifth is in core.dfy) |

The methods of `Core.Menu` update the fields in place. Each one is specified
by `Snapshot() == Engine.X(old(Snapshot()))`. The properties are proved about
the `Engine` functions. A loop in the source is a loop in the model:
- the matching loops;
- the highlighter;
- `print_options`;
- the reply reader;
- the event loop.

Each of these loops carries the invariants that tie it to its specification
function.

The model follows the code where the code and its own comments differ:
- `enter_query_mode` does not reset `query_cursor_col`.
- `Menu::new` in `core.rs` does not set `query_cursor_col`; the model starts it at 0.
- `select0` never clears `selected`; `Core.SessionResult` and `Core.Menu.Select0` keep that (Findings row 5).

Where the code is wrong, the model does not follow it. `Engine.KeyDown`,
`Engine.MoveRight` and `Engine.Reset` are the corrected Down, Right and
`reset` of Findings rows 1 to 4. The code as written is `Engine.KeyDownAsWritten`,
`Engine.MoveRightAsWritten` and `Engine.ResetAsWritten`. A member whose
contract reaches the corrected Down, Right or reset is stated for the
corrected program, and it has a line under "## Left out" that says so. There
are three exceptions. The Findings members and the lemmas that relate the two
versions (`EngineFacts.RightAsWrittenOnAscii`, `Findings.KeyDownAgrees`,
`EngineFacts.ResetInBounds`) name both. A member that dispatches only keys that
never reach Down, Right or reset (Enter, Esc, `/`, Ctrl-c, the other modifiers)
holds of the code as written too. So does a member about an empty list, which
runs no keys.

## Model

| member | source | states |
|---|---|---|
| Model.NewItem | src/core.rs:8-16 | the alias is a copy of the display string, the value is kept, and there is no score or match positions yet |
| Utf8.ByteLen | src/keymap.rs:86 | definition: `str::len`, the number of bytes of the encoding |
| Utf8.IsBoundary | src/keymap.rs:101 | definition: `str::is_char_boundary`, the offsets where `insert`, `remove` and slicing do not panic |
| Utf8.Utf8Len | src/keymap.rs:102 | a character takes 1 to 4 bytes, and exactly 1 when it is ASCII |
| Utf8.InsertAt | src/keymap.rs:101 | `insert` adds one character and its byte length; the offset just after it is a boundary one character further on; the new character sits at the cursor's index |
| Utf8.InsertAtSplits | src/keymap.rs:101 | the text after `insert` is the part before the cursor, the character, then the rest |
| Utf8.CharAt | src/keymap.rs:65 | the character `remove` returns starts at the offset and ends on the next boundary |
| Utf8.RemoveAt | src/keymap.rs:111 | `remove` drops one character and its bytes, and the offset stays a boundary at the same character index |
| Utf8.RemoveAtSplits | src/keymap.rs:111 | `remove` takes out exactly the character at the offset's index |
| Utf8.RemoveAtInverse | src/keymap.rs:65-67 | inserting the removed character at the same offset gives the text back |
| Utf8.PrevBoundary | src/keymap.rs:64 | `prev_boundary!` is a boundary exactly one character before a non-zero offset |
| Utf8.PrevBoundaryAdjacent | src/keymap.rs:64 | no boundary lies between `prev_boundary!` and the offset |
| Utf8.NextBoundary | src/keymap.rs:76 | `next_boundary!` is a boundary exactly one character after an offset before the end |
| Utf8.NextBoundaryAdjacent | src/keymap.rs:76 | no boundary lies between the offset and `next_boundary!` |
| Utf8.SliceFacts | src/color.rs:63-64 | a `&str` slice exists exactly when both ends are boundaries in order; it then holds the characters between them and is `hi - lo` bytes long |
| Utf8.Slice | src/color.rs:62-66 | definition: `&s[lo..hi]` on a `str`, None exactly where Rust panics (a reversed range, an offset past the end or inside a character) |
| Utf8.Cells | src/keymap.rs:103-104 | the column advance `min(2, len_utf8)` is 1 or 2 and never more than the byte length |
| Ranking.Accepts | src/query.rs:18-27 | definition: the matcher finds the query in the alias with a positive score |
| Ranking.Rescore | src/query.rs:18-27 | definition: a hit records its score and positions, a miss leaves the item as it was |
| Ranking.HitsBelow | src/query.rs:17-29 | definition: the indices below `n` the loop pushes, in push order |
| Ranking.Hits | src/query.rs:17-29 | definition: every index the loop pushes, in push order |
| Ranking.Scored | src/query.rs:17-29 | matching keeps the number of items |
| Ranking.ScoredItems | src/query.rs:17-29 | aliases and payloads never change; an accepted item gets the matcher's score and positions; any other item keeps its old match data |
| Ranking.Insert | src/query.rs:33-37 | definition: one insertion step of the stable descending sort: in front of the first entry that does not score above it |
| Ranking.SortByScore | src/query.rs:33-37 | definition: the stable sort by descending score, as an insertion sort |
| Ranking.Rank | src/query.rs:6-38 | definition: the final `matched_item_indices`, the accepted indices sorted by the new scores |
| Ranking.HitsBelowIncreasing | src/query.rs:17-27 | the loop pushes indices in strictly increasing order, each below the items seen so far |
| Ranking.HitsBelowCount | src/query.rs:17-27 | an index is pushed once when the matcher accepts that item with a positive score, and never otherwise |
| Ranking.HitsBelowLength | src/query.rs:17-27 | the loop pushes at most one index per item |
| Ranking.SortPermutes | src/query.rs:33-37 | the sort returns a permutation of its input |
| Ranking.SortDescending | src/query.rs:33-37 | the sort orders by non-increasing score, with a missing score below every present one |
| Ranking.SortTies | src/query.rs:33-37 | the sort is stable: indices pushed in increasing order keep that order among equal scores |
| Ranking.RankCount | src/query.rs:14-37 | index `i` appears in the matched list exactly once if the matcher accepts item `i` with a positive score, and not at all otherwise |
| Ranking.RankScoresPositive | src/query.rs:21-26 | every matched index names an item whose recorded score is positive |
| Ranking.RankOrdered | src/query.rs:33-37 | the matched list is ordered by non-increasing score, and equal scores by ascending index |
| Ranking.RankLength | src/query.rs:14-37 | the matched list is no longer than the item list, and every index in it is in range |
| Ranking.HitsBelowAliasOnly | src/query.rs:18 | which indices are matched depends only on the aliases and the query |
| Ranking.RankIdempotent | src/query.rs:6-37 | matching again with the same query changes neither the items nor the matched list |
| Ranking.WorkerHitsExtend | src/query.rs:63-74 | a worker's global index `chunk * 50 + offset` is the item's own position, so its hits continue the sequential loop's hits |
| Ranking.WorkerHits | src/query.rs:63-74 | definition: the global indices `i + base_idx` the worker of one chunk pushes after its first items |
| Ranking.ChunkCount | src/query.rs:59 | definition: the number of chunks `par_chunks_mut(50)` makes, the item count divided by 50 rounded up |
| Ranking.ChunkLen | src/query.rs:58-61 | definition: the number of items in chunk `c`, 50 except for the last |
| Ranking.CollectedUpTo | src/query.rs:59-79 | definition: what the workers of the first `k` chunks push, chunk after chunk |
| Ranking.ChunkLenFacts | src/query.rs:58-61 | the chunks of 50 cover the list, and the last one may be short |
| Ranking.CollectedUpToIsPrefix | src/query.rs:59-79 | after chunks `0..k` the workers have collected the sequential loop's hits below `k * 50` |
| Ranking.ChunkedCollectsSequentialHits | src/query.rs:58-81 | the parallel path collects the same indices as the sequential one |
| Style.BitAnd | src/color.rs:84-90 | `FontShape & FontShape` is a sub-mask of both codes, and a code ANDed with itself is that code |
| Style.BitAndCommutes | src/color.rs:84-90 | the AND is commutative |
| Style.FontStyle.SetShape | src/color.rs:103-106 | `set_shape` sets the shape and nothing else |
| Style.FontStyle.SetFgColor | src/color.rs:108-111 | `set_fg_color` sets the named foreground colour and nothing else |
| Style.FontStyle.SetBgColor | src/color.rs:113-116 | `set_bg_color` sets the named background colour and nothing else |
| Style.FontStyle.SetFgColor256 | src/color.rs:118-121 | `set_fg_color_256` sets the RGB foreground and nothing else |
| Style.FontStyle.SetBgColor256 | src/color.rs:123-126 | `set_bg_color_256` sets the RGB background and nothing else |
| Style.ColorScheme.SetTitleStyle | src/color.rs:135-138 | replaces the title style only |
| Style.ColorScheme.SetQueryStyle | src/color.rs:141-144 | replaces the query style only |
| Style.ColorScheme.SetItemsStyle | src/color.rs:148-151 | replaces the items style only |
| Style.ColorScheme.SetChosenLnStyle | src/color.rs:154-157 | replaces the chosen-line style only |
| Style.ColorScheme.SetMatchedStyle | src/color.rs:160-163 | replaces the matched style only |
| Style.ColorScheme.SetMoreTagStyle | src/color.rs:167-170 | replaces the more-tag style only |
| Style.DefaultScheme | src/color.rs:173-184 | matched and chosen line are yellow foreground with nothing else set; every other part has the plain style |
| Style.SchemeSettersCommute | src/color.rs:135-170 | setting two different parts of a scheme gives the same scheme in either order |
| Style.ShapeSteps | src/color.rs:10-20 | bold, italic and underline are applied exactly when their bit is set, and nothing else comes from the shape |
| Style.FgSteps | src/color.rs:22-29 | the named foreground colour is used when present, else the RGB one, and at most one of them |
| Style.BgSteps | src/color.rs:31-38 | the same rule for the background |
| Style.StepsColors | src/color.rs:22-38 | over all of `colorize`, a named colour wins over an RGB one, for the foreground and for the background |
| Style.StepsShape | src/color.rs:9-20 | over all of `colorize`, each shape bit gives its step, and there are at most five steps |
| Style.ShapeFollowsSteps | src/color.rs:10-20 | the shape block applies exactly the shape steps, in order |
| Style.FgFollowsSteps | src/color.rs:22-29 | the foreground block applies exactly the foreground steps |
| Style.BgFollowsSteps | src/color.rs:31-38 | the background block applies exactly the background steps |
| Style.ColorizeFollowsSteps | src/color.rs:6-41 | `colorize` applies the shape, then the foreground, then the background steps |
| Style.ColorizePlainPainter | src/color.rs:6-41 | when the styling calls add nothing, `colorize` returns its input |
| Style.PaintShape | src/color.rs:8-20 | definition: bold, italic, then underline, each if its bit is set |
| Style.PaintFg | src/color.rs:22-29 | definition: the named foreground, else the RGB one, else nothing |
| Style.PaintBg | src/color.rs:31-38 | definition: the named background, else the RGB one, else nothing |
| Style.Colorize | src/color.rs:6-41 | definition: the shape, then the foreground, then the background |
| Style.AliasForNormalMode | src/color.rs:51-53 | definition: the whole alias in the items style |
| Style.Splice | src/color.rs:59-72 | definition: from byte offset `last`, each gap unstyled and each matched byte in the matched style, then the rest of the alias; None where a slice would panic |
| Style.AliasForQueryMode | src/color.rs:55-73 | definition: without match positions the alias in the items style, otherwise the splice |
| Style.SpliceUnfold | src/color.rs:62-66 | one round of the highlighter: the gap since `last`, the coloured character at the index, then the rest from the index plus one, or a panic when either slice is off a boundary |
| Style.Highlight | src/color.rs:59-72 | the `for` loop over the matched indices computes the splice from offset 0, and panics where the splice does |
| Style.AppendHighlight | src/color.rs:62-66 | one iteration appends the head of the splice and moves `last` past the index, or hits the slice panic |
| Style.HighlightRound | src/color.rs:62-66 | what one iteration appends is the head of the remaining splice |
| Style.AppendTail | src/color.rs:68 | after the loop, the rest of the alias from `last` is appended |
| Style.ColoredAliasForQueryMode | src/color.rs:55-73 | `get_colored_alias_for_query_mode` returns the query-mode rendering |
| Style.QueryModeWithoutMatches | src/color.rs:56-58 | with no match positions, or an empty list of them, the query-mode rendering is the normal-mode one |
| Style.SpliceRestoresAlias | src/color.rs:61-68 | with styling that adds nothing and strictly increasing one-byte positions, the splice gives back the rest of the alias |
| Style.QueryModeAliasRestoresAscii | src/color.rs:55-73 | for an ASCII alias and strictly increasing positions inside it, uncoloured query-mode rendering is the alias itself |
| Engine.Add | src/core.rs:98-101 | definition: `add` appends one item |
| Engine.AddList | src/core.rs:103-106 | definition: `add_list` appends the items in order |
| Engine.SetMaxHeight | src/core.rs:61-70 | definition: a percentage outside (0, 1] changes nothing; otherwise it is stored and `max_row` drops to the capped count plus the anchor plus 1 when that is smaller |
| Engine.ResetAsWritten | src/core.rs:110-126 | definition: the code's `reset`, which keeps `selection_idx` |
| Engine.Reset | src/core.rs:110-126 | definition: the corrected `reset`, which also sets `selection_idx` to 0 (Findings row 4) |
| Engine.ScrollToFit | src/core.rs:170-198 | definition: `scroll_to_fit` with the terminal height as a parameter, giving the new record and the rows scrolled, if any |
| Engine.EnterNormal | src/mode.rs:6-11 | definition: Normal mode and an empty matched list |
| Engine.EnterQuery | src/mode.rs:13-19 | definition: Query mode, an empty query and the cursor at 0 |
| Engine.Rematch | src/query.rs:6-38 | definition: `fuzzy_match` on the record: selection and offset back to 0, items rescored, matched list ranked |
| Engine.KeyUp | src/keymap.rs:126-132 | definition: on the top row scroll up (saturating at 0), else move the row up |
| Engine.KeyDown | src/keymap.rs:134-144 | definition: the corrected Down, bounded by the list `get_selection` indexes (the matched list in Query mode; Findings row 3) |
| Engine.KeyDownAsWritten | src/keymap.rs:134-144 | definition: the code's Down, bounded by the item list in both modes, None where `item_cnt - 1` or `max_row - 3` underflows |
| Engine.KeyEsc | src/keymap.rs:146-154 | definition: exit in Normal mode, else back to Normal mode |
| Engine.KeyEnter | src/keymap.rs:156-158 | definition: marks the menu selected |
| Engine.TitleLine | src/draw.rs:57-64 | definition: the title, followed in Query mode by `: /` and the query |
| Engine.InsertChar | src/keymap.rs:100-106 | definition: insert the character at the cursor, step cursor and column over it, re-match |
| Engine.KeyBackspace | src/keymap.rs:108-118 | definition: nothing on an empty query, else the Backspace edit and a re-match |
| Engine.MoveLeft | src/keymap.rs:62-70 | definition: step back to the previous boundary and the column back by that character's cells |
| Engine.MoveRight | src/keymap.rs:72-93 | definition: the corrected Right, which steps over the next character and leaves the text alone (Findings rows 1 and 2) |
| Engine.MoveRightAsWritten | src/keymap.rs:72-93 | definition: the code's Right, with its pop-and-push and shifted character, None where an insert would panic |
| Engine.DispatchNormal | src/keymap.rs:33-52 | definition: Up/`k`, Down/`j` (the corrected Down), Esc, Enter, `/` and nothing else |
| Engine.DispatchQuery | src/keymap.rs:54-122 | definition: Esc, Up, Down, Left, Right, Enter, typing and Backspace, with the corrected Down and Right |
| Engine.DispatchCode | src/keymap.rs:26-31 | definition: the mode's handler, with the corrected Down and Right |
| Engine.DispatchKey | src/keymap.rs:13-24 | definition: Control keys only exit (Ctrl-c), unmodified keys go to the mode's handler (with the corrected Down and Right), other modifiers are ignored |
| Engine.Pos | src/core.rs:213-218 | definition: `selection_idx + scroll_offset`, the position `get_selection` reads |
| Engine.ActiveCount | src/core.rs:213-218 | definition: the length of the list `get_selection` indexes: the items in Normal mode, the matched list in Query mode |
| Engine.Sat | src/keymap.rs:126-132 | definition: `saturating_sub` |
| Engine.Cap | src/core.rs:66 | definition: `(n as f32 * percent) as u16` as the floor of the exact product, 0 for a non-positive percentage |
| Engine.FitCount | src/core.rs:179-182 | definition: the item count, capped by `max_row` times the height percentage |
| Engine.CursorOk | src/keymap.rs:100-118 | definition: the invariant the editing keys keep: `insert_pos` on a character boundary of the query, and the column at least the cells before it |
| Engine.WF | src/core.rs:213-220 | definition: the record invariant: CursorOk, no matched list outside Query mode, and every matched index naming an item, so `get_selection`'s lookups are defined |
| Engine.InBounds | src/keymap.rs:134-144 | definition: the highlighted row on screen (`selection_idx <= max_row - 3`) and inside the list `get_selection` indexes |
| Engine.CapBounds | src/core.rs:66 | `(n as f32 * percent) as u16` is the floor of `n * percent`, and at most `n` for a percentage in (0, 1] |
| Engine.New | src/core.rs:27-51 | a new menu is empty, in Normal mode, on the top row, with no query, at the given cursor row and terminal height, and with the default scheme |
| Engine.GetTitle | src/core.rs:94-96 | the title when set, else "select" |
| Engine.SetTitle | src/core.rs:73-76 | afterwards `get_title` returns the new title, and only the title changes |
| Engine.Selection | src/core.rs:213-220 | an index that `get_selection` picks is always inside the item list |
| Engine.BackspaceEditRemoves | src/keymap.rs:110-115 | away from 0 the cursor and the column are at least the removed character's bytes and cells, so the `-=` cannot underflow; the edit is the removal with the cursor and column moved back |
| Engine.BackspaceEdit | src/keymap.rs:109-115 | definition: remove the character at `prev_boundary!` of the cursor, and step cursor and column back over it unless the cursor is at 0 |
| Engine.BackspaceText | src/keymap.rs:110-111 | Backspace removes the character just before the cursor (the first one when the cursor is at 0), and the text before it is unchanged |
| Engine.BackspaceIndex | src/keymap.rs:110 | `prev_boundary!` of the cursor names the character before the cursor, or the first one at 0 |
| Engine.CursorStepBack | src/keymap.rs:64-66 | the character before a non-zero cursor spans from `prev_boundary!` to the cursor |
| Engine.TakeOutBefore | src/keymap.rs:64-67 | Left's `remove` then `insert` one character earlier puts back the text it started from |
| Engine.LastCharPos | src/keymap.rs:73 | `prev_boundary!` of the end is the start of the last character |
| Engine.ShiftFrom | src/keymap.rs:76 | where Right takes out a character, for a cursor before the last one, is a boundary strictly between the cursor and the end |
| EngineFacts.ModifierFilter | src/keymap.rs:13-24 | Ctrl-c exits in either mode and changes nothing; any other Control key, and any modifier other than none or Control, changes nothing and does not exit |
| EngineFacts.KeyUpMoves | src/keymap.rs:126-132 | at the top row the scroll offset drops by one, stopping at 0; otherwise the row moves up by one; nothing else changes |
| EngineFacts.KeyDownMoves | src/keymap.rs:134-144 | the corrected Down, which stops at the last entry of the matched list in Query mode: on the last entry nothing changes; otherwise the position grows by one, through the scroll offset on the last screen row and through the row elsewhere; nothing else changes (the code's own law, bounded by the item list in both modes, is Findings.KeyDownAsWrittenBounds) |
| EngineFacts.KeyUpKeepsWF | src/keymap.rs:126-132 | Up keeps the record invariant and the highlighted row on the screen and in the list |
| EngineFacts.KeyDownKeepsWF | src/keymap.rs:134-144 | the corrected Down keeps the record invariant and the highlighted row on the screen and in the list |
| EngineFacts.KeyDownInBounds | src/keymap.rs:134-144 | the corrected Down keeps the row on screen (`selection_idx <= max_row - 3`) and inside the list, the matched one in Query mode |
| EngineFacts.NormalModeKeys | src/keymap.rs:33-52 | in Normal mode Enter selects and exits, Esc exits without selecting, `/` enters Query mode without exiting, and any other key changes nothing |
| EngineFacts.QueryModeEscEnter | src/keymap.rs:54-98 | in Query mode Esc goes back to Normal mode and does not exit; Enter selects and exits, even with no match |
| EngineFacts.InsertCharFacts | src/keymap.rs:100-106 | typing `c` inserts it at the cursor, moves the cursor by its length to a boundary, moves the column by `min(2, len_utf8(c))`, and matches again |
| EngineFacts.BackspaceFacts | src/keymap.rs:108-118 | on an empty query Backspace does nothing; otherwise it removes exactly one character, moves the cursor back by its length when the cursor is not at 0, and matches again |
| EngineFacts.BackspaceEditFacts | src/keymap.rs:109-115 | the edit removes the character before the cursor, puts the cursor on `prev_boundary!`, and keeps the cursor invariant |
| EngineFacts.MoveLeftFacts | src/keymap.rs:62-70 | Left never changes the text; at 0 it does nothing; elsewhere it moves the cursor to the previous boundary and the column back by that character's cells |
| EngineFacts.MoveRightFacts | src/keymap.rs:72-93 | the corrected Right never changes the text: at the end it does nothing, and elsewhere it steps the cursor to the next boundary and the column forward by that character's cells |
| EngineFacts.RightAsWrittenOnAscii | src/keymap.rs:72-81 | on an ASCII query with the cursor before the last character, Right as written leaves the text unchanged and steps the cursor by one |
| Engine.ShiftedChar | src/keymap.rs:76-79 | definition: the character that Right as written moves, the one starting at `next_boundary!` |
| Engine.ShiftNext | src/keymap.rs:76-79 | definition: the text after Right as written removes that character and re-inserts it one character on, None where the insert is off a boundary |
| EngineFacts.RightAsWrittenShifts | src/keymap.rs:75-81 | before the last character, Right as written takes out the character starting at `next_boundary!` (the one right after the character under the cursor), re-inserts it one character further on, and moves the cursor and column by it |
| EngineFacts.RightSteps | src/keymap.rs:75-81 | before the end, the corrected Right steps to the next boundary over one character's cells |
| EngineFacts.RematchFacts | src/query.rs:6-37 | after matching, the top row is highlighted and the matched list is the ranking of the items for the query |
| EngineFacts.RematchKeeps | src/query.rs:6-37 | matching keeps the record invariant, and with three rows or more it keeps the highlighted row on screen |
| EngineFacts.LeftKeeps | src/keymap.rs:62-70 | Left keeps the record invariant and the bounds |
| EngineFacts.RightKeeps | src/keymap.rs:72-93 | the corrected Right keeps the record invariant and the bounds |
| EngineFacts.InsertCharKeeps | src/keymap.rs:100-106 | typing keeps the record invariant and the bounds |
| EngineFacts.BackspaceKeeps | src/keymap.rs:108-118 | Backspace keeps the record invariant and the bounds |
| EngineFacts.EnterKeeps | src/keymap.rs:156-158 | Enter keeps the record invariant and the bounds |
| EngineFacts.EscKeeps | src/keymap.rs:146-154 | Esc keeps the record invariant and the bounds |
| EngineFacts.QueryKeyKeeps | src/keymap.rs:54-122 | every Query-mode key, with the corrected Down and Right, keeps the record invariant and the bounds |
| EngineFacts.NormalKeyKeeps | src/keymap.rs:33-52 | every Normal-mode key keeps the record invariant and the bounds |
| EngineFacts.DispatchKeeps | src/keymap.rs:13-31 | every key event, with the corrected Down and Right, keeps the record invariant, and the highlighted row on screen and in the list |
| EngineFacts.EnterNormalFacts | src/mode.rs:6-11 | `enter_normal_mode` sets Normal mode and empties the matched list, changes nothing else, and is idempotent |
| EngineFacts.EnterQueryFacts | src/mode.rs:13-19 | `enter_query_mode` sets Query mode, empties the query and puts the cursor at 0; it changes nothing else (matched list, row and offset included) and is idempotent |
| EngineFacts.AddFacts | src/core.rs:98-106 | `add` appends one item at the end, `add_list` appends all the given ones in order, and nothing else changes |
| EngineFacts.SetMaxHeightFacts | src/core.rs:61-70 | a percentage outside (0, 1] changes nothing; otherwise `max_row` becomes `min(max_row, display_cnt + row + 1)`, so it never grows |
| EngineFacts.ResetFacts | src/core.rs:110-126 | the code's reset empties items, matched list and query, clears `selected`, sets Normal mode, cursor 0, offset 0 and the new anchor and height; it keeps title, scheme, the flags, and also `selection_idx` and `query_cursor_col`, which it does not touch; the record invariant holds afterwards |
| EngineFacts.ResetInBounds | src/core.rs:110-126 | the corrected reset puts the highlight on the top row, so it is on screen for any height of 3 or more; the code's reset leaves it off screen whenever the old `selection_idx` does not fit the new height (Findings row 4) |
| EngineFacts.ResetThenEnterPicksFirst | src/core.rs:110-126 | after the corrected reset (which also puts `selection_idx` at 0), adding any non-empty list and pressing Enter picks the first item |
| EngineFacts.ScrollToFitFacts | src/core.rs:170-198 | when the menu fits below the anchor nothing changes; otherwise it scrolls `min(diff, max_row - 1)` rows and moves the anchor up by `diff`, stopping at 0 |
| EngineFacts.FitCountBounds | src/core.rs:179-182 | the rows wanted are at most the items, and at most `max_row` for a percentage in (0, 1] |
| EngineFacts.SelectionFacts | src/core.rs:200-220 | nothing unless selected; in Normal mode the item at `selection_idx + scroll_offset`; in Query mode the item that the matched list names there; a panic on an empty matched list |
| EngineFacts.CancelPicksNothing | src/core.rs:131-133 | on a menu not confirmed before (`selected` false), Ctrl-c, and Esc in Normal mode, leave nothing chosen |
| EngineFacts.TitleLineFacts | src/draw.rs:57-64 | the title line starts with the title, ends with the query in Query mode, and its byte length (what src/keymap.rs:86 compares the column against) is the title's plus 3 plus the query's in Query mode; with no title it starts with "select" |
| Core.SessionResult | src/core.rs:146-167 | definition: `select0` on a script of keys, with the corrected Down and Right: nothing for an empty list, else fit, Normal mode, run the keys, and look up the selection |
| Core.RematchKeepsItems | src/query.rs:17-29 | matching only rescores: aliases, payloads and order are kept |
| Core.DispatchKeepsItems | src/keymap.rs:13-31 | no key adds, drops, renames or reorders an item |
| Core.NormalKeepsItems | src/keymap.rs:33-52 | Normal-mode keys leave the items exactly as they were |
| Core.QueryKeepsItems | src/keymap.rs:54-122 | Query-mode keys only rescore the items |
| Core.QueryBackspaceItems | src/keymap.rs:108-118 | Backspace only rescores the items |
| Core.Run | src/core.rs:155-165 | the event loop over any script of keys, dispatched with the corrected Down and Right, keeps the record invariant, the bounds and the items up to rescoring |
| Core.DispatchKeepsSelected | src/keymap.rs:13-31 | no key clears `selected` |
| Core.QueryKeepsSelected | src/keymap.rs:54-122 | no Query-mode key clears `selected` |
| Core.RunKeepsSelected | src/core.rs:155-165 | once confirmed, a menu stays confirmed through any script of keys: the event loop never clears `selected` |
| Core.CanScroll | src/core.rs:176-192 | definition: the two `u16` subtractions of `scroll_to_fit` do not underflow: the anchor is not below the terminal, and `max_row - 1` is only formed on a non-zero `max_row` |
| Core.Prepared | src/core.rs:152-153 | definition: the record after `scroll_to_fit` and `enter_normal_mode` |
| Core.PreparedFacts | src/core.rs:152-153 | after `scroll_to_fit` and `enter_normal_mode` the menu is in Normal mode with the same items, position and selection |
| Core.SessionOnEmpty | src/core.rs:148-150 | `select0` on an empty list returns nothing without reading a key |
| Core.SessionCancelled | src/core.rs:131-133 | on a menu not confirmed before (`selected` false), Esc or Ctrl-c as the first key returns nothing; Core.StaleSelectionOnCancel shows what the code does otherwise |
| Core.StaleSelectionOnCancel | src/core.rs:131-167 | `select0` as written on a menu confirmed earlier: Esc or Ctrl-c as the first key returns the highlighted item, not nothing |
| Core.FreshSession | src/core.rs:131-167 | the corrected session starts unconfirmed, and is `select0` itself on a menu not confirmed before |
| Core.FreshSessionCancels | src/core.rs:131-133 | in the corrected session Esc or Ctrl-c as the first key returns nothing, whatever was confirmed before |
| Core.SessionEnterChooses | src/core.rs:146-166 | Enter as the first key returns the highlighted item itself |
| Core.SessionChoosesAnItem | src/core.rs:213-234 | whatever the keys, a returned item is one of the menu's items up to rescoring |
| Core.SessionNormalNoPanic | src/core.rs:213-220 | with the corrected Down and Right, a session that ends in Normal mode, started with the highlighted row in bounds, never indexes past the list |
| Core.Menu.constructor | src/core.rs:27-51 | the fields are those of a new menu |
| Core.Menu.ShowEndTag | src/core.rs:54-57 | sets the end-tag flag only |
| Core.Menu.EnablePrintResult | src/core.rs:89-92 | sets the print-result flag only |
| Core.Menu.SetColorscheme | src/color.rs:44-47 | replaces the colour scheme only |
| Core.Menu.SetTitle | src/core.rs:73-76 | updates the fields as Engine.SetTitle |
| Core.Menu.SetMaxHeight | src/core.rs:61-70 | updates the fields as Engine.SetMaxHeight |
| Core.Menu.Add | src/core.rs:98-101 | pushes the item, as Engine.Add |
| Core.Menu.AddList | src/core.rs:103-106 | extends the list, as Engine.AddList |
| Core.Menu.Reset | src/core.rs:110-126 | updates the fields as the corrected reset, leaves the record invariant holding, and on a height of 3 or more leaves the highlight on screen |
| Core.Menu.ClearLists | src/core.rs:111-113 | clears items and matched list and `selected` |
| Core.Menu.ClearCursor | src/core.rs:114-120 | sets Normal mode, the new anchor row and the terminal height |
| Core.Menu.ClearQuery | src/core.rs:121-122 | empties the query and puts the cursor at 0 |
| Core.Menu.ScrollToFit | src/core.rs:170-198 | updates the anchor and returns the amount scrolled, as Engine.ScrollToFit |
| Core.Menu.EnterNormal | src/mode.rs:6-11 | updates the fields as Engine.EnterNormal |
| Core.Menu.EnterQuery | src/mode.rs:13-19 | updates the fields as Engine.EnterQuery |
| Core.Menu.MatchSequential | src/query.rs:14-29 | the `for` loop over `iter_mut` rescores the items and pushes the accepted indices in order |
| Core.Menu.RescoreAt | src/query.rs:18-27 | one iteration rescores item `i` only and reports whether it was accepted |
| Core.Menu.MatchChunked | src/query.rs:40-82 | the chunked path, with chunks run in order, rescores the items as the sequential loop and collects the same indices |
| Core.Menu.MatchChunk | src/query.rs:63-77 | a worker rescores its chunk only and returns the global indices of its hits |
| Core.Menu.FuzzyMatch | src/query.rs:6-38 | updates the fields as Engine.Rematch |
| Core.Menu.BackToTop | src/query.rs:7-9 | highlights the top row: selection and offset 0 |
| Core.Menu.RankItems | src/query.rs:11-37 | rescoring on either path, then the sort, give the scored items and the ranking |
| Core.Menu.KeyUp | src/keymap.rs:126-132 | updates the fields as Engine.KeyUp |
| Core.Menu.KeyDown | src/keymap.rs:134-144 | updates the fields as the corrected Engine.KeyDown, which is bounded by the matched list in Query mode |
| Core.Menu.KeyEsc | src/keymap.rs:146-154 | updates the fields and returns the exit flag as Engine.KeyEsc |
| Core.Menu.KeyEnter | src/keymap.rs:156-158 | sets `selected` |
| Core.Menu.MoveLeft | src/keymap.rs:62-70 | the remove-and-insert edit leaves the fields as Engine.MoveLeft |
| Core.Menu.ShiftCursorBack | src/keymap.rs:63-68 | takes out the character before the cursor and puts it back one character earlier: the text is unchanged, the cursor is on `prev_boundary!` and the column back by the character's cells |
| Core.Menu.MoveRight | src/keymap.rs:72-93 | updates the fields as the corrected Right |
| Core.Menu.InsertChar | src/keymap.rs:100-106 | updates the fields as Engine.InsertChar |
| Core.Menu.TypeAtCursor | src/keymap.rs:101-104 | the query, cursor and column after `insert` |
| Core.Menu.Backspace | src/keymap.rs:108-118 | updates the fields as Engine.KeyBackspace |
| Core.Menu.RemoveBeforeCursor | src/keymap.rs:109-115 | updates the fields as Engine.BackspaceEdit |
| Core.Menu.CutBeforeCursor | src/keymap.rs:110-115 | `remove` at `prev_boundary!` and the cursor and column moved back by the removed character |
| Core.Menu.DispatchNormal | src/keymap.rs:33-52 | updates the fields and returns the exit flag as Engine.DispatchNormal |
| Core.Menu.DispatchQuery | src/keymap.rs:54-122 | updates the fields and returns the exit flag as Engine.DispatchQuery, which uses the corrected Down and Right |
| Core.Menu.DispatchCode | src/keymap.rs:26-31 | updates the fields and returns the exit flag as Engine.DispatchCode, which reaches the corrected Down and Right |
| Core.Menu.DispatchKey | src/keymap.rs:13-24 | updates the fields and returns the exit flag as Engine.DispatchKey, with the corrected Down and Right, keeping the record invariant |
| Core.Menu.GetSelection | src/core.rs:200-235 | nothing unless selected; the picked item otherwise, which is one of the items, and in Normal mode the one at `selection_idx + scroll_offset` |
| Core.Menu.RunKeys | src/core.rs:155-165 | the `loop` dispatches keys, with the corrected Down and Right, until one asks to exit or the script ends, as Core.Run |
| Core.Menu.Select0 | src/core.rs:146-167 | returns the session result of the record it started from, run with the corrected Down and Right; afterwards the menu holds the record the event loop ended in (or is untouched when the list is empty or the fit would underflow), and, like the code, an earlier `selected` is still set |
| Render.ClearCmds | src/draw.rs:18-22 | definition: move to column 0 of the anchor row, then clear below |
| Render.CursorCmds | src/draw.rs:35-41 | definition: in Query mode only, move to the query column on the anchor row |
| Render.Marker | src/draw.rs:47-51 | the row prefix is two characters, ending in a space, and starts with '>' exactly on the highlighted row |
| Render.OptionRow | src/draw.rs:47-51 | a row is its prefix followed by the alias |
| Render.PrintOptions | src/draw.rs:43-55 | one line break and one row per item, in list order; row `i` is highlighted exactly when `i == selection_idx` |
| Render.OptionAt | src/draw.rs:44-51 | definition: option row `i` is a move one line down, then `"> "` or two spaces before the alias |
| Render.Draw | src/draw.rs:8-41 | clear (move to the anchor, clear down), then the title line, then the rows, then the cursor move, which happens in Query mode only and goes to the query column of the anchor row |
| Render.MarkedRowIsSelection | src/draw.rs:47-51 | a row starts with "> " exactly when it is the row at `selection_idx` |
| Render.AtMostOneMarked | src/draw.rs:47-51 | at most one row starts with "> " |
| Term.Report | src/term.rs:23 | definition: the Cursor Position Report `ESC [ row ; col R` with the numbers in decimal |
| Term.OrZero | src/term.rs:42-43 | definition: `.unwrap_or(0)` |
| Term.ByteChar | src/term.rs:27 | definition: `b as char`, the character with the byte's code |
| Term.Chars | src/term.rs:24-31 | definition: the string `response.push(buffer[0] as char)` builds from the bytes read |
| Term.Reply | src/term.rs:24-31 | definition: the bytes the read loop keeps, up to and including the first `R` |
| Term.ReportFields | src/term.rs:36-46 | definition: strip `ESC [` and `R`, split on `;`, read the first two parts as u16 with 0 for a part that does not parse; None on wrong framing or no `;` |
| Term.ParseCursorReply | src/term.rs:36-50 | definition: `(col, row - 1)`, RowUnderflow for a row of 0, ParseFailed otherwise |
| Term.ParseTtyReply | examples/tty_pos.rs:28-42 | definition: `(row, col)` as sent, or failure |
| Term.KeyFromByte | src/term.rs:92-101 | definition: 3, 4 and 26 are Ctrl-c, Ctrl-d and Ctrl-z, 10 and 13 are Enter, any other byte is that character |
| Term.ReadResponse | src/term.rs:24-31 | the read loop (the same one as examples/tty_pos.rs:19-26) keeps every byte up to and including the first 'R', or all bytes up to end of file |
| Term.ReplyFacts | src/term.rs:24-31 | the kept reply is a prefix of the stream with no 'R' before its last byte; it ends with 'R' exactly when the stream holds one, and is the whole stream otherwise |
| Term.ReplyOfReport | src/term.rs:26-31 | after a complete report nothing more is read |
| Term.StripPrefix | src/term.rs:37 | `strip_prefix` succeeds exactly on a string starting with the prefix, and returns the rest |
| Term.StripSuffix | src/term.rs:38 | `strip_suffix` succeeds exactly on a string ending with the suffix, and returns the rest |
| Term.SplitOnce | src/term.rs:40-41 | the first part of `split(';')` holds no ';'; a second part exists exactly when there is a ';', and the parts join back to the string |
| Term.ParseU16 | src/term.rs:42-43 | a successful `parse::<u16>` is below 65536 |
| Term.ParseDec | src/term.rs:42-43 | a number printed in decimal parses back to itself when it fits in 16 bits, and fails otherwise |
| Term.ReportFieldsFraming | src/term.rs:36-41 | a reply parses exactly when it starts with ESC '[', ends with 'R' and has a ';' in between |
| Term.ReportRoundTrip | src/term.rs:36-46 | every Cursor Position Report with 16-bit numbers parses back to its row and column |
| Term.CursorRoundTrip | src/term.rs:19-46 | after the status request, whatever follows the report, `get_cursor_position` returns the column and the 0-based row, and the example returns the row and column as sent |
| Term.ParsersAgree | examples/tty_pos.rs:28-42 | the library's parser fails exactly where the example fails; it underflows exactly where the example reports row 0; otherwise it returns `(col, row - 1)` for the example's `(row, col)` |
| Term.ReportParts | src/term.rs:36-43 | a reply ESC `[` h `;` t `R` reads its row from h and its column from t up to t's first ';', each 0 when it does not parse |
| Term.NotANumber | src/term.rs:42-43 | a part starting with neither a digit nor '+' is not a u16 |
| Term.NonNumericRowIsZero | src/term.rs:42-44 | a row that does not parse reads as 0: the example reports row 0 and the library's `row - 1` underflows |
| Term.NonNumericColIsZero | src/term.rs:42-44 | a column that does not parse reads as 0 |
| Term.ExtraFieldsIgnored | src/term.rs:40-41 | parts after the second are never read: the reply parses as its first two numbers |
| Term.PipeKeyKinds | src/term.rs:92-100 | over a pipe only characters and Enter arrive; Control exactly for bytes 3, 4 and 26, Enter exactly for 10 and 13, and no modifier otherwise |
| Term.PipeKeysDistinct | src/term.rs:92-100 | distinct bytes give distinct events, except 10 and 13, which are both Enter |
| Term.PipeByteEffect | src/term.rs:92-100 | a byte from the tty, if dispatched: 3 exits with the record unchanged; 4 and 26 are ignored; 10 and 13 confirm the choice; any other byte is the key of that character, so in Query mode it is typed into the query |
| BasicMenu.NewBasicItem | src/menu.rs:10-17 | the item holds the display string and the value |
| BasicMenu.FromPairs | src/menu.rs:62-69 | one item per pair, in order, each built from its pair |
| BasicMenu.SelectionOf | src/menu.rs:96-113 | definition: nothing unless selected, else the item at the selection index, or the panic of indexing past the list |
| BasicMenu.SelectionCases | src/menu.rs:96-113 | nothing unless selected; else the item at `selection_idx`, with no scroll offset, or a panic past the end |
| BasicMenu.AddingKeepsPick | src/menu.rs:47-69 | adding items never changes an item already picked |
| BasicMenu.Menu.constructor | src/menu.rs:26-36 | empty, Normal mode, top row, unselected, with the reported `(col, row)` stored as `(row, col)` |
| BasicMenu.Menu.SetTitle | src/menu.rs:38-45 | stores the title, which `get_title` then returns |
| BasicMenu.Menu.Add | src/menu.rs:47-50 | appends one item at the end |
| BasicMenu.Menu.AddList | src/menu.rs:52-55 | appends all given items in order |
| BasicMenu.Menu.AddItem | src/menu.rs:57-60 | appends `Item::new(display, value)` |
| BasicMenu.Menu.AddItemList | src/menu.rs:62-69 | appends one item per pair, in order |
| BasicMenu.Menu.GetTitle | src/menu.rs:43-45 | definition: the title, or "select" when none was set |
| BasicMenu.Menu.GetSelection | src/menu.rs:96-113 | returns what SelectionOf says of the fields |
| Findings.AccentedOffsets | src/keymap.rs:76-79 | the byte offsets of "aéb" used by the Right-arrow finding |
| Findings.RightScramblesQuery | src/keymap.rs:75-81 | Right as written, with the cursor at 0 of "aéb", turns the query into "abé" |
| Findings.RightKeepsQuery | src/keymap.rs:72-93 | the corrected Right on the same record keeps "aéb" and steps over 'a' |
| Findings.RightStopsBeforeLast | src/keymap.rs:73-91 | Right as written, with the cursor before the last character of "ab", leaves the cursor there, so typing 'x' gives "axb" |
| Findings.RightReachesEnd | src/keymap.rs:72-93 | the corrected Right steps over 'b', so typing 'x' gives "abx" |
| Findings.DownPastMatches | src/keymap.rs:134-144 | Down as written in Query mode moves past the last match, and Enter then indexes past the matched list |
| Findings.DownStaysOnMatches | src/keymap.rs:134-144 | the corrected Down stays on the last match, which Enter then picks |
| Findings.KeyDownAgrees | src/keymap.rs:134-144 | in Normal mode, with fewer than 65536 items and the row in bounds, the code's Down is the corrected one |
| Findings.KeyDownAsWrittenBounds | src/keymap.rs:134-144 | the code's Down in either mode, from a row on screen and inside the item list: one entry further unless on the last item, still on screen and inside `item_list`, and only the row and the scroll offset change |
| Findings.ResetKeepsStaleRow | src/core.rs:110-126 | reset as written keeps a non-zero `selection_idx`, so adding one item and pressing Enter indexes past the list |

## Left out

- Terminal I/O is not modelled. This covers the crossterm writes, raw mode, opening `/dev/tty`, cursor Hide and Show, the title and result printing in `get_selection`, and the `Drop` impls. `draw` becomes a list of commands, and I/O errors never happen.
- The non-pipe branches of `get_cursor_position` and `read_key_event` are left out. They call crossterm, which is not part of this model. Read errors from the tty are left out too.
- `run` in menu.rs and the drawing inside `select0` are left out. `run` relies on `normal_mode` and `dispatch_key` of an earlier revision that is not part of this model. `select0`'s event loop is modelled on a finite script of key events.
- The fuzzy matching algorithm (SkimMatcherV2) is not modelled. It is a foreign crate, so the matcher is a deterministic function passed as a parameter.
- Core.Menu.MatchChunked: runs the chunks one after another in index order, which is one schedule of the rayon pool. Other schedules push the same indices in another order. Before the sort the set of indices is the same. After the stable sort, the order among equal scores can differ.
- Engine.Cap: the `f32` percentage is an exact fraction, so `f32` rounding is not modelled.
- Style.Colorize: the `colored` crate is a styling function passed as a parameter. Only the order and choice of the styling calls is modelled.
- The `colored` crate's eight Bright colours and `TrueColor` are not modelled. `set_fg_color` and `set_bg_color` take one of the eight basic named colours, and `Style.Color` has only those.
- `FontShape`'s `BitOr` is left out. It transmutes into an enum whose other discriminants are not shown. The codes of Bold, Italic and Underline are taken as 1, 2 and 4.
- Style.FontStyle.SetShape: `FontStyle` and `ColorScheme` are plain values that are copied into the menu. Their `&mut self` setters are modelled as functions returning the updated value, so the chaining through `&mut Self` is not captured.
- Counters are unbounded naturals. Their `u16` overflow is not modelled.
  - `term_max_row - row` in `scroll_to_fit` is written as the precondition `anchorRow <= termRows`.
  - `max_row - 1` is written as the precondition `maxRow >= 1`.
  - `item_cnt - 1` and `max_row - 3` in `key_down` are None in Engine.KeyDownAsWritten.
  - `row - 1` in `get_cursor_position` is the RowUnderflow outcome of Term.ParseCursorReply.
- Engine.KeyDown: with fewer than three rows the corrected Down scrolls the list instead of moving the row. In that case the code underflows `max_row - 3`.
- KeyDownMoves (EngineFacts.KeyDownMoves): stated for the corrected Down, which is bounded by the matched list in Query mode. The code bounds it by the item list; that law is Findings.KeyDownAsWrittenBounds (Findings row 3).
- KeyDownKeepsWF (EngineFacts.KeyDownKeepsWF): proved for the corrected Down only. The code's Query-mode Down can leave the matched list (Findings row 3).
- KeyDownInBounds (EngineFacts.KeyDownInBounds): proved for the corrected Down only. For the code's Down only the item-list bound of Findings.KeyDownAsWrittenBounds holds (Findings row 3).
- RightKeeps (EngineFacts.RightKeeps): proved for the corrected Right only. The code's Right changes the query and can panic on "éab" (Findings rows 1 and 2).
- QueryKeyKeeps (EngineFacts.QueryKeyKeeps): proved for the Query-mode dispatcher with the corrected Down and Right (Findings rows 1 to 3).
- DispatchKeeps (EngineFacts.DispatchKeeps): proved for the dispatcher with the corrected Down and Right. "The highlighted row stays in the list" is false of the code's Query-mode Down (Findings row 3).
- ResetThenEnterPicksFirst (EngineFacts.ResetThenEnterPicksFirst): proved for the corrected reset. The code's reset keeps `selection_idx`, and the pick can then be out of range (Findings row 4).
- Run (Core.Run): the event loop is proved with the corrected Down and Right, not with the code's (Findings rows 1 to 3).
- SessionNormalNoPanic (Core.SessionNormalNoPanic): the no-panic claim rests on the corrected Down and Right (Findings rows 1 to 3).
- KeyDown (Core.Menu.KeyDown): updates the fields as the corrected Down, bounded by the matched list in Query mode, where the code uses the item list (Findings row 3).
- DispatchQuery (Core.Menu.DispatchQuery): uses the corrected Down and Right (Findings rows 1 to 3).
- DispatchCode (Core.Menu.DispatchCode): reaches the corrected Down and Right (Findings rows 1 to 3).
- DispatchKey (Core.Menu.DispatchKey): reaches the corrected Down and Right (Findings rows 1 to 3).
- RunKeys (Core.Menu.RunKeys): its loop invariant ties it to Core.Run, which uses the corrected Down and Right (Findings rows 1 to 3).
- SessionResult (Core.SessionResult): runs the corrected Down and Right (Findings rows 1 to 3).
- DispatchKeepsSelected (Core.DispatchKeepsSelected): proved over the dispatcher with the corrected Down and Right. The code's Down and Right do not touch `selected` either.
- QueryKeepsSelected (Core.QueryKeepsSelected): proved with the corrected Down and Right, as DispatchKeepsSelected.
- RunKeepsSelected (Core.RunKeepsSelected): proved for the event loop with the corrected Down and Right, as DispatchKeepsSelected.
- Select0 (Core.Menu.Select0): runs the dispatcher with the corrected Down and Right (Findings rows 1 to 3). It keeps the code's stale `selected` (its last ensures, through Core.RunKeepsSelected); the corrected session is Core.FreshSession (Findings row 5).
- SessionCancelled (Core.SessionCancelled): requires a menu not confirmed before. A second `select` without `reset` returns the earlier item on Esc (Findings row 5).
- CancelPicksNothing (EngineFacts.CancelPicksNothing): requires `selected` to be false. Ctrl-c and Normal-mode Esc leave any earlier `selected` in place (Findings row 5).
- NormalKeyKeeps (EngineFacts.NormalKeyKeeps): proved with the corrected Down. On fewer than three rows the code's Normal-mode Down underflows `max_row - 3` instead (Engine.KeyDownAsWritten).
- NormalKeepsItems (Core.NormalKeepsItems): proved with the corrected Down. The code's Down does not touch the items either, where it is defined.
- QueryKeepsItems (Core.QueryKeepsItems): proved with the corrected Down and Right. The code's Right rewrites the query and can panic, but does not touch the items (Findings rows 1 to 3).
- DispatchKeepsItems (Core.DispatchKeepsItems): proved with the corrected Down and Right, as QueryKeepsItems (Findings rows 1 to 3).
- DispatchNormal (Core.Menu.DispatchNormal): updates the fields as Engine.DispatchNormal, whose Down is the corrected one (Findings row 3).
- SessionChoosesAnItem (Core.SessionChoosesAnItem): proved for sessions that run the corrected Down and Right (Findings rows 1 to 3).
- PipeByteEffect (Term.PipeByteEffect): the Normal-mode case is Engine.DispatchNormal, so a `j` byte reaches the corrected Down (Findings row 3).
- `prev_boundary!` and `next_boundary!` are imported from `macros.rs`, but their definitions are not part of this model. Utf8.PrevBoundary and Utf8.NextBoundary are this model's definitions: the nearest character boundary before, or after, an offset. In particular Utf8.PrevBoundary of offset 0 is 0, so the modelled Backspace with the cursor at 0 removes the first character and leaves the cursor at 0. Another definition of the macro at 0 would change that case.
- `KeyListener::read_key_event` is not called by `select0`, which reads crossterm events (src/core.rs:156). Term.KeyFromByte and Term.PipeByteEffect say what a byte would do if it were dispatched; no modelled session reads bytes.
- MoveRightFacts (EngineFacts.MoveRightFacts): stated for the corrected Right. The code's Right changes the text and cannot reach the end (Findings rows 1 and 2); its own laws are Findings.RightScramblesQuery and Findings.RightStopsBeforeLast.
- RightSteps (EngineFacts.RightSteps): stated for the corrected Right. The code's Right moves the character after the cursor (Findings row 1).
- Reset (Core.Menu.Reset): updates the fields as the corrected reset, which also sets `selection_idx` to 0. The code's reset keeps it; that reset is EngineFacts.ResetFacts over Engine.ResetAsWritten (Findings row 4).
- MoveRight (Core.Menu.MoveRight): updates the fields as the corrected Right, which leaves the text alone. The code's Right is Engine.MoveRightAsWritten (Findings rows 1 and 2).
- BasicMenu.Menu.GetTitle and Engine.GetTitle return owned strings. The source returns a borrowed `&str`, and borrowing is not modelled.

## Findings

| source | as written | input that shows it | evidently intended | confidence | as-written member | corrected member |
|---|---|---|---|---|---|---|
| src/keymap.rs:76-79 | Right takes out the character at `next_boundary!` of the cursor, which is the one after the character under the cursor. It re-inserts that character one character further on, so the text changes. | query "aéb" with the cursor at 0: Right gives "abé". On "éab" with the cursor at 0 the insert lands inside 'é', which panics. | Right moves the cursor over the next character and leaves the text alone (as Left does) | not executed | Findings.RightScramblesQuery | Findings.RightKeepsQuery |
| src/keymap.rs:73-91 | A cursor at the start of the last character takes the `_` branch. That branch moves the display column but not `insert_pos`, so the end of the query cannot be reached. | query "ab" with the cursor at 1: Right leaves `insert_pos` at 1, and typing 'x' gives "axb" | Right steps over the last character to the end, so typing appends ("abx") | not executed | Findings.RightStopsBeforeLast | Findings.RightReachesEnd |
| src/keymap.rs:134-144 | In Query mode `key_down` bounds the position by `item_list.len()`, not by the matched list. | Query mode, one match out of two items, highlighted row on the match: Down moves to position 1, and Enter makes `get_selection` index `matched_item_indices[1]` (src/core.rs:216), which panics | Down stops at the last entry of the list `get_selection` indexes (the matched list in Query mode) | not executed | Findings.DownPastMatches | Findings.DownStaysOnMatches |
| src/core.rs:110-126 | `reset` clears the items and the scroll offset but not `selection_idx`. | `selection_idx` 1, then reset, add one item and press Enter: `get_selection` unwraps `item_list.get(1)`, which is None, so it panics (src/core.rs:220) | reset puts the highlighted row back at the top, as it does the scroll offset | not executed | Findings.ResetKeepsStaleRow | EngineFacts.ResetThenEnterPicksFirst |
| src/core.rs:146-167 | `select0` never clears `selected`, and Esc and Ctrl-c exit without touching it. | `select` confirmed with Enter, then `select` again on the same menu with Esc as the first key: it returns the item confirmed before | `select` returns None on Esc or Ctrl-c, as its documentation at src/core.rs:131-133 says | not executed | Core.StaleSelectionOnCancel | Core.FreshSessionCancels |
