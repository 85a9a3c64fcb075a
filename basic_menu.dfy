/**
 * The earlier, plain menu API of src/menu.rs: items shown by a `display`
 * string, no query mode of its own, the cursor position taken when the menu is
 * created.  The event loop `run` and the terminal writes are outside the model
 * (see the README).
 */
module BasicMenu {
  import opened Wrappers
  import opened Model

  /** `Item { display, value }` of this API. */
  datatype BasicItem<T> = BasicItem(display: string, value: T)

  /** `Item::new` */
  function NewBasicItem<T>(display: string, value: T): (it: BasicItem<T>)
    ensures it.display == display && it.value == value
  {
    BasicItem(display, value)
  }

  /** Items made from `(display, value)` pairs, in order (`add_item_list`'s `map`). */
  function FromPairs<T>(pairs: seq<(string, T)>): (items: seq<BasicItem<T>>)
    ensures |items| == |pairs|
    ensures forall i :: 0 <= i < |pairs| ==> items[i] == NewBasicItem(pairs[i].0, pairs[i].1)
  {
    if pairs == [] then [] else [NewBasicItem(pairs[0].0, pairs[0].1)] + FromPairs(pairs[1..])
  }

  /** What `get_selection` returns: nothing before a confirmation, the item under
      the selection index after one, or the panic of indexing past the list. */
  datatype Chosen<T> = Nothing | Picked(item: BasicItem<T>) | IndexPanic

  function SelectionOf<T>(items: seq<BasicItem<T>>, idx: nat, selected: bool): Chosen<T>
  {
    if !selected then Nothing
    else if idx < |items| then Picked(items[idx])
    else IndexPanic
  }

  /** The outcome of a confirmed or unconfirmed menu, in all three cases. */
  lemma SelectionCases<T>(items: seq<BasicItem<T>>, idx: nat, selected: bool)
    ensures SelectionOf(items, idx, selected) == Nothing <==> !selected
    ensures SelectionOf(items, idx, selected).Picked? <==> selected && idx < |items|
    ensures SelectionOf(items, idx, selected).Picked? ==> SelectionOf(items, idx, selected).item == items[idx]
    ensures SelectionOf(items, idx, selected) == IndexPanic <==> selected && |items| <= idx
  {
  }

  /** Adding items never changes an item already picked. */
  lemma AddingKeepsPick<T>(items: seq<BasicItem<T>>, more: seq<BasicItem<T>>, idx: nat, selected: bool)
    requires SelectionOf(items, idx, selected).Picked?
    ensures SelectionOf(items + more, idx, selected) == SelectionOf(items, idx, selected)
  {
  }

  class Menu<T> {
    var title: Option<string>
    var items: seq<BasicItem<T>>
    var mode: Mode
    var cursorRow: nat
    var cursorCol: nat
    var selectionIdx: nat
    var selected: bool

    /** `Menu::new`, given the cursor position `(col, row)` the terminal reports;
        the menu keeps it as `(row, col)`. */
    constructor (col: nat, row: nat)
      ensures title.None? && items == [] && mode == Normal
      ensures cursorRow == row && cursorCol == col
      ensures selectionIdx == 0 && !selected
    {
      title, items, mode := None, [], Normal;
      cursorRow, cursorCol := row, col;
      selectionIdx, selected := 0, false;
    }

    /** `get_title`: the title, or "select" when none was set. */
    function GetTitle(): string
      reads this
    {
      if title.Some? then title.value else "select"
    }

    /** `set_title` */
    method SetTitle(t: string)
      modifies this`title
      ensures title == Some(t) && GetTitle() == t
    {
      title := Some(t);
    }

    /** `add` */
    method Add(item: BasicItem<T>)
      modifies this`items
      ensures items == old(items) + [item]
    {
      items := items + [item];
    }

    /** `add_list` */
    method AddList(list: seq<BasicItem<T>>)
      modifies this`items
      ensures items == old(items) + list
    {
      items := items + list;
    }

    /** `add_item` */
    method AddItem(display: string, value: T)
      modifies this`items
      ensures items == old(items) + [NewBasicItem(display, value)]
    {
      items := items + [NewBasicItem(display, value)];
    }

    /** `add_item_list` */
    method AddItemList(pairs: seq<(string, T)>)
      modifies this`items
      ensures items == old(items) + FromPairs(pairs)
    {
      items := items + FromPairs(pairs);
    }

    /** `get_selection`, without its terminal writes. */
    method GetSelection() returns (r: Chosen<T>)
      ensures r == SelectionOf(items, selectionIdx, selected)
    {
      if !selected {
        return Nothing;
      }
      if selectionIdx < |items| {
        r := Picked(items[selectionIdx]);
      } else {
        r := IndexPanic;
      }
    }
  }
}
