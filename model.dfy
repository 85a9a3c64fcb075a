/** The entities the selection engine works on: items, the two modes, and the
    interface of the (foreign) fuzzy matcher. */
module Model {
  import opened Wrappers

  /** What `SkimMatcherV2::fuzzy_indices` reports for a hit: the score and the
      positions of the matched characters. */
  datatype MatchResult = MatchResult(score: int, positions: seq<nat>)

  /** The fuzzy matcher, applied as `matcher(alias, query)`.  Its algorithm lives in
      a foreign crate; as a total function value it is deterministic: the same
      alias and query always give the same answer. */
  type Matcher = (string, string) -> Option<MatchResult>

  /** `Item<T>`: the label shown, the caller's payload, and the match data of the
      last query that hit it. */
  datatype Item<T> = Item(alias: string, value: T, score: Option<int>, matchedIndices: Option<seq<nat>>)

  /** `Item::new(display, value)`: a copy of the label, no match data yet. */
  function NewItem<T>(display: string, value: T): (it: Item<T>)
    ensures it.alias == display && it.value == value
    ensures it.score.None? && it.matchedIndices.None?
  {
    Item(display, value, None, None)
  }

  /** Browsing the whole list, or filtering it with a query. */
  datatype Mode = Normal | Query
}
