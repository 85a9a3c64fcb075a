/**
 * The ranking performed by `fuzzy_match`: every item whose alias the matcher
 * accepts with a positive score gets that score and those positions recorded, its
 * index is collected, and the collected indices are stably sorted by descending
 * score.  The functions here are the specification the menu's matching loop is
 * proved against; the lemmas state what the ranking guarantees.
 */
module Ranking {
  import opened Wrappers
  import opened Model

  /** Items above this many are matched by the chunked worker pool. */
  const ParallelThreshold: nat := 10000

  /** Items per chunk handed to one worker. */
  const ChunkSize: nat := 50

  /** The matcher finds `query` in the item's alias with a positive score. */
  predicate Accepts<T>(m: Matcher, it: Item<T>, query: string)
  {
    m(it.alias, query).Some? && m(it.alias, query).value.score > 0
  }

  /** The loop body's effect on one item: a hit records score and positions; a
      miss leaves the item as it was. */
  function Rescore<T>(m: Matcher, it: Item<T>, query: string): Item<T>
  {
    if Accepts(m, it, query) then
      it.(score := Some(m(it.alias, query).value.score),
          matchedIndices := Some(m(it.alias, query).value.positions))
    else
      it
  }

  /** The item list after matching. */
  function Scored<T>(m: Matcher, items: seq<Item<T>>, query: string): (r: seq<Item<T>>)
    ensures |r| == |items|
  {
    seq(|items|, i requires 0 <= i < |items| => Rescore(m, items[i], query))
  }

  /** The indices below `n` collected by the matching loop, in push order. */
  function HitsBelow<T>(m: Matcher, items: seq<Item<T>>, query: string, n: nat): seq<nat>
    requires n <= |items|
  {
    if n == 0 then []
    else HitsBelow(m, items, query, n - 1) + (if Accepts(m, items[n - 1], query) then [n - 1] else [])
  }

  /** All collected indices, in push order. */
  function Hits<T>(m: Matcher, items: seq<Item<T>>, query: string): seq<nat>
  {
    HitsBelow(m, items, query, |items|)
  }

  /** Rust's `Ord` on `Option<i64>`: `None` is below every `Some`. */
  predicate ScoreLe(a: Option<int>, b: Option<int>)
  {
    a.None? || (b.Some? && a.value <= b.value)
  }

  /** The score the sort comparator reads (`self.item_list[*a].score`). */
  function ScoreOf<T>(items: seq<Item<T>>, i: nat): Option<int>
  {
    if i < |items| then items[i].score else None
  }

  /** Put `x` in front of the first element that does not score above it. */
  function Insert<T>(items: seq<Item<T>>, x: nat, ys: seq<nat>): seq<nat>
  {
    if ys == [] then [x]
    else if ScoreLe(ScoreOf(items, ys[0]), ScoreOf(items, x)) then [x] + ys
    else [ys[0]] + Insert(items, x, ys[1..])
  }

  /** `sort_by(|a, b| score(b).cmp(&score(a)))`: a stable sort by descending score,
      written as an insertion sort. */
  function SortByScore<T>(items: seq<Item<T>>, xs: seq<nat>): seq<nat>
  {
    if xs == [] then [] else Insert(items, xs[0], SortByScore(items, xs[1..]))
  }

  /** The final `matched_item_indices` of the sequential path. */
  function Rank<T>(m: Matcher, items: seq<Item<T>>, query: string): seq<nat>
  {
    SortByScore(Scored(m, items, query), Hits(m, items, query))
  }

  /** Scores never increase along `r`. */
  predicate Descending<T>(items: seq<Item<T>>, r: seq<nat>)
  {
    forall i, j :: 0 <= i < j < |r| ==> ScoreLe(ScoreOf(items, r[j]), ScoreOf(items, r[i]))
  }

  /** Equal scores appear in ascending index order. */
  predicate TiesAscending<T>(items: seq<Item<T>>, r: seq<nat>)
  {
    forall i, j :: 0 <= i < j < |r| && ScoreOf(items, r[i]) == ScoreOf(items, r[j]) ==> r[i] < r[j]
  }

  predicate StrictlyIncreasing(xs: seq<nat>)
  {
    forall i, j :: 0 <= i < j < |xs| ==> xs[i] < xs[j]
  }

  // ---------------------------------------------------------------- the collected indices

  lemma {:induction false} HitsBelowIncreasing<T>(m: Matcher, items: seq<Item<T>>, query: string, n: nat)
    requires n <= |items|
    ensures StrictlyIncreasing(HitsBelow(m, items, query, n))
    ensures forall x :: x in HitsBelow(m, items, query, n) ==> x < n
  {
    if n > 0 {
      HitsBelowIncreasing(m, items, query, n - 1);
      var prev := HitsBelow(m, items, query, n - 1);
      var r := HitsBelow(m, items, query, n);
      forall i, j | 0 <= i < j < |r|
        ensures r[i] < r[j]
      {
        if j < |prev| {
          assert r[i] == prev[i] && r[j] == prev[j];
        } else {
          assert r[i] == prev[i] && prev[i] in prev;
        }
      }
    }
  }

  /** Index `i` is collected once when the matcher accepts item `i`, and never
      otherwise. */
  lemma {:induction false} HitsBelowCount<T>(m: Matcher, items: seq<Item<T>>, query: string, n: nat, i: nat)
    requires n <= |items|
    ensures multiset(HitsBelow(m, items, query, n))[i] ==
            if i < n && Accepts(m, items[i], query) then 1 else 0
  {
    if n > 0 {
      HitsBelowCount(m, items, query, n - 1, i);
      var prev := HitsBelow(m, items, query, n - 1);
      var last: seq<nat> := if Accepts(m, items[n - 1], query) then [n - 1] else [];
      assert HitsBelow(m, items, query, n) == prev + last;
      assert multiset(prev + last) == multiset(prev) + multiset(last);
      assert multiset(last)[i] == if i == n - 1 && Accepts(m, items[n - 1], query) then 1 else 0;
    }
  }

  lemma {:induction false} HitsBelowLength<T>(m: Matcher, items: seq<Item<T>>, query: string, n: nat)
    requires n <= |items|
    ensures |HitsBelow(m, items, query, n)| <= n
  {
    if n > 0 {
      HitsBelowLength(m, items, query, n - 1);
    }
  }

  // ---------------------------------------------------------------- the sort

  lemma {:induction false} InsertPermutes<T>(items: seq<Item<T>>, x: nat, ys: seq<nat>)
    ensures multiset(Insert(items, x, ys)) == multiset(ys) + multiset{x}
  {
    if ys != [] && !ScoreLe(ScoreOf(items, ys[0]), ScoreOf(items, x)) {
      InsertPermutes(items, x, ys[1..]);
      assert ys == [ys[0]] + ys[1..];
    }
  }

  lemma {:induction false} SortPermutes<T>(items: seq<Item<T>>, xs: seq<nat>)
    ensures multiset(SortByScore(items, xs)) == multiset(xs)
  {
    if xs != [] {
      SortPermutes(items, xs[1..]);
      InsertPermutes(items, xs[0], SortByScore(items, xs[1..]));
      assert xs == [xs[0]] + xs[1..];
    }
  }

  lemma {:induction false} InsertDescending<T>(items: seq<Item<T>>, x: nat, ys: seq<nat>)
    requires Descending(items, ys)
    ensures Descending(items, Insert(items, x, ys))
  {
    if ys != [] && !ScoreLe(ScoreOf(items, ys[0]), ScoreOf(items, x)) {
      var rest := Insert(items, x, ys[1..]);
      InsertDescending(items, x, ys[1..]);
      InsertPermutes(items, x, ys[1..]);
      forall j | 0 <= j < |rest|
        ensures ScoreLe(ScoreOf(items, rest[j]), ScoreOf(items, ys[0]))
      {
        assert rest[j] in multiset(rest);
        if rest[j] != x {
          assert rest[j] in multiset(ys[1..]);
          var k :| 0 <= k < |ys[1..]| && ys[1..][k] == rest[j];
          assert ys[k + 1] == rest[j];
        }
      }
    }
  }

  /** The sort orders every input by non-increasing score. */
  lemma {:induction false} SortDescending<T>(items: seq<Item<T>>, xs: seq<nat>)
    ensures Descending(items, SortByScore(items, xs))
  {
    if xs != [] {
      SortDescending(items, xs[1..]);
      InsertDescending(items, xs[0], SortByScore(items, xs[1..]));
    }
  }

  lemma {:induction false} InsertTies<T>(items: seq<Item<T>>, x: nat, ys: seq<nat>)
    requires Descending(items, ys) && TiesAscending(items, ys)
    requires forall y :: y in ys ==> x < y
    ensures TiesAscending(items, Insert(items, x, ys))
  {
    if ys != [] && !ScoreLe(ScoreOf(items, ys[0]), ScoreOf(items, x)) {
      var rest := Insert(items, x, ys[1..]);
      assert forall y :: y in ys[1..] ==> y in ys;
      InsertTies(items, x, ys[1..]);
      InsertPermutes(items, x, ys[1..]);
      forall j | 0 <= j < |rest| && ScoreOf(items, rest[j]) == ScoreOf(items, ys[0])
        ensures ys[0] < rest[j]
      {
        assert rest[j] in multiset(rest);
        if rest[j] != x {
          assert rest[j] in multiset(ys[1..]);
          var k :| 0 <= k < |ys[1..]| && ys[1..][k] == rest[j];
          assert ys[k + 1] == rest[j];
        }
      }
      TiesCons(items, ys[0], rest);
    } else {
      forall j | 0 <= j < |ys| ensures x < ys[j] {
        assert ys[j] in ys;
      }
      TiesCons(items, x, ys);
      assert Insert(items, x, ys) == [x] + ys;
    }
  }

  /** A head below every later index of equal score keeps ties ascending. */
  lemma TiesCons<T>(items: seq<Item<T>>, h: nat, rest: seq<nat>)
    requires TiesAscending(items, rest)
    requires forall j :: 0 <= j < |rest| && ScoreOf(items, rest[j]) == ScoreOf(items, h) ==> h < rest[j]
    ensures TiesAscending(items, [h] + rest)
  {
    var r := [h] + rest;
    forall i, j | 0 <= i < j < |r| && ScoreOf(items, r[i]) == ScoreOf(items, r[j])
      ensures r[i] < r[j]
    {
      assert r[j] == rest[j - 1];
      if i > 0 {
        assert r[i] == rest[i - 1];
      }
    }
  }


  /** Sorting indices pushed in increasing order keeps equal scores in that order:
      the sort is stable. */
  lemma {:induction false} SortTies<T>(items: seq<Item<T>>, xs: seq<nat>)
    requires StrictlyIncreasing(xs)
    ensures TiesAscending(items, SortByScore(items, xs))
  {
    if xs != [] {
      SortTies(items, xs[1..]);
      SortDescending(items, xs[1..]);
      SortPermutes(items, xs[1..]);
      forall y | y in SortByScore(items, xs[1..])
        ensures xs[0] < y
      {
        assert y in multiset(SortByScore(items, xs[1..]));
        assert y in multiset(xs[1..]);
      }
      InsertTies(items, xs[0], SortByScore(items, xs[1..]));
    }
  }

  // ---------------------------------------------------------------- what matching guarantees

  /** Matching changes only the match data of accepted items: aliases and payloads
      stay, accepted items take the matcher's score and positions, and the other
      items keep whatever score and positions they had before. */
  lemma ScoredItems<T>(m: Matcher, items: seq<Item<T>>, query: string, i: nat)
    requires i < |items|
    ensures Scored(m, items, query)[i].alias == items[i].alias
    ensures Scored(m, items, query)[i].value == items[i].value
    ensures Accepts(m, items[i], query) ==>
              Scored(m, items, query)[i].score == Some(m(items[i].alias, query).value.score) &&
              Scored(m, items, query)[i].matchedIndices == Some(m(items[i].alias, query).value.positions)
    ensures !Accepts(m, items[i], query) ==> Scored(m, items, query)[i] == items[i]
  {
  }

  /** Each index appears in the ranking exactly once if the matcher accepts that
      item with a positive score, and not at all otherwise. */
  lemma RankCount<T>(m: Matcher, items: seq<Item<T>>, query: string, i: nat)
    ensures multiset(Rank(m, items, query))[i] ==
            if i < |items| && Accepts(m, items[i], query) then 1 else 0
  {
    SortPermutes(Scored(m, items, query), Hits(m, items, query));
    HitsBelowCount(m, items, query, |items|, i);
  }

  /** Every ranked index names an item whose recorded score is positive. */
  lemma RankScoresPositive<T>(m: Matcher, items: seq<Item<T>>, query: string, i: nat)
    requires i < |Rank(m, items, query)|
    ensures Rank(m, items, query)[i] < |items|
    ensures var s := Scored(m, items, query)[Rank(m, items, query)[i]].score;
            s.Some? && s.value > 0
  {
    var x := Rank(m, items, query)[i];
    assert x in multiset(Rank(m, items, query));
    RankCount(m, items, query, x);
  }

  /** The ranking orders by non-increasing score, equal scores by ascending index. */
  lemma RankOrdered<T>(m: Matcher, items: seq<Item<T>>, query: string)
    ensures Descending(Scored(m, items, query), Rank(m, items, query))
    ensures TiesAscending(Scored(m, items, query), Rank(m, items, query))
  {
    HitsBelowIncreasing(m, items, query, |items|);
    SortDescending(Scored(m, items, query), Hits(m, items, query));
    SortTies(Scored(m, items, query), Hits(m, items, query));
  }

  lemma RankLength<T>(m: Matcher, items: seq<Item<T>>, query: string)
    ensures |Rank(m, items, query)| <= |items|
    ensures forall x :: x in Rank(m, items, query) ==> x < |items|
    ensures forall i :: 0 <= i < |Rank(m, items, query)| ==> Rank(m, items, query)[i] < |items|
  {
    SortPermutes(Scored(m, items, query), Hits(m, items, query));
    HitsBelowLength(m, items, query, |items|);
    HitsBelowIncreasing(m, items, query, |items|);
    assert |multiset(Rank(m, items, query))| == |multiset(Hits(m, items, query))|;
    forall x | x in Rank(m, items, query)
      ensures x < |items|
    {
      assert x in multiset(Rank(m, items, query));
      assert x in multiset(Hits(m, items, query));
      assert x in Hits(m, items, query);
    }
    forall i | 0 <= i < |Rank(m, items, query)|
      ensures Rank(m, items, query)[i] < |items|
    {
      assert Rank(m, items, query)[i] in Rank(m, items, query);
    }
  }

  lemma {:induction false} HitsBelowAliasOnly<T>(m: Matcher, items: seq<Item<T>>, other: seq<Item<T>>, query: string, n: nat)
    requires n <= |items| == |other|
    requires forall i :: 0 <= i < |items| ==> items[i].alias == other[i].alias
    ensures HitsBelow(m, items, query, n) == HitsBelow(m, other, query, n)
  {
    if n > 0 {
      HitsBelowAliasOnly(m, items, other, query, n - 1);
    }
  }

  /** Running the ranking a second time on its own output changes nothing. */
  lemma RankIdempotent<T>(m: Matcher, items: seq<Item<T>>, query: string)
    ensures Scored(m, Scored(m, items, query), query) == Scored(m, items, query)
    ensures Rank(m, Scored(m, items, query), query) == Rank(m, items, query)
  {
    var once := Scored(m, items, query);
    assert Scored(m, once, query) == once;
    HitsBelowAliasOnly(m, once, items, query, |items|);
  }

  // ---------------------------------------------------------------- the chunked path

  /** Global positions collected by the worker for chunk `c` after its first `o`
      items: `i + base_idx` with `base_idx = c * chunk_size`. */
  function WorkerHits<T>(m: Matcher, items: seq<Item<T>>, query: string, c: nat, o: nat): seq<nat>
    requires c * ChunkSize + o <= |items|
  {
    if o == 0 then []
    else WorkerHits(m, items, query, c, o - 1) +
         (if Accepts(m, items[c * ChunkSize + o - 1], query) then [c * ChunkSize + o - 1] else [])
  }

  /** Number of chunks `par_chunks_mut(chunk_size)` makes of `n` items. */
  function ChunkCount(n: nat): nat
  {
    (n + ChunkSize - 1) / ChunkSize
  }

  /** Items in chunk `c` (the last chunk may be short). */
  function ChunkLen(n: nat, c: nat): nat
  {
    if (c + 1) * ChunkSize <= n then ChunkSize
    else if c * ChunkSize <= n then n - c * ChunkSize
    else 0
  }

  /** What the workers of chunks `0..k` collect, chunk after chunk. */
  function CollectedUpTo<T>(m: Matcher, items: seq<Item<T>>, query: string, k: nat): seq<nat>
    requires k <= ChunkCount(|items|)
  {
    if k == 0 then []
    else CollectedUpTo(m, items, query, k - 1) +
         WorkerHits(m, items, query, k - 1, ChunkLen(|items|, k - 1))
  }

  lemma {:induction false} WorkerHitsExtend<T>(m: Matcher, items: seq<Item<T>>, query: string, c: nat, o: nat)
    requires c * ChunkSize + o <= |items|
    ensures HitsBelow(m, items, query, c * ChunkSize + o) ==
            HitsBelow(m, items, query, c * ChunkSize) + WorkerHits(m, items, query, c, o)
  {
    if o > 0 {
      WorkerHitsExtend(m, items, query, c, o - 1);
    }
  }

  lemma ChunkLenFacts(n: nat, c: nat)
    requires c < ChunkCount(n)
    ensures c * ChunkSize + ChunkLen(n, c) <= n
    ensures c * ChunkSize + ChunkLen(n, c) == if (c + 1) * ChunkSize <= n then (c + 1) * ChunkSize else n
  {
  }

  lemma {:induction false} CollectedUpToIsPrefix<T>(m: Matcher, items: seq<Item<T>>, query: string, k: nat)
    requires k <= ChunkCount(|items|)
    ensures k * ChunkSize <= |items| ==> CollectedUpTo(m, items, query, k) == HitsBelow(m, items, query, k * ChunkSize)
    ensures k * ChunkSize > |items| ==> CollectedUpTo(m, items, query, k) == Hits(m, items, query)
  {
    if k > 0 {
      CollectedUpToIsPrefix(m, items, query, k - 1);
      ChunkLenFacts(|items|, k - 1);
      WorkerHitsExtend(m, items, query, k - 1, ChunkLen(|items|, k - 1));
    }
  }

  /** With global index `c * chunk_size + offset`, the chunked workers collect
      exactly the indices the sequential loop collects, chunk by chunk, when the
      chunks are collected in index order. */
  lemma ChunkedCollectsSequentialHits<T>(m: Matcher, items: seq<Item<T>>, query: string)
    ensures CollectedUpTo(m, items, query, ChunkCount(|items|)) == Hits(m, items, query)
  {
    var n := |items|;
    CollectedUpToIsPrefix(m, items, query, ChunkCount(n));
    if ChunkCount(n) * ChunkSize <= n {
      assert ChunkCount(n) * ChunkSize == n;
    }
  }
}
