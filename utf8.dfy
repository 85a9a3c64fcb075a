/**
 * Rust `String`s are UTF-8 byte buffers indexed by byte offsets.  The model keeps a
 * string as the sequence of its characters and measures positions in bytes, the
 * way `insert_pos` and the slicing in the alias highlighter do.  A byte offset is a
 * character boundary when it is the encoded length of some prefix.
 */
module Utf8 {
  import opened Wrappers

  /** Rust's `char::len_utf8`. */
  function Utf8Len(c: char): (n: nat)
    ensures 1 <= n <= 4
    ensures n == 1 <==> c as int < 0x80
  {
    if c as int < 0x80 then 1
    else if c as int < 0x800 then 2
    else if c as int < 0x1_0000 then 3
    else 4
  }

  /** Rust's `str::len`: the number of bytes of the encoding. */
  function ByteLen(s: seq<char>): nat
  {
    if s == [] then 0 else Utf8Len(s[0]) + ByteLen(s[1..])
  }

  /** Byte offset at which `s[k]` starts (or the end, for `k == |s|`). */
  function Offset(s: seq<char>, k: nat): nat
    requires k <= |s|
  {
    ByteLen(s[..k])
  }

  lemma {:induction false} ByteLenConcat(a: seq<char>, b: seq<char>)
    ensures ByteLen(a + b) == ByteLen(a) + ByteLen(b)
  {
    if a != [] {
      assert (a + b)[1..] == a[1..] + b;
      ByteLenConcat(a[1..], b);
    } else {
      assert a + b == b;
    }
  }

  lemma OffsetEnd(s: seq<char>)
    ensures Offset(s, |s|) == ByteLen(s)
  {
    assert s[..|s|] == s;
  }

  lemma OffsetStep(s: seq<char>, k: nat)
    requires k < |s|
    ensures Offset(s, k + 1) == Offset(s, k) + Utf8Len(s[k])
  {
    assert s[..k + 1] == s[..k] + [s[k]];
    ByteLenConcat(s[..k], [s[k]]);
    assert ByteLen([s[k]]) == Utf8Len(s[k]) + ByteLen([]);
  }

  /** Offsets of later characters are strictly larger. */
  lemma {:induction false} OffsetStrictlyIncreasing(s: seq<char>, j: nat, k: nat)
    requires j < k <= |s|
    ensures Offset(s, j) < Offset(s, k)
  {
    OffsetStep(s, k - 1);
    if j < k - 1 {
      OffsetStrictlyIncreasing(s, j, k - 1);
    }
  }

  /** Byte order of offsets is character order. */
  lemma OffsetOrder(s: seq<char>, i: nat, j: nat)
    requires i <= |s| && j <= |s| && Offset(s, i) <= Offset(s, j)
    ensures i <= j
  {
    if j < i { OffsetStrictlyIncreasing(s, j, i); }
  }

  lemma OffsetInjective(s: seq<char>, j: nat, k: nat)
    requires j <= |s| && k <= |s| && Offset(s, j) == Offset(s, k)
    ensures j == k
  {
    if j < k { OffsetStrictlyIncreasing(s, j, k); }
    if k < j { OffsetStrictlyIncreasing(s, k, j); }
  }

  /** Offsets never pass the end of the encoding. */
  lemma OffsetBounded(s: seq<char>, k: nat)
    requires k <= |s|
    ensures Offset(s, k) <= ByteLen(s)
    ensures k < |s| ==> Offset(s, k) < ByteLen(s)
  {
    OffsetEnd(s);
    if k < |s| { OffsetStrictlyIncreasing(s, k, |s|); }
  }

  lemma OffsetOfConcat(a: seq<char>, b: seq<char>, k: nat)
    requires k <= |b|
    ensures Offset(a + b, |a| + k) == ByteLen(a) + Offset(b, k)
  {
    assert (a + b)[..|a| + k] == a + b[..k];
    ByteLenConcat(a, b[..k]);
  }

  lemma OffsetOfPrefix(a: seq<char>, b: seq<char>, k: nat)
    requires k <= |a|
    ensures Offset(a + b, k) == Offset(a, k)
  {
    assert (a + b)[..k] == a[..k];
  }

  /** The character index whose start is byte offset `b`, or None when `b` is not
      a character boundary of `s`. */
  function CharIndexOf(s: seq<char>, b: nat): Option<nat>
  {
    if b == 0 then Some(0)
    else if s == [] || b < Utf8Len(s[0]) then None
    else
      match CharIndexOf(s[1..], b - Utf8Len(s[0]))
      case None => None
      case Some(k) => Some(k + 1)
  }

  /** What CharIndexOf finds is a character index starting at byte `b`. */
  lemma {:induction false} CharIndexOfSound(s: seq<char>, b: nat)
    ensures CharIndexOf(s, b).Some? ==> CharIndexOf(s, b).value <= |s| && Offset(s, CharIndexOf(s, b).value) == b
  {
    if b != 0 && s != [] && b >= Utf8Len(s[0]) {
      CharIndexOfSound(s[1..], b - Utf8Len(s[0]));
      var r := CharIndexOf(s[1..], b - Utf8Len(s[0]));
      if r.Some? {
        var k := r.value;
        assert s[..k + 1] == [s[0]] + s[1..][..k];
        ByteLenConcat([s[0]], s[1..][..k]);
        assert ByteLen([s[0]]) == Utf8Len(s[0]) + ByteLen([]);
      }
    }
  }

  /** Every character offset is found again by CharIndexOf. */
  lemma {:induction false} CharIndexOfOffset(s: seq<char>, k: nat)
    requires k <= |s|
    ensures CharIndexOf(s, Offset(s, k)) == Some(k)
  {
    if k > 0 {
      assert s[..k] == [s[0]] + s[1..][..k - 1];
      ByteLenConcat([s[0]], s[1..][..k - 1]);
      assert ByteLen([s[0]]) == Utf8Len(s[0]) + ByteLen([]);
      CharIndexOfOffset(s[1..], k - 1);
    }
  }

  /** `b` is a character boundary of `s` (Rust's `str::is_char_boundary`). */
  predicate IsBoundary(s: seq<char>, b: nat)
  {
    CharIndexOf(s, b).Some?
  }

  /** The character index of a boundary. */
  function CharIndex(s: seq<char>, b: nat): (k: nat)
    requires IsBoundary(s, b)
    ensures k <= |s| && Offset(s, k) == b
  {
    CharIndexOfSound(s, b);
    CharIndexOf(s, b).value
  }

  /** Byte offsets that are boundaries are exactly the offsets of character indices. */
  lemma BoundaryIff(s: seq<char>, b: nat)
    ensures IsBoundary(s, b) <==> exists k :: 0 <= k <= |s| && Offset(s, k) == b
  {
    CharIndexOfSound(s, b);
    if exists k :: 0 <= k <= |s| && Offset(s, k) == b {
      var k :| 0 <= k <= |s| && Offset(s, k) == b;
      CharIndexOfOffset(s, k);
    }
  }

  lemma CharIndexOfOffsetIs(s: seq<char>, k: nat)
    requires k <= |s|
    ensures IsBoundary(s, Offset(s, k)) && CharIndex(s, Offset(s, k)) == k
  {
    CharIndexOfOffset(s, k);
  }

  /** `String::insert(b, c)`; Rust panics unless `b` is a boundary. */
  function InsertAt(s: seq<char>, b: nat, c: char): (r: seq<char>)
    requires IsBoundary(s, b)
    ensures |r| == |s| + 1 && ByteLen(r) == ByteLen(s) + Utf8Len(c)
    ensures IsBoundary(r, b + Utf8Len(c)) && CharIndex(r, b + Utf8Len(c)) == CharIndex(s, b) + 1
    ensures r[CharIndex(s, b)] == c
  {
    var k := CharIndex(s, b);
    var r := s[..k] + [c] + s[k..];
    assert s == s[..k] + s[k..];
    ByteLenConcat(s[..k], s[k..]);
    ByteLenConcat(s[..k] + [c], s[k..]);
    ByteLenConcat(s[..k], [c]);
    assert ByteLen([c]) == Utf8Len(c) + ByteLen([]);
    assert r[..k + 1] == s[..k] + [c];
    CharIndexOfOffsetIs(r, k + 1);
    r
  }

  /** The character lands at index CharIndex(s, b), before what followed. */
  lemma InsertAtSplits(s: seq<char>, b: nat, c: char)
    requires IsBoundary(s, b)
    ensures InsertAt(s, b, c) == s[..CharIndex(s, b)] + [c] + s[CharIndex(s, b)..]
    ensures InsertAt(s, b, c)[..CharIndex(s, b) + 1] == s[..CharIndex(s, b)] + [c]
  {
  }

  /** The character that starts at byte `b` (what `String::remove(b)` returns):
      it ends at a boundary inside the string. */
  function CharAt(s: seq<char>, b: nat): (c: char)
    requires IsBoundary(s, b) && b < ByteLen(s)
    ensures CharIndex(s, b) < |s|
    ensures b + Utf8Len(c) <= ByteLen(s) && IsBoundary(s, b + Utf8Len(c))
    ensures CharIndex(s, b + Utf8Len(c)) == CharIndex(s, b) + 1
  {
    var k := CharIndex(s, b);
    OffsetEnd(s);
    OffsetBounded(s, k);
    OffsetStep(s, k);
    OffsetBounded(s, k + 1);
    CharIndexOfOffsetIs(s, k + 1);
    s[k]
  }

  /** `String::remove(b)`: the text without the character that starts at byte
      `b`; Rust panics unless `b` is a boundary before the end. */
  function RemoveAt(s: seq<char>, b: nat): (r: seq<char>)
    requires IsBoundary(s, b) && b < ByteLen(s)
    ensures |r| + 1 == |s| && ByteLen(r) + Utf8Len(CharAt(s, b)) == ByteLen(s)
    ensures IsBoundary(r, b) && CharIndex(r, b) == CharIndex(s, b)
  {
    var k := CharIndex(s, b);
    OffsetEnd(s);
    var rest := s[..k] + s[k + 1..];
    assert s == s[..k] + [s[k]] + s[k + 1..];
    ByteLenConcat(s[..k], s[k + 1..]);
    ByteLenConcat(s[..k] + [s[k]], s[k + 1..]);
    ByteLenConcat(s[..k], [s[k]]);
    assert ByteLen([s[k]]) == Utf8Len(s[k]) + ByteLen([]);
    assert rest[..k] == s[..k];
    CharIndexOfOffsetIs(rest, k);
    rest
  }

  /** Inserting the removed character where it was gives the string back. */
  lemma RemoveAtInverse(s: seq<char>, b: nat)
    requires IsBoundary(s, b) && b < ByteLen(s)
    ensures InsertAt(RemoveAt(s, b), b, CharAt(s, b)) == s
  {
    var k := CharIndex(s, b);
    var r := RemoveAt(s, b);
    InsertAtSplits(r, b, CharAt(s, b));
    RemoveAtSplits(s, b);
    assert r[..k] == s[..k] && r[k..] == s[k + 1..];
    assert s == s[..k] + [s[k]] + s[k + 1..];
  }

  /** Removal takes out exactly the character at index CharIndex(s, b). */
  lemma RemoveAtSplits(s: seq<char>, b: nat)
    requires IsBoundary(s, b) && b < ByteLen(s)
    ensures CharIndex(s, b) < |s|
    ensures RemoveAt(s, b) == s[..CharIndex(s, b)] + s[CharIndex(s, b) + 1..]
    ensures CharAt(s, b) == s[CharIndex(s, b)]
  {
    var k := CharIndex(s, b);
    OffsetEnd(s);
    OffsetBounded(s, k);
    assert RemoveAt(s, b) == s[..k] + s[k + 1..];
  }

  /** The previous character boundary (`prev_boundary!`): the boundary just before
      `b`, or 0 when `b` is already 0. */
  function PrevBoundary(s: seq<char>, b: nat): (r: nat)
    requires IsBoundary(s, b)
    ensures IsBoundary(s, r) && r <= b && (b > 0 ==> r < b)
    ensures b > 0 ==> CharIndex(s, r) + 1 == CharIndex(s, b)
  {
    var k := CharIndex(s, b);
    if k == 0 then
      0
    else
      var r := Offset(s, k - 1);
      OffsetStep(s, k - 1);
      CharIndexOfOffsetIs(s, k - 1);
      r
  }

  /** The next character boundary (`next_boundary!`): the boundary just after `b`,
      or the end when `b` is the end. */
  function NextBoundary(s: seq<char>, b: nat): (r: nat)
    requires IsBoundary(s, b)
    ensures IsBoundary(s, r) && b <= r <= ByteLen(s) && (b < ByteLen(s) ==> b < r)
    ensures b < ByteLen(s) ==> CharIndex(s, r) == CharIndex(s, b) + 1
  {
    var k := CharIndex(s, b);
    OffsetEnd(s);
    if k == |s| then
      ByteLen(s)
    else
      OffsetStep(s, k);
      OffsetBounded(s, k + 1);
      CharIndexOfOffsetIs(s, k + 1);
      Offset(s, k + 1)
  }

  /** No boundary lies strictly between `prev_boundary` of `b` and `b`. */
  lemma PrevBoundaryAdjacent(s: seq<char>, b: nat)
    requires IsBoundary(s, b)
    ensures forall j :: PrevBoundary(s, b) < j < b ==> !IsBoundary(s, j)
  {
    var k := CharIndex(s, b);
    if k > 0 {
      OffsetStep(s, k - 1);
      CharIndexOfOffsetIs(s, k - 1);
      BetweenNotBoundary(s, k - 1);
    }
  }

  /** No boundary lies strictly between `b` and `next_boundary` of `b`. */
  lemma NextBoundaryAdjacent(s: seq<char>, b: nat)
    requires IsBoundary(s, b)
    ensures forall j :: b < j < NextBoundary(s, b) ==> !IsBoundary(s, j)
  {
    var k := CharIndex(s, b);
    OffsetEnd(s);
    if k < |s| {
      OffsetStep(s, k);
      BetweenNotBoundary(s, k);
    }
  }

  /** No boundary lies strictly inside the encoding of one character. */
  lemma BetweenNotBoundary(s: seq<char>, k: nat)
    requires k < |s|
    ensures forall j :: Offset(s, k) < j < Offset(s, k + 1) ==> !IsBoundary(s, j)
  {
    forall j | Offset(s, k) < j < Offset(s, k + 1) && IsBoundary(s, j)
      ensures false
    {
      var i := CharIndex(s, j);
      if i <= k {
        if i < k { OffsetStrictlyIncreasing(s, i, k); }
      } else if i > k + 1 {
        OffsetStrictlyIncreasing(s, k + 1, i);
      }
    }
  }

  /** `&s[lo..hi]` on a `str`; None where Rust panics (reversed range, offset past
      the end, or an offset inside a character). */
  function Slice(s: seq<char>, lo: nat, hi: nat): Option<seq<char>>
  {
    if lo <= hi && IsBoundary(s, lo) && IsBoundary(s, hi) then
      var i, j := CharIndex(s, lo), CharIndex(s, hi);
      OffsetOrder(s, i, j);
      Some(s[i..j])
    else
      None
  }

  /** A slice exists exactly when both ends are boundaries in order; it is the
      characters between them and is `hi - lo` bytes long. */
  lemma SliceFacts(s: seq<char>, lo: nat, hi: nat)
    ensures Slice(s, lo, hi).Some? <==> lo <= hi && IsBoundary(s, lo) && IsBoundary(s, hi)
    ensures Slice(s, lo, hi).Some? ==> ByteLen(Slice(s, lo, hi).value) == hi - lo
    ensures Slice(s, lo, hi).Some? ==>
      CharIndex(s, lo) <= CharIndex(s, hi) && Slice(s, lo, hi).value == s[CharIndex(s, lo)..CharIndex(s, hi)]
  {
    if lo <= hi && IsBoundary(s, lo) && IsBoundary(s, hi) {
      var i, j := CharIndex(s, lo), CharIndex(s, hi);
      OffsetOrder(s, i, j);
      assert s[..j] == s[..i] + s[i..j];
      ByteLenConcat(s[..i], s[i..j]);
    }
  }

  /** Character `c` is one byte long (ASCII). */
  predicate IsAscii(s: seq<char>)
  {
    forall i :: 0 <= i < |s| ==> s[i] as int < 0x80
  }

  /** On ASCII text byte offsets and character indices coincide. */
  lemma {:induction false} AsciiOffset(s: seq<char>, k: nat)
    requires IsAscii(s) && k <= |s|
    ensures Offset(s, k) == k
  {
    if k > 0 {
      OffsetStep(s, k - 1);
      AsciiOffset(s, k - 1);
    }
  }

  lemma AsciiBoundary(s: seq<char>, b: nat)
    requires IsAscii(s)
    ensures IsBoundary(s, b) <==> b <= |s|
    ensures b <= |s| ==> CharIndex(s, b) == b
  {
    if b <= |s| {
      AsciiOffset(s, b);
      CharIndexOfOffsetIs(s, b);
    }
    if IsBoundary(s, b) {
      AsciiOffset(s, CharIndex(s, b));
    }
  }

  /** On ASCII text every byte up to the length is a boundary at its own index. */
  lemma AsciiAt(s: seq<char>, b: nat)
    requires IsAscii(s) && b <= |s|
    ensures IsBoundary(s, b) && CharIndex(s, b) == b
  {
    AsciiBoundary(s, b);
  }

  /** ASCII text is one byte per character. */
  lemma AsciiLen(s: seq<char>)
    requires IsAscii(s)
    ensures ByteLen(s) == |s|
  {
    AsciiOffset(s, |s|);
    OffsetEnd(s);
  }

  /** On ASCII text the next boundary of a byte before the end is the next byte. */
  lemma AsciiNextBoundary(s: seq<char>, b: nat)
    requires IsAscii(s) && b < |s|
    ensures IsBoundary(s, b) && NextBoundary(s, b) == b + 1
  {
    AsciiBoundary(s, b);
    AsciiOffset(s, |s|);
    OffsetEnd(s);
    var r := NextBoundary(s, b);
    AsciiBoundary(s, r);
  }

  /** Terminal cells the cursor column is advanced by for `c`: the code charges one
      cell per byte up to two, approximating wide characters as two cells. */
  function Cells(c: char): (n: nat)
    ensures 1 <= n <= 2 && n <= Utf8Len(c)
  {
    if Utf8Len(c) < 2 then Utf8Len(c) else 2
  }

  /** Cells taken by a whole string under the same approximation. */
  function Width(s: seq<char>): nat
  {
    if s == [] then 0 else Width(s[..|s| - 1]) + Cells(s[|s| - 1])
  }

  lemma WidthStep(s: seq<char>, k: nat)
    requires k < |s|
    ensures Width(s[..k + 1]) == Width(s[..k]) + Cells(s[k])
  {
    assert s[..k + 1][..k] == s[..k];
  }
}
