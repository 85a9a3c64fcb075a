/**
 * The terminal side of a piped session (term.rs and examples/tty_pos.rs):
 * asking the terminal where the cursor is with a Device Status Report
 * (DSR 6, section 8.3.35 of ECMA-48), reading and parsing the Cursor Position
 * Report it answers with (CPR, section 8.3.14 of ECMA-48), and turning single
 * bytes read from the tty into key events.  The tty is a byte stream given as a
 * parameter: a finite sequence stands for everything it delivers before end of
 * file.
 */
module Term {
  import opened Wrappers
  import opened Keys
  import opened Model
  import opened Utf8
  import opened Engine

  newtype byte = x: int | 0 <= x < 256

  /** `b as char`: a byte read from the tty becomes the character with that code. */
  function ByteChar(b: byte): char
  {
    (b as int) as char
  }

  /** The characters `response.push(buffer[0] as char)` accumulates. */
  function Chars(bs: seq<byte>): string
  {
    seq(|bs|, k requires 0 <= k < |bs| => ByteChar(bs[k]))
  }

  lemma CharsConcat(a: seq<byte>, b: seq<byte>)
    ensures Chars(a + b) == Chars(a) + Chars(b)
  {
    assert forall k :: 0 <= k < |a + b| ==> Chars(a + b)[k] == (Chars(a) + Chars(b))[k];
  }

  /** Bytes of a string all of whose characters are below 256. */
  predicate Latin1(s: string)
  {
    forall k :: 0 <= k < |s| ==> s[k] as int < 256
  }

  function Bytes(s: string): (bs: seq<byte>)
    requires Latin1(s)
    ensures |bs| == |s| && Chars(bs) == s
  {
    var bs := seq(|s|, k requires 0 <= k < |s| => s[k] as int as byte);
    assert forall k :: 0 <= k < |s| ==> Chars(bs)[k] == s[k];
    bs
  }

  const R: byte := 82
  const ESC: char := 27 as char

  /** The request written to the tty: ESC '[' '6' 'n'. */
  const DeviceStatusReport: string := [ESC, '[', '6', 'n']

  // ---------------------------------------------------------------------------
  // Reading the reply

  /** What the read loop keeps of the stream: the bytes up to and including the
      first 'R', or the whole stream when no 'R' arrives before end of file. */
  function Reply(input: seq<byte>): seq<byte>
  {
    if input == [] then []
    else if input[0] == R then [R]
    else [input[0]] + Reply(input[1..])
  }

  /** The reply is a prefix of the stream, holds no 'R' but possibly its last
      byte, ends with 'R' exactly when the stream contains one, and is the whole
      stream otherwise. */
  lemma {:induction false} ReplyFacts(input: seq<byte>)
    ensures Reply(input) <= input
    ensures forall k :: 0 <= k < |Reply(input)| - 1 ==> Reply(input)[k] != R
    ensures R in input <==> Reply(input) != [] && Reply(input)[|Reply(input)| - 1] == R
    ensures R !in input ==> Reply(input) == input
  {
    if input != [] && input[0] != R {
      ReplyFacts(input[1..]);
      assert input == [input[0]] + input[1..];
      assert R in input <==> R in input[1..];
    }
  }

  /** A complete report followed by anything: the loop stops right after it. */
  lemma {:induction false} ReplyOfReport(p: seq<byte>, rest: seq<byte>)
    requires p != [] && p[|p| - 1] == R
    requires forall k :: 0 <= k < |p| - 1 ==> p[k] != R
    ensures Reply(p + rest) == p
  {
    if |p| > 1 {
      assert (p + rest)[1..] == p[1..] + rest;
      ReplyOfReport(p[1..], rest);
    } else {
      assert p == [R];
    }
  }

  /** The read loop of `get_cursor_position`: one byte at a time, each pushed as
      a character, breaking after the 'R'. */
  method ReadResponse(tty: seq<byte>) returns (response: string)
    ensures response == Chars(Reply(tty))
  {
    response := "";
    var i := 0;
    while i < |tty|
      invariant i <= |tty|
      invariant Chars(Reply(tty)) == response + Chars(Reply(tty[i..]))
    {
      var b := tty[i];
      response := response + [ByteChar(b)];
      if b == R {
        assert Reply(tty[i..]) == [R];
        assert Chars([R]) == [ByteChar(b)];
        break;
      }
      assert tty[i..][1..] == tty[i + 1..];
      assert Reply(tty[i..]) == [b] + Reply(tty[i + 1..]);
      CharsConcat([b], Reply(tty[i + 1..]));
      assert Chars([b]) == [ByteChar(b)];
      i := i + 1;
    }
  }

  // ---------------------------------------------------------------------------
  // Parsing the reply

  /** `str::strip_prefix` */
  function StripPrefix(s: string, p: string): (r: Option<string>)
    ensures r.Some? <==> p <= s
    ensures r.Some? ==> s == p + r.value
  {
    if p <= s then Some(s[|p|..]) else None
  }

  /** `str::strip_suffix` */
  function StripSuffix(s: string, p: string): (r: Option<string>)
    ensures r.Some? <==> |p| <= |s| && s[|s| - |p|..] == p
    ensures r.Some? ==> s == r.value + p
  {
    if |p| <= |s| && s[|s| - |p|..] == p then Some(s[..|s| - |p|]) else None
  }

  /** The first part `split(';')` yields, and what follows its ';' if there is one. */
  datatype Split = Split(head: string, tail: Option<string>)

  function SplitOnce(s: string): (r: Split)
    ensures ';' !in r.head
    ensures r.tail.None? ==> r.head == s
    ensures r.tail.Some? ==> s == r.head + [';'] + r.tail.value
  {
    if s == [] then Split(s, None)
    else if s[0] == ';' then Split("", Some(s[1..]))
    else
      var t := SplitOnce(s[1..]);
      Split([s[0]] + t.head, t.tail)
  }

  predicate IsDigit(c: char)
  {
    '0' <= c <= '9'
  }

  predicate AllDigits(s: string)
  {
    forall k :: 0 <= k < |s| ==> IsDigit(s[k])
  }

  /** The number a string of decimal digits denotes. */
  function Value(ds: string): nat
    requires AllDigits(ds)
  {
    if ds == [] then 0 else Value(ds[..|ds| - 1]) * 10 + (ds[|ds| - 1] as int - '0' as int)
  }

  /** `str::parse::<u16>`: an optional '+', then at least one ASCII digit, and a
      value that fits in 16 bits; anything else is an error. */
  function ParseU16(s: string): (r: Option<nat>)
    ensures r.Some? ==> r.value < 0x1_0000
  {
    var ds := if |s| > 0 && s[0] == '+' then s[1..] else s;
    if ds != [] && AllDigits(ds) && Value(ds) < 0x1_0000 then Some(Value(ds)) else None
  }

  /** `.unwrap_or(0)` */
  function OrZero(r: Option<nat>): nat
  {
    if r.Some? then r.value else 0
  }

  /** The two numbers of a report, in the order they are sent (row, then column). */
  datatype Fields = Fields(row: nat, col: nat)

  /** The parse both readers share: strip ESC '[' and the final 'R', take the
      first two parts of the split on ';', and read each as a u16, with 0 for a
      part that does not parse.  `None` when the framing is wrong or there is no
      ';'. */
  function ReportFields(response: string): Option<Fields>
  {
    var a := StripPrefix(response, [ESC, '[']);
    if a.None? then None
    else
      var caps := StripSuffix(a.value, "R");
      if caps.None? then None
      else
        var first := SplitOnce(caps.value);
        if first.tail.None? then None
        else
          var second := SplitOnce(first.tail.value);
          Some(Fields(OrZero(ParseU16(first.head)), OrZero(ParseU16(second.head))))
  }

  /** A report parses exactly when it is ESC '[' ... 'R' with a ';' in between. */
  lemma ReportFieldsFraming(response: string)
    ensures ReportFields(response).Some? <==>
      |response| >= 3 && response[..2] == [ESC, '['] && response[|response| - 1] == 'R'
      && ';' in response[2..|response| - 1]
  {
    var a := StripPrefix(response, [ESC, '[']);
    if a.Some? {
      var caps := StripSuffix(a.value, "R");
      if caps.Some? {
        assert response[2..|response| - 1] == caps.value;
      }
    }
  }

  /** What `term::get_cursor_position` returns on the pipe path: the column as
      sent and the row made 0-based.  `row - 1` on a row of 0 (a report whose
      row is 0 or does not parse) underflows the u16, which panics in a debug
      build; that outcome is kept apart. */
  datatype CursorReply = CursorAt(col: nat, row: nat) | RowUnderflow | ParseFailed

  function ParseCursorReply(response: string): (r: CursorReply)
  {
    var f := ReportFields(response);
    if f.None? then ParseFailed
    else if f.value.row == 0 then RowUnderflow
    else CursorAt(f.value.col, f.value.row - 1)
  }

  /** What the tty_pos example returns: row and column as sent. */
  datatype TtyReply = TtyAt(row: nat, col: nat) | TtyFailed

  function ParseTtyReply(response: string): (r: TtyReply)
  {
    var f := ReportFields(response);
    if f.None? then TtyFailed else TtyAt(f.value.row, f.value.col)
  }

  /** The library's reader and the example agree on every reply: the library
      swaps the pair and makes the row 0-based, and fails exactly where the
      example fails or reports row 0. */
  lemma ParsersAgree(response: string)
    ensures ParseTtyReply(response) == TtyFailed <==> ParseCursorReply(response) == ParseFailed
    ensures ParseCursorReply(response) == RowUnderflow <==> ParseTtyReply(response).TtyAt? && ParseTtyReply(response).row == 0
    ensures forall col: nat, row: nat :: ParseCursorReply(response) == CursorAt(col, row) <==> ParseTtyReply(response) == TtyAt(row + 1, col)
  {
  }

  // ---------------------------------------------------------------------------
  // Reports the terminal sends

  /** The decimal digit `d`. */
  function Digit(d: nat): char
    requires d < 10
  {
    ('0' as int + d) as char
  }

  /** `n` in decimal, without leading zeros. */
  function Dec(n: nat): string
    decreases n
  {
    if n < 10 then [Digit(n)] else Dec(n / 10) + [Digit(n % 10)]
  }

  lemma {:induction false} DecFacts(n: nat)
    ensures Dec(n) != [] && AllDigits(Dec(n)) && Value(Dec(n)) == n
    decreases n
  {
    if n >= 10 {
      DecFacts(n / 10);
      var ds := Dec(n);
      assert ds[..|ds| - 1] == Dec(n / 10);
    }
  }

  /** Parsing a number printed in decimal gives it back when it fits in 16 bits. */
  lemma ParseDec(n: nat)
    ensures ParseU16(Dec(n)) == if n < 0x1_0000 then Some(n) else None
  {
    DecFacts(n);
  }

  /** The Cursor Position Report for 1-based row `l` and column `c`. */
  function Report(l: nat, c: nat): string
  {
    [ESC, '['] + Dec(l) + ";" + Dec(c) + "R"
  }

  /** Every report parses back to the two numbers in it. */
  lemma ReportRoundTrip(l: nat, c: nat)
    requires l < 0x1_0000 && c < 0x1_0000
    ensures ReportFields(Report(l, c)) == Some(Fields(l, c))
  {
    ReportIsFramed(l, c);
    DecFacts(l);
    DecFacts(c);
    NoSemicolon(Dec(l));
    NoSemicolon(Dec(c));
    ReportParts(Dec(l), Dec(c));
    NoSplit(Dec(c));
    ParseDec(l);
    ParseDec(c);
  }

  /** A report is the framing around its two numbers and the ';' between them. */
  lemma ReportIsFramed(l: nat, c: nat)
    ensures Report(l, c) == Framed(Dec(l) + ";" + Dec(c))
  {
    assert [ESC, '['] + Dec(l) + ";" + Dec(c) == [ESC, '['] + (Dec(l) + ";" + Dec(c));
  }

  /** Stripping the framing of ESC '[' `body` 'R' leaves `body`. */
  lemma Unframe(body: string)
    ensures StripPrefix([ESC, '['] + body + "R", [ESC, '[']) == Some(body + "R")
    ensures StripSuffix(body + "R", "R") == Some(body)
  {
    assert [ESC, '['] + body + "R" == [ESC, '['] + (body + "R");
    assert (body + "R")[|body|..] == "R";
  }

  lemma NoSemicolon(s: string)
    requires AllDigits(s)
    ensures ';' !in s
  {
    forall k | 0 <= k < |s| ensures s[k] != ';' {
      assert IsDigit(s[k]);
    }
  }

  /** A split of `h ; t` with no ';' in `h` stops at that ';'. */
  lemma SplitAt(h: string, t: string)
    requires ';' !in h
    ensures SplitOnce(h + ";" + t) == Split(h, Some(t))
  {
    var s := h + ";" + t;
    var r := SplitOnce(s);
    if r.tail.Some? {
      SplitUnique(h, t, r.head, r.tail.value);
    }
  }

  lemma {:induction false} SplitUnique(h: string, t: string, h2: string, t2: string)
    requires ';' !in h && ';' !in h2
    requires h + ";" + t == h2 + ";" + t2
    ensures h == h2 && t == t2
  {
    if h != [] && h2 != [] {
      assert h[0] == (h + ";" + t)[0] == h2[0];
      assert h[1..] + ";" + t == (h + ";" + t)[1..] == h2[1..] + ";" + t2;
      SplitUnique(h[1..], t, h2[1..], t2);
    } else {
      LeadingSemicolon(h, t);
      LeadingSemicolon(h2, t2);
      assert t == (h + ";" + t)[1..] == t2;
    }
  }

  lemma LeadingSemicolon(h: string, t: string)
    requires ';' !in h
    ensures (h + ";" + t)[0] == ';' <==> h == []
  {
    if h != [] {
      assert (h + ";" + t)[0] == h[0];
    }
  }

  /** A string without ';' splits into itself alone. */
  lemma {:induction false} NoSplit(s: string)
    requires ';' !in s
    ensures SplitOnce(s) == Split(s, None)
  {
    if s != [] {
      assert s[0] != ';';
      NoSplit(s[1..]);
      assert [s[0]] + s[1..] == s;
    }
  }

  /** A split of a string of digits has a single part. */
  lemma SplitAll(s: string)
    requires AllDigits(s)
    ensures SplitOnce(s).head == s
  {
    var r := SplitOnce(s);
  }

  /** A reply body between ESC '[' and 'R'. */
  function Framed(body: string): string
  {
    [ESC, '['] + body + "R"
  }

  /** ESC '[' `h` ';' `t` 'R' with no ';' in `h`: the row is read from `h`, the
      column from what `t` holds before its first ';', each 0 when it does not
      parse. */
  lemma ReportParts(h: string, t: string)
    requires ';' !in h
    ensures ReportFields(Framed(h + ";" + t))
      == Some(Fields(OrZero(ParseU16(h)), OrZero(ParseU16(SplitOnce(t).head))))
  {
    Unframe(h + ";" + t);
    SplitAt(h, t);
  }

  /** A part that starts with neither a digit nor '+' is not a u16. */
  lemma NotANumber(s: string)
    requires s != [] && !IsDigit(s[0]) && s[0] != '+'
    ensures ParseU16(s).None?
  {
  }

  /** A row that does not parse reads as 0: the example reports row 0, and the
      library's `row - 1` underflows. */
  lemma NonNumericRowIsZero(h: string, c: nat)
    requires ';' !in h && ParseU16(h).None? && c < 0x1_0000
    ensures ReportFields(Framed(h + ";" + Dec(c))) == Some(Fields(0, c))
    ensures ParseTtyReply(Framed(h + ";" + Dec(c))) == TtyAt(0, c)
    ensures ParseCursorReply(Framed(h + ";" + Dec(c))) == RowUnderflow
  {
    DecFacts(c);
    ParseDec(c);
    SplitAll(Dec(c));
    ReportParts(h, Dec(c));
  }

  /** A column that does not parse reads as 0. */
  lemma NonNumericColIsZero(l: nat, t: string)
    requires ';' !in t && ParseU16(t).None? && 1 <= l < 0x1_0000
    ensures ReportFields(Framed(Dec(l) + ";" + t)) == Some(Fields(l, 0))
    ensures ParseCursorReply(Framed(Dec(l) + ";" + t)) == CursorAt(0, l - 1)
  {
    DecFacts(l);
    ParseDec(l);
    NoSemicolon(Dec(l));
    NoSplit(t);
    ReportParts(Dec(l), t);
  }

  /** Parts after the second are never read: the reply parses as its first two
      numbers whatever follows them. */
  lemma ExtraFieldsIgnored(l: nat, c: nat, rest: string)
    requires l < 0x1_0000 && c < 0x1_0000
    ensures ReportFields(Framed(Dec(l) + ";" + (Dec(c) + ";" + rest))) == Some(Fields(l, c))
  {
    DecFacts(l);
    DecFacts(c);
    ParseDec(l);
    ParseDec(c);
    NoSemicolon(Dec(l));
    NoSemicolon(Dec(c));
    ReportParts(Dec(l), Dec(c) + ";" + rest);
    SplitAt(Dec(c), rest);
  }

  /** The bytes of a report are Latin-1, and only the last is 'R'. */
  lemma ReportBytes(l: nat, c: nat)
    ensures Latin1(Report(l, c))
    ensures var p := Bytes(Report(l, c)); p[|p| - 1] == R && forall k :: 0 <= k < |p| - 1 ==> p[k] != R
  {
    DecFacts(l);
    DecFacts(c);
    var r := Report(l, c);
    forall k | 2 <= k < |r| - 1 ensures r[k] == ';' || IsDigit(r[k]) {
      if k < 2 + |Dec(l)| {
        assert r[k] == Dec(l)[k - 2];
      } else if k > 2 + |Dec(l)| {
        assert r[k] == Dec(c)[k - 3 - |Dec(l)|];
      }
    }
  }

  /** The whole pipe path: after the Device Status Report the terminal answers
      with the report for 1-based row `l` and column `c`, and whatever it sends
      afterwards is not read; `get_cursor_position` returns the column and the
      0-based row, and the example returns the row and column as sent. */
  lemma CursorRoundTrip(l: nat, c: nat, rest: seq<byte>)
    requires 1 <= l < 0x1_0000 && c < 0x1_0000
    ensures Latin1(Report(l, c))
    ensures ParseCursorReply(Chars(Reply(Bytes(Report(l, c)) + rest))) == CursorAt(c, l - 1)
    ensures ParseTtyReply(Chars(Reply(Bytes(Report(l, c)) + rest))) == TtyAt(l, c)
  {
    ReportBytes(l, c);
    ReplyOfReport(Bytes(Report(l, c)), rest);
    ReportRoundTrip(l, c);
  }

  // ---------------------------------------------------------------------------
  // Keys on the pipe path

  /** `KeyListener::read_key_event` on the pipe path: one byte from the tty. */
  function KeyFromByte(b: byte): (k: KeyEvent)
  {
    if b == 3 then KeyEvent(Char('c'), CONTROL)
    else if b == 4 then KeyEvent(Char('d'), CONTROL)
    else if b == 26 then KeyEvent(Char('z'), CONTROL)
    else if b == 10 || b == 13 then KeyEvent(Enter, NONE)
    else KeyEvent(Char(ByteChar(b)), NONE)
  }

  /** Over a pipe only characters and Enter arrive, with no modifier or Control
      alone; Control exactly for bytes 3, 4 and 26, Enter exactly for 10 and 13. */
  lemma PipeKeyKinds(b: byte)
    ensures KeyFromByte(b).code.Char? || KeyFromByte(b).code == Enter
    ensures KeyFromByte(b).modifiers == CONTROL <==> b == 3 || b == 4 || b == 26
    ensures KeyFromByte(b).modifiers == NONE <==> !(b == 3 || b == 4 || b == 26)
    ensures KeyFromByte(b).code == Enter <==> b == 10 || b == 13
  {
  }

  /** Distinct bytes give distinct events, except that 10 and 13 are both Enter. */
  lemma PipeKeysDistinct(a: byte, b: byte)
    requires KeyFromByte(a) == KeyFromByte(b)
    ensures a == b || ((a == 10 || a == 13) && (b == 10 || b == 13))
  {
    if KeyFromByte(a).code.Char? && KeyFromByte(a).modifiers == NONE {
      assert ByteChar(a) as int == a as int;
      assert ByteChar(b) as int == b as int;
    }
  }

  /** What a byte does to the session: Ctrl-c (3) ends it unchanged with no
      selection, Ctrl-d and Ctrl-z (4, 26) are ignored, newline and carriage
      return confirm the current selection, and every other byte is the key of
      that character, so that in Query mode it is typed into the query. */
  lemma PipeByteEffect<T>(s: State<T>, b: byte, m: Matcher)
    requires CursorOk(s)
    ensures b == 3 ==> DispatchKey(s, KeyFromByte(b), m) == Step(s, true)
    ensures b == 4 || b == 26 ==> DispatchKey(s, KeyFromByte(b), m) == Step(s, false)
    ensures b == 10 || b == 13 ==> DispatchKey(s, KeyFromByte(b), m) == Step(KeyEnter(s), true)
    ensures !(b in {3, 4, 10, 13, 26}) && s.mode == Query ==>
      DispatchKey(s, KeyFromByte(b), m) == Step(InsertChar(s, ByteChar(b), m), false)
    ensures !(b in {3, 4, 10, 13, 26}) && s.mode == Normal ==>
      DispatchKey(s, KeyFromByte(b), m) == DispatchNormal(s, Char(ByteChar(b)))
  {
  }
}
