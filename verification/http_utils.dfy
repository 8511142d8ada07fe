/** The HTTP/1.1 wire codec of the TCP server: a bounded request-head parser
    (request-line, section 3 of RFC 9112; field lines, section 5 of RFC 9112)
    over a byte stream, and the response serialiser (status-line, section 4
    of RFC 9112) that adds `Content-Length` (section 8.6 of RFC 9110) and
    `Connection: close` (section 9.6 of RFC 9112) when they are missing.

    The stream is the sequence of bytes the peer sends before it closes its
    side; a read that would block past the read timeout is modelled by the
    connection handler, not here. */
module HttpUtils {
  import opened Text

  const LF: byte := 10
  const CR: byte := 13
  const CRLF: seq<byte> := [13, 10]

  // ---------------------------------------------------------------------------
  // Reading lines from the stream

  /** `stream.readline(limit)`: at most `limit` bytes, stopping after the
      first `\n`; empty only at end of stream (or for a zero limit). */
  function ReadLine(s: seq<byte>, limit: nat): (line: seq<byte>)
    ensures line <= s && |line| <= limit
    ensures forall i :: 0 <= i < |line| - 1 ==> line[i] != LF
    ensures line == [] <==> s == [] || limit == 0
    ensures line != [] && |line| < limit && |line| < |s| ==> line[|line| - 1] == LF
    decreases limit
  {
    if limit == 0 || s == [] then []
    else if s[0] == LF then [LF]
    else [s[0]] + ReadLine(s[1..], limit - 1)
  }

  /** What an unbounded `readline()` returns: the first line with its `\n`,
      or everything that is left when no `\n` follows. */
  function NextLine(s: seq<byte>): (line: seq<byte>)
    ensures line <= s
    ensures line == [] <==> s == []
    ensures forall i :: 0 <= i < |line| - 1 ==> line[i] != LF
    ensures line != [] && |line| < |s| ==> line[|line| - 1] == LF
  {
    ReadLine(s, |s|)
  }

  lemma NextLineUnfold(s: seq<byte>)
    requires s != [] && s[0] != LF
    ensures NextLine(s) == [s[0]] + NextLine(s[1..])
  {
  }

  /** A bounded read is the unbounded line cut at the bound. */
  lemma {:induction false} ReadLineIsBoundedNextLine(s: seq<byte>, limit: nat)
    ensures ReadLine(s, limit) == if |NextLine(s)| <= limit then NextLine(s) else s[..limit]
    decreases limit
  {
    if limit == 0 || s == [] {
      BoundedReadAtEnd(s, limit);
    } else if s[0] == LF {
      BoundedReadOfBlankLine(s, limit);
    } else {
      ReadLineIsBoundedNextLine(s[1..], limit - 1);
      BoundedReadStep(s, limit);
    }
  }

  lemma BoundedReadAtEnd(s: seq<byte>, limit: nat)
    requires limit == 0 || s == []
    ensures ReadLine(s, limit) == if |NextLine(s)| <= limit then NextLine(s) else s[..limit]
  {
  }

  lemma BoundedReadOfBlankLine(s: seq<byte>, limit: nat)
    requires limit > 0 && s != [] && s[0] == LF
    ensures ReadLine(s, limit) == if |NextLine(s)| <= limit then NextLine(s) else s[..limit]
  {
    assert NextLine(s) == [LF];
  }

  lemma BoundedReadStep(s: seq<byte>, limit: nat)
    requires limit > 0 && s != [] && s[0] != LF
    requires ReadLine(s[1..], limit - 1)
             == if |NextLine(s[1..])| <= limit - 1 then NextLine(s[1..]) else s[1..][..limit - 1]
    ensures ReadLine(s, limit) == if |NextLine(s)| <= limit then NextLine(s) else s[..limit]
  {
    NextLineUnfold(s);
    if |NextLine(s)| > limit {
      assert s[..limit] == [s[0]] + s[1..][..limit - 1];
    }
  }

  /** A stream that starts with one complete line yields exactly that line. */
  lemma {:induction false} NextLineOfLine(a: seq<byte>, b: seq<byte>)
    requires a != [] && a[|a| - 1] == LF
    requires forall i :: 0 <= i < |a| - 1 ==> a[i] != LF
    ensures NextLine(a + b) == a
    decreases |a|
  {
    if |a| > 1 {
      assert a[0] != LF;
      NextLineOfLine(a[1..], b);
      assert (a + b)[1..] == a[1..] + b;
      NextLineUnfold(a + b);
      assert [a[0]] + a[1..] == a;
    }
  }

  // ---------------------------------------------------------------------------
  // The header section

  /** A bare `\r\n` or `\n`: the line that ends the header section. */
  predicate IsBlankLine(line: seq<byte>) {
    line == CRLF || line == [LF]
  }

  /** Bytes of the field lines: every line before the first blank line, or
      before end of stream when no blank line comes. */
  function FieldBytes(s: seq<byte>): nat
    decreases |s|
  {
    if s == [] then 0
    else
      var line := NextLine(s);
      if IsBlankLine(line) then 0 else |line| + FieldBytes(s[|line|..])
  }

  /** Length of the header section: the field lines and the blank line that
      ends them, if there is one. */
  function HeadSize(s: seq<byte>): (n: nat)
    ensures FieldBytes(s) <= n <= |s|
    decreases |s|
  {
    if s == [] then 0
    else
      var line := NextLine(s);
      if IsBlankLine(line) then |line| else |line| + HeadSize(s[|line|..])
  }

  /** The header-reading loop: lines of at most `maxHeaders + 1` bytes are
      appended to `acc`; a blank line ends the loop after being appended,
      unchecked; any other line that takes the total past `maxHeaders` is an
      error (None). */
  function ReadHeaderBlock(s: seq<byte>, maxHeaders: nat, acc: seq<byte>): Option<seq<byte>>
    decreases |s|
  {
    var line := ReadLine(s, maxHeaders + 1);
    if line == [] then Some(acc)
    else if IsBlankLine(line) then Some(acc + line)
    else if |acc + line| > maxHeaders then None
    else ReadHeaderBlock(s[|line|..], maxHeaders, acc + line)
  }

  /** One turn of the header loop, in terms of the unbounded next line. */
  lemma HeaderStep(s: seq<byte>, maxHeaders: nat, acc: seq<byte>)
    requires s != [] && maxHeaders >= 1
    ensures var nl := NextLine(s);
      && (IsBlankLine(nl) ==> ReadHeaderBlock(s, maxHeaders, acc) == Some(acc + nl))
      && (!IsBlankLine(nl) && |nl| <= maxHeaders + 1 ==>
            ReadHeaderBlock(s, maxHeaders, acc)
            == if |acc| + |nl| > maxHeaders then None else ReadHeaderBlock(s[|nl|..], maxHeaders, acc + nl))
      && (|nl| > maxHeaders + 1 ==> !IsBlankLine(nl) && ReadHeaderBlock(s, maxHeaders, acc) == None)
  {
    var line := ReadLine(s, maxHeaders + 1);
    var nl := NextLine(s);
    ReadLineIsBoundedNextLine(s, maxHeaders + 1);
    if |nl| > maxHeaders + 1 {
      assert |line| == maxHeaders + 1;
      assert line[|line| - 1] == nl[|line| - 1];
      assert !IsBlankLine(line);
    }
  }

  /** The loop fails exactly when the field lines (not the blank line) exceed
      the limit, and otherwise returns the header section verbatim. The
      per-line read bound never splits a line that matters: a line cut at
      `maxHeaders + 1` bytes already exceeds the limit. With a limit of 0 a
      bare `\r\n` is read as `\r` and rejected, so the limit must be positive. */
  lemma {:induction false} ReadHeaderBlockSpec(s: seq<byte>, maxHeaders: nat, acc: seq<byte>)
    requires maxHeaders >= 1 && |acc| <= maxHeaders
    ensures ReadHeaderBlock(s, maxHeaders, acc)
         == if |acc| + FieldBytes(s) > maxHeaders then None else Some(acc + s[..HeadSize(s)])
    decreases |s|
  {
    if s == [] {
      assert acc + s[..0] == acc;
    } else {
      var nl := NextLine(s);
      if !IsBlankLine(nl) && |nl| <= maxHeaders + 1 && |acc| + |nl| <= maxHeaders {
        ReadHeaderBlockSpec(s[|nl|..], maxHeaders, acc + nl);
        HeaderSpecStep(s, maxHeaders, acc);
      } else {
        HeaderSpecStop(s, maxHeaders, acc);
      }
    }
  }

  /** A turn that ends the header loop. */
  lemma HeaderSpecStop(s: seq<byte>, maxHeaders: nat, acc: seq<byte>)
    requires maxHeaders >= 1 && |acc| <= maxHeaders && s != []
    requires var nl := NextLine(s);
      IsBlankLine(nl) || |nl| > maxHeaders + 1 || |acc| + |nl| > maxHeaders
    ensures ReadHeaderBlock(s, maxHeaders, acc)
         == if |acc| + FieldBytes(s) > maxHeaders then None else Some(acc + s[..HeadSize(s)])
  {
    var nl := NextLine(s);
    HeaderStep(s, maxHeaders, acc);
    assert s[..|nl|] == nl;
  }

  /** A turn that appends a field line and goes round again. */
  lemma HeaderSpecStep(s: seq<byte>, maxHeaders: nat, acc: seq<byte>)
    requires maxHeaders >= 1 && |acc| <= maxHeaders && s != []
    requires var nl := NextLine(s);
      && !IsBlankLine(nl) && |nl| <= maxHeaders + 1 && |acc| + |nl| <= maxHeaders
      && var rest := s[|nl|..];
         ReadHeaderBlock(rest, maxHeaders, acc + nl)
         == if |acc + nl| + FieldBytes(rest) > maxHeaders then None
            else Some((acc + nl) + rest[..HeadSize(rest)])
    ensures ReadHeaderBlock(s, maxHeaders, acc)
         == if |acc| + FieldBytes(s) > maxHeaders then None else Some(acc + s[..HeadSize(s)])
  {
    var nl := NextLine(s);
    var rest := s[|nl|..];
    HeaderStep(s, maxHeaders, acc);
    SizesStep(s);
    HeadAfterFieldLine(acc, s);
  }

  lemma HeadAfterFieldLine(acc: seq<byte>, s: seq<byte>)
    requires s != [] && !IsBlankLine(NextLine(s))
    ensures var nl := NextLine(s); var rest := s[|nl|..];
      acc + s[..HeadSize(s)] == (acc + nl) + rest[..HeadSize(rest)]
  {
    var nl := NextLine(s);
    SizesStep(s);
    HeadStep(acc, s, |nl|, HeadSize(s[|nl|..]));
    assert s[..|nl|] == nl;
  }

  /** A field line counts towards both sizes. */
  lemma SizesStep(s: seq<byte>)
    requires s != [] && !IsBlankLine(NextLine(s))
    ensures FieldBytes(s) == |NextLine(s)| + FieldBytes(s[|NextLine(s)|..])
    ensures HeadSize(s) == |NextLine(s)| + HeadSize(s[|NextLine(s)|..])
  {
  }

  lemma HeadStep(acc: seq<byte>, s: seq<byte>, n: nat, m: nat)
    requires n + m <= |s|
    ensures acc + s[..n + m] == (acc + s[..n]) + s[n..][..m]
  {
    assert s[..n + m] == s[..n] + s[n..][..m];
  }

  // ---------------------------------------------------------------------------
  // The request line

  datatype RequestLine = RequestLine(verb: string, path: string, version: string)

  /** The request line decoded as Latin-1, trailing `\r` and `\n` characters removed. */
  function RequestLineText(line: seq<byte>): string {
    TrimEnd(Latin1Decode(line), IsCrOrLf)
  }

  lemma SpaceCount(m: string, rest: string)
    requires ' ' !in m
    ensures multiset(m + [' '] + rest)[' '] == 1 + multiset(rest)[' ']
  {
    assert multiset(m)[' '] == 0;
    assert multiset(m + [' '] + rest) == multiset(m) + multiset([' ']) + multiset(rest);
  }

  lemma NoSpaceCount(t: string)
    ensures ' ' !in t <==> multiset(t)[' '] == 0
  {
  }

  /** `text.split(" ", 2)` unpacked into three fields: it fails on fewer than
      two spaces, and the version keeps every space after the second. */
  function SplitRequestLine(text: string): (r: Option<RequestLine>)
    ensures r.None? <==> multiset(text)[' '] < 2
    ensures r.Some? ==>
      && text == r.value.verb + " " + r.value.path + " " + r.value.version
      && ' ' !in r.value.verb && ' ' !in r.value.path
  {
    match SplitOnce(text, ' ')
    case None =>
      NoSpaceCount(text);
      None
    case Some((m, rest)) =>
      match SplitOnce(rest, ' ')
      case None =>
        OneSpace(m, rest);
        None
      case Some((p, v)) =>
        TwoSpaces(m, p, v);
        Some(RequestLine(m, p, v))
  }

  lemma OneSpace(m: string, rest: string)
    requires ' ' !in m && ' ' !in rest
    ensures multiset(m + [' '] + rest)[' '] == 1
  {
    SpaceCount(m, rest);
    NoSpaceCount(rest);
  }

  lemma TwoSpaces(m: string, p: string, v: string)
    requires ' ' !in m && ' ' !in p
    ensures multiset(m + [' '] + (p + [' '] + v))[' '] >= 2
    ensures m + [' '] + (p + [' '] + v) == m + " " + p + " " + v
  {
    SpaceCount(m, p + [' '] + v);
    SpaceCount(p, v);
  }

  // ---------------------------------------------------------------------------
  // Header fields

  predicate IsLineBreak(b: byte) {
    b == CR || b == LF
  }

  /** Index of the first `\r` or `\n`, or the length when there is none. */
  function LineBreakIndex(s: seq<byte>): (i: nat)
    ensures i <= |s| && (i < |s| ==> IsLineBreak(s[i]))
    ensures forall k :: 0 <= k < i ==> !IsLineBreak(s[k])
  {
    if s == [] || IsLineBreak(s[0]) then 0 else 1 + LineBreakIndex(s[1..])
  }

  /** `bytes.splitlines()`: split at `\r\n`, `\r` or `\n`, terminators dropped. */
  function SplitLines(s: seq<byte>): (lines: seq<seq<byte>>)
    ensures forall i, k :: 0 <= i < |lines| && 0 <= k < |lines[i]| ==> !IsLineBreak(lines[i][k])
    decreases |s|
  {
    if s == [] then []
    else
      var i := LineBreakIndex(s);
      if i == |s| then [s]
      else [s[..i]] + SplitLines(s[BreakEnd(s, i)..])
  }

  /** Where the break at `i` ends: `\r\n` is one break. */
  function BreakEnd(s: seq<byte>, i: nat): (next: nat)
    requires i < |s|
    ensures i < next <= |s|
  {
    if s[i] == CR && i + 1 < |s| && s[i + 1] == LF then i + 2 else i + 1
  }

  predicate NoLineBreak(a: seq<byte>) {
    forall k :: 0 <= k < |a| ==> !IsLineBreak(a[k])
  }

  /** A line without a break is one piece (none when empty), and a line
      followed by `\n`, by `\r\n` or by a `\r` not followed by `\n` is one
      piece, the terminator dropped, before the pieces of what follows. */
  lemma SplitLinesSpec(a: seq<byte>, b: seq<byte>)
    requires NoLineBreak(a)
    ensures SplitLines(a) == if a == [] then [] else [a]
    ensures SplitLines(a + [LF] + b) == [a] + SplitLines(b)
    ensures SplitLines(a + CRLF + b) == [a] + SplitLines(b)
    ensures b == [] || b[0] != LF ==> SplitLines(a + [CR] + b) == [a] + SplitLines(b)
  {
    BreakIndexAfter(a, []);
    SplitAtBreak(a, [LF], b);
    SplitAtBreak(a, CRLF, b);
    if b == [] || b[0] != LF {
      SplitAtBreak(a, [CR], b);
    }
  }

  lemma SplitAtBreak(a: seq<byte>, t: seq<byte>, b: seq<byte>)
    requires NoLineBreak(a)
    requires t == [LF] || t == CRLF || (t == [CR] && (b == [] || b[0] != LF))
    ensures SplitLines(a + t + b) == [a] + SplitLines(b)
  {
    var s := a + t + b;
    BreakIndexAfter(a, t + b);
    ConcatParts(a, t, b);
    BreakWidth(s, |a|, t, b);
    SplitAtIndex(s, |a|);
  }

  lemma ConcatParts(a: seq<byte>, t: seq<byte>, b: seq<byte>)
    requires t != []
    ensures var s := a + t + b;
      s == a + (t + b) && s[..|a|] == a && s[|a|..] == t + b && s[|a| + |t|..] == b
  {
  }

  /** The terminator at `i` is as long as `t`: `\r\n` counts as one break. */
  lemma BreakWidth(s: seq<byte>, i: nat, t: seq<byte>, b: seq<byte>)
    requires i + |t| <= |s| && s[i..] == t + b
    requires t == [LF] || t == CRLF || (t == [CR] && (b == [] || b[0] != LF))
    ensures i < |s| && i + |t| == BreakEnd(s, i)
  {
    assert s[i] == s[i..][0];
    if i + 1 < |s| {
      assert s[i + 1] == s[i..][1];
    }
  }

  /** One unfolding of `SplitLines` at its first break. */
  lemma SplitAtIndex(s: seq<byte>, i: nat)
    requires i == LineBreakIndex(s) && i < |s|
    ensures SplitLines(s) == [s[..i]] + SplitLines(s[BreakEnd(s, i)..])
  {
  }

  /** The first break is found after a break-free prefix. */
  lemma {:induction false} BreakIndexAfter(a: seq<byte>, rest: seq<byte>)
    requires NoLineBreak(a)
    ensures LineBreakIndex(a + rest) == |a| + LineBreakIndex(rest)
    decreases |a|
  {
    if a != [] {
      assert (a + rest)[1..] == a[1..] + rest;
      BreakIndexAfter(a[1..], rest);
    } else {
      assert a + rest == rest;
    }
  }

  /** A header line split at its first colon, the key trimmed and lower-cased
      and the value trimmed; None for an empty or colon-less line. */
  function Field(raw: seq<byte>): Option<(string, string)> {
    if raw == [] then None
    else
      match SplitOnce(Latin1Decode(raw), ':')
      case None => None
      case Some((k, v)) => Some((Lower(Strip(k)), Strip(v)))
  }

  /** Dictionary assignment of each entry in turn, skipping the missing ones. */
  function DictOf(entries: seq<Option<(string, string)>>): map<string, string>
    decreases |entries|
  {
    if entries == [] then map[]
    else
      var m := DictOf(entries[..|entries| - 1]);
      match entries[|entries| - 1]
      case None => m
      case Some((k, v)) => m[k := v]
  }

  /** The header dictionary: each split line parsed by `Field`, then assigned in order. */
  function HeaderMap(lines: seq<seq<byte>>): map<string, string> {
    DictOf(Entries(lines))
  }

  /** The dictionary entry each line yields. */
  function Entries(lines: seq<seq<byte>>): (es: seq<Option<(string, string)>>)
    ensures |es| == |lines|
    ensures forall i :: 0 <= i < |lines| ==> es[i] == Field(lines[i])
  {
    seq(|lines|, i requires 0 <= i < |lines| => Field(lines[i]))
  }

  predicate SetsKey(e: Option<(string, string)>, k: string) {
    e.Some? && e.value.0 == k
  }

  /** A key is in the dictionary exactly when some entry sets it, and its
      value is the one from the last entry that does. */
  lemma {:induction false} DictLastWins(entries: seq<Option<(string, string)>>, k: string)
    ensures k in DictOf(entries) <==> exists i :: 0 <= i < |entries| && SetsKey(entries[i], k)
    ensures forall i :: 0 <= i < |entries| && SetsKey(entries[i], k)
                        && (forall j :: i < j < |entries| ==> !SetsKey(entries[j], k))
                        ==> DictOf(entries)[k] == entries[i].value.1
    decreases |entries|
  {
    if entries != [] {
      var n := |entries| - 1;
      var init := entries[..n];
      DictLastWins(init, k);
      assert forall i :: 0 <= i < n ==> init[i] == entries[i];
      if SetsKey(entries[n], k) {
        forall i | 0 <= i < |entries| && SetsKey(entries[i], k)
                   && (forall j :: i < j < |entries| ==> !SetsKey(entries[j], k))
          ensures i == n
        {
        }
      } else {
        assert k in DictOf(entries) <==> k in DictOf(init);
        assert k in DictOf(init) ==> DictOf(entries)[k] == DictOf(init)[k];
        assert (exists i :: 0 <= i < |entries| && SetsKey(entries[i], k))
           ==> (exists i :: 0 <= i < n && SetsKey(init[i], k));
        forall i | 0 <= i < |entries| && SetsKey(entries[i], k)
                   && (forall j :: i < j < |entries| ==> !SetsKey(entries[j], k))
          ensures DictOf(entries)[k] == entries[i].value.1
        {
          assert i < n;
          assert SetsKey(init[i], k);
          assert forall j :: i < j < n ==> !SetsKey(init[j], k);
        }
      }
    }
  }

  /** An empty line or one without a colon is skipped; otherwise the key is
      the text before the first colon and the value everything after it,
      both trimmed and the key lower-cased. */
  lemma FieldSpec(raw: seq<byte>)
    ensures Field(raw).None? <==> raw == [] || ':' !in Latin1Decode(raw)
    ensures Field(raw).Some? ==>
      var t := Latin1Decode(raw);
      var k := BeforeFirst(t, ':');
      |k| < |t| && Field(raw).value == (Lower(Strip(k)), Strip(t[|k| + 1..]))
  {
    var t := Latin1Decode(raw);
    if raw != [] && ':' in t {
      var (a, b) := SplitOnce(t, ':').value;
      BeforeFirstAt(a, ':', b);
      assert t[|a| + 1..] == b;
    }
  }

  /** The header dictionary holds a key exactly when some line sets it, with
      the value of the last line that does. */
  lemma HeaderMapLastWins(lines: seq<seq<byte>>, k: string)
    ensures k in HeaderMap(lines) <==> exists i :: 0 <= i < |lines| && SetsKey(Field(lines[i]), k)
    ensures forall i :: 0 <= i < |lines| && SetsKey(Field(lines[i]), k)
                        && (forall j :: i < j < |lines| ==> !SetsKey(Field(lines[j]), k))
                        ==> HeaderMap(lines)[k] == Field(lines[i]).value.1
  {
    DictLastWins(Entries(lines), k);
  }

  // ---------------------------------------------------------------------------
  // Parsing a request head

  datatype ParseError = EmptyRequest | LineTooLong | BadRequestLine | HeadersTooLarge

  datatype ParseResult =
    | Ok(verb: string, path: string, version: string, headers: map<string, string>)
    | Err(error: ParseError)

  /** `parse_http_request`: the request line (read with a bound one past the
      limit), then the header section, then the header dictionary. */
  function ParseHttpRequest(stream: seq<byte>, maxRequestLine: nat, maxHeaders: nat): ParseResult {
    var line := ReadLine(stream, maxRequestLine + 1);
    if line == [] then Err(EmptyRequest)
    else if |line| > maxRequestLine then Err(LineTooLong)
    else ParseAfterLine(line, stream[|line|..], maxHeaders)
  }

  /** Everything after the size checks on the request line. */
  function ParseAfterLine(line: seq<byte>, rest: seq<byte>, maxHeaders: nat): (r: ParseResult)
    ensures r.Err? ==> r.error == BadRequestLine || r.error == HeadersTooLarge
  {
    match SplitRequestLine(RequestLineText(line))
    case None => Err(BadRequestLine)
    case Some(rl) =>
      match ReadHeaderBlock(rest, maxHeaders, [])
      case None => Err(HeadersTooLarge)
      case Some(block) => Ok(Upper(rl.verb), rl.path, rl.version, HeaderMap(SplitLines(block)))
  }

  /** The request-line checks, stated against the unbounded first line. */
  lemma FirstLineChecks(stream: seq<byte>, maxRequestLine: nat, maxHeaders: nat)
    ensures var first := NextLine(stream);
      ParseHttpRequest(stream, maxRequestLine, maxHeaders)
      == if stream == [] then Err(EmptyRequest)
         else if |first| > maxRequestLine then Err(LineTooLong)
         else ParseAfterLine(first, stream[|first|..], maxHeaders)
  {
    var line := ReadLine(stream, maxRequestLine + 1);
    var first := NextLine(stream);
    ReadLineIsBoundedNextLine(stream, maxRequestLine + 1);
    assert line == [] <==> stream == [];
    if |first| <= maxRequestLine {
      assert line == first;
    } else {
      assert |line| == maxRequestLine + 1;
    }
  }

  /** The decoded request line when it fits the limit. */
  function FirstLineText(stream: seq<byte>): string {
    RequestLineText(NextLine(stream))
  }

  lemma AfterLineOutcome(line: seq<byte>, rest: seq<byte>, maxHeaders: nat)
    ensures var r := ParseAfterLine(line, rest, maxHeaders);
            var text := RequestLineText(line);
      && (r == Err(BadRequestLine) <==> multiset(text)[' '] < 2)
      && (r == Err(HeadersTooLarge) <==> multiset(text)[' '] >= 2 && HeadersTooLargeFor(rest, maxHeaders))
      && (r.Ok? || r == Err(BadRequestLine) || r == Err(HeadersTooLarge))
      && (r.Ok? ==>
            && FieldBytes(rest) <= maxHeaders
            && text == BeforeFirst(text, ' ') + " " + r.path + " " + r.version
            && ' ' !in r.path
            && r.verb == Upper(BeforeFirst(text, ' '))
            && r.headers == HeaderMap(SplitLines(rest[..HeadSize(rest)])))
  {
    var text := RequestLineText(line);
    var r := ParseAfterLine(line, rest, maxHeaders);
    match SplitRequestLine(text)
    case None =>
      assert r == Err(BadRequestLine);
    case Some(rl) =>
      HeaderSectionOutcome(rest, maxHeaders);
      if HeadersTooLargeFor(rest, maxHeaders) {
        assert r == Err(HeadersTooLarge);
      } else {
        assert r == Ok(Upper(rl.verb), rl.path, rl.version, HeaderMap(SplitLines(rest[..HeadSize(rest)])));
        VerbIsFirstField(text, rl);
      }
  }

  /** The method is the text before the first space of the request line. */
  lemma VerbIsFirstField(text: string, rl: RequestLine)
    requires SplitRequestLine(text) == Some(rl)
    ensures BeforeFirst(text, ' ') == rl.verb
    ensures text == rl.verb + " " + rl.path + " " + rl.version
  {
    assert text == rl.verb + [' '] + (rl.path + " " + rl.version);
    BeforeFirstAt(rl.verb, ' ', rl.path + " " + rl.version);
  }

  /** When the header loop gives up: the field lines exceed the limit, or the
      limit is 0 and the section ends at once with `\r\n`, which a one-byte
      read splits into a lone `\r` that already exceeds it. */
  predicate HeadersTooLargeFor(rest: seq<byte>, maxHeaders: nat) {
    FieldBytes(rest) > maxHeaders || (maxHeaders == 0 && NextLine(rest) == CRLF)
  }

  lemma HeaderSectionOutcome(rest: seq<byte>, maxHeaders: nat)
    ensures ReadHeaderBlock(rest, maxHeaders, []).None? <==> HeadersTooLargeFor(rest, maxHeaders)
    ensures ReadHeaderBlock(rest, maxHeaders, []).Some? ==>
      ReadHeaderBlock(rest, maxHeaders, []).value == rest[..HeadSize(rest)]
  {
    if maxHeaders == 0 {
      ZeroLimitHeaderBlock(rest);
    } else {
      ReadHeaderBlockSpec(rest, maxHeaders, []);
      assert [] + rest[..HeadSize(rest)] == rest[..HeadSize(rest)];
    }
  }

  /** With a limit of 0 every read is one byte: only an empty section or a
      bare `\n` gets through. */
  lemma ZeroLimitHeaderBlock(rest: seq<byte>)
    ensures ReadHeaderBlock(rest, 0, []) == if rest == [] then Some([])
                                            else if rest[0] == LF then Some([LF])
                                            else None
    ensures ReadHeaderBlock(rest, 0, []).None? <==> HeadersTooLargeFor(rest, 0)
    ensures ReadHeaderBlock(rest, 0, []).Some? ==> ReadHeaderBlock(rest, 0, []).value == rest[..HeadSize(rest)]
  {
    if rest != [] {
      var nl := NextLine(rest);
      assert ReadLine(rest, 1) == [rest[0]];
      if rest[0] == LF {
        assert nl == [LF];
        assert rest[..1] == [LF] == [] + [LF];
      } else if nl != CRLF {
        assert nl[0] == rest[0];
        assert !IsBlankLine(nl);
        SizesStep(rest);
      }
    }
  }

  /** Every outcome of the parser: an empty stream, a first line (terminator
      included) longer than the limit, fewer than two spaces in the stripped
      line, or field lines (the blank line excluded) over the header limit
      (or, at a limit of 0, a section that ends at once with `\r\n`);
      otherwise the method is the upper-cased first field, path and version
      come back unchanged, and the headers are those of the header section. */
  lemma ParseOutcome(stream: seq<byte>, maxRequestLine: nat, maxHeaders: nat)
    ensures var r := ParseHttpRequest(stream, maxRequestLine, maxHeaders);
            var first := NextLine(stream);
            var text := FirstLineText(stream);
            var rest := stream[|first|..];
      && (r == Err(EmptyRequest) <==> stream == [])
      && (r == Err(LineTooLong) <==> |first| > maxRequestLine)
      && (r == Err(BadRequestLine) <==>
            stream != [] && |first| <= maxRequestLine && multiset(text)[' '] < 2)
      && (r == Err(HeadersTooLarge) <==>
            stream != [] && |first| <= maxRequestLine && multiset(text)[' '] >= 2
            && HeadersTooLargeFor(rest, maxHeaders))
      && (r.Ok? ==>
            && FieldBytes(rest) <= maxHeaders
            && text == BeforeFirst(text, ' ') + " " + r.path + " " + r.version
            && ' ' !in r.path
            && r.verb == Upper(BeforeFirst(text, ' '))
            && r.headers == HeaderMap(SplitLines(rest[..HeadSize(rest)])))
  {
    FirstLineChecks(stream, maxRequestLine, maxHeaders);
    var first := NextLine(stream);
    AfterLineOutcome(first, stream[|first|..], maxHeaders);
  }

  /** A request line over the limit is rejected on its first
      `maxRequestLine + 1` bytes alone: nothing after them is read. */
  lemma LineTooLongReadsNoFurther(stream: seq<byte>, other: seq<byte>, maxRequestLine: nat, maxHeaders: nat)
    requires ParseHttpRequest(stream, maxRequestLine, maxHeaders) == Err(LineTooLong)
    requires |other| > maxRequestLine && |stream| > maxRequestLine
    requires other[..maxRequestLine + 1] == stream[..maxRequestLine + 1]
    ensures ParseHttpRequest(other, maxRequestLine, maxHeaders) == Err(LineTooLong)
  {
    TooLongOnFirstBytes(stream, maxRequestLine, maxHeaders);
    LongLineLocal(stream, other, maxRequestLine);
    TooLongOnFirstBytes(other, maxRequestLine, maxHeaders);
  }

  lemma LongLineLocal(s: seq<byte>, u: seq<byte>, m: nat)
    requires |s| > m && |u| > m && s[..m + 1] == u[..m + 1]
    requires |ReadLine(s, m + 1)| > m
    ensures |ReadLine(u, m + 1)| > m
  {
    ReadLineLocal(s, u, m + 1);
  }

  lemma TooLongOnFirstBytes(stream: seq<byte>, maxRequestLine: nat, maxHeaders: nat)
    ensures ParseHttpRequest(stream, maxRequestLine, maxHeaders) == Err(LineTooLong)
            <==> |ReadLine(stream, maxRequestLine + 1)| > maxRequestLine
  {
  }

  /** A bounded read looks at no more than `limit` bytes. */
  lemma {:induction false} ReadLineLocal(s: seq<byte>, u: seq<byte>, limit: nat)
    requires |s| >= limit && |u| >= limit && s[..limit] == u[..limit]
    ensures ReadLine(s, limit) == ReadLine(u, limit)
    decreases limit
  {
    if limit > 0 {
      SamePrefixTail(s, u, limit);
      ReadLineLocal(s[1..], u[1..], limit - 1);
      ReadLineLocalStep(s, u, limit);
    }
  }

  lemma SamePrefixTail(s: seq<byte>, u: seq<byte>, limit: nat)
    requires 0 < limit <= |s| && limit <= |u| && s[..limit] == u[..limit]
    ensures s[0] == u[0]
    ensures s[1..][..limit - 1] == u[1..][..limit - 1]
  {
    assert s[0] == s[..limit][0];
    assert u[0] == u[..limit][0];
    assert s[1..][..limit - 1] == s[..limit][1..];
    assert u[1..][..limit - 1] == u[..limit][1..];
  }

  lemma ReadLineLocalStep(s: seq<byte>, u: seq<byte>, limit: nat)
    requires 0 < limit <= |s| && limit <= |u| && s[0] == u[0]
    requires ReadLine(s[1..], limit - 1) == ReadLine(u[1..], limit - 1)
    ensures ReadLine(s, limit) == ReadLine(u, limit)
  {
  }

  // ---------------------------------------------------------------------------
  // Building a response

  /** Header entries in insertion order, as a Python dict holds them. */
  type Fields = seq<(string, string)>

  predicate HasName(hs: Fields, name: string) {
    exists i :: 0 <= i < |hs| && hs[i].0 == name
  }

  predicate HasNameIgnoringCase(hs: Fields, lowered: string) {
    exists i :: 0 <= i < |hs| && Lower(hs[i].0) == lowered
  }

  lemma LowerContentLength()
    ensures Lower("Content-Length") == "content-length"
  {
  }

  /** The headers `build_response` sends: the caller's entries unchanged and
      in order, then `Content-Length` unless a key equals it ignoring case,
      then `Connection: close` unless the exact key `Connection` is present. */
  function WithDefaults(hs: Fields, bodyLength: nat): (r: Fields)
    ensures hs <= r
    ensures HasNameIgnoringCase(r, "content-length") && HasName(r, "Connection")
    ensures |r| == |hs| + (if HasNameIgnoringCase(hs, "content-length") then 0 else 1)
                        + (if HasName(hs, "Connection") then 0 else 1)
    ensures !HasNameIgnoringCase(hs, "content-length") ==> r[|hs|] == ("Content-Length", NatToString(bodyLength))
    ensures !HasName(hs, "Connection") ==> r[|r| - 1] == ("Connection", "close")
  {
    var withLength :=
      if HasNameIgnoringCase(hs, "content-length") then hs
      else hs + [("Content-Length", NatToString(bodyLength))];
    assert HasNameIgnoringCase(withLength, "content-length") by {
      if !HasNameIgnoringCase(hs, "content-length") {
        LowerContentLength();
        assert Lower(withLength[|hs|].0) == "content-length";
      }
    }
    assert HasName(withLength, "Connection") <==> HasName(hs, "Connection") by {
      assert "Content-Length" != "Connection";
      assert forall i :: 0 <= i < |hs| ==> withLength[i] == hs[i];
    }
    if HasName(withLength, "Connection") then withLength
    else
      var r := withLength + [("Connection", "close")];
      assert r[|withLength|].0 == "Connection";
      assert HasNameIgnoringCase(r, "content-length") by {
        var i :| 0 <= i < |withLength| && Lower(withLength[i].0) == "content-length";
        assert r[i] == withLength[i];
      }
      r
  }

  predicate AsciiFields(hs: Fields) {
    forall i :: 0 <= i < |hs| ==> IsAscii(hs[i].0) && IsAscii(hs[i].1)
  }

  function StatusText(code: int, reason: string): (t: string)
    ensures IsAscii(reason) ==> IsAscii(t)
  {
    var t := "HTTP/1.1 " + IntToString(code) + " " + reason;
    assert IsAscii(reason) ==> IsAscii(t) by {
      if IsAscii(reason) {
        assert IsAscii(IntToString(code));
        AsciiConcat("HTTP/1.1 ", IntToString(code));
        AsciiConcat("HTTP/1.1 " + IntToString(code), " ");
        AsciiConcat("HTTP/1.1 " + IntToString(code) + " ", reason);
      }
    }
    t
  }

  /** `HTTP/1.1 <code> <reason>` and CRLF, encoded. */
  function StatusLine(code: int, reason: string): seq<byte>
    requires IsAscii(reason)
  {
    Latin1Encode(StatusText(code, reason)) + CRLF
  }

  function FieldText(h: (string, string)): (t: string)
    ensures IsAscii(h.0) && IsAscii(h.1) ==> IsAscii(t)
  {
    var t := h.0 + ": " + h.1;
    assert IsAscii(h.0) && IsAscii(h.1) ==> IsAscii(t) by {
      if IsAscii(h.0) && IsAscii(h.1) {
        AsciiConcat(h.0, ": ");
        AsciiConcat(h.0 + ": ", h.1);
      }
    }
    t
  }

  /** `K: V` and CRLF, encoded. */
  function FieldLine(h: (string, string)): seq<byte>
    requires IsAscii(h.0) && IsAscii(h.1)
  {
    Latin1Encode(FieldText(h)) + CRLF
  }

  function FieldBlock(hs: Fields): seq<byte>
    requires AsciiFields(hs)
  {
    if hs == [] then [] else FieldLine(hs[0]) + FieldBlock(hs[1..])
  }

  /** `build_response`: status line, header lines, blank line, body. None
      when the reason or a header does not encode as ASCII (the source
      raises). */
  function BuildResponse(code: int, reason: string, headers: Fields, body: seq<byte>): (r: Option<seq<byte>>)
    ensures r.Some? <==> IsAscii(reason) && AsciiFields(WithDefaults(headers, |body|))
    ensures r.Some? ==> StatusLine(code, reason) <= r.value
    ensures r.Some? ==> |body| <= |r.value| && r.value[|r.value| - |body|..] == body
  {
    var hs := WithDefaults(headers, |body|);
    if IsAscii(reason) && AsciiFields(hs) then
      var head := StatusLine(code, reason) + FieldBlock(hs) + CRLF;
      assert (head + body)[..|StatusLine(code, reason)|] == StatusLine(code, reason);
      assert (head + body)[|head|..] == body;
      Some(head + body)
    else None
  }

  // ---------------------------------------------------------------------------
  // Round trip: a serialised head parses back

  /** ASCII text without CR, LF or surrounding whitespace. */
  predicate PlainText(s: string) {
    IsAscii(s) && '\r' !in s && '\n' !in s && NoSurroundingSpace(s)
  }

  predicate PlainField(h: (string, string)) {
    PlainText(h.0) && PlainText(h.1) && ':' !in h.0
  }

  predicate PlainFields(hs: Fields) {
    forall i :: 0 <= i < |hs| ==> PlainField(hs[i])
  }

  /** Bytes of the header lines `K: V` and CRLF. */
  function FieldsLength(hs: Fields): nat {
    if hs == [] then 0 else |hs[0].0| + |hs[0].1| + 4 + FieldsLength(hs[1..])
  }

  /** The dictionary a list of entries parses back to: lower-cased keys,
      later entries winning. */
  function FieldMap(hs: Fields): map<string, string> {
    if hs == [] then map[] else FieldMap(hs[..|hs| - 1])[Lower(hs[|hs| - 1].0) := hs[|hs| - 1].1]
  }

  lemma FieldMapAppend(hs: Fields, h: (string, string))
    ensures FieldMap(hs + [h]) == FieldMap(hs)[Lower(h.0) := h.1]
  {
    assert (hs + [h])[..|hs|] == hs;
  }

  lemma DigitsArePlain(n: nat)
    ensures PlainText(NatToString(n))
  {
    var d := NatToString(n);
    assert forall i :: 0 <= i < |d| ==> '0' <= d[i] <= '9';
    assert !IsSpace(d[0]) && !IsSpace(d[|d| - 1]);
  }

  lemma DefaultEntriesArePlain(bodyLength: nat)
    ensures PlainField(("Content-Length", NatToString(bodyLength)))
    ensures PlainField(("Connection", "close"))
  {
    DigitsArePlain(bodyLength);
    assert PlainText("Content-Length") && ':' !in "Content-Length";
    assert PlainText("Connection") && PlainText("close");
  }

  lemma DefaultsArePlain(hs: Fields, bodyLength: nat)
    requires PlainFields(hs)
    ensures PlainFields(WithDefaults(hs, bodyLength))
  {
    var r := WithDefaults(hs, bodyLength);
    DefaultEntriesArePlain(bodyLength);
    forall i | 0 <= i < |r| ensures PlainField(r[i]) {
      if i < |hs| {
        assert r[i] == hs[i];
      } else if i == |hs| && !HasNameIgnoringCase(hs, "content-length") {
      } else {
        assert i == |r| - 1 && !HasName(hs, "Connection");
      }
    }
  }

  /** Encoded text without CR or LF holds no line break byte. */
  lemma EncodedNoBreaks(t: string)
    requires IsLatin1(t) && '\r' !in t && '\n' !in t
    ensures forall i :: 0 <= i < |t| ==> !IsLineBreak(Latin1Encode(t)[i])
  {
    forall i | 0 <= i < |t| ensures !IsLineBreak(Latin1Encode(t)[i]) {
      assert t[i] != '\r' && t[i] != '\n';
    }
  }

  lemma TerminatedLine(t: string, rest: seq<byte>)
    requires IsLatin1(t) && '\r' !in t && '\n' !in t
    ensures NextLine(Latin1Encode(t) + CRLF + rest) == Latin1Encode(t) + CRLF
    ensures SplitLines(Latin1Encode(t) + CRLF + rest) == [Latin1Encode(t)] + SplitLines(rest)
  {
    var e := Latin1Encode(t);
    EncodedNoBreaks(t);
    var line := e + CRLF;
    assert line[|line| - 1] == LF;
    assert forall i :: 0 <= i < |line| - 1 ==> line[i] != LF by {
      assert forall i :: 0 <= i < |e| ==> line[i] == e[i];
    }
    assert e + CRLF + rest == line + rest;
    NextLineOfLine(line, rest);
    var s := e + CRLF + rest;
    assert forall k :: 0 <= k < |e| ==> s[k] == e[k];
    assert s[|e|] == CR && s[|e| + 1] == LF;
    assert LineBreakIndex(s) == |e|;
    assert s[..|e|] == e;
    assert s[|e| + 2..] == rest;
  }

  lemma PlainFieldsTail(hs: Fields)
    requires PlainFields(hs) && hs != []
    ensures PlainField(hs[0]) && PlainFields(hs[1..]) && AsciiFields(hs)
  {
    forall i | 0 <= i < |hs| - 1 ensures PlainField(hs[1..][i]) {
      assert hs[1..][i] == hs[i + 1];
    }
  }

  /** One serialised field line in front of anything: it is the next line,
      it is not blank, and `splitlines` yields its text first. */
  lemma FieldLineStep(h: (string, string), rest: seq<byte>)
    requires PlainField(h)
    ensures var line := FieldLine(h);
      && |line| == |h.0| + |h.1| + 4
      && FieldBytes(line + rest) == |line| + FieldBytes(rest)
      && HeadSize(line + rest) == |line| + HeadSize(rest)
  {
    var t := FieldText(h);
    AsciiConcat(h.0, ": ");
    AsciiConcat(h.0 + ": ", h.1);
    assert '\r' !in t && '\n' !in t;
    TerminatedLine(t, rest);
    var line := FieldLine(h);
    assert Latin1Encode(t) + CRLF + rest == line + rest;
    assert !IsBlankLine(line) by { assert |line| >= 4; }
    assert (line + rest)[|line|..] == rest;
  }

  lemma FieldLineSplit(h: (string, string), rest: seq<byte>)
    requires PlainField(h)
    ensures SplitLines(FieldLine(h) + rest) == [Latin1Encode(FieldText(h))] + SplitLines(rest)
  {
    var t := FieldText(h);
    AsciiConcat(h.0, ": ");
    AsciiConcat(h.0 + ": ", h.1);
    TerminatedLine(t, rest);
    assert Latin1Encode(t) + CRLF + rest == FieldLine(h) + rest;
  }

  lemma {:induction false} FieldBlockScan(hs: Fields, tail: seq<byte>)
    requires PlainFields(hs)
    ensures AsciiFields(hs)
    ensures |FieldBlock(hs)| == FieldsLength(hs)
    ensures FieldBytes(FieldBlock(hs) + CRLF + tail) == FieldsLength(hs)
    ensures HeadSize(FieldBlock(hs) + CRLF + tail) == FieldsLength(hs) + 2
    decreases |hs|
  {
    if hs == [] {
      assert FieldBlock(hs) + CRLF + tail == CRLF + tail;
      NextLineOfLine(CRLF, tail);
    } else {
      PlainFieldsTail(hs);
      FieldBlockScan(hs[1..], tail);
      FieldBlockScanStep(hs, tail);
    }
  }

  lemma FieldBlockScanStep(hs: Fields, tail: seq<byte>)
    requires hs != [] && PlainField(hs[0]) && AsciiFields(hs) && AsciiFields(hs[1..])
    requires |FieldBlock(hs[1..])| == FieldsLength(hs[1..])
    requires FieldBytes(FieldBlock(hs[1..]) + CRLF + tail) == FieldsLength(hs[1..])
    requires HeadSize(FieldBlock(hs[1..]) + CRLF + tail) == FieldsLength(hs[1..]) + 2
    ensures |FieldBlock(hs)| == FieldsLength(hs)
    ensures FieldBytes(FieldBlock(hs) + CRLF + tail) == FieldsLength(hs)
    ensures HeadSize(FieldBlock(hs) + CRLF + tail) == FieldsLength(hs) + 2
  {
    var rest := FieldBlock(hs[1..]) + CRLF + tail;
    FieldLineStep(hs[0], rest);
    ScanCons(hs, tail);
  }

  lemma {:induction false} FieldBlockLines(hs: Fields)
    requires PlainFields(hs)
    ensures AsciiFields(hs)
    ensures SplitLines(FieldBlock(hs) + CRLF) == EncodedFieldTexts(hs) + [[]]
    decreases |hs|
  {
    if hs == [] {
      assert FieldBlock(hs) + CRLF == CRLF;
      BlankLineSplit();
    } else {
      PlainFieldsTail(hs);
      FieldBlockLines(hs[1..]);
      FieldBlockLinesStep(hs);
    }
  }

  lemma FieldBlockLinesStep(hs: Fields)
    requires hs != [] && PlainField(hs[0]) && AsciiFields(hs) && AsciiFields(hs[1..])
    requires SplitLines(FieldBlock(hs[1..]) + CRLF) == EncodedFieldTexts(hs[1..]) + [[]]
    ensures SplitLines(FieldBlock(hs) + CRLF) == EncodedFieldTexts(hs) + [[]]
  {
    var rest := FieldBlock(hs[1..]) + CRLF;
    FieldLineSplit(hs[0], rest);
    BlockCons(hs, CRLF);
    EncodedFieldTextsCons(hs);
    ConsThenBlank([Latin1Encode(FieldText(hs[0]))], EncodedFieldTexts(hs[1..]));
  }

  /** The block is its first line followed by the block of the rest. */
  lemma BlockCons(hs: Fields, tail: seq<byte>)
    requires hs != [] && AsciiFields(hs) && AsciiFields(hs[1..])
    ensures FieldBlock(hs) + tail == FieldLine(hs[0]) + (FieldBlock(hs[1..]) + tail)
  {
  }

  lemma ScanCons(hs: Fields, tail: seq<byte>)
    requires hs != [] && AsciiFields(hs) && AsciiFields(hs[1..])
    ensures FieldBlock(hs) + CRLF + tail == FieldLine(hs[0]) + (FieldBlock(hs[1..]) + CRLF + tail)
    ensures |FieldBlock(hs)| == |FieldLine(hs[0])| + |FieldBlock(hs[1..])|
  {
    BlockCons(hs, CRLF + tail);
    assert FieldBlock(hs) + CRLF + tail == FieldBlock(hs) + (CRLF + tail);
    assert FieldBlock(hs[1..]) + (CRLF + tail) == FieldBlock(hs[1..]) + CRLF + tail;
  }

  lemma ConsThenBlank(e: seq<seq<byte>>, xs: seq<seq<byte>>)
    ensures e + (xs + [[]]) == (e + xs) + [[]]
  {
  }

  lemma BlankLineSplit()
    ensures SplitLines(CRLF) == [[]]
  {
    assert SplitLines(CRLF) == [[]] + SplitLines([]);
  }

  lemma EncodedFieldTextsCons(hs: Fields)
    requires AsciiFields(hs) && hs != [] && AsciiFields(hs[1..])
    ensures EncodedFieldTexts(hs) == [Latin1Encode(FieldText(hs[0]))] + EncodedFieldTexts(hs[1..])
  {
    var a := EncodedFieldTexts(hs);
    var b := [Latin1Encode(FieldText(hs[0]))] + EncodedFieldTexts(hs[1..]);
    assert |a| == |b|;
    forall i | 0 <= i < |a| ensures a[i] == b[i] {
      if i > 0 {
        assert hs[1..][i - 1] == hs[i];
      }
    }
  }

  /** The raw lines `splitlines` produces from the header block, one per entry. */
  function EncodedFieldTexts(hs: Fields): seq<seq<byte>>
    requires AsciiFields(hs)
  {
    seq(|hs|, i requires 0 <= i < |hs| => Latin1Encode(FieldText(hs[i])))
  }

  lemma FieldOfPlain(h: (string, string))
    requires PlainField(h)
    ensures Field(Latin1Encode(FieldText(h))) == Some((Lower(h.0), h.1))
  {
    var t := FieldText(h);
    Latin1RoundTrip(t);
    assert t == h.0 + [':'] + (" " + h.1);
    SplitOnceAt(h.0, ':', " " + h.1);
    StripAfterSpace(h.1);
  }

  /** The entries `parse_http_request` assigns for well-formed field lines. */
  function LoweredEntries(hs: Fields): seq<Option<(string, string)>> {
    seq(|hs|, i requires 0 <= i < |hs| => Some((Lower(hs[i].0), hs[i].1)))
  }

  lemma FieldsOfEncoded(hs: Fields)
    requires PlainFields(hs)
    ensures AsciiFields(hs)
    ensures var lines := EncodedFieldTexts(hs);
      Entries(lines) == LoweredEntries(hs)
  {
    var lines := EncodedFieldTexts(hs);
    var a := Entries(lines);
    var b := LoweredEntries(hs);
    forall i | 0 <= i < |hs| ensures a[i] == b[i] {
      FieldOfPlain(hs[i]);
    }
  }

  lemma {:induction false} DictOfLowered(hs: Fields)
    ensures DictOf(LoweredEntries(hs)) == FieldMap(hs)
    decreases |hs|
  {
    if hs != [] {
      var n := |hs| - 1;
      DictOfLowered(hs[..n]);
      var es := LoweredEntries(hs);
      assert es[..n] == LoweredEntries(hs[..n]);
      assert es[n] == Some((Lower(hs[n].0), hs[n].1));
    }
  }

  lemma HeaderMapOfFields(hs: Fields)
    requires PlainFields(hs)
    ensures AsciiFields(hs)
    ensures HeaderMap(EncodedFieldTexts(hs)) == FieldMap(hs)
  {
    FieldsOfEncoded(hs);
    DictOfLowered(hs);
  }

  /** The status line reads back as one line whose decoded, CR/LF-trimmed
      text is the status text. */
  lemma StatusLineReadsBack(code: int, reason: string, rest: seq<byte>)
    requires IsAscii(reason) && '\r' !in reason && '\n' !in reason
    ensures var sl := StatusLine(code, reason);
      && |sl| == |IntToString(code)| + |reason| + 12
      && NextLine(sl + rest) == sl
      && RequestLineText(sl) == StatusText(code, reason)
  {
    var text := StatusText(code, reason);
    StatusTextShape(code, reason);
    TerminatedLine(text, rest);
    DecodeTerminated(text);
    TrimCrLf(text);
  }

  lemma StatusTextShape(code: int, reason: string)
    requires IsAscii(reason) && '\r' !in reason && '\n' !in reason
    ensures var text := StatusText(code, reason);
      && IsLatin1(text) && '\r' !in text && '\n' !in text
      && |text| == |IntToString(code)| + |reason| + 10
      && text != [] && !IsCrOrLf(text[|text| - 1])
  {
    var text := StatusText(code, reason);
    assert forall c :: c in text ==> c in "HTTP/1.1 " || c in IntToString(code) || c == ' ' || c in reason;
  }

  lemma DecodeTerminated(text: string)
    requires IsLatin1(text)
    ensures Latin1Decode(Latin1Encode(text) + CRLF) == text + "\r\n"
  {
    Latin1RoundTrip(text);
    Latin1DecodeConcat(Latin1Encode(text), CRLF);
  }

  lemma TrimCrLf(text: string)
    requires text != [] && !IsCrOrLf(text[|text| - 1])
    ensures TrimEnd(text + "\r\n", IsCrOrLf) == text
  {
    var d := text + "\r\n";
    assert d[..|d| - 1] == text + "\r";
    assert (text + "\r")[..|text|] == text;
  }

  /** The status text splits into `HTTP/1.1`, the code and the reason. */
  lemma StatusTextSplits(code: int, reason: string)
    ensures SplitRequestLine(StatusText(code, reason))
         == Some(RequestLine("HTTP/1.1", IntToString(code), reason))
  {
    var text := StatusText(code, reason);
    var c := IntToString(code);
    assert ' ' !in "HTTP/1.1";
    assert text == "HTTP/1.1" + [' '] + (c + " " + reason);
    SplitOnceAt("HTTP/1.1", ' ', c + " " + reason);
    assert ' ' !in c;
    assert c + " " + reason == c + [' '] + reason;
    SplitOnceAt(c, ' ', reason);
  }

  lemma FieldsLengthPositive(hs: Fields)
    requires hs != []
    ensures FieldsLength(hs) >= 4
  {
  }

  /** The header section of a serialised response is read whole, up to and
      including the blank line, and maps back to its entries. */
  lemma ResponseHeaderSection(hs: Fields, body: seq<byte>, maxHeaders: nat)
    requires PlainFields(hs) && maxHeaders >= FieldsLength(hs) && maxHeaders >= 1
    ensures AsciiFields(hs)
    ensures ReadHeaderBlock(FieldBlock(hs) + CRLF + body, maxHeaders, []) == Some(FieldBlock(hs) + CRLF)
    ensures HeaderMap(SplitLines(FieldBlock(hs) + CRLF)) == FieldMap(hs)
  {
    ResponseHeaderRead(hs, body, maxHeaders);
    ResponseHeaderMap(hs);
  }

  lemma ResponseHeaderRead(hs: Fields, body: seq<byte>, maxHeaders: nat)
    requires PlainFields(hs) && maxHeaders >= FieldsLength(hs) && maxHeaders >= 1
    ensures AsciiFields(hs)
    ensures ReadHeaderBlock(FieldBlock(hs) + CRLF + body, maxHeaders, []) == Some(FieldBlock(hs) + CRLF)
  {
    var fb := FieldBlock(hs);
    var rest := fb + CRLF + body;
    FieldBlockScan(hs, body);
    HeaderSectionOutcome(rest, maxHeaders);
    assert rest[..|fb| + 2] == fb + CRLF;
  }

  lemma ResponseHeaderMap(hs: Fields)
    requires PlainFields(hs)
    ensures AsciiFields(hs)
    ensures HeaderMap(SplitLines(FieldBlock(hs) + CRLF)) == FieldMap(hs)
  {
    FieldBlockLines(hs);
    HeaderMapOfFields(hs);
    var ls := EncodedFieldTexts(hs);
    DictDropsBlank(ls);
  }

  /** A trailing empty line assigns nothing. */
  lemma DictDropsBlank(lines: seq<seq<byte>>)
    ensures HeaderMap(lines + [[]]) == HeaderMap(lines)
  {
    var ls := lines + [[]];
    var es := Entries(ls);
    assert es[..|lines|] == Entries(lines);
    assert es[|lines|] == None;
  }

  /** The `Content-Length` that `build_response` adds is the body length and
      is the one the dictionary keeps: only `Connection` may follow it. */
  lemma AddedLengthKept(headers: Fields, bodyLength: nat)
    requires !HasNameIgnoringCase(headers, "content-length")
    ensures var fields := FieldMap(WithDefaults(headers, bodyLength));
      "content-length" in fields && fields["content-length"] == NatToString(bodyLength)
  {
    var hs := WithDefaults(headers, bodyLength);
    var withLength := headers + [("Content-Length", NatToString(bodyLength))];
    LowerContentLength();
    FieldMapAppend(headers, ("Content-Length", NatToString(bodyLength)));
    if HasName(headers, "Connection") {
      assert hs == withLength;
    } else {
      assert hs == withLength + [("Connection", "close")];
      FieldMapAppend(withLength, ("Connection", "close"));
      assert Lower("Connection") != "content-length" by {
        assert Lower("Connection")[1] == 'o';
      }
    }
  }

  /** Parsing the head of a serialised response, as if it were a request,
      gives back `HTTP/1.1`, the decimal status code and the reason as the
      three request-line fields, and every header with its key lower-cased
      (`AddedLengthKept`: when the caller gives no `Content-Length`, the
      added one is the body length). The body is never read. This covers a
      caller-supplied `Content-Length` too, as every HEAD reply has. */
  lemma ResponseHeadRoundTrip(code: int, reason: string, headers: Fields, body: seq<byte>,
                              maxRequestLine: nat, maxHeaders: nat)
    requires IsAscii(reason) && '\r' !in reason && '\n' !in reason
    requires PlainFields(headers)
    requires maxRequestLine >= |IntToString(code)| + |reason| + 12
    requires maxHeaders >= FieldsLength(WithDefaults(headers, |body|))
    ensures BuildResponse(code, reason, headers, body).Some?
    ensures ParseHttpRequest(BuildResponse(code, reason, headers, body).value, maxRequestLine, maxHeaders)
         == Ok("HTTP/1.1", IntToString(code), reason, FieldMap(WithDefaults(headers, |body|)))
  {
    var hs := WithDefaults(headers, |body|);
    DefaultsArePlain(headers, |body|);
    FieldsLengthPositive(hs);
    PlainIsAscii(hs);
    BuiltBytes(code, reason, headers, body);
    SerialisedHeadParses(code, reason, hs, body, maxRequestLine, maxHeaders);
  }

  /** A status line, plain header lines, a blank line and a body parse back. */
  lemma SerialisedHeadParses(code: int, reason: string, hs: Fields, body: seq<byte>,
                             maxRequestLine: nat, maxHeaders: nat)
    requires IsAscii(reason) && '\r' !in reason && '\n' !in reason
    requires PlainFields(hs) && maxHeaders >= FieldsLength(hs) && maxHeaders >= 1
    requires maxRequestLine >= |IntToString(code)| + |reason| + 12
    ensures AsciiFields(hs)
    ensures ParseHttpRequest(StatusLine(code, reason) + (FieldBlock(hs) + CRLF + body), maxRequestLine, maxHeaders)
         == Ok("HTTP/1.1", IntToString(code), reason, FieldMap(hs))
  {
    PlainIsAscii(hs);
    var rest := FieldBlock(hs) + CRLF + body;
    StatusLineFirst(code, reason, rest, maxRequestLine, maxHeaders);
    AfterStatusLine(code, reason, hs, body, maxHeaders);
  }

  lemma PlainIsAscii(hs: Fields)
    requires PlainFields(hs)
    ensures AsciiFields(hs)
  {
    forall i | 0 <= i < |hs| ensures IsAscii(hs[i].0) && IsAscii(hs[i].1) {
      assert PlainField(hs[i]);
    }
  }

  /** The bytes `build_response` produces, piece by piece. */
  lemma BuiltBytes(code: int, reason: string, headers: Fields, body: seq<byte>)
    requires IsAscii(reason) && AsciiFields(WithDefaults(headers, |body|))
    ensures BuildResponse(code, reason, headers, body)
         == Some(StatusLine(code, reason) + (FieldBlock(WithDefaults(headers, |body|)) + CRLF + body))
  {
    var sl := StatusLine(code, reason);
    var fb := FieldBlock(WithDefaults(headers, |body|));
    assert sl + fb + CRLF + body == sl + (fb + CRLF + body);
  }

  /** The status line passes the request-line size checks. */
  lemma StatusLineFirst(code: int, reason: string, rest: seq<byte>, maxRequestLine: nat, maxHeaders: nat)
    requires IsAscii(reason) && '\r' !in reason && '\n' !in reason
    requires maxRequestLine >= |IntToString(code)| + |reason| + 12
    ensures var sl := StatusLine(code, reason);
      ParseHttpRequest(sl + rest, maxRequestLine, maxHeaders) == ParseAfterLine(sl, rest, maxHeaders)
  {
    var sl := StatusLine(code, reason);
    StatusLineReadsBack(code, reason, rest);
    FirstLineChecks(sl + rest, maxRequestLine, maxHeaders);
    assert (sl + rest)[|sl|..] == rest;
  }

  lemma AfterStatusLine(code: int, reason: string, hs: Fields, body: seq<byte>, maxHeaders: nat)
    requires IsAscii(reason) && '\r' !in reason && '\n' !in reason
    requires PlainFields(hs) && maxHeaders >= FieldsLength(hs) && maxHeaders >= 1
    ensures AsciiFields(hs)
    ensures ParseAfterLine(StatusLine(code, reason), FieldBlock(hs) + CRLF + body, maxHeaders)
         == Ok("HTTP/1.1", IntToString(code), reason, FieldMap(hs))
  {
    StatusLineReadsBack(code, reason, []);
    StatusTextSplits(code, reason);
    UpperVersion();
    ResponseHeaderSection(hs, body, maxHeaders);
  }

  lemma UpperVersion()
    ensures Upper("HTTP/1.1") == "HTTP/1.1"
  {
    UpperOfCapitals("HTTP/1.1");
  }
}
