/** The UDP health responder: every datagram whose trimmed, upper-cased text
    is `PING` is answered with `PONG <timestamp>` to its sender; everything
    else is ignored. The socket and the clock are replaced by a sequence of
    turns, each saying what one pass of the loop observes. */
module UdpHealth {
  import opened Text

  /** `recvfrom(4096)`: a longer datagram is cut to its first 4096 bytes. */
  const RecvSize: nat := 4096

  datatype Addr = Addr(host: string, port: nat)

  /** What one `recvfrom` call produces. `RecvFailed` is any OSError other
      than the one-second timeout. */
  datatype Receive = TimedOut | RecvFailed | Datagram(data: seq<byte>, from: Addr)

  /** One pass of `serve_forever`: the `should_stop()` answer checked first,
      what the receive yields, the clock reading used for a reply and whether
      `sendto` succeeds. */
  datatype Turn = Turn(stop: bool, received: Receive, now: Timestamp, sendOk: bool)

  /** One `sendto` attempt; `delivered` is false when it raised. */
  datatype Reply = Reply(to: Addr, message: seq<byte>, delivered: bool)

  /** The replies attempted and the number of turns after which the loop went
      round again. */
  datatype Outcome = Outcome(replies: seq<Reply>, processed: nat)

  // ---------------------------------------------------------------------------
  // Decoding and classification

  /** The bytes `recvfrom(RecvSize)` hands over. */
  function Truncate(data: seq<byte>): (bs: seq<byte>)
    ensures |bs| <= RecvSize && bs <= data
    ensures |data| <= RecvSize ==> bs == data
    ensures |data| > RecvSize ==> bs == data[..RecvSize]
  {
    if |data| <= RecvSize then data else data[..RecvSize]
  }

  predicate IsContinuation(b: byte) {
    0x80 <= b < 0xC0
  }

  /** The range the byte after a lead byte must fall in: continuation bytes,
      narrowed after `E0`, `ED`, `F0` and `F4` so that no overlong form, no
      surrogate and nothing above U+10FFFF is well-formed. */
  predicate SecondOk(lead: byte, b: byte) {
    if lead == 0xE0 then 0xA0 <= b <= 0xBF
    else if lead == 0xED then 0x80 <= b <= 0x9F
    else if lead == 0xF0 then 0x90 <= b <= 0xBF
    else if lead == 0xF4 then 0x80 <= b <= 0x8F
    else IsContinuation(b)
  }

  /** The length of the well-formed UTF-8 sequence at the front of `bs`
      (section 3.9 of the Unicode Standard, table 3-7), or 0 when the first
      byte starts none. */
  function SequenceLength(bs: seq<byte>): (n: nat)
    requires bs != []
    ensures n <= 4 && n <= |bs|
    ensures bs[0] < 0x80 <==> n == 1
  {
    var b := bs[0];
    if b < 0x80 then 1
    else if 0xC2 <= b <= 0xDF then
      (if |bs| >= 2 && IsContinuation(bs[1]) then 2 else 0)
    else if 0xE0 <= b <= 0xEF then
      (if |bs| >= 3 && SecondOk(b, bs[1]) && IsContinuation(bs[2]) then 3 else 0)
    else if 0xF0 <= b <= 0xF4 then
      (if |bs| >= 4 && SecondOk(b, bs[1]) && IsContinuation(bs[2]) && IsContinuation(bs[3]) then 4 else 0)
    else 0
  }

  /** The scalar value a well-formed sequence of `n` bytes encodes. */
  function CodePoint(bs: seq<byte>, n: nat): char
    requires bs != [] && n >= 1 && n == SequenceLength(bs)
  {
    if n == 1 then bs[0] as char
    else if n == 2 then ((bs[0] as int - 0xC0) * 64 + (bs[1] as int - 0x80)) as char
    else if n == 3 then ThreeByteValue(bs[0], bs[1], bs[2])
    else FourByteValue(bs[0], bs[1], bs[2], bs[3])
  }

  function ThreeByteValue(b0: byte, b1: byte, b2: byte): char
    requires 0xE0 <= b0 <= 0xEF && SecondOk(b0, b1) && IsContinuation(b2)
  {
    ((b0 as int - 0xE0) * 4096 + (b1 as int - 0x80) * 64 + (b2 as int - 0x80)) as char
  }

  function FourByteValue(b0: byte, b1: byte, b2: byte, b3: byte): char
    requires 0xF0 <= b0 <= 0xF4 && SecondOk(b0, b1) && IsContinuation(b2) && IsContinuation(b3)
  {
    ((b0 as int - 0xF0) * 262144 + (b1 as int - 0x80) * 4096 + (b2 as int - 0x80) * 64 + (b3 as int - 0x80)) as char
  }

  /** `data.decode("utf-8", errors="ignore")`: each well-formed sequence
      gives its character, and a byte that starts none is dropped. Dropping
      one byte at a time drops exactly the maximal ill-formed subparts the
      decoder reports, since their later bytes are continuation bytes, which
      start nothing. */
  function DecodeUtf8(bs: seq<byte>): (s: string)
    ensures |s| <= |bs|
    decreases |bs|
  {
    if bs == [] then []
    else
      var n := SequenceLength(bs);
      if n == 0 then DecodeUtf8(bs[1..]) else [CodePoint(bs, n)] + DecodeUtf8(bs[n..])
  }

  /** The UTF-8 encoding of one character: one to four bytes. */
  function EncodeChar(c: char): (bs: seq<byte>)
    ensures 1 <= |bs| <= 4
  {
    var v := c as int;
    if v < 0x80 then [v]
    else if v < 0x800 then [0xC0 + v / 64, 0x80 + v % 64]
    else if v < 0x10000 then [0xE0 + v / 4096, 0x80 + v / 64 % 64, 0x80 + v % 64]
    else [0xF0 + v / 262144, 0x80 + v / 4096 % 64, 0x80 + v / 64 % 64, 0x80 + v % 64]
  }

  /** `s.encode("utf-8")`. */
  function EncodeUtf8(s: string): (bs: seq<byte>)
    ensures |s| <= |bs| <= 4 * |s|
    decreases |s|
  {
    if s == [] then [] else EncodeChar(s[0]) + EncodeUtf8(s[1..])
  }

  /** The decoder reads back every text its encoder writes. */
  lemma {:induction false} Utf8RoundTrip(s: string)
    ensures DecodeUtf8(EncodeUtf8(s)) == s
    decreases |s|
  {
    if s != [] {
      Utf8RoundTrip(s[1..]);
      var e := EncodeChar(s[0]);
      var bs := EncodeUtf8(s);
      EncodedCharDecodes(s[0], EncodeUtf8(s[1..]));
      assert bs == e + EncodeUtf8(s[1..]);
      assert bs[|e|..] == EncodeUtf8(s[1..]);
      assert [s[0]] + s[1..] == s;
    }
  }

  /** Decoding reads an encoded text off the front and carries on with
      whatever follows. */
  lemma {:induction false} DecodeAfterEncoded(a: string, rest: seq<byte>)
    ensures DecodeUtf8(EncodeUtf8(a) + rest) == a + DecodeUtf8(rest)
    decreases |a|
  {
    if a == [] {
      DecodeAfterNothing(rest);
    } else {
      DecodeAfterEncoded(a[1..], rest);
      DecodeAfterEncodedStep(a, rest);
    }
  }

  lemma DecodeAfterNothing(rest: seq<byte>)
    ensures DecodeUtf8(EncodeUtf8([]) + rest) == [] + DecodeUtf8(rest)
  {
    assert EncodeUtf8([]) == [];
    assert [] + rest == rest;
  }

  lemma DecodeAfterEncodedStep(a: string, rest: seq<byte>)
    requires a != []
    requires DecodeUtf8(EncodeUtf8(a[1..]) + rest) == a[1..] + DecodeUtf8(rest)
    ensures DecodeUtf8(EncodeUtf8(a) + rest) == a + DecodeUtf8(rest)
  {
    var e := EncodeChar(a[0]);
    var es := EncodeUtf8(a[1..]);
    EncodedCharDecodes(a[0], es + rest);
    assert [a[0]] + a[1..] == a;
    DecodeSequenceThen(a, e, es + rest, DecodeUtf8(rest));
    EncodeCons(a, rest);
  }

  lemma EncodeCons(a: string, rest: seq<byte>)
    requires a != []
    ensures EncodeUtf8(a) + rest == EncodeChar(a[0]) + (EncodeUtf8(a[1..]) + rest)
  {
  }

  /** A well-formed sequence for the first character of `a` decoded off the
      front of bytes that decode to the rest of `a` followed by `d`. */
  lemma DecodeSequenceThen(a: string, e: seq<byte>, tail: seq<byte>, d: string)
    requires a != [] && e != [] && SequenceLength(e + tail) == |e| && CodePoint(e + tail, |e|) == a[0]
    requires DecodeUtf8(tail) == a[1..] + d
    ensures DecodeUtf8(e + tail) == a + d
  {
    assert (e + tail)[|e|..] == tail;
    DecodeFront(e + tail, |e|, a[0], tail);
    ConsAppend(a, d);
  }

  lemma ConsAppend(a: string, d: string)
    requires a != []
    ensures [a[0]] + (a[1..] + d) == a + d
  {
    assert a == [a[0]] + a[1..];
  }

  /** A well-formed sequence for `c` decoded off the front of `bs`. */
  lemma DecodeFront(bs: seq<byte>, n: nat, c: char, tail: seq<byte>)
    requires bs != [] && n >= 1 && n == SequenceLength(bs) && CodePoint(bs, n) == c && bs[n..] == tail
    ensures DecodeUtf8(bs) == [c] + DecodeUtf8(tail)
  {
    DecodeWellFormedStep(bs, n);
  }

  /** One well-formed sequence decoded off the front. */
  lemma DecodeWellFormedStep(bs: seq<byte>, n: nat)
    requires bs != [] && n >= 1 && n == SequenceLength(bs)
    ensures DecodeUtf8(bs) == [CodePoint(bs, n)] + DecodeUtf8(bs[n..])
  {
  }

  /** No encoded text starts with a continuation byte. */
  lemma EncodingStartsNoContinuation(c: string)
    requires c != []
    ensures !IsContinuation(EncodeUtf8(c)[0])
  {
    assert EncodeUtf8(c)[0] == EncodeChar(c[0])[0];
  }

  /** A byte of 0x80 or above with no continuation byte after it starts no
      well-formed sequence. */
  lemma LoneByteStartsNothing(b: byte, rest: seq<byte>)
    requires b >= 0x80 && (rest == [] || !IsContinuation(rest[0]))
    ensures SequenceLength([b] + rest) == 0
  {
    var bs := [b] + rest;
    if rest != [] {
      assert bs[1] == rest[0];
    }
  }

  /** `errors="ignore"`: a non-ASCII byte standing alone between two encoded
      texts (a stray continuation byte, a lead byte whose continuation is
      missing, or a byte that is never valid) is dropped, and decoding resumes
      right after it. */
  lemma IllFormedByteDropped(a: string, b: byte, c: string)
    requires b >= 0x80
    ensures DecodeUtf8(EncodeUtf8(a) + [b] + EncodeUtf8(c)) == a + c
  {
    var tail := [b] + EncodeUtf8(c);
    assert EncodeUtf8(a) + [b] + EncodeUtf8(c) == EncodeUtf8(a) + tail;
    DecodeAfterEncoded(a, tail);
    if c != [] {
      EncodingStartsNoContinuation(c);
    }
    LoneByteStartsNothing(b, EncodeUtf8(c));
    assert tail[1..] == EncodeUtf8(c);
    Utf8RoundTrip(c);
  }

  /** An encoded character in front of anything is one well-formed sequence
      that decodes to it. */
  lemma EncodedCharDecodes(c: char, rest: seq<byte>)
    ensures var bs := EncodeChar(c) + rest;
      SequenceLength(bs) == |EncodeChar(c)| && CodePoint(bs, |EncodeChar(c)|) == c
  {
    var v := c as int;
    if v < 0x80 {
    } else if v < 0x800 {
      TwoBytesDecode(c, rest);
    } else if v < 0x10000 {
      ThreeBytesDecode(c, rest);
    } else {
      FourBytesDecode(c, rest);
    }
  }

  lemma TwoBytesDecode(c: char, rest: seq<byte>)
    requires 0x80 <= c as int < 0x800
    ensures var bs := EncodeChar(c) + rest;
      SequenceLength(bs) == 2 && CodePoint(bs, 2) == c
  {
  }

  lemma ThreeBytesDecode(c: char, rest: seq<byte>)
    requires 0x800 <= c as int < 0x10000
    ensures var bs := EncodeChar(c) + rest;
      SequenceLength(bs) == 3 && CodePoint(bs, 3) == c
  {
    var v := c as int;
    var bs := EncodeChar(c) + rest;
    assert v == v / 4096 * 4096 + v / 64 % 64 * 64 + v % 64;
    assert SecondOk(bs[0], bs[1]);
  }

  lemma FourBytesDecode(c: char, rest: seq<byte>)
    requires 0x10000 <= c as int
    ensures var bs := EncodeChar(c) + rest;
      SequenceLength(bs) == 4 && CodePoint(bs, 4) == c
  {
    var v := c as int;
    var bs := EncodeChar(c) + rest;
    FourByteDigits(v);
    assert SecondOk(bs[0], bs[1]);
  }

  /** The base-64 digits of a supplementary code point, and the second-byte
      range its lead byte allows. */
  lemma FourByteDigits(v: int)
    requires 0x10000 <= v <= 0x10FFFF
    ensures v == v / 262144 * 262144 + v / 4096 % 64 * 4096 + v / 64 % 64 * 64 + v % 64
    ensures v / 262144 <= 4
    ensures v / 262144 == 0 ==> v / 4096 % 64 >= 16
    ensures v / 262144 == 4 ==> v / 4096 % 64 <= 15
  {
    var a, r := v / 262144, v % 262144;
    var b, r2 := r / 4096, r % 4096;
    var c, d := r2 / 64, r2 % 64;
    Div4096(v, a * 64 + b, r2);
    Div64(a * 64 + b, a, b);
    Div64(v, a * 4096 + b * 64 + c, d);
    Div64(a * 4096 + b * 64 + c, a * 64 + b, c);
  }

  lemma Div64(x: int, q: int, r: int)
    requires x == q * 64 + r && 0 <= r < 64
    ensures x / 64 == q && x % 64 == r
  {
  }

  lemma Div4096(x: int, q: int, r: int)
    requires x == q * 4096 + r && 0 <= r < 4096
    ensures x / 4096 == q && x % 4096 == r
  {
  }

  /** An ASCII datagram decodes byte for byte. */
  lemma {:induction false} DecodeAscii(bs: seq<byte>)
    requires forall i :: 0 <= i < |bs| ==> bs[i] < 0x80
    ensures DecodeUtf8(bs) == Latin1Decode(bs)
    decreases |bs|
  {
    if bs != [] {
      DecodeAscii(bs[1..]);
      assert Latin1Decode(bs) == [bs[0] as char] + Latin1Decode(bs[1..]);
    }
  }

  /** How `serve_forever` treats a datagram's text. */
  datatype Kind = Blank | Ping | Other

  /** The text of a received datagram. */
  function Decoded(data: seq<byte>): string {
    DecodeUtf8(Truncate(data))
  }

  /** The comparison as `serve_forever` writes it: stripped and upper-cased,
      the text is empty, `PING`, or something else. */
  function UpperKind(t: string): Kind {
    var p := Upper(Strip(t));
    if p == [] then Blank else if p == "PING" then Ping else Other
  }

  /** The classification of decoded text: blank when it is all whitespace,
      a ping when its stripped form spells PING in any mix of cases. */
  function KindOf(t: string): (k: Kind)
    ensures k == Blank <==> forall i :: 0 <= i < |t| ==> IsSpace(t[i])
  {
    var s := Strip(t);
    if s == [] then Blank else if CaseVariantOf(s, "PING") then Ping else Other
  }

  function Classify(data: seq<byte>): Kind {
    KindOf(Decoded(data))
  }

  lemma UpperEmpty(s: string)
    ensures Upper(s) == [] <==> s == []
  {
  }

  /** The case-insensitive classification is the upper-casing comparison of
      the source, on every text. */
  lemma KindOfIsUpperKind(t: string)
    ensures KindOf(t) == UpperKind(t)
  {
    KindOfStripped(Strip(t));
  }

  lemma KindOfStripped(s: string)
    ensures (if s == [] then Blank else if CaseVariantOf(s, "PING") then Ping else Other)
         == (var p := Upper(s); if p == [] then Blank else if p == "PING" then Ping else Other)
  {
    UpperEmpty(s);
    UpperMatchesWord(s, "PING");
  }

  /** `ping`, as sent by `echo ping | nc -u`, decodes to `ping` and a
      newline ... */
  lemma EchoedPingText()
    ensures Decoded([0x70, 0x69, 0x6E, 0x67, 0x0A]) == "ping\n"
  {
    DecodeAscii([0x70, 0x69, 0x6E, 0x67, 0x0A]);
  }

  /** ... which the source's comparison counts as a ping. */
  lemma EchoedPingIsPing()
    ensures UpperKind("ping\n") == Ping
  {
    StripEchoedPing();
    LowerPingVariant();
    KindOfIsUpperKind("ping\n");
  }

  lemma StripEchoedPing()
    ensures Strip("ping\n") == "ping"
  {
    StripTrailingNewline("ping");
    assert "ping" + "\n" == "ping\n";
  }

  lemma LowerPingVariant()
    ensures CaseVariantOf("ping", "PING")
  {
  }

  lemma StripTrailingNewline(v: string)
    requires NoSurroundingSpace(v) && v != []
    ensures Strip(v + "\n") == v
  {
    var s := v + "\n";
    assert s[0] == v[0];
    assert TrimStart(s, IsSpace) == s;
    TrimEndDropsNewline(v);
  }

  lemma TrimEndDropsNewline(v: string)
    requires v != [] && !IsSpace(v[|v| - 1])
    ensures TrimEnd(v + "\n", IsSpace) == v
  {
    assert (v + "\n")[..|v|] == v;
  }

  // ---------------------------------------------------------------------------
  // The reply

  /** `datetime.isoformat()` with `+00:00` replaced by `Z`. */
  function UtcText(now: Timestamp): (t: string)
    ensures IsAscii(t)
  {
    TimestampIsAscii(now);
    var t := Replace(now, "+00:00", "Z");
    assert forall i :: 0 <= i < |t| ==> t[i] in t;
    t
  }

  /** `f"PONG {ts}\n".encode("utf-8")`; the text is ASCII, one byte a
      character. */
  function PongMessage(now: Timestamp): (msg: seq<byte>)
    ensures Latin1Decode(msg) == "PONG " + UtcText(now) + "\n"
  {
    var text := "PONG " + UtcText(now) + "\n";
    AsciiConcat("PONG " + UtcText(now), "\n");
    Latin1RoundTrip(text);
    Latin1Encode(text)
  }

  /** A UTC reading `d+00:00` is sent as `dZ`. */
  lemma {:induction false} UtcSuffixBecomesZ(d: string)
    requires '+' !in d
    ensures Replace(d + "+00:00", "+00:00", "Z") == d + "Z"
    decreases |d|
  {
    var s := d + "+00:00";
    if d == [] {
      assert s[..6] == "+00:00";
      assert s[6..] == [];
    } else {
      assert s[0] == d[0] != '+';
      assert s[..6] != "+00:00";
      assert s[1..] == d[1..] + "+00:00";
      UtcSuffixBecomesZ(d[1..]);
      assert [d[0]] + d[1..] == d;
    }
  }

  lemma PongForUtcReading(now: Timestamp, d: string)
    requires now == d + "+00:00" && '+' !in d
    ensures Latin1Decode(PongMessage(now)) == "PONG " + d + "Z\n"
  {
    UtcSuffixBecomesZ(d);
  }

  /** The replies one turn sends: one PONG to the sender of a ping. */
  function RepliesFor(t: Turn): (rs: seq<Reply>)
    ensures |rs| <= 1
  {
    match t.received
    case Datagram(data, from) =>
      if Classify(data) == Ping then [Reply(from, PongMessage(t.now), t.sendOk)] else []
    case _ => []
  }

  // ---------------------------------------------------------------------------
  // The loop

  /** A turn that ends the loop: `should_stop()` is true, or the receive
      failed with something other than a timeout. A timeout, a blank or
      unknown datagram and a failed send all go round again. */
  predicate Halts(t: Turn) {
    t.stop || t.received.RecvFailed?
  }

  /** The loop for any way `respond` of answering a turn: turns are taken in
      order until one halts, and each processed turn adds its answers. The
      properties of the loop that do not depend on what is sent are proved
      at this level. */
  function ServeWith(turns: seq<Turn>, respond: Turn -> seq<Reply>): (o: Outcome)
    ensures o.processed <= |turns|
    decreases |turns|
  {
    if turns == [] || Halts(turns[0]) then Outcome([], 0)
    else
      var rest := ServeWith(turns[1..], respond);
      Outcome(respond(turns[0]) + rest.replies, rest.processed + 1)
  }

  /** The reference run of `serve_forever`. */
  function Serve(turns: seq<Turn>): (o: Outcome)
    ensures o.processed <= |turns|
  {
    ServeWith(turns, RepliesFor)
  }

  /** `serve_forever` over a finite run of turns. */
  method ServeForever(turns: seq<Turn>) returns (replies: seq<Reply>, processed: nat)
    ensures Outcome(replies, processed) == Serve(turns)
  {
    replies := [];
    processed := 0;
    while processed < |turns|
      invariant processed <= |turns|
      invariant Serve(turns) == Outcome(replies + ServeWith(turns[processed..], RepliesFor).replies,
                                        processed + ServeWith(turns[processed..], RepliesFor).processed)
      decreases |turns| - processed
    {
      var turn := turns[processed];
      if turn.stop || turn.received.RecvFailed? {
        HaltedRest(turns, processed, RepliesFor);
        break;
      }
      var answer := Answer(turn);
      ServeAdvance(turns, processed, replies, RepliesFor);
      replies := replies + answer;
      processed := processed + 1;
    }
    assert turns[processed..] == [] || Halts(turns[processed]);
  }

  /** One pass of the loop after a receive that did not fail: a ping is
      answered with a PONG to its sender, anything else is ignored. */
  method Answer(turn: Turn) returns (answer: seq<Reply>)
    requires !Halts(turn)
    ensures answer == RepliesFor(turn)
  {
    answer := [];
    match turn.received {
      case TimedOut =>
      case Datagram(data, from) =>
        var kind := Classify(data);
        if kind == Ping {
          answer := [Reply(from, PongMessage(turn.now), turn.sendOk)];
        }
    }
  }

  /** The run from a halting turn on is empty. */
  lemma HaltedRest(turns: seq<Turn>, i: nat, respond: Turn -> seq<Reply>)
    requires i < |turns| && Halts(turns[i])
    ensures ServeWith(turns[i..], respond) == Outcome([], 0)
  {
    assert turns[i..][0] == turns[i];
  }

  /** One continuing turn moves its answers from the rest of the run into the
      replies gathered so far. */
  lemma ServeAdvance(turns: seq<Turn>, i: nat, replies: seq<Reply>, respond: Turn -> seq<Reply>)
    requires i < |turns| && !Halts(turns[i])
    ensures ServeWith(turns[i..], respond)
            == Outcome(respond(turns[i]) + ServeWith(turns[i + 1..], respond).replies,
                       ServeWith(turns[i + 1..], respond).processed + 1)
    ensures replies + (respond(turns[i]) + ServeWith(turns[i + 1..], respond).replies)
            == (replies + respond(turns[i])) + ServeWith(turns[i + 1..], respond).replies
  {
    assert turns[i..][0] == turns[i];
    assert turns[i..][1..] == turns[i + 1..];
  }

  // ---------------------------------------------------------------------------
  // Properties of the run

  /** The run goes round after every turn it processes and stops at the
      first halting turn. */
  lemma {:induction false} ServeStopsAtFirstHalt(turns: seq<Turn>, respond: Turn -> seq<Reply>)
    ensures forall j :: 0 <= j < ServeWith(turns, respond).processed ==> !Halts(turns[j])
    ensures ServeWith(turns, respond).processed < |turns|
            ==> Halts(turns[ServeWith(turns, respond).processed])
    decreases |turns|
  {
    if turns != [] && !Halts(turns[0]) {
      ServeStopsAtFirstHalt(turns[1..], respond);
      forall j | 0 <= j < ServeWith(turns, respond).processed
        ensures !Halts(turns[j])
      {
        if j > 0 { assert turns[j] == turns[1..][j - 1]; }
      }
    }
  }

  /** Once a turn halts, nothing after it matters: the run equals the run of
      the turns before it. */
  lemma {:induction false} NothingAfterHalt(turns: seq<Turn>, j: nat, respond: Turn -> seq<Reply>)
    requires j < |turns| && Halts(turns[j])
    ensures ServeWith(turns, respond) == ServeWith(turns[..j], respond)
    decreases j
  {
    if j > 0 && !Halts(turns[0]) {
      NothingAfterHalt(turns[1..], j - 1, respond);
      assert turns[1..][..j - 1] == turns[..j][1..];
    }
  }

  /** How many answers `respond` gives to the given turns. */
  function Answers(turns: seq<Turn>, respond: Turn -> seq<Reply>): nat {
    if turns == [] then 0 else |respond(turns[0])| + Answers(turns[1..], respond)
  }

  /** The run sends exactly the answers to the turns it processes. */
  lemma {:induction false} RepliesOfProcessed(turns: seq<Turn>, respond: Turn -> seq<Reply>)
    ensures |ServeWith(turns, respond).replies|
            == Answers(turns[..ServeWith(turns, respond).processed], respond)
    decreases |turns|
  {
    var o := ServeWith(turns, respond);
    if turns != [] && !Halts(turns[0]) {
      RepliesOfProcessed(turns[1..], respond);
      assert turns[..o.processed][1..] == turns[1..][..ServeWith(turns[1..], respond).processed];
    }
  }

  function Datagrams(turns: seq<Turn>): (n: nat)
    ensures n <= |turns|
  {
    if turns == [] then 0
    else
      var here := if turns[0].received.Datagram? then 1 else 0;
      here + Datagrams(turns[1..])
  }

  function Pings(turns: seq<Turn>): nat {
    if turns == [] then 0
    else
      var here := if turns[0].received.Datagram? && Classify(turns[0].received.data) == Ping then 1 else 0;
      here + Pings(turns[1..])
  }

  /** `serve_forever` answers each ping once and nothing else. */
  lemma {:induction false} AnswersArePings(turns: seq<Turn>)
    ensures Answers(turns, RepliesFor) == Pings(turns)
    ensures Pings(turns) <= Datagrams(turns)
    decreases |turns|
  {
    if turns != [] {
      AnswersArePings(turns[1..]);
    }
  }

  /** One reply per ping processed, so never more replies than datagrams. */
  lemma OneReplyPerPing(turns: seq<Turn>)
    ensures |Serve(turns).replies| == Pings(turns[..Serve(turns).processed])
    ensures |Serve(turns).replies| <= Datagrams(turns[..Serve(turns).processed])
  {
    RepliesOfProcessed(turns, RepliesFor);
    AnswersArePings(turns[..Serve(turns).processed]);
  }

  /** Every reply of the run is an answer to a turn it processed. */
  lemma {:induction false} RepliesAnswerTurns(turns: seq<Turn>, k: nat, respond: Turn -> seq<Reply>)
    requires k < |ServeWith(turns, respond).replies|
    ensures exists j :: 0 <= j < ServeWith(turns, respond).processed
                        && ServeWith(turns, respond).replies[k] in respond(turns[j])
    decreases |turns|
  {
    var o := ServeWith(turns, respond);
    assert turns != [] && !Halts(turns[0]);
    var first := respond(turns[0]);
    var rest := ServeWith(turns[1..], respond);
    if k < |first| {
      assert o.replies[k] == first[k];
    } else {
      assert o.replies[k] == rest.replies[k - |first|];
      RepliesAnswerTurns(turns[1..], k - |first|, respond);
      var j :| 0 <= j < rest.processed && rest.replies[k - |first|] in respond(turns[1..][j]);
      assert turns[1..][j] == turns[j + 1];
    }
  }

  /** `r` is the PONG for turn `t`: `t` received a ping, and `r` goes to its
      sender stamped with its clock reading. */
  predicate AnswersPing(r: Reply, t: Turn) {
    t.received.Datagram? && Classify(t.received.data) == Ping
    && r == Reply(t.received.from, PongMessage(t.now), t.sendOk)
  }

  lemma OwnRepliesAnswer(t: Turn, r: Reply)
    requires r in RepliesFor(t)
    ensures AnswersPing(r, t)
  {
  }

  /** Every reply is a PONG, stamped with its turn's clock, to the sender of a
      ping processed before the loop ended. */
  lemma RepliesAnswerPings(turns: seq<Turn>, k: nat)
    requires k < |Serve(turns).replies|
    ensures exists j :: 0 <= j < Serve(turns).processed && AnswersPing(Serve(turns).replies[k], turns[j])
  {
    RepliesAnswerTurns(turns, k, RepliesFor);
    var j :| 0 <= j < Serve(turns).processed && Serve(turns).replies[k] in RepliesFor(turns[j]);
    OwnRepliesAnswer(turns[j], Serve(turns).replies[k]);
  }

  /** What was sent, ignoring whether `sendto` succeeded. */
  function Sent(replies: seq<Reply>): (r: seq<(Addr, seq<byte>)>)
    ensures |r| == |replies|
    ensures forall k :: 0 <= k < |r| ==> r[k] == (replies[k].to, replies[k].message)
  {
    seq(|replies|, k requires 0 <= k < |replies| => (replies[k].to, replies[k].message))
  }

  /** Two runs that differ only in which sends fail. */
  predicate SameButSends(a: seq<Turn>, b: seq<Turn>) {
    |a| == |b| && forall j :: 0 <= j < |a| ==> b[j] == a[j].(sendOk := b[j].sendOk)
  }

  /** `respond` sends the same messages whether or not sending succeeds. */
  ghost predicate SendsIgnoreOutcome(respond: Turn -> seq<Reply>) {
    forall t: Turn, u: Turn ::
      u == t.(sendOk := u.sendOk) ==> Sent(respond(t)) == Sent(respond(u))
  }

  lemma {:induction false} SendFailuresAreHarmlessWith(a: seq<Turn>, b: seq<Turn>, respond: Turn -> seq<Reply>)
    requires SameButSends(a, b) && SendsIgnoreOutcome(respond)
    ensures ServeWith(a, respond).processed == ServeWith(b, respond).processed
    ensures Sent(ServeWith(a, respond).replies) == Sent(ServeWith(b, respond).replies)
    decreases |a|
  {
    if a != [] && !Halts(a[0]) {
      assert b[0] == a[0].(sendOk := b[0].sendOk);
      SendFailuresAreHarmlessWith(a[1..], b[1..], respond);
      SentConcat(respond(a[0]), ServeWith(a[1..], respond).replies);
      SentConcat(respond(b[0]), ServeWith(b[1..], respond).replies);
    }
  }

  lemma PongIgnoresOutcome()
    ensures SendsIgnoreOutcome(RepliesFor)
  {
  }

  /** A failed send neither ends the loop nor changes what is sent later. */
  lemma SendFailuresAreHarmless(a: seq<Turn>, b: seq<Turn>)
    requires SameButSends(a, b)
    ensures Serve(a).processed == Serve(b).processed
    ensures Sent(Serve(a).replies) == Sent(Serve(b).replies)
  {
    PongIgnoresOutcome();
    SendFailuresAreHarmlessWith(a, b, RepliesFor);
  }

  lemma SentConcat(x: seq<Reply>, y: seq<Reply>)
    ensures Sent(x + y) == Sent(x) + Sent(y)
  {
  }
}
