/** Bytes, Latin-1 text and the handful of Python `str` operations the servers
    rely on (strip, lower, upper, split, replace, decimal formatting).

    Python's whitespace test is given exactly. Its case mapping is given
    exactly on the Latin-1 range, which is all a Latin-1 decoded string can
    hold; above it only the one character that upper-cases to an ASCII
    letter is mapped. */
module Text {

  /** One octet of a Python `bytes` value. */
  type byte = b: int | 0 <= b < 256

  datatype Option<+T> = None | Some(value: T)

  predicate IsLatin1(s: string) {
    forall i :: 0 <= i < |s| ==> s[i] as int < 256
  }

  predicate IsAscii(s: string) {
    forall i :: 0 <= i < |s| ==> s[i] as int < 128
  }

  lemma AsciiConcat(a: string, b: string)
    requires IsAscii(a) && IsAscii(b)
    ensures IsAscii(a + b) && IsLatin1(a + b)
  {
  }

  /** `bytes.decode("iso-8859-1")`: byte n becomes code point n, so it never fails. */
  function Latin1Decode(bs: seq<byte>): (s: string)
    ensures |s| == |bs| && IsLatin1(s)
    ensures forall i :: 0 <= i < |bs| ==> s[i] as int == bs[i]
  {
    seq(|bs|, i requires 0 <= i < |bs| => bs[i] as char)
  }

  /** `str.encode("iso-8859-1")`; on ASCII text it is also `encode("ascii")` and `encode("utf-8")`. */
  function Latin1Encode(s: string): (bs: seq<byte>)
    requires IsLatin1(s)
    ensures |bs| == |s|
    ensures forall i :: 0 <= i < |s| ==> bs[i] == s[i] as int
  {
    seq(|s|, i requires 0 <= i < |s| => s[i] as int)
  }

  lemma Latin1RoundTrip(s: string)
    requires IsLatin1(s)
    ensures Latin1Decode(Latin1Encode(s)) == s
  {
  }

  lemma Latin1DecodeConcat(a: seq<byte>, b: seq<byte>)
    ensures Latin1Decode(a + b) == Latin1Decode(a) + Latin1Decode(b)
  {
  }

  /** Python's `str.isspace`: the Latin-1 whitespace, and above it the
      Unicode space separators and the line and paragraph separators. */
  predicate IsSpace(c: char) {
    var n := c as int;
    n == 32 || 9 <= n <= 13 || 28 <= n <= 31 || n == 0x85 || n == 0xA0
    || (n >= 0x1680 && IsWideSpace(n))
  }

  predicate IsWideSpace(n: int) {
    n == 0x1680 || 0x2000 <= n <= 0x200A || n == 0x2028 || n == 0x2029
    || n == 0x202F || n == 0x205F || n == 0x3000
  }

  predicate IsCrOrLf(c: char) {
    c == '\r' || c == '\n'
  }

  /** `s.lstrip(chars)` for the set of characters `drop` accepts. */
  function TrimStart(s: string, drop: char -> bool): (r: string)
    ensures |r| <= |s| && r == s[|s| - |r|..]
    ensures forall k :: 0 <= k < |s| - |r| ==> drop(s[k])
    ensures r != [] ==> !drop(r[0])
    decreases |s|
  {
    if s != [] && drop(s[0]) then TrimStart(s[1..], drop) else s
  }

  /** `s.rstrip(chars)` for the set of characters `drop` accepts. */
  function TrimEnd(s: string, drop: char -> bool): (r: string)
    ensures |r| <= |s| && r == s[..|r|]
    ensures forall k :: |r| <= k < |s| ==> drop(s[k])
    ensures r != [] ==> !drop(r[|r| - 1])
    decreases |s|
  {
    if s != [] && drop(s[|s| - 1]) then TrimEnd(s[..|s| - 1], drop) else s
  }

  predicate NoSurroundingSpace(s: string) {
    s == [] || (!IsSpace(s[0]) && !IsSpace(s[|s| - 1]))
  }

  /** `r` is the slice of `s` starting at `i`, and everything of `s` before
      and after that slice is whitespace. */
  predicate SpaceFramed(s: string, i: int, r: string) {
    && 0 <= i <= |s| - |r|
    && r == s[i..i + |r|]
    && (forall k :: 0 <= k < i ==> IsSpace(s[k]))
    && (forall k :: i + |r| <= k < |s| ==> IsSpace(s[k]))
  }

  /** `str.strip()`: whitespace removed from both ends, so the result is the
      slice of `s` framed by whitespace that neither starts nor ends with it. */
  function Strip(s: string): (r: string)
    ensures NoSurroundingSpace(r)
    ensures exists i :: SpaceFramed(s, i, r)
    ensures NoSurroundingSpace(s) ==> r == s
    ensures r == [] <==> forall k :: 0 <= k < |s| ==> IsSpace(s[k])
    ensures forall c :: c in r ==> c in s
  {
    var t := TrimStart(s, IsSpace);
    var r := TrimEnd(t, IsSpace);
    StripParts(s, t, r);
    StripEnds(s, t, r);
    StripFrame(s, t, r);
    r
  }

  lemma StripFrame(s: string, t: string, r: string)
    requires t == TrimStart(s, IsSpace) && r == TrimEnd(t, IsSpace)
    ensures exists i :: SpaceFramed(s, i, r)
  {
    TrimFrame(s, t, r, IsSpace);
    assert SpaceFramed(s, |s| - |t|, r);
  }

  /** A prefix of dropped characters cut off, then a suffix of them: the rest
      is framed by dropped characters. */
  lemma TrimFrame(s: string, t: string, r: string, drop: char -> bool)
    requires |t| <= |s| && t == s[|s| - |t|..] && (forall k :: 0 <= k < |s| - |t| ==> drop(s[k]))
    requires |r| <= |t| && r == t[..|r|] && (forall k :: |r| <= k < |t| ==> drop(t[k]))
    ensures var d := |s| - |t|;
      && r == s[d..d + |r|]
      && (forall k :: 0 <= k < d ==> drop(s[k]))
      && (forall k :: d + |r| <= k < |s| ==> drop(s[k]))
  {
    var d := |s| - |t|;
    assert r == s[d..d + |r|];
    forall k | d + |r| <= k < |s| ensures drop(s[k]) {
      assert s[k] == t[k - d];
    }
  }

  lemma StripEnds(s: string, t: string, r: string)
    requires t == TrimStart(s, IsSpace) && r == TrimEnd(t, IsSpace)
    ensures NoSurroundingSpace(r)
    ensures NoSurroundingSpace(s) ==> r == s
  {
    if NoSurroundingSpace(s) && s != [] {
      assert t == s;
    }
  }

  lemma StripParts(s: string, t: string, r: string)
    requires t == TrimStart(s, IsSpace) && r == TrimEnd(t, IsSpace)
    ensures r == [] <==> forall k :: 0 <= k < |s| ==> IsSpace(s[k])
    ensures forall c :: c in r ==> c in s
  {
    var d := |s| - |t|;
    assert t == s[d..];
    if r == [] {
      forall k | d <= k < |s| ensures IsSpace(s[k]) {
        assert s[k] == t[k - d];
      }
    }
    if forall k :: 0 <= k < |s| ==> IsSpace(s[k]) {
      assert t == [];
    }
    assert r <= t;
  }

  /** One space followed by text without surrounding space strips back to that text. */
  lemma StripAfterSpace(v: string)
    requires NoSurroundingSpace(v)
    ensures Strip(" " + v) == v
  {
    var t := TrimStart(" " + v, IsSpace);
    assert TrimStart(v, IsSpace) == v;
    assert t == v;
  }

  /** `str.lower()` of one Latin-1 character. */
  function LowerChar(c: char): char {
    var n := c as int;
    if 65 <= n <= 90 || (0xC0 <= n <= 0xDE && n != 0xD7) then (n + 32) as char else c
  }

  /** `str.lower()` of Latin-1 text: length-preserving, character by character. */
  function Lower(s: string): (r: string)
    ensures |r| == |s|
    ensures forall i :: 0 <= i < |s| ==> r[i] == LowerChar(s[i])
  {
    seq(|s|, i requires 0 <= i < |s| => LowerChar(s[i]))
  }

  /** `str.upper()` of one character: exact on Latin-1, where `ß` becomes
      two characters, and for the dotless `ı`, the only character above
      Latin-1 whose upper case is an ASCII letter. Any other character above
      Latin-1 is kept: its upper case is not ASCII either. */
  function UpperChar(c: char): (r: string)
    ensures 1 <= |r| <= 2
  {
    var n := c as int;
    if 97 <= n <= 122 || (0xE0 <= n <= 0xFE && n != 0xF7) then [(n - 32) as char]
    else if n == 0xDF then "SS"
    else if n == 0xB5 then [0x39C as char]
    else if n == 0xFF then [0x178 as char]
    else if n == 0x131 then "I"
    else [c]
  }

  /** `str.upper()` of Latin-1 text. */
  function Upper(s: string): string {
    if s == [] then [] else UpperChar(s[0]) + Upper(s[1..])
  }

  /** `c` is the ASCII capital `l`, its small letter, or for `I` the dotless `ı`. */
  predicate LetterVariant(c: char, l: char) {
    c == l || c as int == l as int + 32 || (l == 'I' && c as int == 0x131)
  }

  /** `m` spells the upper-case ASCII word `w` with each letter in either case. */
  predicate CaseVariantOf(m: string, w: string) {
    |m| == |w| && forall i :: 0 <= i < |m| ==> LetterVariant(m[i], w[i])
  }

  lemma UpperCharIsLetter(c: char, l: char)
    requires 'A' <= l <= 'Z' && l != 'S'
    ensures UpperChar(c) == [l] <==> LetterVariant(c, l)
  {
  }

  /** Upper-casing yields a word of capitals other than `S` exactly when the
      text is that word in mixed case (`ı` standing for `I`): no other
      character upper-cases to an ASCII capital, and `ß` becomes `SS`. */
  lemma {:induction false} UpperMatchesWord(m: string, w: string)
    requires forall i :: 0 <= i < |w| ==> 'A' <= w[i] <= 'Z' && w[i] != 'S'
    ensures Upper(m) == w <==> CaseVariantOf(m, w)
    decreases |m|
  {
    if m == [] {
    } else if w == [] {
      assert |Upper(m)| >= 1;
    } else {
      var u := UpperChar(m[0]);
      UpperMatchesWord(m[1..], w[1..]);
      UpperCharIsLetter(m[0], w[0]);
      if Upper(m) == w {
        assert u <= w;
        assert u == [w[0]];
        assert Upper(m[1..]) == w[1..];
        assert CaseVariantOf(m[1..], w[1..]);
        assert CaseVariantOf(m, w) by {
          forall i | 0 <= i < |m| ensures LetterVariant(m[i], w[i]) {
            if i > 0 {
              assert m[i] == m[1..][i - 1] && w[i] == w[1..][i - 1];
            }
          }
        }
      }
      if CaseVariantOf(m, w) {
        assert CaseVariantOf(m[1..], w[1..]) by {
          forall i | 0 <= i < |m| - 1 ensures LetterVariant(m[1..][i], w[1..][i]) {
            assert m[1..][i] == m[i + 1] && w[1..][i] == w[i + 1];
          }
        }
        assert Upper(m) == [w[0]] + w[1..];
        assert [w[0]] + w[1..] == w;
      }
    }
  }

  /** ASCII text without lower-case letters is its own upper-case form. */
  lemma {:induction false} UpperOfCapitals(s: string)
    requires forall i :: 0 <= i < |s| ==> s[i] as int < 128 && !('a' <= s[i] <= 'z')
    ensures Upper(s) == s
    decreases |s|
  {
    if s != [] {
      UpperOfCapitals(s[1..]);
      assert [s[0]] + s[1..] == s;
    }
  }

  /** Index of the first occurrence of `c`. */
  function IndexOf(s: string, c: char): (i: nat)
    requires c in s
    ensures i < |s| && s[i] == c && c !in s[..i]
  {
    if s[0] == c then 0 else 1 + IndexOf(s[1..], c)
  }

  /** `s.split(sep, 1)` when it yields two parts; None when `sep` does not occur. */
  function SplitOnce(s: string, sep: char): (r: Option<(string, string)>)
    ensures r.None? <==> sep !in s
    ensures r.Some? ==> s == r.value.0 + [sep] + r.value.1 && sep !in r.value.0
  {
    if sep !in s then None
    else
      var i := IndexOf(s, sep);
      assert s == s[..i] + [sep] + s[i + 1..];
      Some((s[..i], s[i + 1..]))
  }

  /** The split point is the first separator, so the parts are unique. */
  lemma SplitOnceAt(a: string, sep: char, b: string)
    requires sep !in a
    ensures SplitOnce(a + [sep] + b, sep) == Some((a, b))
  {
    var s := a + [sep] + b;
    assert s[|a|] == sep;
    var r := SplitOnce(s, sep);
    var a', b' := r.value.0, r.value.1;
    assert |a'| == |a|;
    assert a' == s[..|a|] == a;
    assert b' == s[|a| + 1..] == b;
  }

  /** `s.split(sep, 1)[0]`: everything before the first `sep`, or all of `s`. */
  function BeforeFirst(s: string, sep: char): (r: string)
    ensures r <= s && sep !in r
    ensures |r| < |s| ==> s[|r|] == sep
  {
    if sep in s then s[..IndexOf(s, sep)] else s
  }

  /** `s.rfind(c)`: the last index holding `c`, or -1. */
  function LastIndexOf(s: string, c: char): (i: int)
    ensures -1 <= i < |s|
    ensures i >= 0 ==> s[i] == c
    ensures forall k :: i < k < |s| ==> s[k] != c
    decreases |s|
  {
    if s == [] then -1
    else if s[|s| - 1] == c then |s| - 1
    else LastIndexOf(s[..|s| - 1], c)
  }

  /** Text before the first separator, when the separator follows `a`. */
  lemma BeforeFirstAt(a: string, sep: char, b: string)
    requires sep !in a
    ensures BeforeFirst(a + [sep] + b, sep) == a
  {
    var s := a + [sep] + b;
    var r := BeforeFirst(s, sep);
    assert s[|a|] == sep;
    assert |r| == |a|;
  }

  /** `s.replace(pat, rep)`: non-overlapping occurrences, scanned left to right. */
  function Replace(s: string, pat: string, rep: string): (r: string)
    requires |pat| > 0
    ensures forall c :: c in r ==> c in s || c in rep
    decreases |s|
  {
    if |s| < |pat| then s
    else if s[..|pat|] == pat then rep + Replace(s[|pat|..], pat, rep)
    else [s[0]] + Replace(s[1..], pat, rep)
  }

  predicate HasDoubleDot(s: string) {
    exists i :: 0 <= i < |s| - 1 && s[i] == '.' && s[i + 1] == '.'
  }

  /** Text starting with anything but a dot keeps that first character. */
  lemma DropDoubleDotsKeepsHead(s: string)
    requires s != [] && s[0] != '.'
    ensures Replace(s, "..", "") != [] && Replace(s, "..", "")[0] == s[0]
  {
  }

  /** One left-to-right pass of `replace("..", "")` leaves no `..`: a new pair
      could only form around a lone dot, and a lone dot is followed by a
      character that is not a dot and is never removed. */
  lemma {:induction false} ReplaceRemovesDoubleDots(s: string)
    ensures !HasDoubleDot(Replace(s, "..", ""))
    decreases |s|
  {
    var r := Replace(s, "..", "");
    if |s| < 2 {
    } else if s[..2] == ".." {
      ReplaceRemovesDoubleDots(s[2..]);
    } else {
      var tail := Replace(s[1..], "..", "");
      ReplaceRemovesDoubleDots(s[1..]);
      assert r == [s[0]] + tail;
      if s[0] == '.' {
        assert s[1] != '.' by { assert s[..2] == [s[0], s[1]]; }
        DropDoubleDotsKeepsHead(s[1..]);
      }
    }
  }

  /** Text without dots is left alone. */
  lemma {:induction false} ReplaceWithoutDots(s: string)
    requires '.' !in s
    ensures Replace(s, "..", "") == s
    decreases |s|
  {
    if |s| >= 2 {
      assert s[..2] != ".." by { assert s[0] != '.'; }
      ReplaceWithoutDots(s[1..]);
      assert [s[0]] + s[1..] == s;
    }
  }

  /** The characters of `s` other than dots, in order. */
  function NonDots(s: string): string {
    if s == [] then [] else (if s[0] == '.' then [] else [s[0]]) + NonDots(s[1..])
  }

  /** Removing `..` never removes or reorders a character that is not a dot. */
  lemma {:induction false} ReplaceKeepsNonDots(s: string)
    ensures NonDots(Replace(s, "..", "")) == NonDots(s)
    decreases |s|
  {
    if |s| < 2 {
    } else if s[..2] == ".." {
      ReplaceKeepsNonDots(s[2..]);
      assert s[0] == '.' && s[1] == '.' by { assert s[..2] == [s[0], s[1]]; }
      assert s[1..][1..] == s[2..];
      assert NonDots(s[1..]) == NonDots(s[2..]);
      assert NonDots(s) == NonDots(s[1..]);
      assert Replace(s, "..", "") == Replace(s[2..], "..", "");
    } else {
      ReplaceKeepsNonDots(s[1..]);
      var tail := Replace(s[1..], "..", "");
      assert Replace(s, "..", "") == [s[0]] + tail;
      assert ([s[0]] + tail)[1..] == tail;
    }
  }

  /** The decimal digit character for `d`. */
  function DigitChar(d: nat): (c: char)
    requires d < 10
    ensures '0' <= c <= '9' && c as int - '0' as int == d
  {
    ('0' as int + d) as char
  }

  predicate AllDigits(s: string) {
    forall i :: 0 <= i < |s| ==> '0' <= s[i] <= '9'
  }

  /** `str(n)` for a natural number. */
  function NatToString(n: nat): (s: string)
    ensures |s| > 0 && AllDigits(s)
    decreases n
  {
    if n < 10 then [DigitChar(n)] else NatToString(n / 10) + [DigitChar(n % 10)]
  }

  /** The value of a string of decimal digits, `int(s)`. */
  function DigitsValue(s: string): nat
    requires AllDigits(s)
  {
    if s == [] then 0 else DigitsValue(s[..|s| - 1]) * 10 + (s[|s| - 1] as int - '0' as int)
  }

  lemma {:induction false} NatToStringRoundTrip(n: nat)
    ensures DigitsValue(NatToString(n)) == n
    decreases n
  {
    if n >= 10 {
      NatToStringRoundTrip(n / 10);
      var s := NatToString(n);
      assert s[..|s| - 1] == NatToString(n / 10);
    }
  }

  /** `str(i)` for any integer: an optional minus sign, then the digits. */
  function IntToString(i: int): (s: string)
    ensures |s| > 0
    ensures forall k :: 0 <= k < |s| ==> s[k] == '-' || '0' <= s[k] <= '9'
  {
    if i < 0 then "-" + NatToString(-i) else NatToString(i)
  }

  /** `int(s)` for strings that `str` produces from integers. */
  function ParseInt(s: string): int
    requires forall k :: 0 <= k < |s| ==> s[k] == '-' || '0' <= s[k] <= '9'
  {
    if s != [] && s[0] == '-' && AllDigits(s[1..]) then 0 - DigitsValue(s[1..])
    else if AllDigits(s) then DigitsValue(s)
    else 0
  }

  /** Decimal formatting is undone by parsing: the status code can be read back. */
  lemma IntToStringRoundTrip(i: int)
    ensures ParseInt(IntToString(i)) == i
  {
    if i < 0 {
      NatToStringRoundTrip(-i);
      assert IntToString(i)[1..] == NatToString(-i);
    } else {
      NatToStringRoundTrip(i);
    }
  }

  predicate IsIsoChar(c: char) {
    '0' <= c <= '9' || c == '-' || c == ':' || c == '.' || c == '+' || c == 'T' || c == 'Z'
  }

  /** A clock reading as `datetime.isoformat()` writes it: digits, `-`, `:`,
      `.`, `+`, `T` and `Z` only, so it needs no JSON escaping and encodes
      byte for byte. */
  type Timestamp = s: string | forall i :: 0 <= i < |s| ==> IsIsoChar(s[i]) witness ""

  lemma TimestampIsAscii(t: Timestamp)
    ensures IsAscii(t)
  {
  }
}
