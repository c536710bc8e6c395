/** The JSON form of an instruction sequence: `json.dumps(data,
    separators=(',', ':'))` and `json.loads(text)` for the one shape the
    program stores, an array of arrays of strings (RFC 8259, sections 5 and
    7).

    The encoder follows Python's defaults: no whitespace, and every character
    outside printable ASCII written as a `\uXXXX` escape with lower-case hex
    digits (a surrogate pair above U+FFFF). The decoder accepts what Python's
    decoder accepts for this shape: whitespace around every token, both cases
    of hex digits, all eight two-character escapes, surrogate pairs, and no
    raw control characters inside a string. It differs from Python's decoder
    only on a lone surrogate escape (`"\ud800"`), which it rejects: a Dafny
    `char` cannot hold a surrogate code point. */
module Json {
  import opened Wrappers
  import opened Strings
  import opened Simas

  const QUOTE: char := '"'
  const BACKSLASH: char := '\\'
  const COMMA: char := ','
  const OPEN_BRACKET: char := '['
  const CLOSE_BRACKET: char := ']'

  /** The characters the encoder may emit: printable ASCII. */
  predicate IsPrintable(c: char) {
    ' ' <= c <= '~'
  }

  predicate AllPrintable(s: string) {
    forall i :: 0 <= i < |s| ==> IsPrintable(s[i])
  }

  /** Insignificant whitespace between JSON tokens. */
  predicate IsJsonWS(c: char) {
    c == ' ' || c == '\t' || c == '\n' || c == '\r'
  }

  predicate IsHighSurrogate(n: nat) {
    0xD800 <= n < 0xDC00
  }

  predicate IsLowSurrogate(n: nat) {
    0xDC00 <= n < 0xE000
  }

  // ---------------------------------------------------------------------
  // Encoder

  function HexDigit(d: nat): (c: char)
    requires d < 16
    ensures IsPrintable(c)
    ensures if d < 10 then '0' <= c <= '9' else 'a' <= c <= 'f'
  {
    if d < 10 then ('0' as int + d) as char else ('a' as int + d - 10) as char
  }

  /** `\uXXXX` for a 16-bit value, lower-case hex digits. */
  function UnicodeEscape(n: nat): (e: string)
    requires n < 0x10000
    ensures |e| == 6 && AllPrintable(e)
  {
    [BACKSLASH, 'u', HexDigit(n / 16 / 16 / 16), HexDigit(n / 16 / 16 % 16), HexDigit(n / 16 % 16), HexDigit(n % 16)]
  }

  /** How the encoder writes one character of a string. */
  function EscapeChar(c: char): (e: string)
    ensures |e| > 0 && AllPrintable(e)
  {
    if c == QUOTE then [BACKSLASH, QUOTE]
    else if c == BACKSLASH then [BACKSLASH, BACKSLASH]
    else if c == '\n' then [BACKSLASH, 'n']
    else if c == '\r' then [BACKSLASH, 'r']
    else if c == '\t' then [BACKSLASH, 't']
    else if c == '\U{8}' then [BACKSLASH, 'b']
    else if c == '\U{C}' then [BACKSLASH, 'f']
    else if IsPrintable(c) then [c]
    else if c as int < 0x10000 then UnicodeEscape(c as int)
    else
      var m := c as int - 0x10000;
      UnicodeEscape(0xD800 + m / 0x400) + UnicodeEscape(0xDC00 + m % 0x400)
  }

  function EscapeText(s: string): string {
    if |s| == 0 then [] else EscapeChar(s[0]) + EscapeText(s[1..])
  }

  /** A JSON string literal. */
  function Quote(s: string): (q: string)
    ensures |q| >= 2 && q[0] == QUOTE && q[|q| - 1] == QUOTE
  {
    [QUOTE] + EscapeText(s) + [QUOTE]
  }

  function QuoteAll(tokens: seq<string>): (qs: seq<string>)
    ensures |qs| == |tokens|
    ensures forall i :: 0 <= i < |tokens| ==> qs[i] == Quote(tokens[i])
  {
    if |tokens| == 0 then [] else [Quote(tokens[0])] + QuoteAll(tokens[1..])
  }

  lemma {:induction false} JoinPrintable(parts: seq<string>, sep: char)
    requires IsPrintable(sep)
    requires forall i :: 0 <= i < |parts| ==> AllPrintable(parts[i])
    ensures AllPrintable(Join(parts, sep))
    decreases |parts|
  {
    if |parts| > 1 {
      JoinPrintable(parts[1..], sep);
    }
  }

  /** A JSON array of strings: `["MOV","A","B"]`. */
  function SerializeRecord(r: Record): (text: string)
    ensures |text| >= 2 && text[0] == OPEN_BRACKET && text[|text| - 1] == CLOSE_BRACKET
  {
    [OPEN_BRACKET] + Join(QuoteAll(r), COMMA) + [CLOSE_BRACKET]
  }

  function SerializeAll(program: seq<Record>): (texts: seq<string>)
    ensures |texts| == |program|
    ensures forall i :: 0 <= i < |program| ==> texts[i] == SerializeRecord(program[i])
  {
    if |program| == 0 then [] else [SerializeRecord(program[0])] + SerializeAll(program[1..])
  }

  /** `json.dumps(program, separators=(',', ':'))`: one bracketed array. */
  function Serialize(program: seq<Record>): (text: string)
    ensures |text| >= 2 && text[0] == OPEN_BRACKET && text[|text| - 1] == CLOSE_BRACKET
  {
    [OPEN_BRACKET] + Join(SerializeAll(program), COMMA) + [CLOSE_BRACKET]
  }

  lemma {:induction false} EscapeTextPrintable(s: string)
    ensures AllPrintable(EscapeText(s))
    decreases |s|
  {
    if |s| > 0 {
      EscapeTextPrintable(s[1..]);
    }
  }

  lemma SerializeRecordPrintable(r: Record)
    ensures AllPrintable(SerializeRecord(r))
  {
    var qs := QuoteAll(r);
    forall i | 0 <= i < |qs|
      ensures AllPrintable(qs[i])
    {
      EscapeTextPrintable(r[i]);
    }
    JoinPrintable(qs, COMMA);
  }

  /** The encoder writes printable ASCII only (`ensure_ascii`), so the
      encoded form holds no raw control character and no line break. */
  lemma SerializePrintable(program: seq<Record>)
    ensures AllPrintable(Serialize(program))
  {
    var rs := SerializeAll(program);
    forall i | 0 <= i < |rs|
      ensures AllPrintable(rs[i])
    {
      SerializeRecordPrintable(program[i]);
    }
    JoinPrintable(rs, COMMA);
  }

  /** A text of printable characters other than `"` and `\` is written
      as itself. */
  lemma {:induction false} EscapeTextPlain(s: string)
    requires forall i :: 0 <= i < |s| ==> IsPrintable(s[i]) && s[i] != QUOTE && s[i] != BACKSLASH
    ensures EscapeText(s) == s
    decreases |s|
  {
    if |s| > 0 {
      EscapeTextPlain(s[1..]);
      assert s == [s[0]] + s[1..];
    }
  }

  /** A `\uXXXX` escape is a backslash, a `u` and four hex digits. */
  lemma UnicodeEscapeNoWS(n: nat)
    requires n < 0x10000
    ensures NoWS(UnicodeEscape(n))
  {
    var e := UnicodeEscape(n);
    forall i | 0 <= i < |e|
      ensures !IsWS(e[i])
    {
      assert e[i] == BACKSLASH || e[i] == 'u' || '0' <= e[i] <= '9' || 'a' <= e[i] <= 'f';
    }
  }

  /** Only a space escapes to whitespace: every other character is written
      as itself (printable and not a space), or as a backslash followed by
      letters and hex digits. */
  lemma EscapeCharNoWS(c: char)
    requires c != ' '
    ensures NoWS(EscapeChar(c))
  {
    var e := EscapeChar(c);
    if c == QUOTE || c == BACKSLASH || c == '\n' || c == '\r' || c == '\t' || c == '\U{8}' || c == '\U{C}' {
      assert |e| == 2 && e[0] == BACKSLASH && (e[1] == c || 'a' <= e[1] <= 'z');
    } else if IsPrintable(c) {
      assert e == [c];
    } else if c as int < 0x10000 {
      UnicodeEscapeNoWS(c as int);
    } else {
      SurrogateEscapeNoWS(c);
    }
  }

  lemma SurrogateEscapeNoWS(c: char)
    requires 0x10000 <= c as int
    ensures NoWS(EscapeChar(c))
  {
    var m := c as int - 0x10000;
    var hi, lo := 0xD800 + m / 0x400, 0xDC00 + m % 0x400;
    assert hi < 0x10000 && lo < 0x10000;
    UnicodeEscapeNoWS(hi);
    UnicodeEscapeNoWS(lo);
    var e1, e2 := UnicodeEscape(hi), UnicodeEscape(lo);
    assert EscapeChar(c) == e1 + e2;
  }

  lemma {:induction false} EscapeTextNoWS(s: string)
    requires forall i :: 0 <= i < |s| ==> s[i] != ' '
    ensures NoWS(EscapeText(s))
    decreases |s|
  {
    if |s| > 0 {
      EscapeCharNoWS(s[0]);
      EscapeTextNoWS(s[1..]);
    }
  }

  lemma SerializeRecordNoWS(r: Record)
    requires forall j :: 0 <= j < |r| ==> IsToken(r[j])
    ensures NoWS(SerializeRecord(r))
  {
    var qs := QuoteAll(r);
    forall i | 0 <= i < |qs|
      ensures NoWS(qs[i])
    {
      assert IsToken(r[i]);
      assert IsWS(' ');
      EscapeTextNoWS(r[i]);
    }
    JoinNoWS(qs, COMMA);
  }

  /** The separators `','` and `':'` make the encoded form compact: a
      program of proper tokens encodes with no whitespace at all. */
  lemma SerializeNoWS(program: seq<Record>)
    requires WellFormed(program)
    ensures NoWS(Serialize(program))
  {
    var rs := SerializeAll(program);
    forall i | 0 <= i < |rs|
      ensures NoWS(rs[i])
    {
      SerializeRecordNoWS(program[i]);
    }
    JoinNoWS(rs, COMMA);
  }

  // ---------------------------------------------------------------------
  // Decoder

  function SkipWS(s: string): (r: string)
    ensures |r| <= |s|
    ensures |r| > 0 ==> !IsJsonWS(r[0])
  {
    if |s| > 0 && IsJsonWS(s[0]) then SkipWS(s[1..]) else s
  }

  function HexValue(c: char): (r: Option<nat>)
    ensures r.Some? ==> r.value < 16
  {
    if '0' <= c <= '9' then Some(c as int - '0' as int)
    else if 'a' <= c <= 'f' then Some(c as int - 'a' as int + 10)
    else if 'A' <= c <= 'F' then Some(c as int - 'A' as int + 10)
    else None
  }

  /** The value of the four hex digits that start `s`. */
  function Hex4(s: string): (r: Option<nat>)
    ensures r.Some? ==> |s| >= 4 && r.value < 0x10000
  {
    if |s| < 4 then None
    else
      var d0 :- HexValue(s[0]);
      var d1 :- HexValue(s[1]);
      var d2 :- HexValue(s[2]);
      var d3 :- HexValue(s[3]);
      Some(0x1000 * d0 + 0x100 * d1 + 0x10 * d2 + d3)
  }

  /** A `\u` escape at the start of `s`, with the number of characters it
      takes. A high surrogate followed by a `\u` escape of a low surrogate
      stands for one character above U+FFFF. */
  function ParseUnicodeEscape(s: string): (r: Option<(char, nat)>)
    requires |s| >= 2
    ensures r.Some? ==> 6 <= r.value.1 <= |s|
  {
    var hi :- Hex4(s[2..]);
    var lo := if |s| >= 12 && s[6] == BACKSLASH && s[7] == 'u' then Hex4(s[8..]) else None;
    if IsHighSurrogate(hi) && lo.Some? && IsLowSurrogate(lo.value) then
      // Python writes the offset as ((hi - 0xD800) << 10) | (lo - 0xDC00)
      Some(((0x10000 + (hi - 0xD800) * 0x400 + (lo.value - 0xDC00)) as char, 12))
    else if IsHighSurrogate(hi) || IsLowSurrogate(hi) then None
    else Some((hi as char, 6))
  }

  /** An escape sequence at the start of `s`, with the number of characters
      it takes. */
  function ParseEscape(s: string): (r: Option<(char, nat)>)
    ensures r.Some? ==> 2 <= r.value.1 <= |s|
  {
    if |s| < 2 || s[0] != BACKSLASH then None
    else if s[1] == QUOTE then Some((QUOTE, 2))
    else if s[1] == BACKSLASH then Some((BACKSLASH, 2))
    else if s[1] == '/' then Some(('/', 2))
    else if s[1] == 'b' then Some(('\U{8}', 2))
    else if s[1] == 'f' then Some(('\U{C}', 2))
    else if s[1] == 'n' then Some(('\n', 2))
    else if s[1] == 'r' then Some(('\r', 2))
    else if s[1] == 't' then Some(('\t', 2))
    else if s[1] == 'u' then ParseUnicodeEscape(s)
    else None
  }

  /** The rest of a string literal after its opening quote: the decoded
      characters and the text after the closing quote. */
  function ParseStringBody(s: string): (r: Option<(string, string)>)
    ensures r.Some? ==> |r.value.1| < |s|
    decreases |s|
  {
    if |s| == 0 then None
    else if s[0] == QUOTE then Some(([], s[1..]))
    else if s[0] == BACKSLASH then
      var e :- ParseEscape(s);
      var tail :- ParseStringBody(s[e.1..]);
      Some(([e.0] + tail.0, tail.1))
    else if s[0] < ' ' then None
    else
      var tail :- ParseStringBody(s[1..]);
      Some(([s[0]] + tail.0, tail.1))
  }

  function ParseString(s: string): (r: Option<(string, string)>)
    ensures r.Some? ==> |r.value.1| < |s|
  {
    if |s| > 0 && s[0] == QUOTE then ParseStringBody(s[1..]) else None
  }

  /** Puts `xs` in front of the items of a successful list parse. */
  function Prepend<T>(xs: seq<T>, r: Option<(seq<T>, string)>): Option<(seq<T>, string)> {
    match r
    case None => None
    case Some((ys, rest)) => Some((xs + ys, rest))
  }

  /** Strings separated by commas, up to and including the closing bracket. */
  function ParseTokenList(s: string): (r: Option<(seq<string>, string)>)
    ensures r.Some? ==> |r.value.1| < |s|
    decreases |s|, 1
  {
    var first :- ParseString(s);
    var more :- ParseTokensAfter(first.1);
    Some(([first.0] + more.0, more.1))
  }

  /** What may follow a string in an array: the closing bracket, or a comma
      and further strings. */
  function ParseTokensAfter(s: string): (r: Option<(seq<string>, string)>)
    ensures r.Some? ==> |r.value.1| < |s|
    decreases |s|, 0
  {
    var t := SkipWS(s);
    if |t| == 0 then None
    else if t[0] == CLOSE_BRACKET then Some(([], t[1..]))
    else if t[0] == COMMA then ParseTokenList(SkipWS(t[1..]))
    else None
  }

  /** An array of strings. */
  function ParseRecord(s: string): (r: Option<(Record, string)>)
    ensures r.Some? ==> |r.value.1| < |s|
  {
    if |s| == 0 || s[0] != OPEN_BRACKET then None
    else
      var t := SkipWS(s[1..]);
      if |t| > 0 && t[0] == CLOSE_BRACKET then Some(([], t[1..]))
      else ParseTokenList(t)
  }

  /** Arrays of strings separated by commas, up to and including the closing
      bracket. */
  function ParseRecordList(s: string): (r: Option<(seq<Record>, string)>)
    ensures r.Some? ==> |r.value.1| < |s|
    decreases |s|, 1
  {
    var first :- ParseRecord(s);
    var more :- ParseRecordsAfter(first.1);
    Some(([first.0] + more.0, more.1))
  }

  function ParseRecordsAfter(s: string): (r: Option<(seq<Record>, string)>)
    ensures r.Some? ==> |r.value.1| < |s|
    decreases |s|, 0
  {
    var t := SkipWS(s);
    if |t| == 0 then None
    else if t[0] == CLOSE_BRACKET then Some(([], t[1..]))
    else if t[0] == COMMA then ParseRecordList(SkipWS(t[1..]))
    else None
  }

  /** An array of arrays of strings. */
  function ParseProgram(s: string): (r: Option<(seq<Record>, string)>)
    ensures r.Some? ==> |r.value.1| < |s|
  {
    if |s| == 0 || s[0] != OPEN_BRACKET then None
    else
      var t := SkipWS(s[1..]);
      if |t| > 0 && t[0] == CLOSE_BRACKET then Some(([], t[1..]))
      else ParseRecordList(t)
  }

  /** `json.loads(text)` for an array of arrays of strings; `None` for a
      text that is not one, surrounded by nothing but whitespace. */
  function Parse(text: string): (r: Option<seq<Record>>)
    ensures r.Some? ==> |SkipWS(text)| > 0 && SkipWS(text)[0] == OPEN_BRACKET
  {
    var p :- ParseProgram(SkipWS(text));
    if |SkipWS(p.1)| == 0 then Some(p.0) else None
  }

  // ---------------------------------------------------------------------
  // The decoder reads back what the encoder writes

  lemma HexValueOfDigit(d: nat)
    requires d < 16
    ensures HexValue(HexDigit(d)) == Some(d)
  {
  }

  /** The four digits of a 16-bit value, most significant first, give the
      value back. */
  lemma DigitsValue(n: nat)
    requires n < 0x10000
    ensures n / 16 / 16 / 16 < 16
    ensures 0x1000 * (n / 16 / 16 / 16) + 0x100 * (n / 16 / 16 % 16) + 0x10 * (n / 16 % 16) + n % 16 == n
  {
    var q1 := n / 16;
    var q2 := q1 / 16;
    var q3 := q2 / 16;
    assert n == 16 * q1 + n % 16;
    assert q1 == 16 * q2 + q1 % 16;
    assert q2 == 16 * q3 + q2 % 16;
  }

  lemma Hex4OfDigits(s: string, d0: nat, d1: nat, d2: nat, d3: nat)
    requires d0 < 16 && d1 < 16 && d2 < 16 && d3 < 16
    requires |s| >= 4 && s[0] == HexDigit(d0) && s[1] == HexDigit(d1) && s[2] == HexDigit(d2) && s[3] == HexDigit(d3)
    ensures Hex4(s) == Some(0x1000 * d0 + 0x100 * d1 + 0x10 * d2 + d3)
  {
    HexValueOfDigit(d0);
    HexValueOfDigit(d1);
    HexValueOfDigit(d2);
    HexValueOfDigit(d3);
  }

  /** The four hex digits of a `\u` escape read back as its value. */
  lemma Hex4OfEscape(n: nat, rest: string)
    requires n < 0x10000
    ensures Hex4((UnicodeEscape(n) + rest)[2..]) == Some(n)
  {
    var s := (UnicodeEscape(n) + rest)[2..];
    DigitsValue(n);
    Hex4OfDigits(s, n / 16 / 16 / 16, n / 16 / 16 % 16, n / 16 % 16, n % 16);
  }

  /** A character up to U+FFFF written as one `\u` escape reads back, whatever
      follows it. */
  lemma ParseSingleEscape(c: char, rest: string)
    requires c as int < 0x10000
    ensures ParseEscape(UnicodeEscape(c as int) + rest) == Some((c, 6))
  {
    var s := UnicodeEscape(c as int) + rest;
    Hex4OfEscape(c as int, rest);
    assert s[1] == 'u';
  }

  /** A high and a low surrogate escape read back as the one character they
      stand for. */
  lemma ParseSurrogates(s: string, hi: nat, lo: nat)
    requires |s| >= 12 && s[0] == BACKSLASH && s[1] == 'u' && s[6] == BACKSLASH && s[7] == 'u'
    requires Hex4(s[2..]) == Some(hi) && IsHighSurrogate(hi)
    requires Hex4(s[8..]) == Some(lo) && IsLowSurrogate(lo)
    ensures ParseEscape(s).Some? && ParseEscape(s).value.1 == 12
    ensures ParseEscape(s).value.0 as int == 0x10000 + (hi - 0xD800) * 0x400 + (lo - 0xDC00)
  {
  }

  /** The surrogate pair of a code point above U+FFFF. */
  lemma SurrogateSplit(c: char)
    requires c as int >= 0x10000
    ensures var m := c as int - 0x10000;
            && IsHighSurrogate(0xD800 + m / 0x400) && IsLowSurrogate(0xDC00 + m % 0x400)
            && 0x10000 + (m / 0x400) * 0x400 + m % 0x400 == c as int
  {
    var m := c as int - 0x10000;
    assert m == 0x400 * (m / 0x400) + m % 0x400;
  }

  /** A character above U+FFFF written as a surrogate pair reads back,
      whatever follows it. */
  lemma ParsePairEscape(c: char, rest: string)
    requires c as int >= 0x10000
    ensures var m := c as int - 0x10000;
            ParseEscape(UnicodeEscape(0xD800 + m / 0x400) + UnicodeEscape(0xDC00 + m % 0x400) + rest)
              == Some((c, 12))
  {
    var m := c as int - 0x10000;
    var hi := 0xD800 + m / 0x400;
    var lo := 0xDC00 + m % 0x400;
    SurrogateSplit(c);
    var s := UnicodeEscape(hi) + UnicodeEscape(lo) + rest;
    assert s == UnicodeEscape(hi) + (UnicodeEscape(lo) + rest);
    Hex4OfEscape(hi, UnicodeEscape(lo) + rest);
    assert s[8..] == (UnicodeEscape(lo) + rest)[2..];
    Hex4OfEscape(lo, rest);
    ParseSurrogates(s, hi, lo);
  }

  /** Puts one character in front of a successful string parse. */
  function PrependChar(c: char, r: Option<(string, string)>): Option<(string, string)> {
    match r
    case None => None
    case Some((t, rest)) => Some(([c] + t, rest))
  }

  /** Every escaped character reads back as itself, and the parse goes on
      right after it. */
  lemma ParseEscapedChar(c: char, rest: string)
    ensures ParseStringBody(EscapeChar(c) + rest) == PrependChar(c, ParseStringBody(rest))
  {
    var e := EscapeChar(c);
    var s := e + rest;
    if e == [c] {
      assert s[1..] == rest;
    } else {
      assert s[0] == BACKSLASH;
      if |e| == 2 {
        assert ParseEscape(s) == Some((c, 2));
      } else if c as int < 0x10000 {
        ParseSingleEscape(c, rest);
      } else {
        ParsePairEscape(c, rest);
      }
      assert s[|e|..] == rest;
    }
  }

  /** The escaped characters of a string, followed by a closing quote, read
      back as that string, and the parse stops right after the quote. */
  lemma {:induction false} ParseEscapedText(t: string, rest: string)
    ensures ParseStringBody(EscapeText(t) + [QUOTE] + rest) == Some((t, rest))
    decreases |t|
  {
    if |t| == 0 {
      assert EscapeText(t) + [QUOTE] + rest == [QUOTE] + rest;
      assert ([QUOTE] + rest)[1..] == rest;
    } else {
      var tail := EscapeText(t[1..]) + [QUOTE] + rest;
      assert EscapeText(t) + [QUOTE] + rest == EscapeChar(t[0]) + tail;
      ParseEscapedChar(t[0], tail);
      ParseEscapedText(t[1..], rest);
      assert [t[0]] + t[1..] == t;
    }
  }

  /** A string literal written by the encoder reads back as the same string,
      and the parse stops right after its closing quote. */
  lemma ParseQuoted(t: string, rest: string)
    ensures ParseString(Quote(t) + rest) == Some((t, rest))
  {
    var q := Quote(t) + rest;
    assert q[1..] == EscapeText(t) + [QUOTE] + rest;
    ParseEscapedText(t, rest);
  }

  lemma PrependTwice<T>(xs: seq<T>, ys: seq<T>, r: Option<(seq<T>, string)>)
    ensures Prepend(xs, Prepend(ys, r)) == Prepend(xs + ys, r)
  {
    match r
    case None =>
    case Some((zs, rest)) =>
      assert xs + (ys + zs) == (xs + ys) + zs;
  }

  lemma SkipWSNothing(s: string)
    requires |s| > 0 && !IsJsonWS(s[0])
    ensures SkipWS(s) == s
  {
  }

  lemma ParseTokensAfterClose(rest: string)
    ensures ParseTokensAfter([CLOSE_BRACKET] + rest) == Some(([], rest))
  {
    SkipWSNothing([CLOSE_BRACKET] + rest);
    assert ([CLOSE_BRACKET] + rest)[1..] == rest;
  }

  lemma ParseTokensAfterComma(s: string)
    requires |s| > 0 && s[0] == QUOTE
    ensures ParseTokensAfter([COMMA] + s) == ParseTokenList(s)
  {
    SkipWSNothing([COMMA] + s);
    assert ([COMMA] + s)[1..] == s;
    SkipWSNothing(s);
  }

  lemma ParseTokenListStep(t: string, rest: string)
    ensures ParseTokenList(Quote(t) + rest) == Prepend([t], ParseTokensAfter(rest))
  {
    ParseQuoted(t, rest);
  }

  lemma ParseRecordsAfterClose(rest: string)
    ensures ParseRecordsAfter([CLOSE_BRACKET] + rest) == Some(([], rest))
  {
    SkipWSNothing([CLOSE_BRACKET] + rest);
    assert ([CLOSE_BRACKET] + rest)[1..] == rest;
  }

  lemma ParseRecordsAfterComma(s: string)
    requires |s| > 0 && s[0] == OPEN_BRACKET
    ensures ParseRecordsAfter([COMMA] + s) == ParseRecordList(s)
  {
    SkipWSNothing([COMMA] + s);
    assert ([COMMA] + s)[1..] == s;
    SkipWSNothing(s);
  }

  lemma ParseRecordListStep(r: Record, rest: string)
    ensures ParseRecordList(SerializeRecord(r) + rest) == Prepend([r], ParseRecordsAfter(rest))
  {
    ParseSerializedRecord(r, rest);
  }

  lemma ParseTokenThenComma(t: string, s: string)
    requires |s| > 0 && s[0] == QUOTE
    ensures ParseTokenList(Quote(t) + ([COMMA] + s)) == Prepend([t], ParseTokenList(s))
  {
    ParseTokenListStep(t, [COMMA] + s);
    ParseTokensAfterComma(s);
  }

  lemma ParseRecordThenComma(r: Record, s: string)
    requires |s| > 0 && s[0] == OPEN_BRACKET
    ensures ParseRecordList(SerializeRecord(r) + ([COMMA] + s)) == Prepend([r], ParseRecordList(s))
  {
    ParseRecordListStep(r, [COMMA] + s);
    ParseRecordsAfterComma(s);
  }

  lemma JoinedTokens(tokens: seq<string>, rest: string)
    requires |tokens| > 1
    ensures var more := Join(QuoteAll(tokens[1..]), COMMA);
            && Join(QuoteAll(tokens), COMMA) + rest == Quote(tokens[0]) + ([COMMA] + (more + rest))
            && |more + rest| > 0 && (more + rest)[0] == QUOTE
  {
    var qs := QuoteAll(tokens);
    assert qs[1..] == QuoteAll(tokens[1..]);
    JoinFirst(qs, COMMA, rest);
  }

  lemma JoinedRecords(program: seq<Record>, rest: string)
    requires |program| > 1
    ensures var more := Join(SerializeAll(program[1..]), COMMA);
            && Join(SerializeAll(program), COMMA) + rest == SerializeRecord(program[0]) + ([COMMA] + (more + rest))
            && |more + rest| > 0 && (more + rest)[0] == OPEN_BRACKET
  {
    var rs := SerializeAll(program);
    assert rs[1..] == SerializeAll(program[1..]);
    JoinFirst(rs, COMMA, rest);
  }

  /** Comma-separated string literals written by the encoder read back as
      the same strings; the parse then goes on with whatever follows them. */
  lemma {:induction false} ParseTokenListJoined(tokens: seq<string>, rest: string)
    requires |tokens| > 0
    ensures ParseTokenList(Join(QuoteAll(tokens), COMMA) + rest) == Prepend(tokens, ParseTokensAfter(rest))
    decreases |tokens|
  {
    if |tokens| == 1 {
      ParseOneToken(tokens, rest);
    } else {
      var more := Join(QuoteAll(tokens[1..]), COMMA);
      JoinedTokens(tokens, rest);
      ParseTokenThenComma(tokens[0], more + rest);
      ParseTokenListJoined(tokens[1..], rest);
      PrependTwice([tokens[0]], tokens[1..], ParseTokensAfter(rest));
      assert [tokens[0]] + tokens[1..] == tokens;
    }
  }


  lemma ParseOneToken(tokens: seq<string>, rest: string)
    requires |tokens| == 1
    ensures ParseTokenList(Join(QuoteAll(tokens), COMMA) + rest) == Prepend(tokens, ParseTokensAfter(rest))
  {
    assert Join(QuoteAll(tokens), COMMA) == Quote(tokens[0]);
    ParseTokenListStep(tokens[0], rest);
    assert tokens == [tokens[0]];
  }

  /** After an opening bracket, the parser reads either the closing bracket
      of an empty array or a list of items. */
  lemma ParseEmptyArrays(rest: string)
    ensures ParseRecord([OPEN_BRACKET, CLOSE_BRACKET] + rest) == Some(([], rest))
    ensures ParseProgram([OPEN_BRACKET, CLOSE_BRACKET] + rest) == Some(([], rest))
  {
    var s := [CLOSE_BRACKET] + rest;
    assert ([OPEN_BRACKET, CLOSE_BRACKET] + rest)[1..] == s;
    SkipWSNothing(s);
    assert s[1..] == rest;
  }

  lemma ParseRecordOpen(s: string)
    requires |s| > 0 && s[0] == QUOTE
    ensures ParseRecord([OPEN_BRACKET] + s) == ParseTokenList(s)
  {
    assert ([OPEN_BRACKET] + s)[1..] == s;
    SkipWSNothing(s);
  }

  lemma ParseProgramOpen(s: string)
    requires |s| > 0 && s[0] == OPEN_BRACKET
    ensures ParseProgram([OPEN_BRACKET] + s) == ParseRecordList(s)
  {
    assert ([OPEN_BRACKET] + s)[1..] == s;
    SkipWSNothing(s);
  }

  /** The text of an array: brackets around the joined items. */
  lemma BracketedShape(inner: string, rest: string)
    ensures [OPEN_BRACKET] + inner + [CLOSE_BRACKET] + rest == [OPEN_BRACKET] + (inner + ([CLOSE_BRACKET] + rest))
  {
  }

  /** The joined string literals of a non-empty record start with a quote. */
  lemma QuotedStart(r: Record, rest: string)
    requires |r| > 0
    ensures |Join(QuoteAll(r), COMMA) + rest| > 0 && (Join(QuoteAll(r), COMMA) + rest)[0] == QUOTE
  {
    JoinStartsWith(QuoteAll(r), COMMA);
  }

  /** An array of strings written by the encoder reads back as the same
      record, and the parse stops right after its closing bracket. */
  lemma ParseSerializedRecord(r: Record, rest: string)
    ensures ParseRecord(SerializeRecord(r) + rest) == Some((r, rest))
  {
    var inner := Join(QuoteAll(r), COMMA);
    assert SerializeRecord(r) + rest == [OPEN_BRACKET] + inner + [CLOSE_BRACKET] + rest;
    BracketedShape(inner, rest);
    if |r| > 0 {
      QuotedStart(r, [CLOSE_BRACKET] + rest);
      ParseRecordOpen(inner + ([CLOSE_BRACKET] + rest));
      ParseTokenListJoined(r, [CLOSE_BRACKET] + rest);
      ParseTokensAfterClose(rest);
      assert r + [] == r;
    } else {
      assert [OPEN_BRACKET] + (inner + ([CLOSE_BRACKET] + rest)) == [OPEN_BRACKET, CLOSE_BRACKET] + rest;
      ParseEmptyArrays(rest);
    }
  }

  /** Comma-separated arrays written by the encoder read back as the same
      records; the parse then goes on with whatever follows them. */
  lemma {:induction false} ParseRecordListJoined(program: seq<Record>, rest: string)
    requires |program| > 0
    ensures ParseRecordList(Join(SerializeAll(program), COMMA) + rest) == Prepend(program, ParseRecordsAfter(rest))
    decreases |program|
  {
    if |program| == 1 {
      ParseOneRecord(program, rest);
    } else {
      var more := Join(SerializeAll(program[1..]), COMMA);
      JoinedRecords(program, rest);
      ParseRecordThenComma(program[0], more + rest);
      ParseRecordListJoined(program[1..], rest);
      PrependTwice([program[0]], program[1..], ParseRecordsAfter(rest));
      assert [program[0]] + program[1..] == program;
    }
  }


  lemma ParseOneRecord(program: seq<Record>, rest: string)
    requires |program| == 1
    ensures ParseRecordList(Join(SerializeAll(program), COMMA) + rest) == Prepend(program, ParseRecordsAfter(rest))
  {
    assert Join(SerializeAll(program), COMMA) == SerializeRecord(program[0]);
    ParseRecordListStep(program[0], rest);
    assert program == [program[0]];
  }

  /** The joined arrays of a non-empty program start with a bracket. */
  lemma SerializedStart(program: seq<Record>, rest: string)
    requires |program| > 0
    ensures |Join(SerializeAll(program), COMMA) + rest| > 0 && (Join(SerializeAll(program), COMMA) + rest)[0] == OPEN_BRACKET
  {
    JoinStartsWith(SerializeAll(program), COMMA);
  }

  /** The parse of an encoded program followed by anything stops right after
      the encoded program, with the records that were encoded. */
  lemma ParseSerializedProgram(program: seq<Record>, rest: string)
    ensures ParseProgram(Serialize(program) + rest) == Some((program, rest))
  {
    var inner := Join(SerializeAll(program), COMMA);
    assert Serialize(program) + rest == [OPEN_BRACKET] + inner + [CLOSE_BRACKET] + rest;
    BracketedShape(inner, rest);
    if |program| > 0 {
      SerializedStart(program, [CLOSE_BRACKET] + rest);
      ParseProgramOpen(inner + ([CLOSE_BRACKET] + rest));
      ParseRecordListJoined(program, [CLOSE_BRACKET] + rest);
      ParseRecordsAfterClose(rest);
      assert program + [] == program;
    } else {
      assert [OPEN_BRACKET] + (inner + ([CLOSE_BRACKET] + rest)) == [OPEN_BRACKET, CLOSE_BRACKET] + rest;
      ParseEmptyArrays(rest);
    }
  }

  /** A text that starts with its array and holds nothing after it parses
      as that array. */
  lemma ParseWhole(text: string, program: seq<Record>)
    requires |text| > 0 && !IsJsonWS(text[0])
    requires ParseProgram(text) == Some((program, []))
    ensures Parse(text) == Some(program)
  {
    SkipWSNothing(text);
  }

  /** `json.loads(json.dumps(x)) == x` for every instruction sequence. */
  lemma ParseSerialize(program: seq<Record>)
    ensures Parse(Serialize(program)) == Some(program)
  {
    var text := Serialize(program);
    ParseSerializedProgram(program, []);
    assert text + [] == text;
    ParseWhole(text, program);
  }

  /** An encoded program cut short by its last character does not parse. */
  lemma ParseTruncated(program: seq<Record>)
    ensures var text := Serialize(program);
            Parse(text[..|text| - 1]) == None
  {
    var text := Serialize(program);
    var inner := Join(SerializeAll(program), COMMA);
    var cut := text[..|text| - 1];
    assert cut == [OPEN_BRACKET] + inner;
    SkipWSNothing(cut);
    if |program| > 0 {
      SerializedStart(program, []);
      assert inner + [] == inner;
      ParseProgramOpen(inner);
      ParseRecordListJoined(program, []);
    } else {
      assert cut == [OPEN_BRACKET];
    }
  }
}
