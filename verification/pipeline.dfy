/** The data flow of `compile_simas` and `decompile_csa` without the file and
    console calls: a source text becomes the stored `.csa` text, and a stored
    text becomes source text again or is rejected. */
module Pipeline {
  import opened Wrappers
  import opened Strings
  import opened Obfuscation
  import opened Simas
  import opened Json

  /** Why a stored text cannot be decompiled. */
  datatype DecodeError = InvalidCsa

  /** The stored text for a source text: tokenize, encode as JSON, obscure. */
  function Compile(src: string): (data: string)
    ensures |data| >= 2
    ensures Parse(XString(data)) == Some(SimasToJson(src))
  {
    var json := Serialize(SimasToJson(src));
    XStringInvolutive(json);
    ParseSerialize(SimasToJson(src));
    XString(json)
  }

  /** The source text for a stored text: reveal, decode the JSON, format.
      A text whose revealed form is not JSON of the stored shape is
      rejected, and that is the only way to fail. */
  function Decompile(data: string): (r: Result<string, DecodeError>)
    ensures r.Success? <==> Parse(XString(data)).Some?
    ensures r.Success? ==> (|r.value| == 0 <==> Parse(XString(data)).value == [])
  {
    match Parse(XString(data))
    case None => Failure(InvalidCsa)
    case Some(program) => Success(JsonToSimas(program))
  }

  /** Decompiling a compiled source gives the canonical form of the source. */
  lemma DecompileCompile(src: string)
    ensures Decompile(Compile(src)) == Success(JsonToSimas(SimasToJson(src)))
  {
  }

  /** Compiling the decompiled text stores exactly the same text again. */
  lemma CompileDecompileCompile(src: string)
    ensures Decompile(Compile(src)).Success?
    ensures Compile(Decompile(Compile(src)).value) == Compile(src)
  {
    DecompileCompile(src);
    SimasToJsonStable(src);
  }

  /** The decompiled text of a compiled source decompiles to itself once
      recompiled: the canonical form is a fixed point of the round trip. */
  lemma DecompileIdempotent(src: string)
    ensures var text := Decompile(Compile(src)).value;
            Decompile(Compile(text)) == Success(text)
  {
    CompileDecompileCompile(src);
  }

  /** A rejected text is not the output of the compiler for any source. */
  lemma RejectedNotCompiled(data: string)
    requires Decompile(data).Failure?
    ensures forall src :: Compile(src) != data
  {
  }

  /** An empty stored file is rejected. */
  lemma DecompileEmpty()
    ensures Decompile([]) == Failure(InvalidCsa)
  {
  }

  /** A compiled text that lost its last character is rejected. */
  lemma DecompileRejectsTruncated(src: string)
    ensures var data := Compile(src);
            Decompile(data[..|data| - 1]) == Failure(InvalidCsa)
  {
    var json := Serialize(SimasToJson(src));
    var cut := json[..|json| - 1];
    var data := Compile(src);
    assert data[..|data| - 1] == XString(cut) by {
      assert data == XString(json);
      XStringPrefix(json, |json| - 1);
    }
    assert Parse(XString(XString(cut))) == None by {
      XStringInvolutive(cut);
      ParseTruncated(SimasToJson(src));
    }
  }

  // ---------------------------------------------------------------------
  // Reading the stored file back

  /** What Python's default text mode (universal newlines) hands back for
      the characters of a file: `\r\n` and a lone `\r` both arrive as `\n`. */
  function ReadUniversal(s: string): (r: string)
    ensures |r| <= |s|
    ensures forall i :: 0 <= i < |r| ==> r[i] != CARRIAGE_RETURN
  {
    if |s| == 0 then []
    else if s[0] == CARRIAGE_RETURN then
      [NEWLINE] + (if |s| > 1 && s[1] == NEWLINE then ReadUniversal(s[2..]) else ReadUniversal(s[1..]))
    else [s[0]] + ReadUniversal(s[1..])
  }

  /** A text without carriage returns is read back unchanged. */
  lemma {:induction false} ReadUniversalNoCR(s: string)
    requires forall i :: 0 <= i < |s| ==> s[i] != CARRIAGE_RETURN
    ensures ReadUniversal(s) == s
  {
    if |s| > 0 {
      ReadUniversalNoCR(s[1..]);
    }
  }

  /** Text without carriage returns passes the read unchanged even in
      front of other text. */
  lemma {:induction false} ReadUniversalPrefix(a: string, t: string)
    requires forall i :: 0 <= i < |a| ==> a[i] != CARRIAGE_RETURN
    ensures ReadUniversal(a + t) == a + ReadUniversal(t)
  {
    if |a| > 0 {
      assert (a + t)[1..] == a[1..] + t;
      ReadUniversalPrefix(a[1..], t);
    } else {
      assert a + t == t;
    }
  }

  /** A carriage return followed by a line feed is read as one line feed. */
  lemma ReadUniversalCRLF(a: string, b: string)
    requires forall i :: 0 <= i < |a| ==> a[i] != CARRIAGE_RETURN
    ensures ReadUniversal(a + [CARRIAGE_RETURN, NEWLINE] + b) == a + [NEWLINE] + ReadUniversal(b)
  {
    assert a + [CARRIAGE_RETURN, NEWLINE] + b == a + ([CARRIAGE_RETURN, NEWLINE] + b);
    ReadUniversalPrefix(a, [CARRIAGE_RETURN, NEWLINE] + b);
    assert ([CARRIAGE_RETURN, NEWLINE] + b)[2..] == b;
  }

  /** A lone carriage return is read as a line feed and nothing else moves. */
  lemma ReadUniversalLoneCR(a: string, b: string)
    requires forall i :: 0 <= i < |a| ==> a[i] != CARRIAGE_RETURN
    requires forall i :: 0 <= i < |b| ==> b[i] != CARRIAGE_RETURN
    requires |b| == 0 || b[0] != NEWLINE
    ensures ReadUniversal(a + [CARRIAGE_RETURN] + b) == a + [NEWLINE] + b
  {
    assert a + [CARRIAGE_RETURN] + b == a + ([CARRIAGE_RETURN] + b);
    ReadUniversalPrefix(a, [CARRIAGE_RETURN] + b);
    assert ([CARRIAGE_RETURN] + b)[1..] == b;
    ReadUniversalNoCR(b);
  }

  /** `decompile_csa` as written: the stored text goes through the text-mode
      read before it is revealed. */
  function DecompileStored(stored: string): (r: Result<string, DecodeError>)
    ensures r.Success? <==> Parse(XString(ReadUniversal(stored))).Some?
  {
    Decompile(ReadUniversal(stored))
  }

  /** A one-letter instruction and its canonical text. */
  lemma OneLetterText(x: char)
    requires !IsWS(x)
    ensures SimasToJson([x, SEMICOLON]) == [[[x]]]
    ensures JsonToSimas([[[x]]]) == [x, SEMICOLON]
  {
    var r: Record := [[x]];
    assert FormatRecord(r) == [x, SEMICOLON];
    assert FormatLines([r]) == [[x, SEMICOLON]];
    assert WellFormed([r]) by {
      assert IsToken([x]);
    }
    SimasRoundTrip([r]);
  }

  /** The JSON form of a one-letter instruction. */
  lemma OneLetterJson(x: char)
    requires IsPrintable(x) && x != QUOTE && x != BACKSLASH
    ensures Serialize([[[x]]]) == [OPEN_BRACKET, OPEN_BRACKET, QUOTE, x, QUOTE, CLOSE_BRACKET, CLOSE_BRACKET]
  {
    var r: Record := [[x]];
    assert EscapeText([x]) == [x];
    assert Quote([x]) == [QUOTE, x, QUOTE];
    assert QuoteAll(r) == [Quote([x])];
    assert SerializeRecord(r) == [OPEN_BRACKET, QUOTE, x, QUOTE, CLOSE_BRACKET];
    assert SerializeAll([r]) == [SerializeRecord(r)];
  }

  /** A character and its image under the key, in both directions. */
  lemma KeyMaps(c: char, d: char)
    requires Xor(c as int, XKEY) == d as int
    ensures XorChar(c) == d && XorChar(d) == c
  {
    XorKeyStaysInBlock(c as int);
    XorCharInvolutive(c);
  }

  /** One step of the bitwise XOR. */
  lemma XorBit(a: nat, b: nat, q: nat)
    requires a + b > 0 && q == Xor(a / 2, b / 2)
    ensures Xor(a, b) == 2 * q + (if a % 2 == b % 2 then 0 else 1)
  {
  }

  /** The key on the code points of `[`, `"`, `]` and `M`, one bit at a
      time. */
  lemma KeyValues()
    ensures Xor(91, 71) == 28 && Xor(34, 71) == 101 && Xor(93, 71) == 26 && Xor(77, 71) == 10
  {
    XorBit(1, 1, 0);
    XorBit(2, 2, 0);
    XorBit(5, 4, 0);
    XorBit(11, 8, 1);
    XorBit(22, 17, 3);
    XorBit(45, 35, 7);
    XorBit(91, 71, 14);
    XorBit(0, 1, 0);
    XorBit(1, 2, 1);
    XorBit(2, 4, 3);
    XorBit(4, 8, 6);
    XorBit(8, 17, 12);
    XorBit(17, 35, 25);
    XorBit(34, 71, 50);
    XorBit(1, 1, 0);
    XorBit(2, 2, 0);
    XorBit(5, 4, 0);
    XorBit(11, 8, 1);
    XorBit(23, 17, 3);
    XorBit(46, 35, 6);
    XorBit(93, 71, 13);
    XorBit(1, 1, 0);
    XorBit(2, 2, 0);
    XorBit(4, 4, 0);
    XorBit(9, 8, 0);
    XorBit(19, 17, 1);
    XorBit(38, 35, 2);
    XorBit(77, 71, 5);
  }

  /** The key maps `J` to a carriage return and back. */
  lemma KeyOnJump()
    ensures XorChar('J') == '\r' && XorChar('\r') == 'J'
  {
    XorBit(1, 1, 0);
    XorBit(2, 2, 0);
    XorBit(4, 4, 0);
    XorBit(9, 8, 0);
    XorBit(18, 17, 1);
    XorBit(37, 35, 3);
    XorBit(74, 71, 6);
    KeyMaps('J', '\r');
  }

  /** The key on the characters of `[["J"]]` and `[["M"]]`. */
  lemma KeyOnBrackets()
    ensures XorChar('[') == '\U{1C}' && XorChar('\U{1C}') == '['
    ensures XorChar('"') == 'e' && XorChar('e') == '"'
    ensures XorChar(']') == '\U{1A}' && XorChar('\U{1A}') == ']'
    ensures XorChar('J') == '\r' && XorChar('\n') == 'M' && XorChar('M') == '\n'
  {
    KeyValues();
    KeyMaps('[', '\U{1C}');
    KeyMaps('"', 'e');
    KeyMaps(']', '\U{1A}');
    KeyOnJump();
    KeyMaps('M', '\n');
  }

  /** The stored form of `[["J"]]`. */
  lemma StoredJump()
    ensures XString("[[\"J\"]]") == ['\U{1C}', '\U{1C}', 'e', '\r', 'e', '\U{1A}', '\U{1A}']
  {
    KeyOnBrackets();
    var sj := "[[\"J\"]]";
    assert sj[0] == '[' && sj[1] == '[' && sj[2] == '"' && sj[3] == 'J' && sj[4] == '"' && sj[5] == ']' && sj[6] == ']';
  }

  /** The revealed form of `[["M"]]` as read back. */
  lemma RevealedMove()
    ensures XString(['\U{1C}', '\U{1C}', 'e', '\n', 'e', '\U{1A}', '\U{1A}']) == "[[\"M\"]]"
  {
    KeyOnBrackets();
    var rm := ['\U{1C}', '\U{1C}', 'e', '\n', 'e', '\U{1A}', '\U{1A}'];
    assert rm[0] == '\U{1C}' && rm[1] == '\U{1C}' && rm[2] == 'e' && rm[3] == '\n' && rm[4] == 'e' && rm[5] == '\U{1A}' && rm[6] == '\U{1A}';
  }

  /** `J;` is stored with a carriage return where the `J` was. */
  lemma CompileJump()
    ensures Compile("J;") == ['\U{1C}', '\U{1C}', 'e', '\r', 'e', '\U{1A}', '\U{1A}']
  {
    OneLetterText('J');
    OneLetterJson('J');
    StoredJump();
  }

  /** The text-mode read of the stored `J;` has a line feed in its place. */
  lemma ReadJump()
    ensures ReadUniversal(['\U{1C}', '\U{1C}', 'e', '\r', 'e', '\U{1A}', '\U{1A}'])
         == ['\U{1C}', '\U{1C}', 'e', '\n', 'e', '\U{1A}', '\U{1A}']
  {
    var a := ['\U{1C}', '\U{1C}', 'e'];
    var b := ['e', '\U{1A}', '\U{1A}'];
    ReadUniversalLoneCR(a, b);
    assert ['\U{1C}', '\U{1C}', 'e', '\r', 'e', '\U{1A}', '\U{1A}'] == a + [CARRIAGE_RETURN] + b;
    assert ['\U{1C}', '\U{1C}', 'e', '\n', 'e', '\U{1A}', '\U{1A}'] == a + [NEWLINE] + b;
  }

  /** The line feed reveals as `M`. */
  lemma DecompileReadJump()
    ensures Decompile(['\U{1C}', '\U{1C}', 'e', '\n', 'e', '\U{1A}', '\U{1A}']) == Success("M;")
  {
    OneLetterText('M');
    OneLetterJson('M');
    RevealedMove();
    ParseSerialize([["M"]]);
  }

  /** The key maps `J` to a carriage return, so the one-instruction source
      `J;` is stored with a `\r`; the text-mode read turns it into `\n`,
      which reveals as `M`. Without the read the round trip holds. */
  lemma StoredJumpReadsAsMove()
    ensures Decompile(Compile("J;")) == Success("J;")
    ensures DecompileStored(Compile("J;")) == Success("M;")
  {
    OneLetterText('J');
    DecompileCompile("J;");
    CompileJump();
    ReadJump();
    DecompileReadJump();
  }

  /** Only a `J` is stored as a carriage return. */
  lemma OnlyJStoredAsCR(json: string)
    requires forall i :: 0 <= i < |json| ==> json[i] != 'J'
    ensures forall i :: 0 <= i < |json| ==> XString(json)[i] != CARRIAGE_RETURN
  {
    KeyOnJump();
    forall i | 0 <= i < |json|
      ensures XString(json)[i] != CARRIAGE_RETURN
    {
      XorCharInvolutive(json[i]);
    }
  }

  /** Only a `J` in the JSON form is stored as a carriage return, so a
      program whose JSON form has no `J` survives the text-mode read. */
  lemma StoredWithoutJ(src: string)
    requires forall i :: 0 <= i < |Serialize(SimasToJson(src))| ==> Serialize(SimasToJson(src))[i] != 'J'
    ensures DecompileStored(Compile(src)) == Success(JsonToSimas(SimasToJson(src)))
  {
    var json := Serialize(SimasToJson(src));
    var data := Compile(src);
    assert data == XString(json);
    OnlyJStoredAsCR(json);
    ReadUniversalNoCR(data);
    DecompileCompile(src);
  }

  /** The key turns `JM` into `\r\n` and leaves the rest in place. */
  lemma StoredJumpMove(a: string, b: string)
    ensures XString(a + "JM" + b) == XString(a) + [CARRIAGE_RETURN, NEWLINE] + XString(b)
  {
    KeyOnBrackets();
    assert XString("JM") == [CARRIAGE_RETURN, NEWLINE];
    assert a + "JM" + b == a + ("JM" + b);
    XStringAppend(a, "JM" + b);
    XStringAppend("JM", b);
  }

  /** The key turns a line feed back into `M` and leaves the rest in place. */
  lemma RevealedLineFeed(a: string, b: string)
    ensures XString(a + [NEWLINE] + b) == XString(a) + "M" + XString(b)
  {
    KeyOnBrackets();
    assert XString([NEWLINE]) == "M";
    assert a + [NEWLINE] + b == a + ([NEWLINE] + b);
    XStringAppend(a, [NEWLINE] + b);
    XStringAppend([NEWLINE], b);
  }

  /** In a JSON text with no other `J`, a `JM` is stored as `\r\n`. The
      text-mode read makes that one line feed, which reveals as `M`: the `J`
      is lost and everything around it is kept. */
  lemma JumpMoveCollapses(a: string, b: string)
    requires forall i :: 0 <= i < |a| ==> a[i] != 'J'
    requires forall i :: 0 <= i < |b| ==> b[i] != 'J'
    ensures XString(ReadUniversal(XString(a + "JM" + b))) == a + "M" + b
  {
    var sa, sb := XString(a), XString(b);
    StoredJumpMove(a, b);
    assert ReadUniversal(sa + [CARRIAGE_RETURN, NEWLINE] + sb) == sa + [NEWLINE] + sb by {
      OnlyJStoredAsCR(a);
      OnlyJStoredAsCR(b);
      ReadUniversalCRLF(sa, sb);
      ReadUniversalNoCR(sb);
    }
    RevealedLineFeed(sa, sb);
    XStringInvolutive(a);
    XStringInvolutive(b);
  }

  /** The canonical text of a one-line program of two tokens. */
  lemma TwoTokenText(x: string, y: string)
    requires IsToken(x) && IsToken(y)
    ensures JsonToSimas([[x, y]]) == x + [SPACE] + y + [SEMICOLON]
    ensures SimasToJson(x + [SPACE] + y + [SEMICOLON]) == [[x, y]]
  {
    var r: Record := [x, y];
    JoinTwo(x, y, SPACE);
    assert FormatLines([r]) == [FormatRecord(r)];
    assert WellFormed([r]);
    SimasRoundTrip([r]);
  }

  /** The JSON form of a one-line program of two plain tokens. */
  lemma TwoTokenJson(x: string, y: string)
    requires forall i :: 0 <= i < |x| ==> IsPrintable(x[i]) && x[i] != QUOTE && x[i] != BACKSLASH
    requires forall i :: 0 <= i < |y| ==> IsPrintable(y[i]) && y[i] != QUOTE && y[i] != BACKSLASH
    ensures Serialize([[x, y]])
         == [OPEN_BRACKET, OPEN_BRACKET, QUOTE] + x + ([QUOTE, COMMA, QUOTE] + y + [QUOTE, CLOSE_BRACKET, CLOSE_BRACKET])
  {
    var r: Record := [x, y];
    var qx, qy := Quote(x), Quote(y);
    var record := SerializeRecord(r);
    assert Serialize([r]) == [OPEN_BRACKET] + record + [CLOSE_BRACKET] by {
      assert SerializeAll([r]) == [record];
    }
    assert record == [OPEN_BRACKET] + (qx + [COMMA] + qy) + [CLOSE_BRACKET] by {
      assert QuoteAll(r) == [qx, qy];
      JoinTwo(qx, qy, COMMA);
    }
    assert qx == [QUOTE] + x + [QUOTE] by {
      EscapeTextPlain(x);
    }
    assert qy == [QUOTE] + y + [QUOTE] by {
      EscapeTextPlain(y);
    }
    TwoStringArrays(x, y);
  }

  /** How the brackets, quotes and comma of `[["x","y"]]` line up. */
  lemma TwoStringArrays(x: string, y: string)
    ensures [OPEN_BRACKET] + ([OPEN_BRACKET] + (([QUOTE] + x + [QUOTE]) + [COMMA] + ([QUOTE] + y + [QUOTE])) + [CLOSE_BRACKET]) + [CLOSE_BRACKET]
         == [OPEN_BRACKET, OPEN_BRACKET, QUOTE] + x + ([QUOTE, COMMA, QUOTE] + y + [QUOTE, CLOSE_BRACKET, CLOSE_BRACKET])
  {
  }


  /** Printable text that JSON writes as itself, that holds no whitespace
      and no `J`. */
  predicate PlainText(s: string) {
    forall i :: 0 <= i < |s| ==> IsPrintable(s[i]) && s[i] != SPACE && s[i] != QUOTE && s[i] != BACKSLASH && s[i] != 'J'
  }

  predicate NoJump(s: string) {
    forall i :: 0 <= i < |s| ==> s[i] != 'J'
  }

  lemma NoJumpAppend(s: string, t: string)
    requires NoJump(s) && NoJump(t)
    ensures NoJump(s + t)
  {
    forall i | 0 <= i < |s + t|
      ensures (s + t)[i] != 'J'
    {
      if i >= |s| {
        assert (s + t)[i] == t[i - |s|];
      }
    }
  }

  /** A plain text is a proper token when it is not empty, and so is the
      same text behind one more plain letter. */
  lemma PlainToken(c: char, s: string)
    requires PlainText([c]) && PlainText(s)
    ensures |s| > 0 ==> IsToken(s)
    ensures IsToken([c] + s)
  {
    var t := [c] + s;
    forall i | 0 <= i < |t|
      ensures !IsWS(t[i])
    {
      if i > 0 {
        assert t[i] == s[i - 1];
      }
    }
  }

  /** Moving the middle of a concatenation from one side to the other. */
  lemma Regroup(p: string, q: string, r: string, t: string)
    ensures p + (q + r) + t == p + q + (r + t)
  {
  }

  /** The tokens of a `JM<rest> <operand>;` line and of its `M<rest>`
      reading are proper tokens. */
  lemma JumpMoveTokens(rest: string, y: string)
    requires PlainText(rest) && PlainText(y) && |y| > 0
    ensures IsToken("JM" + rest) && IsToken("M" + rest) && IsToken(y)
  {
    var m := "M" + rest;
    PlainToken('M', rest);
    PlainToken('M', y);
    assert "JM" + rest == ['J'] + m;
    var x := ['J'] + m;
    forall i | 0 <= i < |x|
      ensures !IsWS(x[i])
    {
      if i > 0 {
        assert x[i] == m[i - 1];
      }
    }
  }

  /** The JSON form of the records `[[c + rest, y]]`, cut around `c`. */
  lemma PlainRecordJson(c: string, rest: string, y: string)
    requires forall i :: 0 <= i < |c| ==> IsPrintable(c[i]) && c[i] != QUOTE && c[i] != BACKSLASH
    requires PlainText(rest) && PlainText(y)
    ensures Serialize([[c + rest, y]])
         == [OPEN_BRACKET, OPEN_BRACKET, QUOTE] + c + (rest + ([QUOTE, COMMA, QUOTE] + y + [QUOTE, CLOSE_BRACKET, CLOSE_BRACKET]))
  {
    var x := c + rest;
    assert forall i :: 0 <= i < |x| ==> IsPrintable(x[i]) && x[i] != QUOTE && x[i] != BACKSLASH by {
      forall i | 0 <= i < |x|
        ensures IsPrintable(x[i]) && x[i] != QUOTE && x[i] != BACKSLASH
      {
        if i >= |c| {
          assert x[i] == rest[i - |c|];
        }
      }
    }
    TwoTokenJson(x, y);
    Regroup([OPEN_BRACKET, OPEN_BRACKET, QUOTE], c, rest, [QUOTE, COMMA, QUOTE] + y + [QUOTE, CLOSE_BRACKET, CLOSE_BRACKET]);
  }

  /** The text after the `JM` in the JSON form holds no `J`. */
  lemma PlainTailNoJump(rest: string, y: string)
    requires PlainText(rest) && PlainText(y)
    ensures NoJump(rest + ([QUOTE, COMMA, QUOTE] + y + [QUOTE, CLOSE_BRACKET, CLOSE_BRACKET]))
  {
    var tail := [QUOTE, COMMA, QUOTE] + y + [QUOTE, CLOSE_BRACKET, CLOSE_BRACKET];
    NoJumpAppend([QUOTE, COMMA, QUOTE], y);
    NoJumpAppend([QUOTE, COMMA, QUOTE] + y, [QUOTE, CLOSE_BRACKET, CLOSE_BRACKET]);
    NoJumpAppend(rest, tail);
  }

  /** A stored text whose read and revealed form is the JSON text of some
      records decompiles, as written, to the canonical text of those records. */
  lemma DecompileStoredOf(data: string, json: string, program: seq<Record>)
    requires XString(ReadUniversal(data)) == json && Parse(json) == Some(program)
    ensures DecompileStored(data) == Success(JsonToSimas(program))
  {
  }

  /** A source whose JSON text holds one `JM` and no other `J` reads back,
      once stored and revealed, with that `JM` replaced by `M`. */
  lemma ReadJumpMoveJson(src: string, a: string, b: string)
    requires Serialize(SimasToJson(src)) == a + "JM" + b
    requires NoJump(a) && NoJump(b)
    ensures XString(ReadUniversal(XString(Serialize(SimasToJson(src))))) == a + "M" + b
  {
    JumpMoveCollapses(a, b);
  }

  /** The JSON text of a `JM<rest> <operand>;` line: its one `J` is the
      first letter of the first token. */
  lemma JumpMoveJson(rest: string, y: string)
    requires PlainText(rest) && PlainText(y) && |y| > 0
    ensures var src := "JM" + rest + [SPACE] + y + [SEMICOLON];
            var b := rest + ([QUOTE, COMMA, QUOTE] + y + [QUOTE, CLOSE_BRACKET, CLOSE_BRACKET]);
            && Serialize(SimasToJson(src)) == [OPEN_BRACKET, OPEN_BRACKET, QUOTE] + "JM" + b
            && NoJump(b)
  {
    JumpMoveTokens(rest, y);
    TwoTokenText("JM" + rest, y);
    PlainRecordJson("JM", rest, y);
    PlainTailNoJump(rest, y);
  }

  /** The stored form of a `JM<rest> <operand>;` line reads back, once
      revealed, as the JSON text with `JM` replaced by `M`. */
  lemma JumpMoveRead(rest: string, y: string)
    requires PlainText(rest) && PlainText(y) && |y| > 0
    ensures var src := "JM" + rest + [SPACE] + y + [SEMICOLON];
            var b := rest + ([QUOTE, COMMA, QUOTE] + y + [QUOTE, CLOSE_BRACKET, CLOSE_BRACKET]);
            XString(ReadUniversal(XString(Serialize(SimasToJson(src))))) == [OPEN_BRACKET, OPEN_BRACKET, QUOTE] + "M" + b
  {
    var src := "JM" + rest + [SPACE] + y + [SEMICOLON];
    var a, b := [OPEN_BRACKET, OPEN_BRACKET, QUOTE], rest + ([QUOTE, COMMA, QUOTE] + y + [QUOTE, CLOSE_BRACKET, CLOSE_BRACKET]);
    JumpMoveJson(rest, y);
    assert NoJump(a);
    ReadJumpMoveJson(src, a, b);
  }

  /** Any line `JM<rest> <operand>;` without another `J` decompiles back to
      itself directly, and to `M<rest> <operand>;` once the stored file has
      gone through the text-mode read. With rest `P` and operand `10`: `JMP 10;`
      is stored, read back and decompiled as `MP 10;`. */
  lemma JumpMoveLine(rest: string, y: string)
    requires PlainText(rest) && PlainText(y) && |y| > 0
    ensures var src := "JM" + rest + [SPACE] + y + [SEMICOLON];
            && Decompile(Compile(src)) == Success(src)
            && DecompileStored(Compile(src)) == Success("M" + rest + [SPACE] + y + [SEMICOLON])
  {
    var x, m := "JM" + rest, "M" + rest;
    var src := x + [SPACE] + y + [SEMICOLON];
    JumpMoveTokens(rest, y);
    assert Decompile(Compile(src)) == Success(src) by {
      TwoTokenText(x, y);
      DecompileCompile(src);
    }
    var json := [OPEN_BRACKET, OPEN_BRACKET, QUOTE] + "M" + (rest + ([QUOTE, COMMA, QUOTE] + y + [QUOTE, CLOSE_BRACKET, CLOSE_BRACKET]));
    assert Parse(json) == Some([[m, y]]) by {
      PlainRecordJson("M", rest, y);
      ParseSerialize([[m, y]]);
    }
    JumpMoveRead(rest, y);
    assert Compile(src) == XString(Serialize(SimasToJson(src)));
    DecompileStoredOf(Compile(src), json, [[m, y]]);
    TwoTokenText(m, y);
  }




}
