/** The SIMAS tokenizer `simas_to_json` and formatter `json_to_simas`.

    A SIMAS source is split into lines; every line that is not blank becomes
    one instruction record: the line is stripped, one trailing `;` is
    dropped, and the rest is split at runs of whitespace. The formatter joins
    the tokens of each record with single spaces, appends `;`, and joins the
    lines with a newline. */
module Simas {
  import opened Strings

  /** One instruction: mnemonic and operands, in order. */
  type Record = seq<string>

  /** What `str.split()` can produce: non-empty and free of whitespace. */
  predicate IsToken(t: string) {
    |t| > 0 && NoWS(t)
  }

  /** Every token of every record is a proper token. */
  predicate WellFormed(program: seq<Record>) {
    forall i, j :: 0 <= i < |program| && 0 <= j < |program[i]| ==> IsToken(program[i][j])
  }

  /** No token of any record holds a line break. */
  predicate SingleLineTokens(program: seq<Record>) {
    forall i, j :: 0 <= i < |program| && 0 <= j < |program[i]| ==> NoLineBreak(program[i][j])
  }

  // ---------------------------------------------------------------------
  // Lines

  /** Length of the longest prefix of `s` without a line break. */
  function LineEnd(s: string): (n: nat)
    ensures n <= |s|
    ensures forall i :: 0 <= i < n ==> !IsLineBreak(s[i])
    ensures n < |s| ==> IsLineBreak(s[n])
  {
    if |s| == 0 || IsLineBreak(s[0]) then 0 else 1 + LineEnd(s[1..])
  }

  lemma LineEndIs(s: string, n: nat)
    requires n <= |s| && forall i :: 0 <= i < n ==> !IsLineBreak(s[i])
    requires n < |s| ==> IsLineBreak(s[n])
    ensures LineEnd(s) == n
  {
    var m := LineEnd(s);
    assert !(m < n) && !(n < m);
  }

  /** Python's `str.splitlines()`: a line ends at any line-break character,
      `\r\n` counts as one break, and a break at the very end does not start
      another (empty) line. */
  function SplitLines(s: string): (lines: seq<string>)
    ensures forall i :: 0 <= i < |lines| ==> NoLineBreak(lines[i])
    decreases |s|
  {
    if |s| == 0 then []
    else
      var n := LineEnd(s);
      if n == |s| then [s]
      else
        var next := if s[n] == CARRIAGE_RETURN && n + 1 < |s| && s[n + 1] == NEWLINE then n + 2 else n + 1;
        [s[..n]] + SplitLines(s[next..])
  }

  /** The pieces of `s` between line breaks, cutting at every single break:
      one more piece than there are breaks. */
  function SplitAtBreaks(s: string): (pieces: seq<string>)
    ensures |pieces| > 0
    ensures forall i :: 0 <= i < |pieces| ==> NoLineBreak(pieces[i])
    decreases |s|
  {
    var n := LineEnd(s);
    if n == |s| then [s] else [s[..n]] + SplitAtBreaks(s[n + 1..])
  }

  /** The first line break of `a + [c] + b`, for a break `c`, is the first
      break of `a` or else `c` itself. */
  lemma LineEndAppend(a: string, c: char, b: string)
    requires IsLineBreak(c)
    ensures LineEnd(a + [c] + b) == LineEnd(a)
  {
    var s := a + [c] + b;
    var n := LineEnd(a);
    assert s[..n] == a[..n];
    assert s[n] == if n == |a| then c else a[n];
    LineEndIs(s, n);
  }

  /** When `a` holds no line break, `a` is the first piece of `a + [c] + b`. */
  lemma SplitAtBreaksLastLine(a: string, c: char, b: string)
    requires IsLineBreak(c) && LineEnd(a) == |a|
    ensures SplitAtBreaks(a) == [a]
    ensures SplitAtBreaks(a + [c] + b) == [a] + SplitAtBreaks(b)
  {
    var s := a + [c] + b;
    var n := |a|;
    LineEndAppend(a, c, b);
    assert s[..n] == a && s[n + 1..] == b;
  }

  /** When `a` holds a line break, its first piece is also the first piece of
      `a + [c] + b`, and both go on with what follows that break. */
  lemma SplitAtBreaksFirstLine(a: string, c: char, b: string) returns (head: string, rest: string)
    requires IsLineBreak(c) && LineEnd(a) < |a|
    ensures |rest| < |a|
    ensures SplitAtBreaks(a) == [head] + SplitAtBreaks(rest)
    ensures SplitAtBreaks(a + [c] + b) == [head] + SplitAtBreaks(rest + [c] + b)
  {
    var s := a + [c] + b;
    var n := LineEnd(a);
    head, rest := a[..n], a[n + 1..];
    LineEndAppend(a, c, b);
    assert s[..n] == head && s[n + 1..] == rest + [c] + b;
  }

  /** Cutting at a line break concatenates the pieces of both sides. */
  lemma {:induction false} SplitAtBreaksAppend(a: string, c: char, b: string)
    requires IsLineBreak(c)
    ensures SplitAtBreaks(a + [c] + b) == SplitAtBreaks(a) + SplitAtBreaks(b)
    decreases |a|
  {
    if LineEnd(a) == |a| {
      SplitAtBreaksLastLine(a, c, b);
    } else {
      var head, rest := SplitAtBreaksFirstLine(a, c, b);
      SplitAtBreaksAppend(rest, c, b);
      ConsAppend(head, SplitAtBreaks(rest), SplitAtBreaks(b));
    }
  }

  // ---------------------------------------------------------------------
  // Whitespace

  /** `s` without its leading whitespace. */
  function TrimLeft(s: string): (r: string)
    ensures |r| <= |s|
  {
    if |s| > 0 && IsWS(s[0]) then TrimLeft(s[1..]) else s
  }

  /** `s` without its trailing whitespace. */
  function TrimRight(s: string): (r: string)
    ensures |r| <= |s|
  {
    if |s| > 0 && IsWS(s[|s| - 1]) then TrimRight(s[..|s| - 1]) else s
  }

  /** `TrimLeft` drops a run of whitespace from the front: what it keeps is a
      suffix that does not start with whitespace. */
  lemma {:induction false} TrimLeftShape(s: string)
    ensures var r := TrimLeft(s);
      && r == s[|s| - |r|..]
      && (forall i :: 0 <= i < |s| - |r| ==> IsWS(s[i]))
      && (|r| > 0 ==> !IsWS(r[0]))
    decreases |s|
  {
    if |s| > 0 && IsWS(s[0]) {
      var r := TrimLeft(s);
      TrimLeftShape(s[1..]);
      assert s[1..][|s| - 1 - |r|..] == s[|s| - |r|..];
      forall i | 1 <= i < |s| - |r|
        ensures IsWS(s[i])
      {
        assert s[1..][i - 1] == s[i];
      }
    }
  }

  /** `TrimRight` drops a run of whitespace from the back: what it keeps is a
      prefix that does not end with whitespace. */
  lemma {:induction false} TrimRightShape(s: string)
    ensures var r := TrimRight(s);
      && r == s[..|r|]
      && (forall i :: |r| <= i < |s| ==> IsWS(s[i]))
      && (|r| > 0 ==> !IsWS(r[|r| - 1]))
    decreases |s|
  {
    if |s| > 0 && IsWS(s[|s| - 1]) {
      var r := TrimRight(s);
      TrimRightShape(s[..|s| - 1]);
      assert s[..|s| - 1][..|r|] == s[..|r|];
      forall i | |r| <= i < |s| - 1
        ensures IsWS(s[i])
      {
        assert s[..|s| - 1][i] == s[i];
      }
    }
  }

  /** Python's `str.strip()`: a slice of `s` that neither starts nor ends with
      whitespace, empty exactly when `s` is blank. */
  function Strip(s: string): (r: string)
    ensures |r| <= |s|
    ensures |r| > 0 ==> !IsWS(r[0]) && !IsWS(r[|r| - 1])
    ensures |r| == 0 <==> forall i :: 0 <= i < |s| ==> IsWS(s[i])
  {
    var t := TrimLeft(s);
    var r := TrimRight(t);
    TrimLeftShape(s);
    TrimRightShape(t);
    assert forall k :: |s| - |t| <= k < |s| ==> s[k] == t[k - (|s| - |t|)];
    r
  }

  /** `Strip(s)` is a contiguous slice of `s`: it starts `k` characters in. */
  lemma StripSlice(s: string) returns (k: nat)
    ensures k + |Strip(s)| <= |s|
    ensures Strip(s) == s[k..k + |Strip(s)|]
  {
    var t := TrimLeft(s);
    TrimLeftShape(s);
    TrimRightShape(t);
    k := |s| - |t|;
    assert t[..|Strip(s)|] == s[k..k + |Strip(s)|];
  }

  /** Text that neither starts nor ends with whitespace is left alone. */
  lemma StripTrimmed(s: string)
    requires |s| > 0 ==> !IsWS(s[0]) && !IsWS(s[|s| - 1])
    ensures Strip(s) == s
  {
  }

  /** The characters of `s` that are not whitespace, in order. */
  function RemoveWS(s: string): (r: string)
    ensures NoWS(r)
  {
    if |s| == 0 then []
    else (if IsWS(s[0]) then [] else [s[0]]) + RemoveWS(s[1..])
  }

  lemma {:induction false} RemoveWSAppend(a: string, b: string)
    ensures RemoveWS(a + b) == RemoveWS(a) + RemoveWS(b)
    decreases |a|
  {
    if |a| > 0 {
      assert (a + b)[1..] == a[1..] + b;
      RemoveWSAppend(a[1..], b);
    } else {
      assert a + b == b;
    }
  }

  lemma {:induction false} RemoveWSOfNoWS(s: string)
    requires NoWS(s)
    ensures RemoveWS(s) == s
    decreases |s|
  {
    if |s| > 0 {
      RemoveWSOfNoWS(s[1..]);
    }
  }

  lemma {:induction false} RemoveWSOfBlank(s: string)
    requires forall i :: 0 <= i < |s| ==> IsWS(s[i])
    ensures RemoveWS(s) == []
    decreases |s|
  {
    if |s| > 0 {
      RemoveWSOfBlank(s[1..]);
    }
  }

  lemma RemoveWSTrimLeft(s: string)
    ensures RemoveWS(TrimLeft(s)) == RemoveWS(s)
  {
    var t := TrimLeft(s);
    var k := |s| - |t|;
    TrimLeftShape(s);
    assert s == s[..k] + s[k..];
    assert forall i :: 0 <= i < k ==> IsWS(s[..k][i]);
    RemoveWSAppend(s[..k], t);
    RemoveWSOfBlank(s[..k]);
  }

  lemma RemoveWSTrimRight(s: string)
    ensures RemoveWS(TrimRight(s)) == RemoveWS(s)
  {
    var r := TrimRight(s);
    TrimRightShape(s);
    assert s == r + s[|r|..];
    RemoveWSAppend(r, s[|r|..]);
    RemoveWSOfBlank(s[|r|..]);
  }

  /** Stripping removes only whitespace. */
  lemma StripKeepsNonWS(s: string)
    ensures RemoveWS(Strip(s)) == RemoveWS(s)
  {
    RemoveWSTrimLeft(s);
    RemoveWSTrimRight(TrimLeft(s));
  }

  /** Length of the longest prefix of `s` without whitespace. */
  function WordEnd(s: string): (n: nat)
    ensures n <= |s|
    ensures forall i :: 0 <= i < n ==> !IsWS(s[i])
    ensures n < |s| ==> IsWS(s[n])
  {
    if |s| == 0 || IsWS(s[0]) then 0 else 1 + WordEnd(s[1..])
  }

  lemma WordEndIs(s: string, n: nat)
    requires n <= |s| && forall i :: 0 <= i < n ==> !IsWS(s[i])
    requires n < |s| ==> IsWS(s[n])
    ensures WordEnd(s) == n
  {
    var m := WordEnd(s);
    assert !(m < n) && !(n < m);
  }

  /** Python's `str.split()` without arguments: the maximal runs of
      non-whitespace characters, in order. */
  function SplitWS(s: string): seq<string>
    decreases |s|
  {
    var t := TrimLeft(s);
    if |t| == 0 then []
    else
      var n := WordEnd(t);
      [t[..n]] + SplitWS(t[n..])
  }

  /** Every piece of a split is a proper token: non-empty and free of
      whitespace. */
  lemma {:induction false} SplitWSTokens(s: string)
    ensures forall i :: 0 <= i < |SplitWS(s)| ==> IsToken(SplitWS(s)[i])
    decreases |s|
  {
    var t := TrimLeft(s);
    TrimLeftShape(s);
    if |t| > 0 {
      var n := WordEnd(t);
      var head := t[..n];
      var tail := SplitWS(t[n..]);
      assert IsToken(head);
      SplitWSTokens(t[n..]);
      assert SplitWS(s) == [head] + tail;
      forall i | 0 <= i < |[head] + tail|
        ensures IsToken(([head] + tail)[i])
      {
        if i > 0 {
          assert ([head] + tail)[i] == tail[i - 1];
        }
      }
    }
  }

  /** Splitting loses nothing but whitespace: the tokens, put back together,
      are the non-whitespace characters of the input in order. */
  lemma {:induction false} SplitWSKeepsNonWS(s: string)
    ensures Concat(SplitWS(s)) == RemoveWS(s)
    decreases |s|
  {
    var t := TrimLeft(s);
    RemoveWSTrimLeft(s);
    if |t| > 0 {
      var n := WordEnd(t);
      RemoveWSWord(t);
      ConcatCons(t[..n], SplitWS(t[n..]));
      SplitWSKeepsNonWS(t[n..]);
    }
  }

  lemma RemoveWSWord(t: string)
    ensures RemoveWS(t) == t[..WordEnd(t)] + RemoveWS(t[WordEnd(t)..])
  {
    var n := WordEnd(t);
    assert t == t[..n] + t[n..];
    RemoveWSAppend(t[..n], t[n..]);
    RemoveWSOfNoWS(t[..n]);
  }

  lemma {:induction false} JoinStartsWith(parts: seq<string>, sep: char)
    requires |parts| > 0 && |parts[0]| > 0
    ensures |Join(parts, sep)| > 0 && Join(parts, sep)[0] == parts[0][0]
  {
  }

  lemma {:induction false} JoinNoLineBreak(parts: seq<string>, sep: char)
    requires !IsLineBreak(sep)
    requires forall i :: 0 <= i < |parts| ==> NoLineBreak(parts[i])
    ensures NoLineBreak(Join(parts, sep))
    decreases |parts|
  {
    if |parts| > 1 {
      JoinNoLineBreak(parts[1..], sep);
    }
  }

  /** A text starting with a word splits into that word and the rest. */
  lemma SplitWSWord(s: string)
    requires |s| > 0 && !IsWS(s[0])
    ensures SplitWS(s) == [s[..WordEnd(s)]] + SplitWS(s[WordEnd(s)..])
  {
    assert TrimLeft(s) == s;
  }

  /** Leading whitespace does not change the split. */
  lemma SplitWSSpace(c: char, s: string)
    requires IsWS(c)
    ensures SplitWS([c] + s) == SplitWS(s)
  {
    assert ([c] + s)[1..] == s;
    assert TrimLeft([c] + s) == TrimLeft(s);
  }

  /** A token, a space and a text starting with a word split into the token
      followed by the split of that text. */
  lemma SplitTokenSpace(t: string, rest: string)
    requires IsToken(t)
    requires |rest| > 0 && !IsWS(rest[0])
    ensures SplitWS(t + [SPACE] + rest) == [t] + SplitWS(rest)
  {
    var u := [SPACE] + rest;
    var s := t + u;
    assert t + [SPACE] + rest == s;
    WordEndOfToken(t, u);
    assert s[..|t|] == t && s[|t|..] == u;
    SplitWSWord(s);
    SplitWSSpace(SPACE, rest);
  }

  /** The first word of a token followed by whitespace is the token. */
  lemma {:induction false} WordEndOfToken(t: string, u: string)
    requires NoWS(t)
    requires |u| > 0 && IsWS(u[0])
    ensures WordEnd(t + u) == |t|
    decreases |t|
  {
    if |t| > 0 {
      assert (t + u)[0] == t[0];
      assert (t + u)[1..] == t[1..] + u;
      WordEndOfToken(t[1..], u);
    } else {
      assert t + u == u;
    }
  }

  /** Trimming the front skips a leading run of whitespace entirely. */
  lemma {:induction false} TrimLeftBlankPrefix(w: string, x: string)
    requires forall i :: 0 <= i < |w| ==> IsWS(w[i])
    ensures TrimLeft(w + x) == TrimLeft(x)
    decreases |w|
  {
    if |w| > 0 {
      assert (w + x)[0] == w[0];
      assert (w + x)[1..] == w[1..] + x;
      TrimLeftBlankPrefix(w[1..], x);
    } else {
      assert w + x == x;
    }
  }

  /** The split only looks at what is left after trimming the front. */
  lemma SplitWSSameTrim(x: string, y: string)
    requires TrimLeft(x) == TrimLeft(y)
    ensures SplitWS(x) == SplitWS(y)
  {
  }

  /** A text of whitespace only splits into nothing. */
  lemma SplitWSBlank(w: string)
    requires forall i :: 0 <= i < |w| ==> IsWS(w[i])
    ensures SplitWS(w) == []
  {
    TrimLeftBlankPrefix(w, []);
    assert w + [] == w;
  }

  /** The first word of `t` ends at the same place when whitespace and
      more text follow `t`. */
  lemma WordEndBeforeBreak(t: string, c: char, b: string)
    requires IsWS(c)
    ensures WordEnd(t + [c] + b) == WordEnd(t)
  {
    var s := t + [c] + b;
    var n := WordEnd(t);
    assert forall i :: 0 <= i < n ==> s[i] == t[i];
    assert n < |s| && IsWS(s[n]) by {
      if n < |t| {
        assert s[n] == t[n];
      } else {
        assert s[n] == c;
      }
    }
    WordEndIs(s, n);
  }

  /** Leading whitespace in front of any text does not change its split. */
  lemma SplitWSDropFront(a: string, x: string)
    ensures SplitWS(a + x) == SplitWS(TrimLeft(a) + x)
  {
    var t := TrimLeft(a);
    assert TrimLeft(a + x) == TrimLeft(t + x) by {
      var w := a[..|a| - |t|];
      TrimLeftShape(a);
      assert a + x == w + (t + x);
      TrimLeftBlankPrefix(w, t + x);
    }
    SplitWSSameTrim(a + x, t + x);
  }

  /** A text whose left part is blank splits like its right part. */
  lemma SplitWSAfterBlank(a: string, c: char, b: string)
    requires IsWS(c) && |TrimLeft(a)| == 0
    ensures SplitWS(a) == []
    ensures SplitWS(a + [c] + b) == SplitWS(b)
  {
    assert SplitWS(a + [c] + b) == SplitWS([c] + b) by {
      assert a + [c] + b == a + ([c] + b);
      SplitWSDropFront(a, [c] + b);
      assert TrimLeft(a) + ([c] + b) == [c] + b;
    }
    SplitWSSpace(c, b);
  }

  /** A text starting with a word, followed by whitespace and more text,
      splits into that word followed by the split of what comes after it. */
  lemma SplitWordThenBreak(t: string, c: char, b: string)
    requires |t| > 0 && !IsWS(t[0]) && IsWS(c)
    ensures SplitWS(t + [c] + b) == [t[..WordEnd(t)]] + SplitWS(t[WordEnd(t)..] + [c] + b)
  {
    var s := t + [c] + b;
    var n := WordEnd(t);
    WordEndBeforeBreak(t, c, b);
    assert s[0] == t[0];
    SplitWSWord(s);
    assert s[..n] == t[..n] && s[n..] == t[n..] + [c] + b;
  }

  /** A text whose left part holds a word splits into that word first, both
      with and without the whitespace and text that follow. */
  lemma SplitWSAfterWord(a: string, c: char, b: string) returns (head: string, rest: string)
    requires IsWS(c) && |TrimLeft(a)| > 0
    ensures |rest| < |a|
    ensures SplitWS(a) == [head] + SplitWS(rest)
    ensures SplitWS(a + [c] + b) == [head] + SplitWS(rest + [c] + b)
  {
    var t := TrimLeft(a);
    var n := WordEnd(t);
    head, rest := t[..n], t[n..];
    assert 0 < n && !IsWS(t[0]) by {
      TrimLeftShape(a);
    }
    assert SplitWS(a) == [head] + SplitWS(rest);
    assert SplitWS(a + [c] + b) == SplitWS(t + [c] + b) by {
      assert a + [c] + b == a + ([c] + b);
      assert t + [c] + b == t + ([c] + b);
      SplitWSDropFront(a, [c] + b);
    }
    SplitWordThenBreak(t, c, b);
  }

  /** Every whitespace character separates tokens: splitting a text at one
      gives the tokens on its left followed by the tokens on its right. */
  lemma {:induction false} SplitWSAppend(a: string, c: char, b: string)
    requires IsWS(c)
    ensures SplitWS(a + [c] + b) == SplitWS(a) + SplitWS(b)
    decreases |a|
  {
    if |TrimLeft(a)| == 0 {
      SplitWSAfterBlank(a, c, b);
    } else {
      var head, rest := SplitWSAfterWord(a, c, b);
      SplitWSAppend(rest, c, b);
      ConsAppend(head, SplitWS(rest), SplitWS(b));
    }
  }

  /** A single token splits into itself. */
  lemma SplitToken(t: string)
    requires IsToken(t)
    ensures SplitWS(t) == [t]
  {
    WordEndIs(t, |t|);
    SplitWSWord(t);
    assert t[..|t|] == t && t[|t|..] == [];
  }

  /** Splitting tokens that were joined with single spaces gives them back. */
  lemma {:induction false} SplitJoinSpaces(tokens: seq<string>)
    requires forall i :: 0 <= i < |tokens| ==> IsToken(tokens[i])
    ensures SplitWS(Join(tokens, SPACE)) == tokens
    decreases |tokens|
  {
    if |tokens| == 1 {
      SplitToken(tokens[0]);
    } else if |tokens| > 1 {
      var t, ts := tokens[0], tokens[1..];
      assert tokens == [t] + ts;
      assert IsToken(t) && IsToken(ts[0]);
      assert SplitWS(Join(ts, SPACE)) == ts by {
        SplitJoinSpaces(ts);
      }
      SplitJoinStep(t, ts);
    }
  }

  lemma SplitJoinStep(t: string, ts: seq<string>)
    requires IsToken(t) && |ts| > 0 && IsToken(ts[0])
    requires SplitWS(Join(ts, SPACE)) == ts
    ensures SplitWS(Join([t] + ts, SPACE)) == [t] + ts
  {
    var rest := Join(ts, SPACE);
    JoinStartsWith(ts, SPACE);
    JoinFront(t, ts, SPACE);
    SplitTokenSpace(t, rest);
  }

  // ---------------------------------------------------------------------
  // Tokenizer

  /** `line[:-1]` when the line ends with `;`: at most one character goes. */
  function DropSemicolon(s: string): (r: string)
    ensures |s| > 0 && s[|s| - 1] == SEMICOLON ==> r + [SEMICOLON] == s
    ensures !(|s| > 0 && s[|s| - 1] == SEMICOLON) ==> r == s
  {
    if |s| > 0 && s[|s| - 1] == SEMICOLON then s[..|s| - 1] else s
  }

  /** The record of one non-blank source line: proper tokens only, so no
      token is empty or holds whitespace or a line break. */
  function LineRecord(line: string): (r: Record)
    ensures forall j :: 0 <= j < |r| ==> IsToken(r[j])
  {
    var text := DropSemicolon(Strip(line));
    SplitWSTokens(text);
    SplitWS(text)
  }

  /** The tokens of a line hold every non-whitespace character of it, in
      order, except for one trailing semicolon. */
  lemma LineRecordContent(line: string)
    ensures var stripped := Strip(line);
            var dropped := |stripped| > 0 && stripped[|stripped| - 1] == SEMICOLON;
            Concat(LineRecord(line)) + (if dropped then [SEMICOLON] else []) == RemoveWS(line)
  {
    var stripped := Strip(line);
    StripKeepsNonWS(line);
    DropSemicolonContent(stripped);
  }

  /** Splitting what is left after dropping the semicolon keeps every
      non-whitespace character, the semicolon put back. */
  lemma DropSemicolonContent(stripped: string)
    ensures var dropped := |stripped| > 0 && stripped[|stripped| - 1] == SEMICOLON;
            Concat(SplitWS(DropSemicolon(stripped))) + (if dropped then [SEMICOLON] else []) == RemoveWS(stripped)
  {
    var d := DropSemicolon(stripped);
    SplitWSKeepsNonWS(d);
    if |stripped| > 0 && stripped[|stripped| - 1] == SEMICOLON {
      RemoveWSSemicolon(d);
    }
  }

  lemma RemoveWSSemicolon(d: string)
    ensures RemoveWS(d + [SEMICOLON]) == RemoveWS(d) + [SEMICOLON]
  {
    RemoveWSAppend(d, [SEMICOLON]);
    assert RemoveWS([SEMICOLON]) == [SEMICOLON];
  }

  /** One record for every non-blank line, in line order. */
  function RecordsOf(lines: seq<string>): (program: seq<Record>)
    ensures WellFormed(program)
    ensures |program| <= |lines|
  {
    if |lines| == 0 then []
    else if |Strip(lines[0])| == 0 then RecordsOf(lines[1..])
    else
      var r := LineRecord(lines[0]);
      var rest := RecordsOf(lines[1..]);
      WellFormedCons(r, rest);
      [r] + rest
  }

  /** A non-blank first line gives the first record. */
  lemma RecordsOfLine(line: string, lines: seq<string>)
    requires |Strip(line)| > 0
    ensures RecordsOf([line] + lines) == [LineRecord(line)] + RecordsOf(lines)
  {
    assert ([line] + lines)[1..] == lines;
  }

  /** A blank first line gives no record. */
  lemma RecordsOfBlank(line: string, lines: seq<string>)
    requires |Strip(line)| == 0
    ensures RecordsOf([line] + lines) == RecordsOf(lines)
  {
    assert ([line] + lines)[1..] == lines;
  }

  lemma WellFormedCons(r: Record, program: seq<Record>)
    requires forall j :: 0 <= j < |r| ==> IsToken(r[j])
    requires WellFormed(program)
    ensures WellFormed([r] + program)
  {
    forall i, j | 0 <= i < |[r] + program| && 0 <= j < |([r] + program)[i]|
      ensures IsToken(([r] + program)[i][j])
    {
      if i > 0 {
        assert ([r] + program)[i] == program[i - 1];
      }
    }
  }

  lemma {:induction false} RecordsOfAppend(a: seq<string>, b: seq<string>)
    ensures RecordsOf(a + b) == RecordsOf(a) + RecordsOf(b)
    decreases |a|
  {
    if |a| > 0 {
      var line, rest := a[0], a[1..];
      assert a + b == [line] + (rest + b) && a == [line] + rest;
      RecordsOfAppend(rest, b);
      if |Strip(line)| == 0 {
        RecordsOfBlank(line, rest + b);
        RecordsOfBlank(line, rest);
      } else {
        RecordsOfLine(line, rest + b);
        RecordsOfLine(line, rest);
        ConsAppend(LineRecord(line), RecordsOf(rest), RecordsOf(b));
      }
    } else {
      assert a + b == b;
    }
  }

  /** `simas_to_json(source)`: the instruction records of a SIMAS source. */
  function SimasToJson(source: string): (program: seq<Record>)
    ensures WellFormed(program)
  {
    RecordsOf(SplitLines(source))
  }

  /** Blank lines carry no record, so it makes no difference that
      `splitlines` reads `\r\n` as one break and drops a final empty line:
      the tokenizer sees the same records when cutting at every break. */
  lemma {:induction false} SplitLinesAsBreaks(s: string)
    ensures RecordsOf(SplitLines(s)) == RecordsOf(SplitAtBreaks(s))
    decreases |s|
  {
    var n := LineEnd(s);
    if |s| == 0 {
      assert SplitAtBreaks(s) == [s];
    } else if n < |s| {
      var rest := s[n + 1..];
      RecordsOfAppend([s[..n]], SplitAtBreaks(rest));
      if s[n] == CARRIAGE_RETURN && n + 1 < |s| && s[n + 1] == NEWLINE {
        LineEndIs(rest, 0);
        assert rest[..0] == [];
        assert rest[1..] == s[n + 2..];
        RecordsOfAppend([[]], SplitAtBreaks(s[n + 2..]));
        SplitLinesAsBreaks(s[n + 2..]);
        RecordsOfAppend([s[..n]], SplitLines(s[n + 2..]));
      } else {
        SplitLinesAsBreaks(rest);
        RecordsOfAppend([s[..n]], SplitLines(rest));
      }
    }
  }

  /** The tokenizer works line by line: text on both sides of a line break
      is tokenized independently and the records are concatenated. */
  lemma SimasToJsonAppend(a: string, c: char, b: string)
    requires IsLineBreak(c)
    ensures SimasToJson(a + [c] + b) == SimasToJson(a) + SimasToJson(b)
  {
    SplitLinesAsBreaks(a + [c] + b);
    SplitLinesAsBreaks(a);
    SplitLinesAsBreaks(b);
    SplitAtBreaksAppend(a, c, b);
    RecordsOfAppend(SplitAtBreaks(a), SplitAtBreaks(b));
  }

  /** A single line gives no record when blank and exactly its own record
      otherwise. */
  lemma SimasToJsonOneLine(line: string)
    requires NoLineBreak(line)
    ensures |Strip(line)| == 0 ==> SimasToJson(line) == []
    ensures |Strip(line)| > 0 ==> SimasToJson(line) == [LineRecord(line)]
  {
    if |line| > 0 {
      LineEndIs(line, |line|);
      assert line[..|line|] == line;
    }
  }

  // ---------------------------------------------------------------------
  // Formatter

  /** One SIMAS line: the tokens joined by single spaces, then `;`. */
  function FormatRecord(r: Record): string {
    Join(r, SPACE) + [SEMICOLON]
  }

  function FormatLines(program: seq<Record>): (lines: seq<string>)
    ensures |lines| == |program|
    ensures forall i :: 0 <= i < |program| ==> lines[i] == FormatRecord(program[i])
  {
    if |program| == 0 then [] else [FormatRecord(program[0])] + FormatLines(program[1..])
  }

  /** `json_to_simas(data)`: the SIMAS text of a record sequence. It is empty
      exactly for no records, and otherwise ends with the `;` of the last
      record, never with a newline. */
  function JsonToSimas(program: seq<Record>): (text: string)
    ensures |text| == 0 <==> |program| == 0
    ensures |text| > 0 ==> text[|text| - 1] == SEMICOLON
  {
    JoinEndsWithLast(FormatLines(program), NEWLINE);
    Join(FormatLines(program), NEWLINE)
  }

  lemma {:induction false} JoinEndsWithLast(parts: seq<string>, sep: char)
    requires forall i :: 0 <= i < |parts| ==> |parts[i]| > 0
    ensures |Join(parts, sep)| == 0 <==> |parts| == 0
    ensures |parts| > 0 ==> Join(parts, sep)[|Join(parts, sep)| - 1] == parts[|parts| - 1][|parts[|parts| - 1]| - 1]
    decreases |parts|
  {
    if |parts| > 1 {
      JoinEndsWithLast(parts[1..], sep);
    }
  }

  /** Splitting lines joined with newlines gives them back, as long as every
      line is non-empty and holds no line break itself. */
  lemma {:induction false} SplitLinesJoin(lines: seq<string>)
    requires forall i :: 0 <= i < |lines| ==> |lines[i]| > 0 && NoLineBreak(lines[i])
    ensures SplitLines(Join(lines, NEWLINE)) == lines
    decreases |lines|
  {
    if |lines| == 1 {
      var l := lines[0];
      LineEndIs(l, |l|);
    } else if |lines| > 1 {
      var l := lines[0];
      var rest := Join(lines[1..], NEWLINE);
      var s := l + [NEWLINE] + rest;
      assert s[..|l|] == l;
      LineEndIs(s, |l|);
      assert s[|l| + 1..] == rest;
      SplitLinesJoin(lines[1..]);
    }
  }

  lemma FormatRecordShape(r: Record)
    requires forall j :: 0 <= j < |r| ==> NoLineBreak(r[j])
    ensures |FormatRecord(r)| > 0 && NoLineBreak(FormatRecord(r))
  {
    JoinNoLineBreak(r, SPACE);
  }

  /** The formatter writes exactly one line per record, in order, each the
      record's tokens joined by single spaces and ended by `;`, provided no
      token holds a line break of its own. */
  lemma JsonToSimasLines(program: seq<Record>)
    requires SingleLineTokens(program)
    ensures var lines := SplitLines(JsonToSimas(program));
            && |lines| == |program|
            && forall i :: 0 <= i < |program| ==> lines[i] == Join(program[i], SPACE) + [SEMICOLON]
  {
    var lines := FormatLines(program);
    forall i | 0 <= i < |lines|
      ensures |lines[i]| > 0 && NoLineBreak(lines[i])
    {
      FormatRecordShape(program[i]);
    }
    SplitLinesJoin(lines);
  }

  /** The line of a record of proper tokens reads back as that record. */
  lemma LineRecordOfFormat(r: Record)
    requires forall j :: 0 <= j < |r| ==> IsToken(r[j])
    ensures |Strip(FormatRecord(r))| > 0
    ensures LineRecord(FormatRecord(r)) == r
  {
    var j := Join(r, SPACE);
    var line := j + [SEMICOLON];
    if |r| > 0 {
      JoinStartsWith(r, SPACE);
    }
    StripTrimmed(line);
    assert line[..|line| - 1] == j;
    SplitJoinSpaces(r);
  }

  lemma {:induction false} RecordsOfFormatLines(program: seq<Record>)
    requires WellFormed(program)
    ensures RecordsOf(FormatLines(program)) == program
    decreases |program|
  {
    if |program| > 0 {
      var lines := FormatLines(program);
      LineRecordOfFormat(program[0]);
      assert lines == [FormatRecord(program[0])] + FormatLines(program[1..]);
      RecordsOfLine(FormatRecord(program[0]), FormatLines(program[1..]));
      RecordsOfFormatLines(program[1..]);
      assert [program[0]] + program[1..] == program;
    }
  }

  /** Formatting and then tokenizing gives back every record sequence whose
      tokens are proper tokens, empty records included. */
  lemma SimasRoundTrip(program: seq<Record>)
    requires WellFormed(program)
    ensures SimasToJson(JsonToSimas(program)) == program
  {
    var lines := FormatLines(program);
    forall i | 0 <= i < |lines|
      ensures |lines[i]| > 0 && NoLineBreak(lines[i])
    {
      FormatRecordShape(program[i]);
    }
    SplitLinesJoin(lines);
    RecordsOfFormatLines(program);
  }

  /** Tokenizing the formatted records of a source gives the same records. */
  lemma SimasToJsonStable(source: string)
    ensures SimasToJson(JsonToSimas(SimasToJson(source))) == SimasToJson(source)
  {
    SimasRoundTrip(SimasToJson(source));
  }

  /** The canonical form of a source is a fixed point of the canonical form. */
  lemma CanonicalIdempotent(source: string)
    ensures JsonToSimas(SimasToJson(JsonToSimas(SimasToJson(source))))
         == JsonToSimas(SimasToJson(source))
  {
    SimasToJsonStable(source);
  }
}
