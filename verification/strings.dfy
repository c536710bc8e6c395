/** Character classes and sequence helpers shared by the tokenizer, the
    formatter and the JSON codec. Text is a sequence of Unicode scalar values,
    which is what Python gives for a file read as UTF-8. */
module Strings {

  const SPACE: char := ' '
  const NEWLINE: char := '\n'
  const CARRIAGE_RETURN: char := '\r'
  const SEMICOLON: char := ';'

  /** Python's `str.isspace`: the characters `str.strip()` and `str.split()`
      (without arguments) treat as whitespace. */
  predicate IsWS(c: char) {
    || '\t' <= c <= '\r'
    || '\U{1C}' <= c <= ' '
    || c == '\U{85}'
    || c == '\U{A0}'
    || c == '\U{1680}'
    || '\U{2000}' <= c <= '\U{200A}'
    || c == '\U{2028}'
    || c == '\U{2029}'
    || c == '\U{202F}'
    || c == '\U{205F}'
    || c == '\U{3000}'
  }

  /** The characters Python's `str.splitlines()` ends a line at. Every one of
      them is also whitespace. */
  predicate IsLineBreak(c: char)
    ensures IsLineBreak(c) ==> IsWS(c)
  {
    || '\n' <= c <= '\r'
    || '\U{1C}' <= c <= '\U{1E}'
    || c == '\U{85}'
    || c == '\U{2028}'
    || c == '\U{2029}'
  }

  predicate NoWS(s: string) {
    forall i :: 0 <= i < |s| ==> !IsWS(s[i])
  }

  predicate NoLineBreak(s: string) {
    forall i :: 0 <= i < |s| ==> !IsLineBreak(s[i])
  }

  /** `sep.join(parts)`: the parts in order with one `sep` between neighbours. */
  function Join<T>(parts: seq<seq<T>>, sep: T): seq<T> {
    if |parts| == 0 then []
    else if |parts| == 1 then parts[0]
    else parts[0] + [sep] + Join(parts[1..], sep)
  }

  lemma JoinCons<T>(parts: seq<seq<T>>, sep: T)
    requires |parts| > 1
    ensures Join(parts, sep) == parts[0] + [sep] + Join(parts[1..], sep)
  {
  }

  /** Joining whitespace-free parts with a whitespace-free separator gives
      a whitespace-free text. */
  lemma {:induction false} JoinNoWS(parts: seq<string>, sep: char)
    requires !IsWS(sep)
    requires forall i :: 0 <= i < |parts| ==> NoWS(parts[i])
    ensures NoWS(Join(parts, sep))
    decreases |parts|
  {
    if |parts| > 1 {
      JoinNoWS(parts[1..], sep);
    }
  }

  /** The join of two parts is the first, the separator and the second. */
  lemma JoinTwo<T>(x: seq<T>, y: seq<T>, sep: T)
    ensures Join([x, y], sep) == x + [sep] + y
  {
    assert [x, y][1..] == [y];
  }

  /** Putting an element in front of a concatenation is putting it in front of its left part. */
  lemma ConsAppend<T>(x: T, left: seq<T>, right: seq<T>)
    ensures [x] + (left + right) == ([x] + left) + right
  {
  }

  lemma JoinFront<T>(x: seq<T>, parts: seq<seq<T>>, sep: T)
    requires |parts| > 0
    ensures Join([x] + parts, sep) == x + [sep] + Join(parts, sep)
  {
    assert ([x] + parts)[1..] == parts;
  }

  /** The first part of a join, the separator, and the join of the rest,
      followed by any text; the rest starts with the first element of its
      first part. */
  lemma JoinFirst<T>(parts: seq<seq<T>>, sep: T, rest: seq<T>)
    requires |parts| > 1 && |parts[1]| > 0
    ensures Join(parts, sep) + rest == parts[0] + ([sep] + (Join(parts[1..], sep) + rest))
    ensures |Join(parts[1..], sep) + rest| > 0 && (Join(parts[1..], sep) + rest)[0] == parts[1][0]
  {
    assert parts[1..][0] == parts[1];
    if |parts| > 2 {
      assert Join(parts[1..], sep) == parts[1] + [sep] + Join(parts[2..], sep) by {
        assert parts[1..][1..] == parts[2..];
      }
    }
  }

  /** The concatenation of all parts, with nothing between them. */
  function Concat<T>(parts: seq<seq<T>>): seq<T> {
    if |parts| == 0 then [] else parts[0] + Concat(parts[1..])
  }

  lemma ConcatCons<T>(x: seq<T>, rest: seq<seq<T>>)
    ensures Concat([x] + rest) == x + Concat(rest)
  {
    assert ([x] + rest)[1..] == rest;
  }

  lemma ConcatAppend<T>(a: seq<seq<T>>, b: seq<seq<T>>)
    ensures Concat(a + b) == Concat(a) + Concat(b)
  {
    if |a| > 0 {
      assert (a + b)[1..] == a[1..] + b;
      ConcatAppend(a[1..], b);
    } else {
      assert a + b == b;
    }
  }
}
