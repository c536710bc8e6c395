/** The fixed-key character transform `xstring`: every code point of the
    text is XOR-ed with the key 71. The transform is its own inverse, keeps
    the length, and never leaves the range of Unicode scalar values. */
module Obfuscation {

  /** The fixed key of the transform. */
  const XKEY: nat := 71

  function Pow2(n: nat): nat {
    if n == 0 then 1 else 2 * Pow2(n - 1)
  }

  /** `a >> n` on a non-negative integer. */
  function Shr(a: nat, n: nat): nat {
    if n == 0 then a else Shr(a / 2, n - 1)
  }

  /** Python's `^` on non-negative integers, one bit at a time from the
      least significant end. */
  function Xor(a: nat, b: nat): nat
    decreases a + b
  {
    if a == 0 && b == 0 then 0
    else 2 * Xor(a / 2, b / 2) + (if a % 2 == b % 2 then 0 else 1)
  }

  lemma {:induction false} XorZero(a: nat)
    ensures Xor(a, 0) == a
    decreases a
  {
    if a != 0 {
      XorZero(a / 2);
    }
  }

  /** XOR-ing twice with the same value gives back the original. */
  lemma {:induction false} XorInvolutive(a: nat, b: nat)
    ensures Xor(Xor(a, b), b) == a
    decreases a + b
  {
    if a == 0 && b == 0 {
    } else if b == 0 {
      XorZero(a);
      XorZero(a);
    } else {
      var x := Xor(a, b);
      assert x / 2 == Xor(a / 2, b / 2) && x % 2 == (if a % 2 == b % 2 then 0 else 1);
      XorInvolutive(a / 2, b / 2);
      assert Xor(x, b) == 2 * (a / 2) + a % 2;
    }
  }

  /** XOR with a non-zero value changes its argument. */
  lemma {:induction false} XorMoves(a: nat, b: nat)
    requires b != 0
    ensures Xor(a, b) != a
    decreases a + b
  {
    if b / 2 != 0 {
      XorMoves(a / 2, b / 2);
    }
  }

  /** XOR with a value below 2^n leaves every bit from n upwards alone. */
  lemma {:induction false} XorKeepsHighBits(a: nat, b: nat, n: nat)
    requires b < Pow2(n)
    ensures Shr(Xor(a, b), n) == Shr(a, n)
    decreases n
  {
    if n == 0 {
      XorZero(a);
    } else {
      assert Xor(a, b) / 2 == Xor(a / 2, b / 2);
      XorKeepsHighBits(a / 2, b / 2, n - 1);
    }
  }

  lemma ShrSeven(x: nat)
    ensures Shr(x, 7) == x / 128
  {
    var x1 := x / 2; var x2 := x1 / 2; var x3 := x2 / 2; var x4 := x3 / 2;
    var x5 := x4 / 2; var x6 := x5 / 2; var x7 := x6 / 2;
    assert Shr(x, 7) == Shr(x1, 6) == Shr(x2, 5) == Shr(x3, 4);
    assert Shr(x3, 4) == Shr(x4, 3) == Shr(x5, 2) == Shr(x6, 1) == x7;
    assert 128 * x7 <= x < 128 * x7 + 128;
  }

  /** The key is below 128, so the transform moves a code point only within
      its aligned block of 128. Both the surrogate block 0xD800-0xDFFF and the
      end of the code space 0x110000 are such block boundaries. */
  lemma XorKeyStaysInBlock(a: nat)
    ensures Xor(a, XKEY) / 128 == a / 128
  {
    assert Pow2(7) == 128;
    XorKeepsHighBits(a, XKEY, 7);
    ShrSeven(a);
    ShrSeven(Xor(a, XKEY));
  }

  /** `chr(ord(c) ^ XKEY)` for one character. */
  function XorChar(c: char): (r: char)
    ensures r as int / 128 == c as int / 128
    ensures r != c
  {
    XorKeyStaysInBlock(c as int);
    XorMoves(c as int, XKEY);
    Xor(c as int, XKEY) as char
  }

  lemma XorCharInvolutive(c: char)
    ensures XorChar(XorChar(c)) == c
  {
    var d := XorChar(c);
    XorKeyStaysInBlock(c as int);
    XorKeyStaysInBlock(d as int);
    XorInvolutive(c as int, XKEY);
  }

  /** `xstring(s)`: the transform applied to every character of `s`. */
  function XString(s: string): (r: string)
    ensures |r| == |s|
    ensures forall i :: 0 <= i < |s| ==> r[i] == XorChar(s[i])
  {
    if |s| == 0 then [] else [XorChar(s[0])] + XString(s[1..])
  }

  /** The transform is its own inverse on every text. */
  lemma {:induction false} XStringInvolutive(s: string)
    ensures XString(XString(s)) == s
  {
    forall i | 0 <= i < |s|
      ensures XString(XString(s))[i] == s[i]
    {
      XorCharInvolutive(s[i]);
    }
  }

  /** The transform works character by character, so it commutes with
      cutting a text short. */
  lemma XStringPrefix(s: string, k: nat)
    requires k <= |s|
    ensures XString(s[..k]) == XString(s)[..k]
  {
  }

  /** The transform works character by character, so it distributes over
      concatenation. */
  lemma XStringAppend(s: string, t: string)
    ensures XString(s + t) == XString(s) + XString(t)
  {
  }
}
