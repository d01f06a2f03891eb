/**
 String primitives of the JavaScript runtime that the service relies on:
 `String.prototype.trim`, lower-casing, character classes of the regular
 expressions it uses, and the decimal rendering of a millisecond timestamp.

 A Dafny `char` is a Unicode scalar value, while a JavaScript string is a
 sequence of UTF-16 code units. The two agree on every character of the Basic
 Multilingual Plane; a character above U+FFFF is one `char` here but two code
 units in JavaScript.
 */
module Strings {

  /** The characters `String.prototype.trim` removes: ECMAScript WhiteSpace and LineTerminator. */
  predicate IsJsWhitespace(c: char) {
    || c == '\t' || c == '\n' || c == '\U{000B}' || c == '\U{000C}' || c == '\r'
    || c == ' ' || c == '\U{00A0}' || c == '\U{1680}'
    || ('\U{2000}' <= c <= '\U{200A}')
    || c == '\U{2028}' || c == '\U{2029}' || c == '\U{202F}' || c == '\U{205F}'
    || c == '\U{3000}' || c == '\U{FEFF}'
  }

  predicate AllWhitespace(s: string) {
    forall i :: 0 <= i < |s| ==> IsJsWhitespace(s[i])
  }

  /** Neither end of `s` is whitespace. */
  predicate IsTrimmed(s: string) {
    s == [] || (!IsJsWhitespace(s[0]) && !IsJsWhitespace(s[|s| - 1]))
  }

  /**
   `String.prototype.trim`: whitespace is removed from the front, then from
   the back, until neither end is whitespace.
   */
  function Trim(s: string): (r: string)
    ensures IsTrimmed(r)
    ensures |r| <= |s|
    decreases |s|
  {
    if |s| > 0 && IsJsWhitespace(s[0]) then Trim(s[1..])
    else if |s| > 0 && IsJsWhitespace(s[|s| - 1]) then Trim(s[..|s| - 1])
    else s
  }

  /**
   What `trim` cuts: the result is a contiguous piece of `s`, and everything
   cut off on either side of it is whitespace.
   */
  lemma {:induction false} TrimCutsWhitespace(s: string) returns (i: nat)
    ensures i + |Trim(s)| <= |s| && Trim(s) == s[i..i + |Trim(s)|]
    ensures AllWhitespace(s[..i]) && AllWhitespace(s[i + |Trim(s)|..])
    decreases |s|
  {
    if |s| > 0 && IsJsWhitespace(s[0]) {
      var j := TrimCutsWhitespace(s[1..]);
      i := j + 1;
      PieceAfterWhitespace(s, Trim(s), j);
    } else if |s| > 0 && IsJsWhitespace(s[|s| - 1]) {
      i := TrimCutsWhitespace(s[..|s| - 1]);
      PieceBeforeWhitespace(s, Trim(s), i);
    } else {
      i := 0;
      assert s[..0] == [] && s[|s|..] == [];
    }
  }

  /** A whitespace-bounded piece of `s[1..]` is one of `s` too, when `s[0]` is whitespace. */
  lemma PieceAfterWhitespace(s: string, r: string, j: nat)
    requires |s| > 0 && IsJsWhitespace(s[0])
    requires j + |r| <= |s| - 1 && r == s[1..][j..j + |r|]
    requires AllWhitespace(s[1..][..j]) && AllWhitespace(s[1..][j + |r|..])
    ensures j + 1 + |r| <= |s| && r == s[j + 1..j + 1 + |r|]
    ensures AllWhitespace(s[..j + 1]) && AllWhitespace(s[j + 1 + |r|..])
  {
    assert s[1..][j..j + |r|] == s[j + 1..j + 1 + |r|];
    assert s[1..][j + |r|..] == s[j + 1 + |r|..];
    assert s[..j + 1] == [s[0]] + s[1..][..j];
    WhitespaceConcat([s[0]], s[1..][..j]);
  }

  /** A whitespace-bounded piece of `s` without its last character is one of `s`, when that character is whitespace. */
  lemma PieceBeforeWhitespace(s: string, r: string, i: nat)
    requires |s| > 0 && IsJsWhitespace(s[|s| - 1])
    requires i + |r| <= |s| - 1 && r == s[..|s| - 1][i..i + |r|]
    requires AllWhitespace(s[..|s| - 1][..i]) && AllWhitespace(s[..|s| - 1][i + |r|..])
    ensures i + |r| <= |s| && r == s[i..i + |r|]
    ensures AllWhitespace(s[..i]) && AllWhitespace(s[i + |r|..])
  {
    var t := s[..|s| - 1];
    assert t[i..i + |r|] == s[i..i + |r|];
    assert t[..i] == s[..i];
    assert s[i + |r|..] == t[i + |r|..] + [s[|s| - 1]];
    WhitespaceConcat(t[i + |r|..], [s[|s| - 1]]);
  }

  lemma WhitespaceConcat(x: string, y: string)
    requires AllWhitespace(x) && AllWhitespace(y)
    ensures AllWhitespace(x + y)
  {
    assert forall k :: 0 <= k < |x + y| ==> (x + y)[k] == if k < |x| then x[k] else y[k - |x|];
  }

  /**
   Trimming characterises its result: whatever whitespace surrounds a string
   that is itself trimmed, `trim` returns exactly that string.
   */
  lemma {:induction false} TrimPadded(a: string, t: string, b: string)
    requires AllWhitespace(a) && AllWhitespace(b) && IsTrimmed(t)
    ensures Trim(a + t + b) == t
    decreases |a| + |b|
  {
    var s := a + t + b;
    if a != [] {
      assert s[0] == a[0];
      assert s[1..] == a[1..] + t + b;
      TrimPadded(a[1..], t, b);
    } else if t == [] && b != [] {
      assert s == b && s[0] == b[0];
      assert s[1..] == [] + [] + b[1..];
      TrimPadded([], [], b[1..]);
    } else if b != [] {
      assert s == t + b && s[0] == t[0];
      assert s[|s| - 1] == b[|b| - 1];
      assert s[..|s| - 1] == [] + t + b[..|b| - 1];
      TrimPadded([], t, b[..|b| - 1]);
    } else {
      assert s == t;
    }
  }

  /** A string with no whitespace at either end is its own trim. */
  lemma TrimOfTrimmed(s: string)
    requires IsTrimmed(s)
    ensures Trim(s) == s
  {
    assert [] + s + [] == s;
    TrimPadded([], s, []);
  }

  /** A string of whitespace only trims to the empty string. */
  lemma TrimAllWhitespace(s: string)
    requires AllWhitespace(s)
    ensures Trim(s) == ""
  {
    assert s + [] + [] == s;
    TrimPadded(s, [], []);
  }

  /** Trimming twice is the same as trimming once. */
  lemma TrimIdempotent(s: string)
    ensures Trim(Trim(s)) == Trim(s)
  {
    var t := Trim(s);
    assert [] + t + [] == t;
    TrimPadded([], t, []);
  }

  predicate IsAsciiUpper(c: char) { 'A' <= c <= 'Z' }

  predicate IsAsciiDigit(c: char) { '0' <= c <= '9' }

  /** The class `[a-zA-Z0-9]`. */
  predicate IsAsciiAlnum(c: char) { ('a' <= c <= 'z') || IsAsciiUpper(c) || IsAsciiDigit(c) }

  function LowerChar(c: char): (r: char)
    ensures !IsAsciiUpper(r)
  {
    if IsAsciiUpper(c) then (c as int + 32) as char else c
  }

  /** Lower-casing of the letters A-Z; every other character is kept. */
  function ToLowerAscii(s: string): (r: string)
    ensures |r| == |s|
    ensures forall i :: 0 <= i < |s| ==> r[i] == LowerChar(s[i])
  {
    if s == [] then [] else [LowerChar(s[0])] + ToLowerAscii(s[1..])
  }

  predicate AllDigits(s: string) {
    forall i :: 0 <= i < |s| ==> IsAsciiDigit(s[i])
  }

  function DigitChar(d: int): (c: char)
    requires 0 <= d < 10
    ensures IsAsciiDigit(c) && c as int - '0' as int == d
  {
    ('0' as int + d) as char
  }

  /** The decimal rendering of a non-negative integer, as a template literal prints it. */
  function NatToDecimal(n: nat): (r: string)
    ensures |r| >= 1 && AllDigits(r)
    ensures r[0] == '0' ==> n == 0
    decreases n
  {
    if n < 10 then [DigitChar(n)] else NatToDecimal(n / 10) + [DigitChar(n % 10)]
  }

  /** The value of a string of decimal digits. */
  function DecimalValue(s: string): nat
    requires AllDigits(s)
  {
    if s == [] then 0 else 10 * DecimalValue(s[..|s| - 1]) + (s[|s| - 1] as int - '0' as int)
  }

  /** Reading back the decimal rendering gives the number. */
  lemma {:induction false} DecimalRoundTrip(n: nat)
    ensures DecimalValue(NatToDecimal(n)) == n
    decreases n
  {
    var r := NatToDecimal(n);
    if n >= 10 {
      DecimalRoundTrip(n / 10);
      assert r[..|r| - 1] == NatToDecimal(n / 10);
    }
  }

  /** Distinct numbers render differently. */
  lemma DecimalInjective(m: nat, n: nat)
    requires NatToDecimal(m) == NatToDecimal(n)
    ensures m == n
  {
    DecimalRoundTrip(m);
    DecimalRoundTrip(n);
  }
}
