/**
 * Character classes and string helpers used by the request parser: the
 * character predicates of the parser's header file, ASCII case folding
 * (`to_lower_copy`, `iequals`) and the decimal conversions performed by
 * `lexical_cast<int>` on a string and on a single character.
 */
module Ascii {
  import opened Wrappers

  predicate IsSpace(c: char) { c == ' ' }
  predicate IsNewLine(c: char) { c == '\r' || c == '\n' }
  predicate IsDigit(c: char) { '0' <= c <= '9' }
  predicate IsFloat(c: char) { IsDigit(c) || c == '.' }
  predicate IsUpperAlpha(c: char) { 'A' <= c <= 'Z' }
  predicate IsCollon(c: char) { c == ':' }
  predicate IsSlash(c: char) { c == '/' }

  /** ASCII lower-casing of one character; every other character is left alone. */
  function ToLowerChar(c: char): char
  {
    if IsUpperAlpha(c) then (c as int + 32) as char else c
  }

  /** ASCII lower-casing of a string, character by character. */
  function ToLower(s: string): (r: string)
    ensures |r| == |s|
    ensures forall i | 0 <= i < |s| :: r[i] == ToLowerChar(s[i])
    decreases |s|
  {
    if s == [] then [] else [ToLowerChar(s[0])] + ToLower(s[1..])
  }

  /** Case-insensitive (ASCII) string equality, compared character by character. */
  predicate IEquals(a: string, b: string)
    decreases |a|
  {
    |a| == |b| && (a == [] || (ToLowerChar(a[0]) == ToLowerChar(b[0]) && IEquals(a[1..], b[1..])))
  }

  /** Two strings are equal up to case exactly when their lower-case copies are equal. */
  lemma {:induction false} IEqualsToLower(a: string, b: string)
    ensures IEquals(a, b) <==> ToLower(a) == ToLower(b)
    decreases |a|
  {
    if |a| == |b| && a != [] {
      IEqualsToLower(a[1..], b[1..]);
      assert ToLower(a) == [ToLowerChar(a[0])] + ToLower(a[1..]);
      assert ToLower(b) == [ToLowerChar(b[0])] + ToLower(b[1..]);
      if ToLower(a) == ToLower(b) {
        assert ToLower(a)[1..] == ToLower(a[1..]) && ToLower(b)[1..] == ToLower(b[1..]);
      }
    } else if |a| != |b| {
      assert |ToLower(a)| != |ToLower(b)|;
    }
  }

  lemma {:induction false} IEqualsPointwise(a: string, b: string)
    ensures IEquals(a, b) <==> |a| == |b| && forall i | 0 <= i < |a| :: ToLowerChar(a[i]) == ToLowerChar(b[i])
  {
    IEqualsToLower(a, b);
    if |a| == |b| && forall i | 0 <= i < |a| :: ToLowerChar(a[i]) == ToLowerChar(b[i]) {
      assert ToLower(a) == ToLower(b);
    }
  }

  /** The index of the first occurrence of `x` in `s`, like `std::string::find`. */
  function IndexOf<T(==)>(s: seq<T>, x: T): (r: Option<nat>)
    ensures r.None? <==> x !in s
    ensures r.Some? ==> r.value < |s| && s[r.value] == x && x !in s[..r.value]
    decreases |s|
  {
    if s == [] then None
    else if s[0] == x then Some(0)
    else match IndexOf(s[1..], x)
      case None => None
      case Some(i) => Some(i + 1)
  }

  /** The first occurrence of `x` in `a + [x] + b`, when `a` has none, is right after `a`. */
  lemma IndexOfAfter<T>(a: seq<T>, x: T, b: seq<T>)
    requires x !in a
    ensures IndexOf(a + [x] + b, x) == Some(|a|)
  {
    assert (a + [x] + b)[|a|] == x;
    assert (a + [x] + b)[..|a|] == a;
  }

  const MinInt: int := -0x8000_0000
  const MaxInt: int := 0x7FFF_FFFF

  predicate AllDigits(s: string)
  {
    forall i | 0 <= i < |s| :: IsDigit(s[i])
  }

  /** The value of a string of decimal digits, most significant first. */
  function DigitsValue(s: string): nat
    requires AllDigits(s)
    decreases |s|
  {
    if s == [] then 0 else DigitsValue(s[..|s| - 1]) * 10 + (s[|s| - 1] as int - '0' as int)
  }

  /** An optional leading sign. */
  predicate Signed(s: string)
  {
    |s| > 0 && (s[0] == '-' || s[0] == '+')
  }

  /** What follows the optional sign. */
  function Unsigned(s: string): string
  {
    if Signed(s) then s[1..] else s
  }

  /** The value of a sign and a string of digits. */
  function SignedValue(s: string): int
    requires AllDigits(Unsigned(s))
  {
    var magnitude: int := DigitsValue(Unsigned(s));
    if Signed(s) && s[0] == '-' then -magnitude else magnitude
  }

  /**
   * `lexical_cast<int>` applied to a string: an optional sign followed by at
   * least one decimal digit, whose value fits a 32-bit signed int; anything
   * else is a failed cast.
   */
  function ParseInt(s: string): (r: Option<int>)
    ensures r.Some? <==> Unsigned(s) != [] && AllDigits(Unsigned(s)) && MinInt <= SignedValue(s) <= MaxInt
    ensures r.Some? ==> r.value == SignedValue(s)
  {
    var digits := Unsigned(s);
    if digits == [] || !AllDigits(digits) then None
    else
      var v := SignedValue(s);
      if MinInt <= v <= MaxInt then Some(v) else None
  }

  /**
   * The failed casts: the empty string, a sign alone, a character other than a
   * digit after the optional sign, and a value outside the 32-bit range.
   */
  lemma ParseIntRejects(s: string)
    ensures s == [] || s == "-" || s == "+" ==> ParseInt(s).None?
    ensures (exists i | 0 <= i < |s| :: !IsDigit(s[i]) && (i > 0 || !Signed(s))) ==> ParseInt(s).None?
    ensures AllDigits(Unsigned(s)) && DigitsValue(Unsigned(s)) > -MinInt ==> ParseInt(s).None?
  {
    if exists i | 0 <= i < |s| :: !IsDigit(s[i]) && (i > 0 || !Signed(s)) {
      var i :| 0 <= i < |s| && !IsDigit(s[i]) && (i > 0 || !Signed(s));
      if Signed(s) {
        assert !IsDigit(Unsigned(s)[i - 1]);
      } else {
        assert !IsDigit(Unsigned(s)[i]);
      }
    }
  }

  /** `lexical_cast<int>` applied to a single character: only a digit converts. */
  function DigitValue(c: char): (r: Option<int>)
    ensures r.Some? <==> IsDigit(c)
    ensures r.Some? ==> 0 <= r.value <= 9 && c == ('0' as int + r.value) as char
  {
    if IsDigit(c) then Some(c as int - '0' as int) else None
  }

  /** Decimal text of a natural number, without leading zeros: the reference the parser is checked against. */
  function Digits(n: nat): (s: string)
    ensures |s| > 0
    decreases n
  {
    if n < 10 then [('0' as int + n) as char] else Digits(n / 10) + [('0' as int + n % 10) as char]
  }

  /** Decimal text of an integer, with a leading '-' when negative. */
  function FormatInt(n: int): string
  {
    if n < 0 then "-" + Digits(-n) else Digits(n)
  }

  lemma {:induction false} DigitsRoundTrip(n: nat)
    ensures AllDigits(Digits(n)) && DigitsValue(Digits(n)) == n
  {
    if n >= 10 {
      DigitsRoundTrip(n / 10);
      var s := Digits(n);
      assert s[..|s| - 1] == Digits(n / 10);
    }
  }

  /** Every 32-bit integer written in decimal parses back to itself. */
  lemma {:induction false} ParseFormatInt(n: int)
    requires MinInt <= n <= MaxInt
    ensures ParseInt(FormatInt(n)) == Some(n)
  {
    var s := FormatInt(n);
    if n < 0 {
      DigitsRoundTrip(-n);
      assert s[0] == '-' && Unsigned(s) == Digits(-n);
      assert DigitsValue(Unsigned(s)) == -n;
    } else {
      DigitsRoundTrip(n);
      assert s == Digits(n);
      assert s[0] != '-' && s[0] != '+';
      assert Unsigned(s) == s;
    }
  }
}
