/** The handful of PHP string primitives the helpers rely on. */
module Strings {

  /** PHP's `strtolower` on one character (ASCII only, as in PHP 8.2 and later). */
  function LowerChar(c: char): (r: char)
    ensures !('A' <= r <= 'Z')
    ensures 'A' <= c <= 'Z' ==> r as int == c as int + 32
    ensures !('A' <= c <= 'Z') ==> r == c
  {
    if 'A' <= c <= 'Z' then (c as int - 'A' as int + 'a' as int) as char else c
  }

  /** PHP's `strtolower`. */
  function Lower(s: string): (r: string)
    ensures |r| == |s|
    ensures forall i :: 0 <= i < |s| ==> r[i] == LowerChar(s[i])
  {
    seq(|s|, i requires 0 <= i < |s| => LowerChar(s[i]))
  }

  /** `t` is `s` lower-cased, checked character by character. */
  lemma LowerSpelledOut(s: string, t: string)
    requires |s| == |t|
    requires forall i :: 0 <= i < |s| ==> t[i] == LowerChar(s[i])
    ensures Lower(s) == t
  {
  }

  /** Lower-casing twice is lower-casing once. */
  lemma LowerIdempotent(s: string)
    ensures Lower(Lower(s)) == Lower(s)
  {
  }

  /** Case-insensitive (ASCII) string equality. */
  predicate EqualsIgnoreCase(a: string, b: string)
  {
    Lower(a) == Lower(b)
  }

  /** Number of leading characters of `s` that belong to `cs`. */
  function LeadingCount(s: string, cs: set<char>): (n: nat)
    ensures n <= |s|
    ensures forall k :: 0 <= k < n ==> s[k] in cs
    ensures n < |s| ==> s[n] !in cs
    decreases |s|
  {
    if |s| > 0 && s[0] in cs then 1 + LeadingCount(s[1..], cs) else 0
  }

  /** Number of trailing characters of `s` that belong to `cs`. */
  function TrailingCount(s: string, cs: set<char>): (n: nat)
    ensures n <= |s|
    ensures forall k :: |s| - n <= k < |s| ==> s[k] in cs
    ensures n < |s| ==> s[|s| - n - 1] !in cs
    decreases |s|
  {
    if |s| > 0 && s[|s| - 1] in cs then 1 + TrailingCount(s[..|s| - 1], cs) else 0
  }

  /**
   * PHP's `trim($s, $chars)`: strips every leading and trailing character in `cs`.
   * The result is the unique infix of `s` whose cut-off ends consist of
   * characters of `cs` and whose own ends are not in `cs`.
   */
  function Trim(s: string, cs: set<char>): (r: string)
    ensures exists i, j ::
              && 0 <= i <= j <= |s| && r == s[i..j]
              && (forall k :: 0 <= k < i ==> s[k] in cs)
              && (forall k :: j <= k < |s| ==> s[k] in cs)
    ensures |r| > 0 ==> r[0] !in cs && r[|r| - 1] !in cs
  {
    var i := LeadingCount(s, cs);
    var rest := s[i..];
    var j := i + |rest| - TrailingCount(rest, cs);
    assert rest[..|rest| - TrailingCount(rest, cs)] == s[i..j];
    s[i..j]
  }

  /** Trimming is idempotent. */
  lemma TrimIdempotent(s: string, cs: set<char>)
    ensures Trim(Trim(s, cs), cs) == Trim(s, cs)
  {
    var t := Trim(s, cs);
    if |t| > 0 {
      assert LeadingCount(t, cs) == 0;
      assert TrailingCount(t, cs) == 0;
      assert t[0..|t|] == t;
    }
  }

  /** The characters PHP's `trim` strips when no character list is given. */
  const Whitespace: set<char> := {' ', '\t', '\n', '\r', '\0', '\U{000B}'}

  /** The separator `", "` trims to `","`. */
  lemma TrimCommaSpace()
    ensures Trim(", ", Whitespace) == ","
  {
    assert LeadingCount(", ", Whitespace) == 0;
    assert ", "[0..] == ", ";
    assert TrailingCount(", ", Whitespace) == 1;
    assert ", "[0..1] == ",";
  }

  /** `Strings::quote`, taken to wrap its argument in single quotes. */
  function Quote(s: string): (r: string)
    ensures |r| == |s| + 2
    ensures r[0] == '\'' && r[|r| - 1] == '\''
    ensures r[1..|r| - 1] == s
  {
    "'" + s + "'"
  }

  /** The decimal digits of a natural number, most significant first. */
  function NatToString(n: nat): (r: string)
    ensures |r| > 0
    ensures AllDigits(r)
    ensures r[0] == '0' ==> n == 0
    decreases n
  {
    var d := ['0' + (n % 10) as char];
    if n < 10 then d else NatToString(n / 10) + d
  }

  /** PHP's `(string)` cast of an integer. */
  function IntToString(i: int): (r: string)
    ensures CanonicalInt(r)
    ensures i < 0 <==> r[0] == '-'
  {
    if i < 0 then
      var r := "-" + NatToString(-i);
      assert r[1..] == NatToString(-i);
      r
    else NatToString(i)
  }

  /** Every character is a decimal digit. */
  predicate AllDigits(s: string)
  {
    forall k :: 0 <= k < |s| ==> '0' <= s[k] <= '9'
  }

  /**
   * The form PHP's `(string)` gives an integer: an optional minus sign,
   * then digits with no leading zero; zero is `"0"`, never `"-0"`.
   */
  predicate CanonicalInt(s: string)
  {
    && |s| > 0
    && (s[0] == '-' ==> |s| > 1 && s[1] != '0' && AllDigits(s[1..]))
    && (s[0] != '-' ==> AllDigits(s) && (s[0] == '0' ==> |s| == 1))
  }

  /**
   * A canonical integer string is the cast of the integer it reads as, so
   * the integer `5` and the string `"5"` compare equal as strings and no
   * other spelling (`"05"`, `"+5"`) does.
   */
  lemma CanonicalIntIsCast(s: string)
    requires CanonicalInt(s)
    ensures IntToString(IntValue(s)) == s
  {
    if s[0] == '-' {
      var t := s[1..];
      DigitsWithoutLeadingZero(t);
      assert IntValue(s) == -(DigitsValue(t) as int) < 0;
      assert IntToString(IntValue(s)) == "-" + NatToString(DigitsValue(t)) == "-" + t;
      assert s == "-" + t;
    } else if s[0] == '0' {
      assert s == "0" && s[..0] == "";
      assert IntValue(s) == DigitsValue("") * 10 + 0 == 0;
      assert IntToString(0) == NatToString(0) == "0";
    } else {
      DigitsWithoutLeadingZero(s);
      assert IntValue(s) == DigitsValue(s);
    }
  }

  /** Digits without a leading zero are the decimal form of their value, which is positive. */
  lemma {:induction false} DigitsWithoutLeadingZero(s: string)
    requires |s| > 0 && AllDigits(s) && s[0] != '0'
    ensures DigitsValue(s) > 0
    ensures NatToString(DigitsValue(s)) == s
    decreases |s|
  {
    var p := s[..|s| - 1];
    var n := DigitsValue(s);
    if |p| > 0 {
      DigitsWithoutLeadingZero(p);
      assert n / 10 == DigitsValue(p) && n % 10 == s[|s| - 1] as int - '0' as int;
      assert s == p + [s[|s| - 1]];
    } else {
      assert s == [s[0]];
    }
  }

  /** The value of a string of decimal digits. */
  function DigitsValue(s: string): (n: nat)
    decreases |s|
  {
    if |s| == 0 then 0
    else
      var d := s[|s| - 1] as int - '0' as int;
      DigitsValue(s[..|s| - 1]) * 10 + (if 0 <= d <= 9 then d else 0)
  }

  /** Reading the digits back gives the number: the decimal form loses nothing. */
  lemma {:induction false} NatToStringRoundTrip(n: nat)
    ensures DigitsValue(NatToString(n)) == n
    decreases n
  {
    var s := NatToString(n);
    if n >= 10 {
      NatToStringRoundTrip(n / 10);
      assert s[..|s| - 1] == NatToString(n / 10);
    }
  }

  /** Distinct integers have distinct decimal forms. */
  lemma IntToStringInjective(a: int, b: int)
    requires IntToString(a) == IntToString(b)
    ensures a == b
  {
    if a < 0 {
      assert b < 0;
      NegativeDigits(a);
      NegativeDigits(b);
      NatToStringInjective(-a, -b);
    } else {
      assert b >= 0;
      NatToStringInjective(a, b);
    }
  }

  /** PHP's reading of a decimal integer string: an optional minus sign, then digits. */
  function IntValue(s: string): int
  {
    if |s| > 0 && s[0] == '-' then -(DigitsValue(s[1..]) as int) else DigitsValue(s)
  }

  /** Reading back the `(string)` cast of any integer, negative ones included, gives the integer. */
  lemma IntToStringRoundTrip(i: int)
    ensures IntValue(IntToString(i)) == i
  {
    if i < 0 {
      NegativeDigits(i);
      NatToStringRoundTrip(-i);
    } else {
      NatToStringRoundTrip(i);
      assert NatToString(i)[0] != '-';
    }
  }

  /** Distinct natural numbers have distinct digit strings. */
  lemma NatToStringInjective(a: nat, b: nat)
    requires NatToString(a) == NatToString(b)
    ensures a == b
  {
    NatToStringRoundTrip(a);
    NatToStringRoundTrip(b);
  }

  /** After the sign, a negative number shows the digits of its magnitude. */
  lemma NegativeDigits(i: int)
    requires i < 0
    ensures IntToString(i)[1..] == NatToString(-i)
  {
    assert ("-" + NatToString(-i))[1..] == NatToString(-i);
  }

  /** `t` occurs in `s` starting at position `k`. */
  predicate InfixAt(t: string, s: string, k: int)
  {
    0 <= k <= |s| - |t| && s[k..k + |t|] == t
  }

  /** `t` occurs in `s` as a contiguous substring. */
  predicate IsInfix(t: string, s: string)
  {
    exists k | 0 <= k <= |s| :: InfixAt(t, s, k)
  }

  /** Occurrence survives text added on either side. */
  lemma InfixWiden(t: string, s: string, pre: string, post: string)
    requires IsInfix(t, s)
    ensures IsInfix(t, pre + s + post)
  {
    var k :| 0 <= k <= |s| && InfixAt(t, s, k);
    var u := pre + s + post;
    assert u[|pre| + k..|pre| + k + |t|] == s[k..k + |t|];
    assert InfixAt(t, u, |pre| + k);
  }

  /** Occurrence is transitive: an infix of an infix is an infix. */
  lemma InfixTransitive(t: string, u: string, s: string)
    requires IsInfix(t, u) && IsInfix(u, s)
    ensures IsInfix(t, s)
  {
    var k :| 0 <= k <= |u| && InfixAt(t, u, k);
    var m :| 0 <= m <= |s| && InfixAt(u, s, m);
    forall p | 0 <= p < |t|
      ensures s[m + k + p] == t[p]
    {
      assert s[m + k + p] == s[m..m + |u|][k + p] == u[k + p];
      assert u[k + p] == u[k..k + |t|][p];
    }
    assert s[m + k..m + k + |t|] == t;
    assert InfixAt(t, s, m + k);
  }

  /** Every string occurs in itself. */
  lemma InfixReflexive(t: string)
    ensures IsInfix(t, t)
  {
    assert InfixAt(t, t, 0);
  }
}
