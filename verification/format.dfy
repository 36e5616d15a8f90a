/**
 * The part of PHP's `vsprintf` the validator's messages use: the `%%`
 * escape and the `%s` conversion, each `%s` taking the next argument.
 */
module Format {
  import opened Wrappers
  import opened PhpValues
  import Strings

  /** PHP's string conversion of a value, as `%s` prints it. */
  function StringOf(v: Value): (r: string)
    ensures v.Int? ==> Strings.CanonicalInt(r) && Strings.IntValue(r) == v.i
    ensures v.Str? ==> r == v.s
    ensures r == "" <==> (v == Null || v == Bool(false) || v == Str(""))
  {
    match v
    case Null => ""
    case Bool(b) => if b then "1" else ""
    case Int(i) => Strings.IntToStringRoundTrip(i); Strings.IntToString(i)
    case Str(s) => s
    case Arr(_) => "Array"
  }

  /**
   * For a scalar, `empty()` holds exactly when its string form is `""`
   * or `"0"`: the two strings PHP converts to `false`.
   */
  lemma EmptyScalarPrintsEmptyOrZero(v: Value)
    requires !v.Arr?
    ensures IsEmpty(v) <==> StringOf(v) == "" || StringOf(v) == "0"
  {
    if v.Int? && StringOf(v) == "0" {
      assert Strings.IntValue("0") == 0;
    }
    if v == Int(0) {
      assert StringOf(v) == "0";
    }
  }

  /**
   * `vsprintf(template, args)`. `None` stands for the cases PHP 8 rejects
   * with a `ValueError` — a `%` at the very end, a `%s` with no argument
   * left — and for every conversion other than `%%` and `%s`. Surplus
   * arguments are ignored, as in PHP.
   */
  function Format(template: string, args: seq<Value>): (r: Option<string>)
    ensures r.Some? ==> |r.value| >= |template| - 2 * Percents(template)
    decreases |template|
  {
    if |template| == 0 then Some("")
    else if template[0] != '%' then
      match Format(template[1..], args)
      case None => None
      case Some(rest) => Some([template[0]] + rest)
    else if |template| == 1 then None
    else if template[1] == '%' then
      match Format(template[2..], args)
      case None => None
      case Some(rest) => Some("%" + rest)
    else if template[1] == 's' && |args| > 0 then
      match Format(template[2..], args[1..])
      case None => None
      case Some(rest) => Some(StringOf(args[0]) + rest)
    else None
  }

  /** Number of `%` characters in `s`. */
  function Percents(s: string): nat
    decreases |s|
  {
    if |s| == 0 then 0 else (if s[0] == '%' then 1 else 0) + Percents(s[1..])
  }

  /** Text without `%` is copied through unchanged, whatever the arguments. */
  lemma {:induction false} FormatPlainPrefix(p: string, t: string, args: seq<Value>)
    requires '%' !in p
    ensures Format(p + t, args).Some? <==> Format(t, args).Some?
    ensures Format(p + t, args).Some? ==> Format(p + t, args).value == p + Format(t, args).value
    decreases |p|
  {
    if |p| > 0 {
      assert (p + t)[0] == p[0];
      assert (p + t)[1..] == p[1..] + t;
      FormatPlainPrefix(p[1..], t, args);
      if Format(t, args).Some? {
        var w := Format(t, args).value;
        assert [p[0]] + (p[1..] + w) == p + w;
      }
    } else {
      assert p + t == t;
    }
  }

  /** A template with one `%s` and no other `%` substitutes its first argument. */
  lemma FormatOneString(p: string, q: string, v: Value, more: seq<Value>)
    requires '%' !in p && '%' !in q
    ensures Format(p + "%s" + q, [v] + more) == Some(p + StringOf(v) + q)
  {
    FormatLeadingString(q, v, more);
    FormatPlainPrefix(p, "%s" + q, [v] + more);
    assert p + "%s" + q == p + ("%s" + q);
    assert p + (StringOf(v) + q) == p + StringOf(v) + q;
  }

  /** A template starting with its only `%s` puts the first argument in front of the rest. */
  lemma FormatLeadingString(q: string, v: Value, more: seq<Value>)
    requires '%' !in q
    ensures Format("%s" + q, [v] + more) == Some(StringOf(v) + q)
  {
    FormatPlainPrefix(q, "", more);
    assert q + "" == q;
    var t := "%s" + q;
    assert t[0] == '%' && t[1] == 's' && t[2..] == q;
    assert ([v] + more)[1..] == more;
  }

  /** `%%` between two plain texts prints a single `%`, whatever the arguments. */
  lemma FormatEscapedPercent(p: string, q: string, args: seq<Value>)
    requires '%' !in p && '%' !in q
    ensures Format(p + "%%" + q, args) == Some(p + "%" + q)
  {
    FormatPlainPrefix(q, "", args);
    assert q + "" == q;
    var t := "%%" + q;
    assert t[0] == '%' && t[1] == '%' && t[2..] == q;
    FormatPlainPrefix(p, t, args);
    assert p + "%%" + q == p + t;
    assert p + ("%" + q) == p + "%" + q;
  }

  /** `s` with every `%` doubled, so that formatting it prints `s` literally. */
  function Escape(s: string): (r: string)
    ensures |r| == |s| + Percents(s)
    decreases |s|
  {
    if |s| == 0 then ""
    else (if s[0] == '%' then "%%" else [s[0]]) + Escape(s[1..])
  }

  /** Formatting an escaped string gives the string back, whatever the arguments. */
  lemma {:induction false} FormatEscapeRoundTrip(s: string, args: seq<Value>)
    ensures Format(Escape(s), args) == Some(s)
    decreases |s|
  {
    if |s| > 0 {
      FormatEscapeRoundTrip(s[1..], args);
      var e := Escape(s);
      if s[0] == '%' {
        assert e[2..] == Escape(s[1..]);
      } else {
        assert e[0] == s[0];
        assert e[1..] == Escape(s[1..]);
      }
      assert [s[0]] + s[1..] == s;
    }
  }
}
