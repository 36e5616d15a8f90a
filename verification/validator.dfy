/**
 * `Headzoo\Utilities\Validator`: checks that required keys are present
 * (and, unless allowed, not empty) and throws a configurable exception
 * class with a formatted message when they are not.
 *
 * The validator's only state is the name of the exception class it
 * throws; `SetThrownException` is its one state update.
 */
module Validator {
  import opened Wrappers
  import opened PhpValues
  import Strings
  import Arrays
  import Format

  // ---------------------------------------------------------------------
  // The class table

  /** The built-in PHP classes the model can resolve by name. */
  datatype Class =
    | Exception
    | ErrorException
    | JsonException
    | ClosedGeneratorException
    | LogicException
    | BadFunctionCallException
    | BadMethodCallException
    | DomainException
    | InvalidArgumentException
    | LengthException
    | OutOfRangeException
    | RuntimeException
    | OutOfBoundsException
    | OverflowException
    | RangeException
    | UnderflowException
    | UnexpectedValueException
    | Error
    | TypeError
    | ValueError
    | StdClass

  /**
   * PHP's class table: every class under its lower-cased name, which is
   * how the engine makes class names case-insensitive.
   */
  const ClassTable: map<string, Class> := map[
    "exception" := Exception,
    "errorexception" := ErrorException,
    "jsonexception" := JsonException,
    "closedgeneratorexception" := ClosedGeneratorException,
    "logicexception" := LogicException,
    "badfunctioncallexception" := BadFunctionCallException,
    "badmethodcallexception" := BadMethodCallException,
    "domainexception" := DomainException,
    "invalidargumentexception" := InvalidArgumentException,
    "lengthexception" := LengthException,
    "outofrangeexception" := OutOfRangeException,
    "runtimeexception" := RuntimeException,
    "outofboundsexception" := OutOfBoundsException,
    "overflowexception" := OverflowException,
    "rangeexception" := RangeException,
    "underflowexception" := UnderflowException,
    "unexpectedvalueexception" := UnexpectedValueException,
    "error" := Error,
    "typeerror" := TypeError,
    "valueerror" := ValueError,
    "stdclass" := StdClass]

  /** Distance from the root of the class's hierarchy. */
  function Depth(c: Class): nat
  {
    match c
    case Exception | Error | StdClass => 0
    case BadMethodCallException => 3
    case BadFunctionCallException | DomainException | InvalidArgumentException
       | LengthException | OutOfRangeException | OutOfBoundsException
       | OverflowException | RangeException | UnderflowException
       | UnexpectedValueException => 2
    case _ => 1
  }

  /** The class a class extends, if any. */
  function Parent(c: Class): (r: Option<Class>)
    ensures r.None? <==> Depth(c) == 0
    ensures r.Some? ==> Depth(r.value) + 1 == Depth(c)
  {
    match c
    case Exception | Error | StdClass => None
    case ErrorException | JsonException | ClosedGeneratorException
       | LogicException | RuntimeException => Some(Exception)
    case BadFunctionCallException | DomainException | InvalidArgumentException
       | LengthException | OutOfRangeException => Some(LogicException)
    case BadMethodCallException => Some(BadFunctionCallException)
    case OutOfBoundsException | OverflowException | RangeException
       | UnderflowException | UnexpectedValueException => Some(RuntimeException)
    case TypeError | ValueError => Some(Error)
  }

  /** `c` extends `base`, directly or through other classes (never the class itself). */
  predicate IsSubclassOf(c: Class, base: Class)
    decreases Depth(c)
  {
    match Parent(c)
    case None => false
    case Some(p) => p == base || IsSubclassOf(p, base)
  }

  /** Being a subclass strictly increases depth, so no class is its own subclass. */
  lemma {:induction false} SubclassIsDeeper(c: Class, base: Class)
    requires IsSubclassOf(c, base)
    ensures Depth(base) < Depth(c)
    decreases Depth(c)
  {
    var p := Parent(c).value;
    if p != base {
      SubclassIsDeeper(p, base);
    }
  }

  /** PHP's class lookup: the class registered under the lower-cased name, if any. */
  function ResolveClass(name: string): Option<Class>
  {
    var key := Strings.Lower(name);
    if key in ClassTable then Some(ClassTable[key]) else None
  }

  /** Names that differ only in letter case resolve to the same class. */
  lemma ResolveClassIgnoresCase(a: string, b: string)
    requires Strings.EqualsIgnoreCase(a, b)
    ensures ResolveClass(a) == ResolveClass(b)
  {
  }

  /** `name` resolves to `Exception` or to a class extending it. */
  predicate NamesExceptionClass(name: string)
  {
    match ResolveClass(name)
    case None => false
    case Some(c) => c == Exception || IsSubclassOf(c, Exception)
  }

  /**
   * The test `setThrownException` applies to the trimmed name:
   * `Exception::class === $name || is_subclass_of($name, Exception::class)`.
   * The first comparison is case-sensitive, the second resolves the name
   * case-insensitively and excludes the class itself.
   */
  function AcceptsName(name: string): (b: bool)
    ensures b ==> NamesExceptionClass(name)
    ensures b <==> name == "Exception" || (NamesExceptionClass(name) && ResolveClass(name) != Some(Exception))
  {
    if name == "Exception" then
      ResolvesTo(name, "exception", Exception);
      true
    else
      match ResolveClass(name)
      case None => false
      case Some(c) => IsSubclassOf(c, Exception)
  }

  // ---------------------------------------------------------------------
  // State and configuration

  /** What a validator remembers: the name of the exception class it throws. */
  datatype State = State(thrownException: string)

  /** An exception: the class thrown, its message and its code. */
  datatype Thrown =
    | Thrown(exceptionClass: string, message: string, code: int)
      /** `vsprintf` rejected the message template (PHP 8 raises `ValueError`). */
    | FormatRejected(template: string)

  /** A validator whose configured class names an exception class. */
  predicate Configured(s: State)
  {
    NamesExceptionClass(s.thrownException)
  }

  /**
   * `Validator::setThrownException`: strips leading and trailing
   * backslashes, then stores the name when it names `Exception` or one of
   * its subclasses; otherwise throws `InvalidArgumentException` and the
   * state stays as it was.
   */
  function SetThrownException(s: State, name: string): (r: Result<State, Thrown>)
    ensures var t := Strings.Trim(name, {'\\'});
            && (r.Success? <==> AcceptsName(t))
            && (r.Success? ==> r.value.thrownException == t && Configured(r.value))
            && (r.Failure? ==> r.error == Thrown("InvalidArgumentException",
                                                 "Value '" + t + "' must name an exception class.", 0))
    ensures r.Success? ==> |r.value.thrownException| > 0 && r.value.thrownException[0] != '\\'
  {
    var t := Strings.Trim(name, {'\\'});
    if t != "Exception" && !(match ResolveClass(t) case None => false case Some(c) => IsSubclassOf(c, Exception)) then
      Failure(Thrown("InvalidArgumentException", "Value '" + t + "' must name an exception class.", 0))
    else
      AcceptedNameIsExceptionClass(t);
      Success(State(t))
  }

  /** Every accepted name resolves to an exception class. */
  lemma AcceptedNameIsExceptionClass(t: string)
    requires AcceptsName(t)
    ensures NamesExceptionClass(t)
    ensures t != ""
  {
    if t == "Exception" {
      Strings.LowerSpelledOut(t, "exception");
    } else {
      assert Strings.Lower(t) in ClassTable;
    }
  }

  /** The state after `setThrownException`, whether it succeeded or threw. */
  function Configure(s: State, name: string): (s': State)
    ensures SetThrownException(s, name).Failure? ==> s' == s
    ensures SetThrownException(s, name).Success? ==> s' == State(Strings.Trim(name, {'\\'}))
  {
    match SetThrownException(s, name)
    case Success(next) => next
    case Failure(_) => s
  }

  /** The configured class always names an exception class, whatever names are offered. */
  lemma ConfigurePreservesConfigured(s: State, name: string)
    requires Configured(s)
    ensures Configured(Configure(s, name))
  {
  }

  /** Setting the same class twice is the same as setting it once. */
  lemma SetThrownExceptionIdempotent(s: State, name: string)
    ensures SetThrownException(s, name).Success? ==>
              SetThrownException(SetThrownException(s, name).value, name) == SetThrownException(s, name)
    ensures Configure(Configure(s, name), name) == Configure(s, name)
  {
  }

  /** Re-offering the stored name changes nothing: the stored name has no backslashes to strip. */
  lemma StoredNameIsStable(s: State, name: string)
    requires SetThrownException(s, name).Success?
    ensures var s' := SetThrownException(s, name).value;
            SetThrownException(s', s'.thrownException) == Success(s')
  {
    Strings.TrimIdempotent(name, {'\\'});
  }

  /** A name with nothing to trim that passes the test is stored as given. */
  lemma StoresUntrimmed(s: State, name: string)
    requires Strings.Trim(name, {'\\'}) == name && AcceptsName(name)
    ensures SetThrownException(s, name) == Success(State(name))
  {
  }

  /** A name with nothing to trim that fails the test is refused. */
  lemma RefusesUntrimmed(s: State, name: string)
    requires Strings.Trim(name, {'\\'}) == name && !AcceptsName(name)
    ensures SetThrownException(s, name).Failure?
  {
  }

  /** Surrounding backslashes are stripped before the name is checked and stored. */
  lemma BackslashesTrimmed(s: State)
    ensures SetThrownException(s, "\\RuntimeException\\") == Success(State("RuntimeException"))
  {
    RuntimeExceptionTrimmed();
    RuntimeExceptionAccepted();
  }

  /** The backslashes around `RuntimeException` are stripped. */
  lemma RuntimeExceptionTrimmed()
    ensures Strings.Trim("\\RuntimeException\\", {'\\'}) == "RuntimeException"
  {
    var name := "RuntimeException";
    assert '\\' !in name;
    assert "\\" + name + "\\" == "\\RuntimeException\\";
    OneBackslashEachSide(name);
  }

  /** One backslash on each side of a backslash-free name is stripped. */
  lemma OneBackslashEachSide(name: string)
    requires |name| > 0 && '\\' !in name
    ensures Strings.Trim("\\" + name + "\\", {'\\'}) == name
  {
    var padded := "\\" + name + "\\";
    assert padded[1..] == name + "\\";
    assert Strings.LeadingCount(padded, {'\\'}) == 1 by {
      assert Strings.LeadingCount(name + "\\", {'\\'}) == 0;
    }
    assert (name + "\\")[..|name|] == name;
    assert Strings.TrailingCount(name + "\\", {'\\'}) == 1 by {
      assert Strings.TrailingCount(name, {'\\'}) == 0;
    }
  }

  /** `JsonException` extends `Exception` directly, so it is accepted and stored. */
  lemma JsonExceptionAccepted(s: State)
    ensures SetThrownException(s, "JsonException") == Success(State("JsonException"))
  {
    NothingToTrim("JsonException");
    JsonExceptionPasses();
    StoresUntrimmed(s, "JsonException");
  }

  /** `JsonException` passes the test: it resolves to a proper subclass of `Exception`. */
  lemma JsonExceptionPasses()
    ensures AcceptsName("JsonException")
  {
    SubclassAccepted("JsonException", "jsonexception", JsonException);
  }

  /** `RuntimeException` passes the test under any capitalisation. */
  lemma RuntimeExceptionAccepted()
    ensures AcceptsName("RuntimeException")
    ensures AcceptsName("runtimeexception")
  {
    SubclassAccepted("RuntimeException", "runtimeexception", RuntimeException);
    SubclassAccepted("runtimeexception", "runtimeexception", RuntimeException);
  }

  /** The base class passes under its exact name. */
  lemma BaseNameAccepted(s: State)
    ensures SetThrownException(s, "Exception") == Success(State("Exception"))
  {
    NothingToTrim("Exception");
    StoresUntrimmed(s, "Exception");
  }

  /**
   * The base class spelled in lower case is refused, although PHP resolves
   * it to `Exception`: the name comparison is case-sensitive and
   * `is_subclass_of` excludes the class itself.
   */
  lemma LowerCaseBaseNameRefused(s: State)
    ensures SetThrownException(s, "exception").Failure?
  {
    NothingToTrim("exception");
    LowerCaseBaseNameFails();
    RefusesUntrimmed(s, "exception");
  }

  /** `exception` resolves to `Exception`, which is not its own subclass. */
  lemma LowerCaseBaseNameFails()
    ensures !AcceptsName("exception")
  {
    ResolvesTo("exception", "exception", Exception);
    assert Parent(Exception) == None;
  }

  /**
   * Apart from the exact base name `Exception`, acceptance ignores letter
   * case: two backslash-free names that lower-case alike are both stored or
   * both refused, and an accepted name is stored as it was given.
   */
  lemma SubclassNameCaseInsensitive(s: State, t: string, u: string)
    requires '\\' !in t && '\\' !in u
    requires Strings.Lower(t) == Strings.Lower(u)
    requires t != "Exception" && u != "Exception"
    ensures SetThrownException(s, t).Success? <==> SetThrownException(s, u).Success?
    ensures SetThrownException(s, t).Success? ==> SetThrownException(s, t) == Success(State(t))
  {
    NothingToTrim(t);
    NothingToTrim(u);
  }

  /** The subclass name spelled in lower case is accepted and stored as given. */
  lemma LowerCaseSubclassAccepted(s: State)
    ensures SetThrownException(s, "runtimeexception") == Success(State("runtimeexception"))
  {
    NothingToTrim("runtimeexception");
    RuntimeExceptionAccepted();
    StoresUntrimmed(s, "runtimeexception");
  }

  /** `Error` classes are throwable but are not exceptions, so they are refused. */
  lemma ErrorsAreRefused(s: State)
    ensures SetThrownException(s, "Error").Failure?
    ensures SetThrownException(s, "TypeError").Failure?
  {
    NothingToTrim("Error");
    ErrorRefused();
    RefusesUntrimmed(s, "Error");
    NothingToTrim("TypeError");
    TypeErrorRefused();
    RefusesUntrimmed(s, "TypeError");
  }

  /** `Error` resolves to the root of the error hierarchy, which is not an exception. */
  lemma ErrorRefused()
    ensures !AcceptsName("Error")
  {
    ResolvesTo("Error", "error", Error);
    assert Parent(Error) == None;
  }

  /** `TypeError` resolves, but to a class outside the `Exception` hierarchy. */
  lemma TypeErrorRefused()
    ensures !AcceptsName("TypeError")
  {
    ResolvesTo("TypeError", "typeerror", TypeError);
    assert Parent(TypeError) == Some(Error);
    assert Parent(Error) == None;
  }

  /** A name without backslashes is left as it is. */
  lemma NothingToTrim(name: string)
    requires '\\' !in name
    ensures Strings.Trim(name, {'\\'}) == name
  {
    assert Strings.LeadingCount(name, {'\\'}) == 0;
    assert name[0..] == name;
    assert Strings.TrailingCount(name, {'\\'}) == 0;
    assert name[..|name|] == name;
  }

  /** A name that resolves to a subclass of `Exception` passes the test. */
  lemma SubclassAccepted(name: string, key: string, c: Class)
    requires |name| == |key|
    requires forall i :: 0 <= i < |name| ==> key[i] == Strings.LowerChar(name[i])
    requires key in ClassTable && ClassTable[key] == c
    requires IsSubclassOf(c, Exception)
    ensures AcceptsName(name)
  {
    ResolvesTo(name, key, c);
  }

  /** Looking up `name`, spelled `key` in lower case, finds `c`. */
  lemma ResolvesTo(name: string, key: string, c: Class)
    requires |name| == |key|
    requires forall i :: 0 <= i < |name| ==> key[i] == Strings.LowerChar(name[i])
    requires key in ClassTable && ClassTable[key] == c
    ensures ResolveClass(name) == Some(c)
  {
    Strings.LowerSpelledOut(name, key);
  }

  // ---------------------------------------------------------------------
  // throwException

  /**
   * `r` is the configured exception carrying `message` formatted with
   * `args` and the given code, or the formatter's refusal.
   */
  predicate FormattedWith(r: Thrown, s: State, message: string, args: seq<Value>, code: int)
  {
    match Format.Format(message, args)
    case None => r == FormatRejected(message)
    case Some(m) => r == Thrown(s.thrownException, m, code)
  }

  /**
   * `Validator::throwException` as written; `extra` holds the arguments
   * passed after the message. `array_shift` takes the code from the front
   * of the argument list (`null` when nothing was passed); a code that is
   * not an integer is put back in front as the first format argument and
   * the code becomes 0. The message is run through `vsprintf` whenever
   * the argument list is not empty.
   */
  function ThrowException(s: State, message: string, extra: seq<Value>): (r: Thrown)
    ensures r.Thrown? ==> r.exceptionClass == s.thrownException
    ensures r.Thrown? ==> r.code == (if |extra| > 0 && extra[0].Int? then extra[0].i else 0)
    ensures |extra| == 1 && extra[0].Int? ==> r == Thrown(s.thrownException, message, extra[0].i)
    ensures |extra| > 1 && extra[0].Int? ==> FormattedWith(r, s, message, extra[1..], extra[0].i)
    ensures |extra| > 0 && !extra[0].Int? ==> FormattedWith(r, s, message, extra, 0)
    ensures |extra| == 0 ==> FormattedWith(r, s, message, [Null], 0)
  {
    var rest := if |extra| > 0 then extra[1..] else [];
    var code := if |extra| > 0 then extra[0] else Null;
    var args := if code.Int? then rest else [code] + rest;
    var number := if code.Int? then code.i else 0;
    assert |extra| > 0 ==> [extra[0]] + extra[1..] == extra;
    assert |extra| == 0 ==> args == [Null];
    if |args| == 0 then Thrown(s.thrownException, message, number)
    else
      match Format.Format(message, args)
      case None => FormatRejected(message)
      case Some(m) => Thrown(s.thrownException, m, number)
  }

  /**
   * `throwException` as its documentation describes it: the message is
   * formatted only when substitution arguments were passed, so a call
   * with the message alone leaves it untouched.
   */
  function ThrowExceptionCorrected(s: State, message: string, extra: seq<Value>): (r: Thrown)
    ensures r.Thrown? ==> r.exceptionClass == s.thrownException
    ensures r.Thrown? ==> r.code == (if |extra| > 0 && extra[0].Int? then extra[0].i else 0)
    ensures |extra| == 0 ==> r == Thrown(s.thrownException, message, 0)
    ensures |extra| == 1 && extra[0].Int? ==> r == Thrown(s.thrownException, message, extra[0].i)
    ensures |extra| > 1 && extra[0].Int? ==> FormattedWith(r, s, message, extra[1..], extra[0].i)
    ensures |extra| > 0 && !extra[0].Int? ==> FormattedWith(r, s, message, extra, 0)
  {
    var hasCode := |extra| > 0 && extra[0].Int?;
    var args := if hasCode then extra[1..] else extra;
    var number := if hasCode then extra[0].i else 0;
    if |args| == 0 then Thrown(s.thrownException, message, number)
    else
      match Format.Format(message, args)
      case None => FormatRejected(message)
      case Some(m) => Thrown(s.thrownException, m, number)
  }

  /** Whenever anything follows the message, the corrected version behaves as written. */
  lemma CorrectedAgreesWhenArgumentsGiven(s: State, message: string, extra: seq<Value>)
    requires |extra| > 0
    ensures ThrowExceptionCorrected(s, message, extra) == ThrowException(s, message, extra)
  {
  }

  /**
   * Called with the message alone, the code as written still formats it
   * (with a single `null` argument): `%%` collapses to `%`, and a
   * trailing `%` makes `vsprintf` fail. The corrected version keeps both
   * messages as they are.
   */
  lemma BareMessageIsFormatted(s: State)
    ensures ThrowException(s, "100%% done", []) == Thrown(s.thrownException, "100% done", 0)
    ensures ThrowExceptionCorrected(s, "100%% done", []) == Thrown(s.thrownException, "100%% done", 0)
    ensures ThrowException(s, "100%", []) == FormatRejected("100%")
    ensures ThrowExceptionCorrected(s, "100%", []) == Thrown(s.thrownException, "100%", 0)
  {
    EscapedPercentCollapses();
    TrailingPercentRejected();
  }

  /** `vsprintf` turns `%%` into `%`. */
  lemma EscapedPercentCollapses()
    ensures Format.Format("100%% done", [Null]) == Some("100% done")
  {
    PlainPieces();
    Format.FormatEscapedPercent("100", " done", [Null]);
    assert "100" + "%%" + " done" == "100%% done";
    assert "100" + "%" + " done" == "100% done";
  }

  /** The text around the percent signs is plain. */
  lemma PlainPieces()
    ensures '%' !in "100" && '%' !in " done"
  {
  }

  /** A `%` with no conversion letter after it is rejected. */
  lemma TrailingPercentRejected()
    ensures Format.Format("100%", [Null]) == None
  {
    Format.FormatPlainPrefix("100", "%", [Null]);
    assert "100" + "%" == "100%";
  }

  // ---------------------------------------------------------------------
  // validateRequired

  /** The text before the list in the message `validateRequired` throws. */
  const RequiredPrefix: string := "Required values missing: "

  /** The message template `validateRequired` passes to `throwException`. */
  const RequiredTemplate: string := RequiredPrefix + "%s" + "."

  /** `name` is a key of `values` (compared as strings) whose value counts: non-empty unless empty values are allowed. */
  predicate Present(values: seq<Entry>, name: string, allowEmpty: bool)
  {
    exists i | 0 <= i < |values| :: KeyString(values[i].key) == name && (allowEmpty || !IsEmpty(values[i].value))
  }

  /** The required names that are not present, in the order `required` lists them. */
  function MissingKeys(values: seq<Entry>, required: seq<string>, allowEmpty: bool): (r: seq<string>)
    ensures Arrays.IsSubsequence(r, required)
    ensures forall m :: m in r ==> m in required && !Present(values, m, allowEmpty)
    ensures forall i :: 0 <= i < |required| && !Present(values, required[i], allowEmpty) ==> required[i] in r
    ensures forall m :: multiset(r)[m] == (if Present(values, m, allowEmpty) then 0 else multiset(required)[m])
    decreases |required|
  {
    if |required| == 0 then []
    else
      var rest := MissingKeys(values, required[1..], allowEmpty);
      assert forall i :: 1 <= i < |required| ==> required[i] == required[1..][i - 1];
      assert [required[0]] + required[1..] == required;
      assert multiset(required) == multiset([required[0]]) + multiset(required[1..]);
      if Present(values, required[0], allowEmpty) then
        Arrays.SubsequenceCons(rest, required[1..], required[0]);
        assert [required[0]] + required[1..] == required;
        rest
      else
        assert ([required[0]] + rest)[1..] == rest;
        [required[0]] + rest
  }

  /** `name` is one of the keys of `values`, compared as strings. */
  predicate HasKey(values: seq<Entry>, name: string)
  {
    exists i | 0 <= i < |values| :: KeyString(values[i].key) == name
  }

  /** `array_diff($required, array_keys($values))`: the required names that are not keys, in order. */
  function ArrayDiffKeys(required: seq<string>, values: seq<Entry>): (r: seq<string>)
    ensures Arrays.IsSubsequence(r, required)
    ensures forall m :: multiset(r)[m] == (if HasKey(values, m) then 0 else multiset(required)[m])
    decreases |required|
  {
    if |required| == 0 then []
    else
      var rest := ArrayDiffKeys(required[1..], values);
      assert [required[0]] + required[1..] == required;
      assert multiset(required) == multiset([required[0]]) + multiset(required[1..]);
      if HasKey(values, required[0]) then
        Arrays.SubsequenceCons(rest, required[1..], required[0]);
        rest
      else
        assert ([required[0]] + rest)[1..] == rest;
        [required[0]] + rest
  }

  /** `array_filter($values)`: the entries whose value is not empty, and all of them. */
  function NonEmpty(values: seq<Entry>): (r: seq<Entry>)
    ensures forall e :: e in r <==> e in values && !IsEmpty(e.value)
  {
    Arrays.Filter(values, (v: Value, k: Key) => !IsEmpty(v))
  }

  /** The `array_filter` / `array_diff` pipeline computes exactly the missing names. */
  lemma {:induction false} ArrayDiffIsMissing(values: seq<Entry>, required: seq<string>, allowEmpty: bool)
    ensures ArrayDiffKeys(required, if allowEmpty then values else NonEmpty(values))
         == MissingKeys(values, required, allowEmpty)
    decreases |required|
  {
    if |required| > 0 {
      ArrayDiffIsMissing(values, required[1..], allowEmpty);
      KeptKeyIsPresent(values, required[0], allowEmpty);
    }
  }

  /** A name is a key of the kept entries exactly when it counts as present. */
  lemma KeptKeyIsPresent(values: seq<Entry>, name: string, allowEmpty: bool)
    ensures HasKey(if allowEmpty then values else NonEmpty(values), name) <==> Present(values, name, allowEmpty)
  {
    if !allowEmpty {
      var kept := NonEmpty(values);
      if HasKey(kept, name) {
        var i :| 0 <= i < |kept| && KeyString(kept[i].key) == name;
        assert kept[i] in kept;
        var j :| 0 <= j < |values| && values[j] == kept[i];
        assert KeyString(values[j].key) == name && !IsEmpty(values[j].value);
      }
      if Present(values, name, false) {
        var j :| 0 <= j < |values| && KeyString(values[j].key) == name && !IsEmpty(values[j].value);
        assert values[j] in kept;
        var i :| 0 <= i < |kept| && kept[i] == values[j];
      }
    }
  }

  /** The rendered list of missing names: each one quoted, joined with a final "and". */
  function MissingList(missing: seq<string>): (r: string)
    requires |missing| > 0
    ensures forall i :: 0 <= i < |missing| ==> Strings.IsInfix(Strings.Quote(missing[i]), r)
  {
    QuotedNamesListed(missing);
    Arrays.Conjunct(missing, Arrays.DefaultConjunction, Some(Strings.Quote)).value
  }

  /** Conjoining the quoted names leaves every quoted name in the sentence. */
  lemma QuotedNamesListed(missing: seq<string>)
    requires |missing| > 0
    ensures forall i :: 0 <= i < |missing|
              ==> Strings.IsInfix(Strings.Quote(missing[i]), Arrays.Conjunct(missing, Arrays.DefaultConjunction, Some(Strings.Quote)).value)
  {
    forall i | 0 <= i < |missing|
      ensures Strings.IsInfix(Strings.Quote(missing[i]), Arrays.Conjunct(missing, Arrays.DefaultConjunction, Some(Strings.Quote)).value)
    {
      Arrays.ConjunctContainsEach(missing, Arrays.DefaultConjunction, Some(Strings.Quote), i);
    }
  }

  /**
   * `Validator::validateRequired`: unless empty values are allowed, drops
   * the entries whose value is empty; then, if any required name is not a
   * key of what is left, throws the configured exception with the missing
   * names listed; otherwise returns true.
   */
  function ValidateRequired(s: State, values: seq<Entry>, required: seq<string>, allowEmpty: bool): (r: Result<bool, Thrown>)
    ensures r.Success? <==> forall i :: 0 <= i < |required| ==> Present(values, required[i], allowEmpty)
    ensures r.Success? ==> r.value
    ensures r.Failure? ==>
              var missing := MissingKeys(values, required, allowEmpty);
              |missing| > 0 && r.error == Thrown(s.thrownException, RequiredPrefix + MissingList(missing) + ".", 0)
  {
    var kept := if allowEmpty then values else NonEmpty(values);
    var missing := ArrayDiffKeys(required, kept);
    ArrayDiffIsMissing(values, required, allowEmpty);
    NothingMissingMeansAllPresent(values, required, allowEmpty);
    if |missing| > 0 then
      var list := MissingList(missing);
      ThrowsRequiredMessage(s, list);
      Failure(ThrowException(s, RequiredTemplate, [Str(list)]))
    else
      Success(true)
  }

  /** No name is missing exactly when every required name is present. */
  lemma NothingMissingMeansAllPresent(values: seq<Entry>, required: seq<string>, allowEmpty: bool)
    ensures |MissingKeys(values, required, allowEmpty)| == 0
        <==> forall i :: 0 <= i < |required| ==> Present(values, required[i], allowEmpty)
  {
    var missing := MissingKeys(values, required, allowEmpty);
    if |missing| > 0 {
      assert missing[0] in missing;
    }
  }

  /** `throwException` with the template and the list throws the documented message with code 0. */
  lemma ThrowsRequiredMessage(s: State, list: string)
    ensures ThrowException(s, RequiredTemplate, [Str(list)]) == Thrown(s.thrownException, RequiredPrefix + list + ".", 0)
  {
    RequiredMessage(list);
  }

  /** The fixed part of the template holds no conversion. */
  lemma PrefixHasNoPercent()
    ensures '%' !in RequiredPrefix
  {
  }

  /** Formatting the template with the list gives the documented message. */
  lemma RequiredMessage(list: string)
    ensures Format.Format(RequiredTemplate, [Str(list)]) == Some(RequiredPrefix + list + ".")
  {
    PrefixHasNoPercent();
    Format.FormatOneString(RequiredPrefix, ".", Str(list), []);
    assert [Str(list)] + [] == [Str(list)];
  }

  /** With empty values allowed only the keys matter: the values are never inspected. */
  lemma AllowEmptyIgnoresValues(s: State, a: seq<Entry>, b: seq<Entry>, required: seq<string>)
    requires |a| == |b|
    requires forall i :: 0 <= i < |a| ==> a[i].key == b[i].key
    ensures ValidateRequired(s, a, required, true) == ValidateRequired(s, b, required, true)
  {
    forall name
      ensures Present(a, name, true) <==> Present(b, name, true)
    {
      if Present(a, name, true) {
        var i :| 0 <= i < |a| && KeyString(a[i].key) == name;
        assert KeyString(b[i].key) == name;
      }
      if Present(b, name, true) {
        var i :| 0 <= i < |b| && KeyString(b[i].key) == name;
        assert KeyString(a[i].key) == name;
      }
    }
    MissingKeysFollowPresence(a, b, required, true);
  }

  /** Two arrays in which the same names count as present miss the same names. */
  lemma {:induction false} MissingKeysFollowPresence(a: seq<Entry>, b: seq<Entry>, required: seq<string>, allowEmpty: bool)
    requires forall name :: Present(a, name, allowEmpty) <==> Present(b, name, allowEmpty)
    ensures MissingKeys(a, required, allowEmpty) == MissingKeys(b, required, allowEmpty)
    decreases |required|
  {
    if |required| > 0 {
      MissingKeysFollowPresence(a, b, required[1..], allowEmpty);
    }
  }

  /** The failure message names every missing key, quoted. */
  lemma MessageNamesEachMissingKey(s: State, values: seq<Entry>, required: seq<string>, allowEmpty: bool, i: int)
    requires 0 <= i < |MissingKeys(values, required, allowEmpty)|
    ensures var r := ValidateRequired(s, values, required, allowEmpty);
            r.Failure? && r.error.Thrown?
            && Strings.IsInfix(Strings.Quote(MissingKeys(values, required, allowEmpty)[i]), r.error.message)
  {
    var missing := MissingKeys(values, required, allowEmpty);
    FailsListingMissing(s, values, required, allowEmpty);
    var list := MissingList(missing);
    Strings.InfixWiden(Strings.Quote(missing[i]), list, RequiredPrefix, ".");
  }

  /** Whenever some required name is missing, the validation fails with the listing message. */
  lemma FailsListingMissing(s: State, values: seq<Entry>, required: seq<string>, allowEmpty: bool)
    requires |MissingKeys(values, required, allowEmpty)| > 0
    ensures var missing := MissingKeys(values, required, allowEmpty);
            ValidateRequired(s, values, required, allowEmpty)
              == Failure(Thrown(s.thrownException, RequiredPrefix + MissingList(missing) + ".", 0))
  {
    var missing := MissingKeys(values, required, allowEmpty);
    assert missing[0] in missing;
  }

  /** A value `"a" => 1` satisfies `"a"`, and `"b"` is reported missing. */
  lemma ValidateRequiredExample(s: State)
    ensures ValidateRequired(s, [Entry(StrKey("a"), Int(1))], ["a", "b"], false)
         == Failure(Thrown(s.thrownException, "Required values missing: 'b'.", 0))
  {
    ExampleMissesB();
    QuotedB();
    ExampleMessage();
    FailsListingMissing(s, [Entry(StrKey("a"), Int(1))], ["a", "b"], false);
  }

  /** The message text for the single missing name `"b"`. */
  lemma ExampleMessage()
    ensures RequiredPrefix + "'b'" + "." == "Required values missing: 'b'."
  {
  }

  /** In the example only `"b"` is missing. */
  lemma ExampleMissesB()
    ensures MissingKeys([Entry(StrKey("a"), Int(1))], ["a", "b"], false) == ["b"]
  {
    var values := [Entry(StrKey("a"), Int(1))];
    assert KeyString(values[0].key) == "a" && !IsEmpty(values[0].value);
    assert Present(values, "a", false);
    assert !Present(values, "b", false);
    assert ["a", "b"][1..] == ["b"];
    assert ["b"][1..] == [];
  }

  /** The list of the one missing name `"b"` is `'b'`. */
  lemma QuotedB()
    ensures MissingList(["b"]) == "'b'"
  {
    var q := Arrays.Apply(["b"], Some(Strings.Quote));
    assert q[0] == Strings.Quote("b") == "'b'";
  }

  /** An empty value counts as missing unless empty values are allowed. */
  lemma EmptyValueCountsAsMissing(s: State)
    ensures ValidateRequired(s, [Entry(StrKey("a"), Str(""))], ["a"], false).Failure?
    ensures ValidateRequired(s, [Entry(StrKey("a"), Str(""))], ["a"], true) == Success(true)
  {
    var values := [Entry(StrKey("a"), Str(""))];
    assert KeyString(values[0].key) == "a";
    assert !Present(values, "a", false);
    assert Present(values, "a", true);
  }
}
