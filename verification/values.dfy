/**
 * PHP values and ordered arrays, as far as the helpers look at them.
 *
 * A PHP array is an ordered map; it is modelled as the sequence of its
 * entries in iteration order. PHP never stores two entries under the same
 * key, which `UniqueKeys` states; the operations do not need it, some of
 * the lemmas about them do.
 */
module PhpValues {
  import opened Wrappers
  import Strings

  /** An array key: PHP keys are integers or strings ("1" is normalised to 1). */
  datatype Key = IntKey(i: int) | StrKey(s: string)

  /** A PHP value (floats and objects are not modelled). */
  datatype Value =
    | Null
    | Bool(b: bool)
    | Int(i: int)
    | Str(s: string)
    | Arr(entries: seq<Entry>)

  /** One key => value pair of an array. */
  datatype Entry = Entry(key: Key, value: Value)

  /** No key occurs twice, which holds of every PHP array. */
  predicate UniqueKeys(a: seq<Entry>)
  {
    forall i, j :: 0 <= i < j < |a| ==> a[i].key != a[j].key
  }

  /** `$a[$k]` when `array_key_exists($k, $a)`, `None` otherwise. */
  function Lookup(a: seq<Entry>, k: Key): (r: Option<Value>)
    ensures r.None? <==> forall i :: 0 <= i < |a| ==> a[i].key != k
    ensures r.Some? ==> Entry(k, r.value) in a
    decreases |a|
  {
    if |a| == 0 then None
    else if a[0].key == k then Some(a[0].value)
    else Lookup(a[1..], k)
  }

  /** In a PHP array, `$a[$k] == $v` exactly when the pair `$k => $v` is one of its entries. */
  lemma LookupFindsEntry(a: seq<Entry>, k: Key, v: Value)
    requires UniqueKeys(a)
    ensures Lookup(a, k) == Some(v) <==> Entry(k, v) in a
  {
    if Entry(k, v) in a {
      var i :| 0 <= i < |a| && a[i] == Entry(k, v);
      var w := Lookup(a, k).value;
      var j :| 0 <= j < |a| && a[j] == Entry(k, w);
      assert i == j;
    }
  }

  /** PHP's `(string)` cast of a key. */
  function KeyString(k: Key): (r: string)
    ensures k.IntKey? ==> Strings.CanonicalInt(r) && Strings.IntValue(r) == k.i
    ensures k.StrKey? ==> r == k.s
  {
    match k
    case IntKey(i) => Strings.IntToStringRoundTrip(i); Strings.IntToString(i)
    case StrKey(s) => s
  }

  /**
   * Compared as strings, the integer key `i` equals exactly one name: the
   * canonical decimal form of `i`. So the key `5` matches `"5"` but not
   * `"05"` or `"+5"`.
   */
  lemma IntKeyMatchesCanonicalName(i: int, name: string)
    ensures KeyString(IntKey(i)) == name <==> Strings.CanonicalInt(name) && Strings.IntValue(name) == i
  {
    if Strings.CanonicalInt(name) && Strings.IntValue(name) == i {
      Strings.CanonicalIntIsCast(name);
    }
  }

  /**
   * PHP's `empty()`: the values that convert to `false`
   * (`null`, `false`, `0`, `""`, `"0"` and the empty array).
   */
  predicate IsEmpty(v: Value)
  {
    match v
    case Null => true
    case Bool(b) => !b
    case Int(i) => i == 0
    case Str(s) => s == "" || s == "0"
    case Arr(es) => |es| == 0
  }
}
