/**
 * `Headzoo\Core\Comparator`: three-way comparison and boolean order and
 * equality predicates, usable as sort and search callbacks.
 *
 * The operands are PHP strings that are not numeric, which PHP compares
 * byte by byte (`strcmp`), a shorter prefix coming first. Characters are
 * compared by code point, which orders UTF-8 text exactly as its bytes do.
 */
module Comparator {

  /** The sign of PHP's `strcmp(a, b)`. */
  function StrCmp(a: string, b: string): (c: int)
    ensures c == -1 || c == 0 || c == 1
    ensures c == 0 <==> a == b
    decreases |a|
  {
    if |a| == 0 then (if |b| == 0 then 0 else -1)
    else if |b| == 0 then 1
    else if a[0] < b[0] then -1
    else if a[0] > b[0] then 1
    else
      var c := StrCmp(a[1..], b[1..]);
      assert a == [a[0]] + a[1..] && b == [b[0]] + b[1..];
      c
  }

  /** `a` comes before `b` in dictionary order: a proper prefix, or smaller at the first difference. */
  ghost predicate LexLess(a: string, b: string)
  {
    || (|a| < |b| && a == b[..|a|])
    || exists k :: 0 <= k < |a| && k < |b| && a[..k] == b[..k] && a[k] < b[k]
  }

  /** `StrCmp` orders strings exactly as a dictionary does. */
  lemma {:induction false} StrCmpIsLexicographic(a: string, b: string)
    ensures StrCmp(a, b) < 0 <==> LexLess(a, b)
    decreases |a|
  {
    if |a| == 0 || |b| == 0 {
    } else if a[0] < b[0] {
      assert a[..0] == b[..0];
    } else if a[0] > b[0] {
      if LexLess(a, b) {
        if |a| < |b| && a == b[..|a|] {
          assert a[0] == b[0];
        } else {
          var k :| 0 <= k < |a| && k < |b| && a[..k] == b[..k] && a[k] < b[k];
          if k > 0 {
            assert a[0] == a[..k][0] == b[..k][0] == b[0];
          }
        }
      }
    } else {
      var a', b' := a[1..], b[1..];
      StrCmpIsLexicographic(a', b');
      if LexLess(a', b') {
        if |a'| < |b'| && a' == b'[..|a'|] {
          assert a == b[..|a|];
        } else {
          var k :| 0 <= k < |a'| && k < |b'| && a'[..k] == b'[..k] && a'[k] < b'[k];
          assert a[..k + 1] == [a[0]] + a'[..k] == b[..k + 1];
          assert a[k + 1] < b[k + 1];
        }
      }
      if LexLess(a, b) {
        if |a| < |b| && a == b[..|a|] {
          assert a' == b'[..|a'|];
        } else {
          var k :| 0 <= k < |a| && k < |b| && a[..k] == b[..k] && a[k] < b[k];
          assert k > 0;
          assert a'[..k - 1] == a[1..k] == b[1..k] == b'[..k - 1];
          assert a'[k - 1] < b'[k - 1];
        }
      }
    }
  }

  /** Swapping the operands flips the sign of `strcmp`. */
  lemma {:induction false} StrCmpAntisymmetric(a: string, b: string)
    ensures StrCmp(b, a) == -StrCmp(a, b)
    decreases |a|
  {
    if |a| > 0 && |b| > 0 && a[0] == b[0] {
      StrCmpAntisymmetric(a[1..], b[1..]);
    }
  }

  /** `strcmp` order is transitive. */
  lemma {:induction false} StrCmpTransitive(a: string, b: string, c: string)
    requires StrCmp(a, b) < 0 && StrCmp(b, c) < 0
    ensures StrCmp(a, c) < 0
    decreases |a|
  {
    if |a| > 0 && |b| > 0 && |c| > 0 && a[0] == b[0] == c[0] {
      StrCmpTransitive(a[1..], b[1..], c[1..]);
    }
  }

  /** PHP's `$left < $right`: `left` comes first in dictionary order. */
  function IsLessThan(left: string, right: string): (b: bool)
    ensures b <==> LexLess(left, right)
  {
    StrCmpIsLexicographic(left, right);
    StrCmp(left, right) < 0
  }

  /** PHP's `$left <= $right`: `left` comes first or the two are equal. */
  function IsLessThanOrEquals(left: string, right: string): (b: bool)
    ensures b <==> LexLess(left, right) || left == right
  {
    StrCmpIsLexicographic(left, right);
    StrCmp(left, right) <= 0
  }

  /** PHP's `$left > $right`: `right` comes first in dictionary order. */
  function IsGreaterThan(left: string, right: string): (b: bool)
    ensures b <==> LexLess(right, left)
  {
    StrCmpIsLexicographic(right, left);
    StrCmpAntisymmetric(left, right);
    StrCmp(left, right) > 0
  }

  /** PHP's `$left >= $right`: `right` comes first or the two are equal. */
  function IsGreaterThanOrEquals(left: string, right: string): (b: bool)
    ensures b <==> LexLess(right, left) || left == right
  {
    StrCmpIsLexicographic(right, left);
    StrCmpAntisymmetric(left, right);
    StrCmp(left, right) >= 0
  }

  /** PHP's loose `$left == $right`; two non-numeric strings are equal when neither comes before the other. */
  function IsEquals(left: string, right: string): (b: bool)
    ensures b <==> !LexLess(left, right) && !LexLess(right, left)
  {
    StrCmpIsLexicographic(left, right);
    StrCmpIsLexicographic(right, left);
    StrCmpAntisymmetric(left, right);
    left == right
  }

  /** PHP's loose `$left != $right`: one of the two comes first. */
  function IsNotEquals(left: string, right: string): (b: bool)
    ensures b <==> LexLess(left, right) || LexLess(right, left)
  {
    StrCmpIsLexicographic(left, right);
    StrCmpIsLexicographic(right, left);
    StrCmpAntisymmetric(left, right);
    left != right
  }

  /** PHP's strict `$left === $right`: the same length and the same byte at every position. */
  function IsStrictlyEquals(left: string, right: string): (b: bool)
    ensures b <==> |left| == |right| && forall i :: 0 <= i < |left| ==> left[i] == right[i]
  {
    left == right
  }

  /** PHP's strict `$left !== $right`: the lengths differ or some position differs. */
  function IsStrictlyNotEquals(left: string, right: string): (b: bool)
    ensures b <==> |left| != |right| || exists i :: 0 <= i < |left| && left[i] != right[i]
  {
    left != right
  }

  /** `Comparator::compare`: -1, 0 or 1 as `left` is less than, equal to or greater than `right`. */
  function Compare(left: string, right: string): (r: int)
    ensures r == -1 || r == 0 || r == 1
    ensures r == -1 <==> LexLess(left, right)
    ensures r == 0 <==> left == right
    ensures r == 1 <==> LexLess(right, left)
  {
    StrCmpIsLexicographic(left, right);
    StrCmpIsLexicographic(right, left);
    StrCmpAntisymmetric(left, right);
    if IsLessThan(left, right) then -1
    else if IsGreaterThan(left, right) then 1
    else 0
  }

  /** `Comparator::reverse`: the same branches as `Compare` with the signs flipped. */
  function Reverse(left: string, right: string): (r: int)
    ensures r == -1 || r == 0 || r == 1
    ensures r == 1 <==> LexLess(left, right)
    ensures r == 0 <==> left == right
    ensures r == -1 <==> LexLess(right, left)
  {
    StrCmpIsLexicographic(left, right);
    StrCmpIsLexicographic(right, left);
    StrCmpAntisymmetric(left, right);
    if IsLessThan(left, right) then 1
    else if IsGreaterThan(left, right) then -1
    else 0
  }

  /** `Compare` reports exactly the order the boolean predicates report. */
  lemma CompareAgreesWithPredicates(left: string, right: string)
    ensures Compare(left, right) == -1 <==> IsLessThan(left, right)
    ensures Compare(left, right) == 0 <==> IsEquals(left, right)
    ensures Compare(left, right) == 1 <==> IsGreaterThan(left, right)
  {
  }

  /** `reverse` is the negation of `compare`, so it sorts in descending order. */
  lemma ReverseNegatesCompare(left: string, right: string)
    ensures Reverse(left, right) == -Compare(left, right)
  {
  }

  /** Every value compares equal to itself. */
  lemma CompareReflexive(a: string)
    ensures Compare(a, a) == 0
  {
  }

  /** Swapping the operands negates the comparison. */
  lemma CompareAntisymmetric(a: string, b: string)
    ensures Compare(a, b) == -Compare(b, a)
  {
    StrCmpAntisymmetric(a, b);
  }

  /** `Compare` is transitive, so it is a valid `usort` callback. */
  lemma CompareTransitive(a: string, b: string, c: string)
    requires Compare(a, b) <= 0 && Compare(b, c) <= 0
    ensures Compare(a, c) <= 0
  {
    if a != b && b != c {
      StrCmpTransitive(a, b, c);
    }
  }

  /** Exactly one of `<`, `==` and `>` holds. */
  lemma Trichotomy(a: string, b: string)
    ensures IsLessThan(a, b) || IsEquals(a, b) || IsGreaterThan(a, b)
    ensures !(IsLessThan(a, b) && IsEquals(a, b))
    ensures !(IsLessThan(a, b) && IsGreaterThan(a, b))
    ensures !(IsEquals(a, b) && IsGreaterThan(a, b))
  {
  }

  /** `isNotEquals` and `isStrictlyNotEquals` negate their equality counterparts. */
  lemma NotEqualsNegatesEquals(a: string, b: string)
    ensures IsNotEquals(a, b) == !IsEquals(a, b)
    ensures IsStrictlyNotEquals(a, b) == !IsStrictlyEquals(a, b)
  {
  }

  /** On non-numeric strings loose and strict equality coincide. */
  lemma LooseEqualsIsStrict(a: string, b: string)
    ensures IsEquals(a, b) == IsStrictlyEquals(a, b)
  {
  }

  /** `<=` is `<` or `==`, and `>=` is `>` or `==`. */
  lemma OrEqualsSplits(a: string, b: string)
    ensures IsLessThanOrEquals(a, b) == (IsLessThan(a, b) || IsEquals(a, b))
    ensures IsGreaterThanOrEquals(a, b) == (IsGreaterThan(a, b) || IsEquals(a, b))
  {
  }

  /** `>` and `>=` are `<` and `<=` with the operands swapped. */
  lemma GreaterMirrorsLess(a: string, b: string)
    ensures IsGreaterThan(a, b) == IsLessThan(b, a)
    ensures IsGreaterThanOrEquals(a, b) == IsLessThanOrEquals(b, a)
  {
    StrCmpAntisymmetric(a, b);
  }

  /**
   * `reverse` on the same three names: `joe` sorts before `headzoo`, which
   * sorts before `amy`, so the descending order is joe, headzoo, amy.
   */
  lemma ReverseDocExampleOrder()
    ensures Reverse("headzoo", "joe") == 1
    ensures Reverse("joe", "headzoo") == -1
    ensures Reverse("headzoo", "amy") == -1
  {
    DocExampleOrder();
    ReverseNegatesCompare("headzoo", "joe");
    ReverseNegatesCompare("joe", "headzoo");
    ReverseNegatesCompare("amy", "headzoo");
    CompareAntisymmetric("amy", "headzoo");
    ReverseNegatesCompare("headzoo", "amy");
  }

  /** The three names of the class documentation's sorting example, in their actual order. */
  lemma DocExampleOrder()
    ensures Compare("amy", "headzoo") == -1
    ensures Compare("headzoo", "joe") == -1
    ensures Compare("joe", "headzoo") == 1
  {
    assert IsLessThan("amy", "headzoo");
    assert IsLessThan("headzoo", "joe");
    GreaterMirrorsLess("joe", "headzoo");
  }
}
