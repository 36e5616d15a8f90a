/**
 * `Headzoo\Utilities\Arrays`: helpers over PHP arrays of records and of
 * strings — key/value membership, column extraction, joining with a
 * separator or a final conjunction, and case-insensitive search.
 */
module Arrays {
  import opened Wrappers
  import opened PhpValues
  import Strings

  /** `Arrays::DEFAULT_CONJUNCTION`. */
  const DefaultConjunction: string := "and"

  /** `Arrays::DEFAULT_SEPARATOR`. */
  const DefaultSeparator: string := ", "

  // ---------------------------------------------------------------------
  // containsKeyValue

  /** `$v` is an array holding the pair `$key => $value`. */
  predicate HasPair(v: Value, key: Key, value: Value)
  {
    v.Arr? && Entry(key, value) in v.entries
  }

  /**
   * `Arrays::containsKeyValue`. Without `multi`, looks `key` up in `a`
   * itself; with `multi`, scans every element of `a` that is an array for
   * the pair `key => value` (elements that are not arrays are skipped, as
   * `foreach` skips them). Values are compared exactly.
   */
  method ContainsKeyValue(a: seq<Entry>, key: Key, value: Value, multi: bool) returns (found: bool)
    ensures !multi ==> (found <==> Lookup(a, key) == Some(value))
    ensures multi ==> (found <==> exists i :: 0 <= i < |a| && HasPair(a[i].value, key, value))
  {
    if !multi {
      return Lookup(a, key) == Some(value);
    }
    for i := 0 to |a|
      invariant forall m :: 0 <= m < i ==> !HasPair(a[m].value, key, value)
    {
      if a[i].value.Arr? {
        var sub := a[i].value.entries;
        for j := 0 to |sub|
          invariant forall m :: 0 <= m < j ==> sub[m] != Entry(key, value)
        {
          if sub[j].key == key && sub[j].value == value {
            return true;
          }
        }
      }
    }
    return false;
  }

  // ---------------------------------------------------------------------
  // column and columnFilter

  /** `isset($row[$column]) ? $row[$column] : nothing`: a key holding `null` counts as unset. */
  function Cell(row: Value, column: Key): (r: Option<Value>)
    ensures r.Some? ==> r.value != Null
    ensures r.Some? ==> row.Arr? && Lookup(row.entries, column) == Some(r.value)
    ensures r.Some? <==> row.Arr? && exists v :: v != Null && Entry(column, v) in row.entries && Lookup(row.entries, column) == Some(v)
  {
    if row.Arr? then
      match Lookup(row.entries, column)
      case Some(v) => if v != Null then Some(v) else None
      case None => None
    else None
  }

  /** `Arrays::column`: the cells of `column` of every row that has it set, in row order. */
  function Column(a: seq<Entry>, column: Key): (r: seq<Value>)
    ensures |r| <= |a|
    ensures |r| == |a| <==> forall i :: 0 <= i < |a| ==> Cell(a[i].value, column).Some?
    ensures Null !in r
    decreases |a|
  {
    if |a| == 0 then []
    else
      var rest := Column(a[1..], column);
      match Cell(a[0].value, column)
      case Some(v) => [v] + rest
      case None => rest
  }

  /** Column extraction works row by row: the column of a concatenation is the concatenation of columns. */
  lemma {:induction false} ColumnAppend(a: seq<Entry>, b: seq<Entry>, column: Key)
    ensures Column(a + b, column) == Column(a, column) + Column(b, column)
    decreases |a|
  {
    if |a| == 0 {
      assert a + b == b;
    } else {
      assert (a + b)[0] == a[0];
      assert (a + b)[1..] == a[1..] + b;
      ColumnAppend(a[1..], b, column);
    }
  }

  /** A value is in the column exactly when some row holds it in that column. */
  lemma {:induction false} ColumnMembership(a: seq<Entry>, column: Key, v: Value)
    ensures v in Column(a, column) <==> exists i :: 0 <= i < |a| && Cell(a[i].value, column) == Some(v)
    decreases |a|
  {
    if |a| > 0 {
      ColumnMembership(a[1..], column, v);
      if exists i :: 0 <= i < |a| && Cell(a[i].value, column) == Some(v) {
        var i :| 0 <= i < |a| && Cell(a[i].value, column) == Some(v);
        if i > 0 {
          assert Cell(a[1..][i - 1].value, column) == Some(v);
        }
      }
    }
  }

  /** When every row has the column set, the result lists the cells position by position. */
  lemma {:induction false} ColumnOfCompleteRows(a: seq<Entry>, column: Key)
    requires forall i :: 0 <= i < |a| ==> Cell(a[i].value, column).Some?
    ensures |Column(a, column)| == |a|
    ensures forall i :: 0 <= i < |a| ==> Column(a, column)[i] == Cell(a[i].value, column).value
    decreases |a|
  {
    if |a| > 0 {
      ColumnOfCompleteRows(a[1..], column);
    }
  }

  /** The rows `callback($row, $key)` keeps, in order. */
  function Filter(a: seq<Entry>, keep: (Value, Key) -> bool): (r: seq<Entry>)
    ensures |r| <= |a|
    ensures forall e :: e in r ==> e in a && keep(e.value, e.key)
    ensures forall i :: 0 <= i < |a| && keep(a[i].value, a[i].key) ==> a[i] in r
    decreases |a|
  {
    if |a| == 0 then []
    else
      var rest := Filter(a[1..], keep);
      assert forall i :: 1 <= i < |a| ==> a[i] == a[1..][i - 1];
      (if keep(a[0].value, a[0].key) then [a[0]] else []) + rest
  }

  /** Filtering works row by row. */
  lemma {:induction false} FilterAppend(a: seq<Entry>, b: seq<Entry>, keep: (Value, Key) -> bool)
    ensures Filter(a + b, keep) == Filter(a, keep) + Filter(b, keep)
    decreases |a|
  {
    if |a| == 0 {
      assert a + b == b;
    } else {
      assert (a + b)[0] == a[0];
      assert (a + b)[1..] == a[1..] + b;
      FilterAppend(a[1..], b, keep);
    }
  }

  /** A callback that keeps every row filters nothing out. */
  lemma {:induction false} FilterKeepAll(a: seq<Entry>, keep: (Value, Key) -> bool)
    requires forall i :: 0 <= i < |a| ==> keep(a[i].value, a[i].key)
    ensures Filter(a, keep) == a
    decreases |a|
  {
    if |a| > 0 {
      FilterKeepAll(a[1..], keep);
    }
  }

  /** `xs` can be obtained from `ys` by deleting elements (greedy matching). */
  predicate IsSubsequence<T(==)>(xs: seq<T>, ys: seq<T>)
    decreases |ys|
  {
    if |xs| == 0 then true
    else if |ys| == 0 then false
    else if xs[0] == ys[0] then IsSubsequence(xs[1..], ys[1..])
    else IsSubsequence(xs, ys[1..])
  }

  /** Deleting the first element keeps a subsequence a subsequence. */
  lemma {:induction false} SubsequenceDropFirst<T>(xs: seq<T>, ys: seq<T>)
    requires |xs| > 0 && IsSubsequence(xs, ys)
    ensures IsSubsequence(xs[1..], ys)
    decreases |ys|, 0
  {
    if xs[0] != ys[0] {
      SubsequenceDropFirst(xs, ys[1..]);
    }
    SubsequenceCons(xs[1..], ys[1..], ys[0]);
    assert [ys[0]] + ys[1..] == ys;
  }

  /** Putting an element in front of the larger sequence keeps a subsequence a subsequence. */
  lemma {:induction false} SubsequenceCons<T>(xs: seq<T>, ys: seq<T>, y: T)
    requires IsSubsequence(xs, ys)
    ensures IsSubsequence(xs, [y] + ys)
    decreases |ys|, 1
  {
    if |xs| > 0 {
      assert ([y] + ys)[1..] == ys;
      if xs[0] == y {
        SubsequenceDropFirst(xs, ys);
      }
    }
  }

  /** Filtering the rows first can only drop cells from the column. */
  lemma {:induction false} ColumnOfFilterIsSubsequence(a: seq<Entry>, keep: (Value, Key) -> bool, column: Key)
    ensures IsSubsequence(Column(Filter(a, keep), column), Column(a, column))
    decreases |a|
  {
    if |a| > 0 {
      var f := Filter(a, keep);
      var f' := Filter(a[1..], keep);
      ColumnOfFilterIsSubsequence(a[1..], keep, column);
      var xs := Column(f', column);
      var ys := Column(a[1..], column);
      if keep(a[0].value, a[0].key) {
        assert f == [a[0]] + f';
        ColumnAppend([a[0]], f', column);
        ColumnAppend([a[0]], a[1..], column);
        assert [a[0]] + a[1..] == a;
        match Cell(a[0].value, column)
        case None =>
          assert Column([a[0]], column) == [];
          assert Column(f, column) == xs && Column(a, column) == ys;
        case Some(v) =>
          assert Column([a[0]], column) == [v];
          assert ([v] + xs)[1..] == xs && ([v] + ys)[1..] == ys;
      } else {
        assert f == f';
        match Cell(a[0].value, column)
        case None =>
        case Some(v) =>
          SubsequenceCons(xs, ys, v);
      }
    }
  }

  /** Filtering one more row appends it exactly when the callback keeps it. */
  lemma FilterSnoc(a: seq<Entry>, i: int, keep: (Value, Key) -> bool)
    requires 0 <= i < |a|
    ensures Filter(a[..i + 1], keep) == Filter(a[..i], keep) + (if keep(a[i].value, a[i].key) then [a[i]] else [])
  {
    FilterAppend(a[..i], [a[i]], keep);
    assert a[..i + 1] == a[..i] + [a[i]];
    assert [a[i]][1..] == [];
  }

  /**
   * `Arrays::columnFilter`: drops every row the callback rejects (the
   * callback sees the row and its key), then extracts the column.
   */
  method ColumnFilter(a: seq<Entry>, column: Key, keep: (Value, Key) -> bool) returns (r: seq<Value>)
    ensures r == Column(Filter(a, keep), column)
    ensures IsSubsequence(r, Column(a, column))
    ensures (forall i :: 0 <= i < |a| ==> keep(a[i].value, a[i].key)) ==> r == Column(a, column)
  {
    var kept: seq<Entry> := [];
    for i := 0 to |a|
      invariant kept == Filter(a[..i], keep)
    {
      FilterSnoc(a, i, keep);
      if keep(a[i].value, a[i].key) {
        kept := kept + [a[i]];
      }
    }
    assert a[..|a|] == a;
    r := Column(kept, column);
    ColumnOfFilterIsSubsequence(a, keep, column);
    if forall i :: 0 <= i < |a| ==> keep(a[i].value, a[i].key) {
      FilterKeepAll(a, keep);
    }
  }

  // ---------------------------------------------------------------------
  // join and conjunct

  /** PHP's `join($separator, $pieces)`: the pieces with the separator between neighbours. */
  function Implode(separator: string, pieces: seq<string>): string
    decreases |pieces|
  {
    if |pieces| == 0 then ""
    else if |pieces| == 1 then pieces[0]
    else pieces[0] + separator + Implode(separator, pieces[1..])
  }

  /** The joined string starts with the first piece and ends with the last. */
  lemma {:induction false} ImplodeEnds(separator: string, pieces: seq<string>)
    requires |pieces| > 0
    ensures var r := Implode(separator, pieces);
            && |pieces[0]| <= |r| && r[..|pieces[0]|] == pieces[0]
            && |pieces[|pieces| - 1]| <= |r| && r[|r| - |pieces[|pieces| - 1]|..] == pieces[|pieces| - 1]
    decreases |pieces|
  {
    if |pieces| > 1 {
      var rest := Implode(separator, pieces[1..]);
      ImplodeEnds(separator, pieces[1..]);
      var r := pieces[0] + separator + rest;
      assert r[..|pieces[0]|] == pieces[0];
      assert pieces[1..][|pieces| - 2] == pieces[|pieces| - 1];
      assert r[|r| - |pieces[|pieces| - 1]|..] == rest[|rest| - |pieces[|pieces| - 1]|..];
    }
  }

  /** The optional callback applied to every element (`array_map`), or the elements unchanged. */
  function Apply(xs: seq<string>, callback: Option<string -> string>): (r: seq<string>)
    ensures |r| == |xs|
    ensures callback.None? ==> r == xs
    ensures callback.Some? ==> forall i :: 0 <= i < |xs| ==> r[i] == callback.value(xs[i])
  {
    match callback
    case None => xs
    case Some(f) => seq(|xs|, i requires 0 <= i < |xs| => f(xs[i]))
  }

  /** `Arrays::join`, with the separator and the callback passed explicitly. */
  function Join(xs: seq<string>, separator: string, callback: Option<string -> string>): (r: string)
    ensures |xs| == 0 ==> r == ""
    ensures |xs| == 1 ==> r == Apply(xs, callback)[0]
    ensures forall i :: 0 <= i < |xs| ==> Strings.IsInfix(Apply(xs, callback)[i], r)
  {
    var ys := Apply(xs, callback);
    forall i | 0 <= i < |ys|
      ensures Strings.IsInfix(ys[i], Implode(separator, ys))
    {
      ImplodeContainsEach(separator, ys, i);
    }
    Implode(separator, ys)
  }

  /** Every piece occurs in the joined string. */
  lemma {:induction false} ImplodeContainsEach(separator: string, pieces: seq<string>, i: int)
    requires 0 <= i < |pieces|
    ensures Strings.IsInfix(pieces[i], Implode(separator, pieces))
    decreases |pieces|
  {
    var r := Implode(separator, pieces);
    if i == 0 {
      assert r[0..|pieces[0]|] == pieces[0];
      assert Strings.InfixAt(pieces[0], r, 0);
    } else {
      ImplodeContainsEach(separator, pieces[1..], i - 1);
      Strings.InfixWiden(pieces[i], Implode(separator, pieces[1..]), pieces[0] + separator, "");
      assert pieces[0] + separator + Implode(separator, pieces[1..]) + "" == r;
    }
  }

  /** Appending one more piece appends the separator and that piece. */
  lemma {:induction false} ImplodeSnoc(separator: string, pieces: seq<string>, last: string)
    requires |pieces| > 0
    ensures Implode(separator, pieces + [last]) == Implode(separator, pieces) + separator + last
    decreases |pieces|
  {
    if |pieces| > 1 {
      assert (pieces + [last])[1..] == pieces[1..] + [last];
      ImplodeSnoc(separator, pieces[1..], last);
    }
  }

  /** Sum of the lengths of the pieces. */
  function TotalLength(pieces: seq<string>): nat
    decreases |pieces|
  {
    if |pieces| == 0 then 0 else |pieces[0]| + TotalLength(pieces[1..])
  }

  /** The joined string holds the pieces plus one separator between each pair of neighbours. */
  lemma {:induction false} ImplodeLength(separator: string, pieces: seq<string>)
    requires |pieces| > 0
    ensures |Implode(separator, pieces)| == TotalLength(pieces) + (|pieces| - 1) * |separator|
    decreases |pieces|
  {
    if |pieces| > 1 {
      ImplodeLength(separator, pieces[1..]);
    }
  }

  /** PHP's `explode` with a one-character delimiter. */
  function Split(s: string, delimiter: char): (r: seq<string>)
    ensures |r| > 0
    decreases |s|
  {
    if |s| == 0 then [""]
    else
      var rest := Split(s[1..], delimiter);
      if s[0] == delimiter then [""] + rest
      else [[s[0]] + rest[0]] + rest[1..]
  }

  /** A string without the delimiter splits into itself. */
  lemma {:induction false} SplitWithoutDelimiter(s: string, delimiter: char)
    requires delimiter !in s
    ensures Split(s, delimiter) == [s]
    decreases |s|
  {
    if |s| > 0 {
      SplitWithoutDelimiter(s[1..], delimiter);
      assert [s[0]] + s[1..] == s;
    }
  }

  /** Splitting stops at the first delimiter. */
  lemma {:induction false} SplitAtFirstDelimiter(x: string, t: string, delimiter: char)
    requires delimiter !in x
    ensures Split(x + [delimiter] + t, delimiter) == [x] + Split(t, delimiter)
    decreases |x|
  {
    var s := x + [delimiter] + t;
    if |x| == 0 {
      assert s[1..] == t;
    } else {
      assert s[1..] == x[1..] + [delimiter] + t;
      SplitAtFirstDelimiter(x[1..], t, delimiter);
      assert [x[0]] + x[1..] == x;
    }
  }

  /**
   * Joining with a one-character separator that no piece contains can be
   * undone by splitting: `join` loses no information in that case.
   */
  lemma {:induction false} JoinSplitRoundTrip(xs: seq<string>, delimiter: char)
    requires |xs| > 0
    requires forall i :: 0 <= i < |xs| ==> delimiter !in xs[i]
    ensures Split(Join(xs, [delimiter], None), delimiter) == xs
    decreases |xs|
  {
    if |xs| == 1 {
      SplitWithoutDelimiter(xs[0], delimiter);
    } else {
      JoinSplitRoundTrip(xs[1..], delimiter);
      SplitAtFirstDelimiter(xs[0], Implode([delimiter], xs[1..]), delimiter);
      assert [xs[0]] + xs[1..] == xs;
    }
  }

  /**
   * Joining one more element appends the separator and that element after
   * the callback, so `join` keeps the elements' order with one separator
   * between neighbours.
   */
  lemma JoinSnoc(xs: seq<string>, separator: string, callback: Option<string -> string>)
    requires |xs| > 1
    ensures Join(xs, separator, callback)
         == Join(xs[..|xs| - 1], separator, callback) + separator + Apply(xs, callback)[|xs| - 1]
  {
    var ys := Apply(xs, callback);
    var init := xs[..|xs| - 1];
    assert Apply(init, callback) == ys[..|ys| - 1];
    assert ys == ys[..|ys| - 1] + [ys[|ys| - 1]];
    ImplodeSnoc(separator, ys[..|ys| - 1], ys[|ys| - 1]);
  }

  /** Length of `join`: every (mapped) element plus one separator per gap. */
  lemma JoinLength(xs: seq<string>, separator: string, callback: Option<string -> string>)
    requires |xs| > 0
    ensures |Join(xs, separator, callback)| == TotalLength(Apply(xs, callback)) + (|xs| - 1) * |separator|
  {
    ImplodeLength(separator, Apply(xs, callback));
  }

  /**
   * `Arrays::conjunct`, with the conjunction and the callback passed
   * explicitly. More than one element: all but the last joined by
   * `", "`, then the trimmed separator `","`, a space, the conjunction, a
   * space and the last element — so two elements give `"a, and b"`. One
   * element: that element. None: `null` (`array_pop` of an empty array).
   */
  function Conjunct(xs: seq<string>, conjunction: string, callback: Option<string -> string>): (r: Option<string>)
    ensures r.None? <==> |xs| == 0
    ensures |xs| == 1 ==> r == Some(Apply(xs, callback)[0])
    ensures |xs| > 1 ==>
              var ys := Apply(xs, callback);
              r == Some(Implode(DefaultSeparator, ys[..|ys| - 1] + [conjunction + " " + ys[|ys| - 1]]))
  {
    var ys := Apply(xs, callback);
    if |ys| > 1 then
      var final := ys[|ys| - 1];
      var sentence := Implode(DefaultSeparator, ys[..|ys| - 1]);
      var separator := Strings.Trim(DefaultSeparator, Strings.Whitespace);
      Strings.TrimCommaSpace();
      ImplodeSnoc(DefaultSeparator, ys[..|ys| - 1], conjunction + " " + final);
      assert separator + " " == DefaultSeparator;
      assert sentence + separator + " " + conjunction + " " + final
          == sentence + DefaultSeparator + (conjunction + " " + final);
      Some(sentence + separator + " " + conjunction + " " + final)
    else if |ys| == 1 then Some(ys[0])
    else None
  }

  /** Every (mapped) element occurs in the conjunction sentence. */
  lemma ConjunctContainsEach(xs: seq<string>, conjunction: string, callback: Option<string -> string>, i: int)
    requires 0 <= i < |xs|
    ensures Strings.IsInfix(Apply(xs, callback)[i], Conjunct(xs, conjunction, callback).value)
  {
    var ys := Apply(xs, callback);
    var r := Conjunct(xs, conjunction, callback).value;
    if |xs| == 1 {
      Strings.InfixReflexive(ys[0]);
    } else {
      var pieces := ys[..|ys| - 1] + [conjunction + " " + ys[|ys| - 1]];
      if i < |ys| - 1 {
        ImplodeContainsEach(DefaultSeparator, pieces, i);
      } else {
        ImplodeContainsEach(DefaultSeparator, pieces, |pieces| - 1);
        Strings.InfixReflexive(ys[i]);
        Strings.InfixWiden(ys[i], ys[i], conjunction + " ", "");
        assert conjunction + " " + ys[i] + "" == pieces[|pieces| - 1];
        Strings.InfixTransitive(ys[i], pieces[|pieces| - 1], r);
      }
    }
  }

  /** The behaviour on zero, one, two and three elements. */
  lemma ConjunctExamples()
    ensures Conjunct([], DefaultConjunction, None) == None
    ensures Conjunct(["a"], DefaultConjunction, None) == Some("a")
    ensures Conjunct(["a", "b"], DefaultConjunction, None) == Some("a, and b")
    ensures Conjunct(["a", "b", "c"], DefaultConjunction, None) == Some("a, b, and c")
    ensures Conjunct(["a", "b"], "or", Some(Strings.Quote)) == Some("'a', or 'b'")
  {
    ImplodePair(DefaultSeparator, "a", "and b");
    assert "and" + " " + "b" == "and b";
    assert ["a", "b"][..1] == ["a"];
    assert ["a", "b"][..1] + ["and" + " " + "b"] == ["a", "and b"];
    assert "a" + ", " + "and b" == "a, and b";

    ImplodePair(DefaultSeparator, "b", "and c");
    assert "and" + " " + "c" == "and c";
    assert ["a", "b", "c"][..2] == ["a", "b"];
    assert ["a", "b", "c"][..2] + ["and" + " " + "c"] == ["a", "b", "and c"];
    assert ["a", "b", "and c"][1..] == ["b", "and c"];
    assert "a" + ", " + ("b" + ", " + "and c") == "a, b, and c";

    var q := Apply(["a", "b"], Some(Strings.Quote));
    assert q[0] == Strings.Quote("a") == "'a'";
    assert q[1] == Strings.Quote("b") == "'b'";
    assert q == ["'a'", "'b'"];
    ImplodePair(DefaultSeparator, "'a'", "or 'b'");
    assert "or" + " " + "'b'" == "or 'b'";
    assert q[..1] == ["'a'"];
    assert q[..1] + ["or" + " " + q[1]] == ["'a'", "or 'b'"];
    assert "'a'" + ", " + "or 'b'" == "'a', or 'b'";
  }

  /** Joining two pieces puts the separator between them. */
  lemma ImplodePair(separator: string, x: string, y: string)
    ensures Implode(separator, [x, y]) == x + separator + y
  {
    assert [x, y][1..] == [y];
  }

  // ---------------------------------------------------------------------
  // findString

  /** Position of the first value equal to `needle`. */
  function FirstIndex(hay: seq<(Key, string)>, needle: string): (r: Option<nat>)
    ensures r.None? <==> forall i :: 0 <= i < |hay| ==> hay[i].1 != needle
    ensures r.Some? ==> r.value < |hay| && hay[r.value].1 == needle
    ensures r.Some? ==> forall j :: 0 <= j < r.value ==> hay[j].1 != needle
    decreases |hay|
  {
    if |hay| == 0 then None
    else if hay[0].1 == needle then Some(0)
    else
      match FirstIndex(hay[1..], needle)
      case None => None
      case Some(i) => Some(i + 1)
  }

  /** PHP's `array_search($needle, $hay)`: the key of the first value equal to the needle. */
  function ArraySearch(hay: seq<(Key, string)>, needle: string): (r: Option<Key>)
    ensures r.None? <==> forall i :: 0 <= i < |hay| ==> hay[i].1 != needle
    ensures r.Some? ==> exists i :: 0 <= i < |hay| && hay[i] == (r.value, needle)
                                    && forall j :: 0 <= j < i ==> hay[j].1 != needle
  {
    match FirstIndex(hay, needle)
    case None => None
    case Some(i) => Some(hay[i].0)
  }

  /** `array_reverse($a, true)`: the entries in reverse order, each keeping its key. */
  function ReverseEntries(a: seq<(Key, string)>): (r: seq<(Key, string)>)
    ensures |r| == |a|
    ensures forall i :: 0 <= i < |a| ==> r[i] == a[|a| - 1 - i]
  {
    seq(|a|, i requires 0 <= i < |a| => a[|a| - 1 - i])
  }

  /** `array_map("strtolower", $a)`: keys kept, values lower-cased. */
  function LowerValues(a: seq<(Key, string)>): (r: seq<(Key, string)>)
    ensures |r| == |a|
    ensures forall i :: 0 <= i < |a| ==> r[i].0 == a[i].0 && r[i].1 == Strings.Lower(a[i].1)
  {
    seq(|a|, i requires 0 <= i < |a| => (a[i].0, Strings.Lower(a[i].1)))
  }

  /** `Arrays::findString`: case-insensitive search, from the end when `reverse` is set. */
  function FindString(a: seq<(Key, string)>, needle: string, reverse: bool): (r: Option<Key>)
    ensures r.None? <==> forall i :: 0 <= i < |a| ==> !MatchesAt(a, i, needle)
    ensures r.Some? ==> exists i :: MatchesAt(a, i, needle) && a[i].0 == r.value
  {
    LoweredSearchFindsMatch(a, needle, reverse);
    ArraySearch(LowerValues(if reverse then ReverseEntries(a) else a), Strings.Lower(needle))
  }

  /** The search over the lowered (and possibly reversed) copy finds a key of a matching entry of `a`. */
  lemma LoweredSearchFindsMatch(a: seq<(Key, string)>, needle: string, reverse: bool)
    ensures FindsMatch(a, needle, ArraySearch(LowerValues(if reverse then ReverseEntries(a) else a), Strings.Lower(needle)))
  {
    if reverse {
      ReversedSearchFindsMatch(a, needle);
    } else {
      ForwardSearchFindsMatch(a, needle);
    }
  }

  /** The forward half of `LoweredSearchFindsMatch`. */
  lemma ForwardSearchFindsMatch(a: seq<(Key, string)>, needle: string)
    ensures FindsMatch(a, needle, ArraySearch(LowerValues(a), Strings.Lower(needle)))
  {
    var hay := LowerValues(a);
    var n := Strings.Lower(needle);
    match FirstIndex(hay, n)
    case None =>
    case Some(k) =>
      assert MatchesAt(a, k, needle);
  }

  /** The reverse half of `LoweredSearchFindsMatch`: position `k` of the reversed copy is entry `|a| - 1 - k`. */
  lemma ReversedSearchFindsMatch(a: seq<(Key, string)>, needle: string)
    ensures FindsMatch(a, needle, ArraySearch(LowerValues(ReverseEntries(a)), Strings.Lower(needle)))
  {
    var hay := LowerValues(ReverseEntries(a));
    var n := Strings.Lower(needle);
    match FirstIndex(hay, n)
    case None =>
      forall i | 0 <= i < |a|
        ensures !MatchesAt(a, i, needle)
      {
        assert hay[|a| - 1 - i].1 != n;
      }
    case Some(k) =>
      var i := |a| - 1 - k;
      assert MatchesAt(a, i, needle);
  }

  /** `r` is `None` exactly when no entry matches, and otherwise the key of a matching entry. */
  predicate FindsMatch(a: seq<(Key, string)>, needle: string, r: Option<Key>)
  {
    && (r.None? <==> forall i :: 0 <= i < |a| ==> !MatchesAt(a, i, needle))
    && (r.Some? ==> exists i :: 0 <= i < |a| && MatchesAt(a, i, needle) && a[i].0 == r.value)
  }

  /** Entry `i` of `a` matches the needle case-insensitively. */
  predicate MatchesAt(a: seq<(Key, string)>, i: int, needle: string)
  {
    0 <= i < |a| && Strings.EqualsIgnoreCase(a[i].1, needle)
  }

  /** Forward search: the key of the first case-insensitive match, or nothing when there is none. */
  lemma FindStringFirst(a: seq<(Key, string)>, needle: string)
    ensures FindString(a, needle, false).None? <==> forall i :: 0 <= i < |a| ==> !MatchesAt(a, i, needle)
    ensures FindString(a, needle, false).Some? ==>
              exists i :: MatchesAt(a, i, needle) && a[i].0 == FindString(a, needle, false).value
                          && forall j :: 0 <= j < i ==> !MatchesAt(a, j, needle)
  {
    var hay := LowerValues(a);
    match FirstIndex(hay, Strings.Lower(needle))
    case None =>
    case Some(i) =>
      assert MatchesAt(a, i, needle);
  }

  /** Reverse search: the key of the last case-insensitive match, or nothing when there is none. */
  lemma FindStringLast(a: seq<(Key, string)>, needle: string)
    ensures FindString(a, needle, true).None? <==> forall i :: 0 <= i < |a| ==> !MatchesAt(a, i, needle)
    ensures FindString(a, needle, true).Some? ==>
              exists i :: MatchesAt(a, i, needle) && a[i].0 == FindString(a, needle, true).value
                          && forall j :: i < j < |a| ==> !MatchesAt(a, j, needle)
  {
    var rev := ReverseEntries(a);
    var hay := LowerValues(rev);
    var n := Strings.Lower(needle);
    match FirstIndex(hay, n)
    case None =>
      forall i | 0 <= i < |a|
        ensures !MatchesAt(a, i, needle)
      {
        assert hay[|a| - 1 - i].1 != n;
      }
    case Some(k) =>
      var i := |a| - 1 - k;
      assert MatchesAt(a, i, needle);
      forall j | i < j < |a|
        ensures !MatchesAt(a, j, needle)
      {
        assert hay[|a| - 1 - j].1 != n;
      }
  }

  /** Both directions agree on whether the needle is present, and a unique match is found either way. */
  lemma FindStringDirectionsAgree(a: seq<(Key, string)>, needle: string)
    ensures FindString(a, needle, false).None? <==> FindString(a, needle, true).None?
    ensures (forall i, j :: MatchesAt(a, i, needle) && MatchesAt(a, j, needle) ==> i == j) ==>
              FindString(a, needle, false) == FindString(a, needle, true)
  {
    FindStringFirst(a, needle);
    FindStringLast(a, needle);
  }

  /** The example of a mixed-case list: first match at 0, last at 2. */
  lemma FindStringExample()
    ensures FindString([(IntKey(0), "Foo"), (IntKey(1), "bar"), (IntKey(2), "FOO")], "foo", false) == Some(IntKey(0))
    ensures FindString([(IntKey(0), "Foo"), (IntKey(1), "bar"), (IntKey(2), "FOO")], "foo", true) == Some(IntKey(2))
  {
    var a := [(IntKey(0), "Foo"), (IntKey(1), "bar"), (IntKey(2), "FOO")];
    assert Strings.Lower("Foo") == "foo";
    assert Strings.Lower("foo") == "foo";
    assert Strings.Lower("FOO") == "foo";
    FindStringFirst(a, "foo");
    FindStringLast(a, "foo");
    assert MatchesAt(a, 0, "foo") && MatchesAt(a, 2, "foo");
  }
}
