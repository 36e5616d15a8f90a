# headzoo/core helpers in Dafny

This project models three small PHP components of the `headzoo/core` library and proves properties about them:

- **`Arrays`**: record and list helpers. It covers key/value membership (`containsKeyValue`), column projection (`column`, `columnFilter`), string building (`join`, `conjunct`) and case-insensitive search (`findString`).
- **`Validator`**: a validator with one setting, the exception class it throws. It covers the class setter (`setThrownException`), the required-keys check (`validateRequired`) and the argument shuffling of `throwException`.
- **`Comparator`**: the three-way comparison callbacks `compare` and `reverse`, and the boolean equality and order predicates.

PHP values are modelled as a `Value` datatype (`null`, booleans, integers, strings and ordered arrays of `Entry(key, value)`) in `values.dfy`. Exceptions become the `Failure` side of a `Result`. The validator's configured class is a one-field `State` record. `setThrownException` is modelled as a function from a state to either the new state or the exception.

The modules are:

| module | what it holds |
|---|---|
| `Wrappers` | `Option` and `Result` |
| `Strings` | ASCII lower-casing, `trim`, quoting, decimal rendering of integers, and substrings |
| `PhpValues` | PHP values, keys, key lookup and `empty()` |
| `Comparator` | `compare`, `reverse` and the predicates |
| `Arrays` | the array helpers |
| `Format` | the part of `vsprintf` the validator needs: `%%` and `%s` |
| `Validator` | exception classes, `setThrownException`, `throwException` and `validateRequired` |

`Comparator` is modelled over strings, with PHP's byte-wise order for non-numeric strings. `Compare` is tied to `LexLess`, an independent definition of lexicographic order.

`conjunct` follows the code: it always puts a comma before the conjunction, so two elements give `"a, and b"` (`Arrays.ConjunctExamples`).

The class documentation of `Comparator` claims that sorting `joe, headzoo, amy` with `compare` gives `amy, joe, headzoo`. Under byte order, `headzoo` sorts before `joe` (`Comparator.DocExampleOrder`). The example text is wrong, not the code.

The documentation of `reverse` has the same fault. It claims that sorting `joe, headzoo, amy` with `reverse` gives `headzoo, joe, amy`. In fact `reverse("headzoo", "joe")` is 1, so `joe` sorts before `headzoo` (`Comparator.ReverseDocExampleOrder`).

`validateRequired` calls `throwException` as written. Because it always passes the list of missing names, the faulty path described under "## Findings" is never taken from there (`Validator.CorrectedAgreesWhenArgumentsGiven`).

## Model

| member | source | states |
|---|---|---|
| Arrays.ContainsKeyValue | src/Headzoo/Utilities/Arrays.php:33-42 | Without `multi`: true exactly when the key is present and holds `value`. With `multi`: true exactly when some element is an array containing the entry `key => value`. Otherwise false; never fails. |
| Arrays.Cell | src/Headzoo/Utilities/Arrays.php:78 | `isset($row[$column])`: a cell exists exactly when the row is an array holding a non-null value under the column. The cell is then that value, `$row[$column]`, and never null. |
| Arrays.Column | src/Headzoo/Utilities/Arrays.php:74-83 | The result is no longer than the input. Its length equals the input's exactly when every row has the cell. It never contains null. |
| Arrays.ColumnAppend | src/Headzoo/Utilities/Arrays.php:77-81 | The column of a concatenation is the concatenation of the columns, so input order is kept. |
| Arrays.ColumnMembership | src/Headzoo/Utilities/Arrays.php:77-81 | A value is in the column exactly when some row's cell holds it. |
| Arrays.ColumnOfCompleteRows | src/Headzoo/Utilities/Arrays.php:74-83 | When every row has the cell, the column lists each row's cell value, position by position. |
| Arrays.Filter | src/Headzoo/Utilities/Arrays.php:129-133 | The kept entries are entries of the input that the callback accepts. Every accepted entry is kept. |
| Arrays.FilterAppend | src/Headzoo/Utilities/Arrays.php:129-133 | Filtering distributes over concatenation, so order is kept. |
| Arrays.FilterKeepAll | src/Headzoo/Utilities/Arrays.php:129-133 | A callback that accepts everything removes nothing. |
| Arrays.ColumnOfFilterIsSubsequence | src/Headzoo/Utilities/Arrays.php:127-135 | The column of the filtered rows is a subsequence of the column of all rows. |
| Arrays.ColumnFilter | src/Headzoo/Utilities/Arrays.php:127-135 | The result is the column of the rows the callback keeps. It is a subsequence of `column`. If the callback keeps every row, it equals `column`. |
| Arrays.Join | src/Headzoo/Utilities/Arrays.php:171-179 | An empty list gives `""`. One element gives that element, after the callback. Every (mapped) element occurs in the result. |
| Arrays.Apply | src/Headzoo/Utilities/Arrays.php:174-176 | `array_map($callback, $array)` keeps the length and puts the callback's image of each element at its position. Without a callback the array is unchanged. |
| Arrays.Implode | src/Headzoo/Utilities/Arrays.php:178 | PHP's `join($separator, $pieces)`: the pieces with one separator between each neighbouring pair. Its laws are the `Implode…` lemmas below and the explode round trip. |
| Arrays.ImplodeEnds | src/Headzoo/Utilities/Arrays.php:178 | PHP's `join` of a non-empty list starts with the first piece and ends with the last. |
| Arrays.ImplodeContainsEach | src/Headzoo/Utilities/Arrays.php:178 | Every piece occurs in PHP's `join` of the pieces. |
| Arrays.ImplodeSnoc | src/Headzoo/Utilities/Arrays.php:178 | Joining one more piece appends the separator and that piece. |
| Arrays.ImplodeLength | src/Headzoo/Utilities/Arrays.php:178 | The joined length is the pieces' total length plus one separator between each pair. |
| Arrays.JoinSnoc | src/Headzoo/Utilities/Arrays.php:171-179 | Joining one more element appends the separator and that element after the callback, so `join` keeps order with one separator between neighbours. |
| Arrays.JoinLength | src/Headzoo/Utilities/Arrays.php:171-179 | The length of `join` is the mapped elements' total length plus the separators. |
| Arrays.SplitWithoutDelimiter | src/Headzoo/Utilities/Arrays.php:178 | `explode` of a string without the delimiter is that one string. It is the inverse used for the round trip below. |
| Arrays.SplitAtFirstDelimiter | src/Headzoo/Utilities/Arrays.php:178 | `explode` splits off the text before the first delimiter. |
| Arrays.JoinSplitRoundTrip | src/Headzoo/Utilities/Arrays.php:171-179 | Joining elements without a callback on a one-character separator they do not contain, then exploding on that separator, gives back the elements. |
| Arrays.Conjunct | src/Headzoo/Utilities/Arrays.php:212-228 | No elements gives null (None). One element gives that element. More than one gives the `", "`-join of all but the last, then `", "`, the conjunction, a space and the last, all after the callback. |
| Arrays.ConjunctContainsEach | src/Headzoo/Utilities/Arrays.php:218-225 | Every mapped element occurs in the sentence. |
| Arrays.ConjunctExamples | src/Headzoo/Utilities/Arrays.php:196-204 | `[]` gives None and `["a"]` gives `"a"`. Two elements give `"a, and b"` and three give `"a, b, and c"`. With the conjunction `or` and a quoting callback, two elements give `'a', or 'b'`. |
| Arrays.ArraySearch | src/Headzoo/Utilities/Arrays.php:260-263 | `array_search`, with exact comparison in place of PHP's loose `==`, fails exactly when no value equals the needle. Otherwise it returns the key of the first entry holding the needle. |
| Arrays.FindString | src/Headzoo/Utilities/Arrays.php:248-264 | `findString` fails exactly when no value equals the needle ignoring case. Otherwise it returns the key of an entry whose value matches. |
| Arrays.FirstIndex | src/Headzoo/Utilities/Arrays.php:260-263 | `array_search` with exact comparison returns the first matching position. None means no position matches. |
| Arrays.ReverseEntries | src/Headzoo/Utilities/Arrays.php:257-259 | `array_reverse` with preserved keys mirrors the positions and keeps each key with its value. |
| Arrays.LowerValues | src/Headzoo/Utilities/Arrays.php:262 | `array_map("strtolower")` lower-cases each value and keeps its key. |
| Arrays.FindStringFirst | src/Headzoo/Utilities/Arrays.php:248-264 | The forward search fails exactly when no value equals the needle ignoring case. Otherwise it returns the key of the first such value. |
| Arrays.FindStringLast | src/Headzoo/Utilities/Arrays.php:257-263 | The reverse search fails exactly when no value matches. Otherwise it returns the original key of the last match. |
| Arrays.FindStringDirectionsAgree | src/Headzoo/Utilities/Arrays.php:257-263 | Both directions agree on whether there is a match, and they return the same key when at most one value matches. |
| Arrays.FindStringExample | src/Headzoo/Utilities/Arrays.php:237-241 | In `["Foo", "bar", "FOO"]`, searching for `"foo"` finds key 0 forwards and key 2 in reverse. |
| PhpValues.Lookup | src/Headzoo/Utilities/Arrays.php:35 | `array_key_exists` plus the value: None exactly when no entry has the key. Otherwise the result is the value of an entry with that key. |
| PhpValues.LookupFindsEntry | src/Headzoo/Utilities/Arrays.php:35 | With unique keys, an entry `key => v` in the array is what lookup returns. |
| Strings.Lower | src/Headzoo/Utilities/Arrays.php:261-262 | `strtolower` keeps the length, maps A–Z to a–z and leaves every other character alone. |
| Strings.LowerChar | src/Headzoo/Utilities/Arrays.php:261-262 | `strtolower` on one character adds 32 to A–Z and leaves every other character unchanged. No result is an upper-case letter. |
| Strings.LowerIdempotent | src/Headzoo/Utilities/Arrays.php:261-262 | Lower-casing twice is lower-casing once. |
| Strings.Trim | src/Headzoo/Utilities/Validator.php:23 | `trim` removes a prefix and a suffix of listed characters, leaving a result that neither starts nor ends with one. |
| Strings.TrimIdempotent | src/Headzoo/Utilities/Validator.php:23 | Trimming a trimmed string changes nothing. |
| Strings.TrimCommaSpace | src/Headzoo/Utilities/Arrays.php:221 | `trim(", ")` is `","`. |
| Strings.NatToStringRoundTrip | src/Headzoo/Utilities/Validator.php:42 | The decimal rendering of a natural number reads back as that number. |
| Strings.IntToString | src/Headzoo/Utilities/Validator.php:42 | The `(string)` cast of an integer is in canonical form: an optional `-`, then digits with no leading zero, and zero is `"0"`. It starts with `-` exactly when the integer is negative. |
| Strings.NatToString | src/Headzoo/Utilities/Validator.php:42 | The decimal form of a natural number is non-empty, all digits, and starts with `0` only for zero. |
| Strings.CanonicalIntIsCast | src/Headzoo/Utilities/Validator.php:42 | Any canonical integer string is the cast of the integer it reads as, so the cast is the only canonical spelling of its value. |
| Strings.DigitsWithoutLeadingZero | src/Headzoo/Utilities/Validator.php:42 | Digits without a leading zero have a positive value whose decimal form is those digits. |
| Strings.IntToStringRoundTrip | src/Headzoo/Utilities/Validator.php:42 | The `(string)` cast of any integer, negative ones included, reads back as that integer. |
| Strings.Quote | src/Headzoo/Utilities/Arrays.php:199-200 | Quoting wraps the string in single quotes, adding two characters. |
| Strings.IntToStringInjective | src/Headzoo/Utilities/Validator.php:42 | Distinct integer keys render as distinct strings, so `array_diff`'s string comparison tells them apart. |
| PhpValues.KeyString | src/Headzoo/Utilities/Validator.php:42 | The string form of an integer key is canonical and reads back as the integer. A string key is itself. |
| PhpValues.IntKeyMatchesCanonicalName | src/Headzoo/Utilities/Validator.php:42 | Compared as strings, the integer key `i` equals a name exactly when the name is canonical and reads as `i`. So the key `5` matches `"5"` but not `"05"`. |
| PhpValues.IsEmpty | src/Headzoo/Utilities/Validator.php:40 | PHP's `empty()`, the truthiness test `array_filter` applies: `null`, `false`, `0`, `""`, `"0"` and the empty array. `Format.EmptyScalarPrintsEmptyOrZero` proves that for a scalar this is the same as printing as `""` or `"0"`. |
| Format.StringOf | src/Headzoo/Utilities/Validator.php:81 | `%s` prints an integer in canonical form, reading back as the integer, and a string as itself. It prints `""` exactly for `null`, `false` and `""`. |
| Format.EmptyScalarPrintsEmptyOrZero | src/Headzoo/Utilities/Validator.php:40 | For a scalar, `empty()` holds exactly when its string form is `""` or `"0"`. |
| Format.Format | src/Headzoo/Utilities/Validator.php:80-82 | A successful substitution is at most two characters shorter per `%` in the template. |
| Format.FormatPlainPrefix | src/Headzoo/Utilities/Validator.php:81 | Text without `%` is copied through unchanged, and success does not depend on it. |
| Format.FormatOneString | src/Headzoo/Utilities/Validator.php:44-47 | A template with a single `%s` substitutes its first argument's string form. |
| Format.FormatEscapedPercent | src/Headzoo/Utilities/Validator.php:81 | `%%` between plain texts prints a single `%`, whatever the arguments. |
| Format.FormatEscapeRoundTrip | src/Headzoo/Utilities/Validator.php:80-82 | Formatting a message whose `%` signs were doubled gives back the message. |
| Validator.Parent | src/Headzoo/Utilities/Validator.php:24 | A root class (`Exception`, `Error`, `stdClass`) has no parent. Every other modelled class's parent is exactly one level closer to the root. |
| Validator.SubclassIsDeeper | src/Headzoo/Utilities/Validator.php:24 | A subclass is strictly deeper than the class it extends, so `is_subclass_of` never holds for a class and itself. |
| Validator.IsSubclassOf | src/Headzoo/Utilities/Validator.php:24 | `is_subclass_of`: the class extends the base through one or more parents, never itself. `Validator.SubclassIsDeeper` proves that a subclass is strictly deeper than its base, so no class is its own subclass. |
| Validator.ResolveClass | src/Headzoo/Utilities/Validator.php:24 | PHP's case-insensitive class lookup: the class registered under the lower-cased name, if any. `Validator.ResolveClassIgnoresCase` proves that names differing only in letter case resolve alike. |
| Validator.ResolveClassIgnoresCase | src/Headzoo/Utilities/Validator.php:24 | Class lookup ignores letter case: names that lower-case alike resolve to the same class. |
| Validator.AcceptsName | src/Headzoo/Utilities/Validator.php:24 | A name passes exactly when it is `Exception` or resolves to an exception class other than `Exception` itself. Every name that passes resolves to an exception class. |
| Validator.SetThrownException | src/Headzoo/Utilities/Validator.php:21-32 | The name is trimmed of backslashes. It is stored exactly when it is `Exception` or names a proper subclass of it. Otherwise the error is `InvalidArgumentException` with the documented message and code 0. A stored name is non-empty and never starts with a backslash. |
| Validator.AcceptedNameIsExceptionClass | src/Headzoo/Utilities/Validator.php:24 | Every accepted name resolves to an exception class. |
| Validator.Configure | src/Headzoo/Utilities/Validator.php:24-29 | A refused name leaves the state as it was. An accepted name becomes the stored class, with its backslashes trimmed. |
| Validator.ConfigurePreservesConfigured | src/Headzoo/Utilities/Validator.php:21-32 | If the configured class names an exception class, it still does after any call. |
| Validator.SetThrownExceptionIdempotent | src/Headzoo/Utilities/Validator.php:21-32 | Setting the same name twice equals setting it once. |
| Validator.StoredNameIsStable | src/Headzoo/Utilities/Validator.php:23-29 | Offering the stored name again succeeds and changes nothing. |
| Validator.BackslashesTrimmed | src/Headzoo/Utilities/Validator.php:23 | `\RuntimeException\` is stored as `RuntimeException`. |
| Validator.BaseNameAccepted | src/Headzoo/Utilities/Validator.php:24 | `Exception` itself is accepted. |
| Validator.LowerCaseBaseNameRefused | src/Headzoo/Utilities/Validator.php:24-27 | `exception` is refused: the base-name test is case-sensitive, and a class is not its own subclass. |
| Validator.SubclassNameCaseInsensitive | src/Headzoo/Utilities/Validator.php:24-29 | Take two backslash-free names, neither exactly `Exception`, that lower-case alike. Either both are stored or both are refused, and an accepted name is stored as given. |
| Validator.LowerCaseSubclassAccepted | src/Headzoo/Utilities/Validator.php:24-29 | `runtimeexception` is accepted and stored as written. |
| Validator.JsonExceptionAccepted | src/Headzoo/Utilities/Validator.php:24-29 | `JsonException`, which extends `Exception` directly, is accepted and stored. |
| Validator.ErrorsAreRefused | src/Headzoo/Utilities/Validator.php:24-27 | `Error` and `TypeError` are not exceptions and are refused. |
| Validator.ThrowException | src/Headzoo/Utilities/Validator.php:71-89 | The configured class is thrown. An integer second argument is the code. A non-integer second argument becomes the first format argument, with code 0. A lone integer code leaves the message unformatted. With nothing after the message, the message is still formatted, with one null argument. |
| Validator.ThrowExceptionCorrected | src/Headzoo/Utilities/Validator.php:53-70 | As documented: the same code and argument rules, but the message is left alone when no format arguments were passed. |
| Validator.CorrectedAgreesWhenArgumentsGiven | src/Headzoo/Utilities/Validator.php:71-89 | When anything follows the message, the corrected version and the code as written agree. |
| Validator.BareMessageIsFormatted | src/Headzoo/Utilities/Validator.php:73-82 | As written, a bare `"100%% done"` becomes `"100% done"` and a bare `"100%"` is rejected by the formatter. The corrected version keeps both. |
| Validator.MissingKeys | src/Headzoo/Utilities/Validator.php:39-42 | The missing names are a subsequence of `required`, so they keep its order. Each one is absent or empty. Each absent or empty name occurs as often as in `required`, so duplicates are kept, as `array_diff` keeps them. |
| Validator.NonEmpty | src/Headzoo/Utilities/Validator.php:40 | `array_filter` keeps exactly the entries whose value is not empty. |
| Validator.HasKey | src/Headzoo/Utilities/Validator.php:42 | Membership in `array_keys($values)` under `array_diff`'s string comparison: some key's string form equals the name. See `Validator.KeptKeyIsPresent` for the filtered array and `PhpValues.IntKeyMatchesCanonicalName` for integer keys. |
| Validator.ArrayDiffKeys | src/Headzoo/Utilities/Validator.php:42 | `array_diff` keeps a subsequence of the required names. A name occurs in it as often as in `required` when no key's string form equals it, and otherwise not at all. |
| Validator.KeptKeyIsPresent | src/Headzoo/Utilities/Validator.php:40-42 | A name is a key of the filtered array exactly when it is present in the original with a value that counts. |
| Validator.ArrayDiffIsMissing | src/Headzoo/Utilities/Validator.php:39-42 | `array_diff($required, array_keys(array_filter($values)))` computes exactly those missing names. |
| Validator.NothingMissingMeansAllPresent | src/Headzoo/Utilities/Validator.php:42-43 | No name is missing exactly when every required name is present. |
| Validator.ThrowsRequiredMessage | src/Headzoo/Utilities/Validator.php:44-47 | `throwException` as written, given the template and the list, throws the configured class with the prefix, the list and a full stop. |
| Validator.MissingList | src/Headzoo/Utilities/Validator.php:46 | `Arrays::conjunct($missing, 'Strings::quote')`: every missing name occurs, quoted, in the list. |
| Validator.ValidateRequired | src/Headzoo/Utilities/Validator.php:37-51 | Returns true exactly when every required name is a key whose value is non-empty (or any value, when empty values are allowed). Otherwise it calls `throwException` as written and throws the configured class with code 0 and the message `Required values missing: ` + the quoted, conjoined missing names + `.`. |
| Validator.RequiredMessage | src/Headzoo/Utilities/Validator.php:44-47 | The template `Required values missing: %s.` formats to the prefix, the list and a full stop. |
| Validator.AllowEmptyIgnoresValues | src/Headzoo/Utilities/Validator.php:39-42 | When empty values are allowed, two arrays with the same keys give the same result, whatever their values. |
| Validator.MissingKeysFollowPresence | src/Headzoo/Utilities/Validator.php:42 | Arrays in which the same names count as present miss the same names. |
| Validator.MessageNamesEachMissingKey | src/Headzoo/Utilities/Validator.php:42-47 | Whenever a required name is missing, validation fails, and the message contains every missing name, quoted. |
| Validator.FailsListingMissing | src/Headzoo/Utilities/Validator.php:42-47 | Whenever some required name is missing, the result is the failure listing the missing names. |
| Validator.ValidateRequiredExample | src/Headzoo/Utilities/Validator.php:37-51 | `["a" => 1]` with `["a", "b"]` throws `Required values missing: 'b'.` |
| Validator.EmptyValueCountsAsMissing | src/Headzoo/Utilities/Validator.php:39-41 | `["a" => ""]` fails the requirement `a` unless empty values are allowed. |
| Comparator.StrCmp | src/Headzoo/Core/Comparator.php:63-69 | The byte-wise comparison of strings gives -1, 0 or 1, and 0 exactly when the strings are equal. |
| Comparator.StrCmpIsLexicographic | src/Headzoo/Core/Comparator.php:63-69 | The byte-wise comparison is -1 exactly when the left string precedes the right lexicographically. |
| Comparator.StrCmpAntisymmetric | src/Headzoo/Core/Comparator.php:63-69 | Swapping the operands negates the byte-wise comparison. |
| Comparator.StrCmpTransitive | src/Headzoo/Core/Comparator.php:63-69 | The byte-wise order is transitive. |
| Comparator.Compare | src/Headzoo/Core/Comparator.php:61-72 | The result is -1, 0 or 1. It is -1 exactly when left precedes right, 0 exactly when they are equal, and 1 exactly when right precedes left. |
| Comparator.Reverse | src/Headzoo/Core/Comparator.php:103-114 | The result is -1, 0 or 1. It is 1 exactly when left precedes right, 0 exactly when they are equal, and -1 exactly when right precedes left. |
| Comparator.IsEquals | src/Headzoo/Core/Comparator.php:133-136 | Holds exactly when neither string precedes the other. |
| Comparator.IsNotEquals | src/Headzoo/Core/Comparator.php:161-164 | Holds exactly when one string precedes the other. |
| Comparator.IsStrictlyEquals | src/Headzoo/Core/Comparator.php:183-186 | Holds exactly when the strings have the same length and agree at every position. |
| Comparator.IsStrictlyNotEquals | src/Headzoo/Core/Comparator.php:208-211 | Holds exactly when the lengths differ or some position differs. |
| Comparator.IsLessThan | src/Headzoo/Core/Comparator.php:233-236 | Holds exactly when left precedes right lexicographically. |
| Comparator.IsLessThanOrEquals | src/Headzoo/Core/Comparator.php:261-264 | Holds exactly when left precedes right or equals it. |
| Comparator.IsGreaterThan | src/Headzoo/Core/Comparator.php:286-289 | Holds exactly when right precedes left lexicographically. |
| Comparator.IsGreaterThanOrEquals | src/Headzoo/Core/Comparator.php:311-314 | Holds exactly when right precedes left or equals it. |
| Comparator.CompareAgreesWithPredicates | src/Headzoo/Core/Comparator.php:61-72 | `compare` is -1, 0 or 1 exactly when `isLessThan`, `isEquals` or `isGreaterThan` holds. |
| Comparator.ReverseNegatesCompare | src/Headzoo/Core/Comparator.php:103-114 | `reverse(a, b) == -compare(a, b)`. |
| Comparator.CompareReflexive | src/Headzoo/Core/Comparator.php:61-72 | `compare(a, a) == 0`. |
| Comparator.CompareAntisymmetric | src/Headzoo/Core/Comparator.php:61-72 | `compare(a, b) == -compare(b, a)`. |
| Comparator.CompareTransitive | src/Headzoo/Core/Comparator.php:61-72 | `compare` is transitive, so it is a valid `usort` callback. |
| Comparator.Trichotomy | src/Headzoo/Core/Comparator.php:233-289 | Exactly one of less, equal and greater holds. |
| Comparator.NotEqualsNegatesEquals | src/Headzoo/Core/Comparator.php:133-211 | `isNotEquals` negates `isEquals`, and `isStrictlyNotEquals` negates `isStrictlyEquals`. |
| Comparator.LooseEqualsIsStrict | src/Headzoo/Core/Comparator.php:133-186 | On the modelled (non-numeric) strings, loose and strict equality coincide. |
| Comparator.OrEqualsSplits | src/Headzoo/Core/Comparator.php:233-314 | `<=` is `<` or `==`, and `>=` is `>` or `==`. |
| Comparator.GreaterMirrorsLess | src/Headzoo/Core/Comparator.php:233-314 | `isGreaterThan(a, b) == isLessThan(b, a)` and `isGreaterThanOrEquals(a, b) == isLessThanOrEquals(b, a)`. |
| Comparator.DocExampleOrder | src/Headzoo/Core/Comparator.php:10-27 | `amy` < `headzoo` < `joe` under `compare`, contrary to the order the documentation prints. |
| Comparator.ReverseDocExampleOrder | src/Headzoo/Core/Comparator.php:80-96 | `reverse("headzoo", "joe") == 1`, so `reverse` sorts `joe` before `headzoo`, contrary to the order the documentation prints. |

## Left out

- `Comparator::isInstanceOf`: it depends on the runtime class hierarchy of arbitrary objects.
- PHP's loose cross-type comparison: `==` and `<` between numbers, numeric strings, booleans, null and arrays are not modelled. The comparator works on strings, which PHP compares byte-wise unless both are numeric. `containsKeyValue` and `array_search` use exact equality of the modelled values.
- Comparator.LooseEqualsIsStrict: holds only because numeric strings such as `"1"` and `"01"`, which PHP's `==` equates, are not modelled.
- PHP's key normalisation (the string key `"5"` stored as the integer 5): keys are taken as given. `array_diff` compares them as strings, via `PhpValues.KeyString`.
- Floats: they appear nowhere in the modelled values.
- `column` on rows that are strings (string offsets under `isset`): only array rows yield cells.
- `findString` on non-string array values, the `trigger_error` warning for a non-scalar needle, and the cast of a non-string needle: values and needle are strings.
- `findString`'s `false` for "not found" is `None`.
- `Functions::swapCallable` is not part of this model. `join` and `conjunct` take the separator or conjunction and the optional callback as explicit parameters.
- Arrays.Join: the elements and the callback's results are strings. PHP's `join` also converts integers, `null` and booleans, so `join(", ", [1, null, true])` is `"1, , 1"`; that input is not expressible here.
- Arrays.Conjunct: the elements and the callback's results are strings, for the same reason as `Arrays.Join`.
- Validator.ValidateRequired: the required names are strings. A call such as `validateRequired($values, [0, 1])`, with integer names compared to the keys as strings, is not expressible.
- Arrays.ImplodeLength: lengths count characters. PHP strings are byte strings, so the lengths agree with `strlen` only for single-byte characters. The same holds for `Arrays.JoinLength`, `Format.Format` and `Strings.Quote`.
- Callbacks are total Dafny functions. A callback that throws or has side effects is not modelled.
- `Format.Format`: only the `%%` and `%s` conversions of `vsprintf` are modelled. Any other conversion is treated as rejected, as are a trailing `%` and too few arguments (PHP 8 raises `ValueError` for the last two).
- `Strings::quote` is not part of this model. It is taken to be `"'" + s + "'"`, as the `conjunct` documentation example shows.
- The default exception class is declared in `ValidatorInterface`, which is not part of this model. The initial `State` is therefore left open, and the lemmas quantify over every state.
- Class resolution covers a fixed set of built-in classes: `Exception`, the SPL exceptions, `ErrorException`, `JsonException`, `ClosedGeneratorException`, `Error`, `TypeError`, `ValueError` and `stdClass`. Other classes are unknown and therefore refused. That includes extension exceptions such as `PDOException` or `ReflectionException`, which PHP would accept. User-defined classes, namespaces and autoloading are not modelled.
- Actually constructing and throwing the exception becomes the `Failure` value.
- `Obj`, `ValidatorInterface` and the `Conversions` helpers (`numberFormat`, `bytesToHuman`, which round floats) are not part of this model.

## Findings

| source | as written | input that shows it | evidently intended | confidence | as-written member | corrected member |
|---|---|---|---|---|---|---|
| src/Headzoo/Utilities/Validator.php:73-82 | With only a message, `array_shift` yields `null` for the code. Because `null` is not an integer, it is pushed back as a format argument, so the argument list is non-empty and `vsprintf` runs on the bare message. | `throwException("100%% done")` throws `"100% done"`. `throwException("100%")` makes `vsprintf` fail instead of throwing the configured exception. | The message is formatted only when substitution arguments were passed (documentation at lines 56-69), so a bare message is thrown as given. | not executed | Validator.ThrowException, Validator.BareMessageIsFormatted | Validator.ThrowExceptionCorrected, Validator.CorrectedAgreesWhenArgumentsGiven |
