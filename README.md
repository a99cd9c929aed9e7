# geobars core in Dafny

geobars thins out a collection of backups so that the ones kept are spread
geometrically in time. This project models two parts of its core.

**The geometric-density selector** is in `geo_density.dfy`, module `GeoDensity`.
- `find_min` returns the index and value of the smallest element, and on ties
  the first one, as Python's `min` does.
- `pop_geometrically_dense` does the thinning:
  - it stably sorts the items by their second component, the key;
  - then, while more than one item is left, it computes the ratio of each
    adjacent pair;
  - it yields the left item of the first pair with the smallest ratio and
    removes that item from the list.
- The `Backup` record is a datatype with a path, a size and a date. The date
  is an integer timestamp.
- The module covers both copies of these functions, `geobrs/lib_math.py` and
  `geobars/__init__.py`.

How the module is built:
- `SortByKey` is a stable insertion sort. It is proved ordered, a permutation
  and stable. Any list with those three properties is proved to equal it.
- `GeoThin` is the specification of the thinning loop.
- `PopGeometricallyDense` is the loop itself, over the list it pops from. It is
  proved to yield exactly `GeoThin` of the sorted input.

**Byte counts** are in `byte_count.dfy`, module `ByteCounts`.
- The unit table `prefixes` is written line by line, as in the source. A later
  entry of a dict display wins, and the model keeps that rule. The table is
  proved to follow the naming scheme:
  - `byte` and `bytes` are 1;
  - every other unit starts with a letter of `kmgtpezyrq`, the letter's position
    being the power;
  - the base is 1024 for `…ib`, `…bibyte` and `…bibytes` units, and 1000 otherwise.
- `first_letters` maps each of those letters to its position.
- `get_magnitude_IEC` and `get_magnitude_SI` are counting loops. They are
  proved to return the unique magnitude.
- `ByteCount.from_str` is modelled over its steps: `int()`, `strip`, `lower`
  and `split`.
  - `strip` and `split` treat as whitespace what `str.isspace` does.
  - `int()` has narrower rules. It first turns every whitespace character from
    code point 127 on into a blank. Then it skips only tab, line feed, vertical
    tab, form feed, carriage return and blank around the digits.
  - So the separator controls U+001C to U+001F are whitespace to `split` but
    not to `int()`: `"\x1c5"` is a FormatError.
  - `int()` reads at most 4300 decimal digits, the default limit of Python 3.11
    and later (which `Self` and `LiteralString` at geobrs/byte_count.py:3
    require). A longer integer or scalar is a FormatError.
- The constructor `ByteCount.__new__` is modelled too.
- `FormatError` is the error outcome of the `Parse` datatype.

Where the model departs from the code or from its documentation:

- The docstring of `pop_geometrically_dense` (geobrs/lib_math.py:56-81) says
  that on `1, 3, 4, 10, 25` the items come out as 3, then 1, then 10, and that
  the loop stops when two items remain.
  - The code yields 3, 4, 10 and 1, in that order.
  - The loop runs while more than one item remains, so only 25 is left.
  - The model follows the code: `DocumentedExample` proves the sequence the
    code yields.
- `find_min` (geobrs/lib_math.py:27, geobars/__init__.py:33) rebinds `key` to a
  lambda that calls `key`. The lambda then calls itself on a number, and that
  raises TypeError.
  - No documentation disagrees here. The model departs from the code and
    gives `find_min` its evident meaning: the first minimum of the values.
  - The Python failure is not modelled.
- `ByteCount.__new__` (geobrs/byte_count.py:83-84) passes an integer back to
  the class itself. That call recurses without end, and so does every integer
  `from_str` builds.
  - No documentation disagrees here. The code as written is modelled and
    recorded under Findings.
  - The rest of the model departs from the code and uses the evident meaning:
    the integer becomes the count.

## Model

| member | source | states |
|---|---|---|
| GeoDensity.FindMin | geobrs/lib_math.py:23-28 | none exactly for the empty sequence; otherwise an index whose element is no larger than any element and strictly smaller than every earlier one, together with that element |
| GeoDensity.FirstMinUnique | geobars/__init__.py:29-34 | at most one index is a first minimum, so the answer of find_min is determined by its input |
| GeoDensity.Insert | geobrs/lib_math.py:85 | inserting into the working list adds exactly that item to the multiset of items |
| GeoDensity.InsertSorted | geobrs/lib_math.py:85 | inserting into a list ordered by key leaves it ordered by key |
| GeoDensity.InsertWithKey | geobrs/lib_math.py:85 | an inserted item lands before the existing items with its key, and the items with any other key are unchanged |
| GeoDensity.SortByKey | geobrs/lib_math.py:85 | the sorted list is ordered by key, is a permutation of the input, and keeps all keys positive |
| GeoDensity.SortByKeyStable | geobars/__init__.py:88 | for every key, the items with that key appear in the same order as in the input (a stable sort) |
| GeoDensity.StableSortUnique | geobrs/lib_math.py:85 | two lists ordered by key with the same items and the same per-key order are equal, so the stable sort's output is the only possible one |
| GeoDensity.SortOfSorted | geobrs/lib_math.py:85 | sorting a list already ordered by key returns it unchanged |
| GeoDensity.LastIsLargest | geobrs/lib_math.py:85 | the last item of the sorted list has a key at least that of every input item |
| GeoDensity.Ratios | geobrs/lib_math.py:88-92 | one ratio per adjacent pair of the working list |
| GeoDensity.RatioAtLeastOne | geobrs/lib_math.py:89 | dividing a key by a smaller positive key gives at least 1 |
| GeoDensity.RatiosAtLeastOne | geobrs/lib_math.py:88-92 | on a list ordered by positive key every adjacent ratio is at least 1 |
| GeoDensity.DensestPair | geobrs/lib_math.py:94 | the chosen index names a pair of the list and is the first minimum of its ratios |
| GeoDensity.RemoveAt | geobrs/lib_math.py:95 | popping shortens the list by one |
| GeoDensity.RemoveAtFacts | geobrs/lib_math.py:95 | popping removes exactly the item at that index; the items before it keep their place and the items after it move down by one |
| GeoDensity.RemoveAtSorted | geobrs/lib_math.py:95 | popping from a list ordered by key leaves it ordered by key |
| GeoDensity.GeoThin | geobrs/lib_math.py:87-95 | the loop's yields on a list already sorted by key: while more than one item is left, the smaller item of the first densest pair, then the same on the list without it. No contract of its own; GeoThinStep unfolds one turn, and GeoThinLength, GeoThinKeepsLast and GeoThinYieldsSmallerKeys state what it yields |
| GeoDensity.GeoThinLength | geobars/__init__.py:90 | from a non-empty list exactly one item fewer than the list holds is yielded; nothing from an empty one |
| GeoDensity.GeoThinKeepsLast | geobars/__init__.py:90-98 | the yielded items together with the last item of the list are a permutation of the list; the last item is never yielded |
| GeoDensity.GeoThinYieldsSmallerKeys | geobrs/lib_math.py:87-95 | every yielded item comes from the list and has a key no larger than the key of the item that is left |
| GeoDensity.ThinTurn | geobars/__init__.py:97-98 | one turn of the loop keeps the working list positive and ordered; the items yielded so far plus the yield of the new list equal the items yielded before plus the yield of the old list; yielded and working items together stay the same multiset; the last item stays last |
| GeoDensity.PopGeometricallyDense | geobrs/lib_math.py:85-95 | the yielded items are the thinning of the input in stable key order; there is one fewer of them than the input holds, and none for an empty input; one item is left for a non-empty input; yielded and left items together are a permutation of the input; the item left has the largest key |
| GeoDensity.DocumentedExample | geobrs/lib_math.py:56-81 | on keys 1, 3, 4, 10, 25 the items are yielded in the order 3, 4, 10, 1 |
| GeoDensity.TieBreakExample | geobars/__init__.py:29-34 | on keys 1, 2, 4, 8, whose three ratios are equal, the leftmost pair wins and key 1 is yielded first (the general rule is the first minimum of FindMin and DensestPair) |
| ByteCounts.Pow | geobrs/byte_count.py:8-28 | a power of a positive base is positive |
| ByteCounts.FirstLettersIndex | geobrs/byte_count.py:32-34 | the i-th letter of kmgtpezyrq maps to i + 1, and no other character is a key |
| ByteCounts.BytesLinesFollowScheme | geobrs/byte_count.py:7-10 | every entry of these lines follows the naming scheme |
| ByteCounts.BinaryLinesFollowScheme | geobrs/byte_count.py:11-14 | every entry of these lines follows the naming scheme (powers of 1024) |
| ByteCounts.BinaryTailFollowsScheme | geobrs/byte_count.py:15-17 | every entry of these lines follows the naming scheme (powers of 1024) |
| ByteCounts.DecimalLinesFollowScheme | geobrs/byte_count.py:19-21 | every entry of these lines follows the naming scheme (powers of 1000) |
| ByteCounts.DecimalMiddleFollowsScheme | geobrs/byte_count.py:22-24 | every entry of these lines follows the naming scheme (powers of 1000) |
| ByteCounts.DecimalTailFollowsScheme | geobrs/byte_count.py:25-28 | every entry of these lines follows the naming scheme (powers of 1000) |
| ByteCounts.DictSound | geobrs/byte_count.py:6-29 | every key of a dict display, with the value the display gives it, is one of the display's entries |
| ByteCounts.DictComplete | geobrs/byte_count.py:6-29 | every name written in a dict display is a key of it |
| ByteCounts.PrefixesFollowScheme | geobrs/byte_count.py:6-29 | every unit of the table is byte or bytes with value 1, or starts with a letter of first_letters and has as value 1024 or 1000 to that letter's power, 1024 exactly for the binary names |
| ByteCounts.PrefixesListed | geobrs/byte_count.py:6-29 | every name written in the table is a unit of it, and its value follows the scheme |
| ByteCounts.Magnitude | geobrs/byte_count.py:41-51 | the loop ends, with the magnitude of the value in the base: the least m with value at most base^(m+1); values up to the base give 0 |
| ByteCounts.MagnitudeUnique | geobrs/byte_count.py:42-45 | a value has exactly one magnitude in a given base |
| ByteCounts.ByteCount.MagnitudeIEC | geobrs/byte_count.py:41-45 | the result is the magnitude of the count in base 1024 |
| ByteCounts.ByteCount.MagnitudeSI | geobrs/byte_count.py:47-51 | the result is the magnitude of the count in base 1000 |
| ByteCounts.Strip | geobrs/byte_count.py:69 | `s.strip()`: StripLeft then StripRight. No contract of its own; StripLeft, StripRight, StripClean, StripPadded and SplitStrip state its behaviour |
| ByteCounts.StripLeft | geobrs/byte_count.py:69 | the result is a suffix of the input, the part removed is whitespace, and the result does not start with whitespace |
| ByteCounts.StripRight | geobrs/byte_count.py:69 | the result is a prefix of the input, the part removed is whitespace, and the result does not end with whitespace |
| ByteCounts.StripClean | geobrs/byte_count.py:69 | stripping a string that neither starts nor ends with whitespace leaves it unchanged |
| ByteCounts.StripPadded | geobrs/byte_count.py:69 | stripping whitespace from around a string that neither starts nor ends with whitespace gives that string |
| ByteCounts.Lower | geobrs/byte_count.py:69 | lower-casing keeps the length |
| ByteCounts.LowerNoSpace | geobrs/byte_count.py:69 | lower-casing a non-empty whitespace-free word gives a non-empty whitespace-free word |
| ByteCounts.Split | geobrs/byte_count.py:69 | every token is non-empty and free of whitespace |
| ByteCounts.SplitOne | geobrs/byte_count.py:69 | a single non-empty word splits into itself |
| ByteCounts.SplitCons | geobrs/byte_count.py:69 | a leading run of non-whitespace ended by whitespace or by the end of the string is the first token, and the split goes on with the rest |
| ByteCounts.SplitTwo | geobrs/byte_count.py:69 | two words separated by whitespace split into exactly those two words |
| ByteCounts.SplitTrailing | geobrs/byte_count.py:69 | trailing whitespace does not change the split |
| ByteCounts.SplitStrip | geobrs/byte_count.py:69 | stripping before splitting does not change the split |
| ByteCounts.SplitSameSpaces | geobrs/byte_count.py:69 | two strings with whitespace at the same positions split into as many tokens, so lower-casing does not change the number of tokens |
| ByteCounts.IntText | geobrs/byte_count.py:67 | the text int() scans, as long as its argument; IntTextFacts states the rewrite of whitespace from U+007F on into blanks |
| ByteCounts.ParseInt | geobrs/byte_count.py:66-67 | `int(s)` in base 10, None for its ValueError. No contract of its own; ParseIntAccepts, ParseIntRejects, ParseIntDecimal, ParseSignedTooLong, IntTrimKeepsSpace and ParseIntManyTokens state what it accepts and rejects |
| ByteCounts.IntStripLeft | geobrs/byte_count.py:67 | int() skips a prefix made only of its six whitespace characters, and what is left does not start with one |
| ByteCounts.IntStripRight | geobrs/byte_count.py:67 | int() skips a suffix made only of its six whitespace characters, and what is left does not end with one |
| ByteCounts.IntTextFacts | geobrs/byte_count.py:67 | the text int() scans has whitespace where the string has it, keeps every other character, and holds int() whitespace exactly where the string holds whitespace int() skips |
| ByteCounts.IntTrimKeepsSpace | geobrs/byte_count.py:67 | a whitespace character that int() does not skip stays in what int() reads, which is then not an integer |
| ByteCounts.ParseIntAccepts | geobrs/byte_count.py:67 | a whitespace-free token surrounded by whitespace that int() skips is read as that token |
| ByteCounts.ParseIntRejects | geobrs/byte_count.py:67 | a string that is whitespace around a core that is not an integer is not an integer |
| ByteCounts.ParseIntManyTokens | geobrs/byte_count.py:66-67 | a string that splits into two or more tokens is not an integer |
| ByteCounts.ParseIntDecimal | geobrs/byte_count.py:67 | int() reads back the decimal form of every integer of at most 4300 digits, negative ones included; beyond that limit str() itself raises |
| ByteCounts.ParseSignedTooLong | geobrs/byte_count.py:67 | a run of more than 4300 digits, with or without a sign, is not an integer |
| ByteCounts.ParseSignedSpace | geobrs/byte_count.py:67 | a token with whitespace inside it is not an integer |
| ByteCounts.ParseSignedLower | geobrs/byte_count.py:75 | lower-casing a token does not change whether and to what it parses as an integer |
| ByteCounts.ByteCount.FromStr | geobrs/byte_count.py:64-77 | `from_str`: int(s) first, else strip, lower and split into a scalar and a unit. No contract of its own; the FromStr lemmas below cover zero, one, two and three or more tokens, and every error path |
| ByteCounts.FromStrInteger | geobrs/byte_count.py:66-67 | any token int() accepts (a sign, leading zeros, at most 4300 digits) with whitespace around it that int() skips parses to the integer the token denotes |
| ByteCounts.FromStrControlPadding | geobrs/byte_count.py:66-71 | a lone token with one of the separator controls U+001C to U+001F around it is a FormatError, even an integer token |
| ByteCounts.FromStrFileSeparator | geobrs/byte_count.py:66-71 | "\x1c5" is a FormatError |
| ByteCounts.TwoTokensNotInt | geobrs/byte_count.py:66-69 | a scalar and a unit separated by whitespace are not a bare integer |
| ByteCounts.TwoTokensSplit | geobrs/byte_count.py:69 | a padded scalar and unit split, after stripping and lower-casing, into the lower-cased scalar and unit |
| ByteCounts.FromStrWithUnit | geobrs/byte_count.py:69-75 | any scalar token int() accepts (at most 4300 digits) followed by a unit of the table in any case parses to the scalar times the unit's value |
| ByteCounts.FromStrUnknownUnit | geobrs/byte_count.py:74-77 | any scalar token int() accepts followed by a word that, lower-cased, is not a unit is a FormatError |
| ByteCounts.FromStrBadScalar | geobrs/byte_count.py:74-77 | a scalar that is not an integer, followed by any word, is a FormatError |
| ByteCounts.FromStrOneToken | geobrs/byte_count.py:69-71 | a single word that is not an integer is a FormatError |
| ByteCounts.FromStrTooManyDigits | geobrs/byte_count.py:66-71 | a lone integer token of more than 4300 digits is a FormatError |
| ByteCounts.FromStrScalarTooLong | geobrs/byte_count.py:74-77 | a scalar of more than 4300 digits is a FormatError, whatever the unit |
| ByteCounts.FromStrBlank | geobrs/byte_count.py:69-71 | an empty or all-whitespace string is a FormatError |
| ByteCounts.FromStrManyTokens | geobrs/byte_count.py:69-71 | a string of three or more whitespace-separated tokens is a FormatError |
| ByteCounts.FromStrKibibytes | geobrs/byte_count.py:64-77 | " 2 KiB " parses to 2048 bytes |
| ByteCounts.FromStrLeadingZeros | geobrs/byte_count.py:64-77 | "+007 kB" parses to 7000 bytes |
| ByteCounts.FromStrGluedUnit | geobrs/byte_count.py:69-71 | "10kib", with no whitespace between number and unit, is a FormatError |
| ByteCounts.FromStrFraction | geobrs/byte_count.py:74-77 | "1.5 kb" is a FormatError, because the scalar must be an integer |
| ByteCounts.NewAsWritten | geobrs/byte_count.py:79-86 | `__new__` exactly as written, with fuel bounding the nested calls to the class. No contract of its own; NewAsWrittenNeverReturns states that it never returns a count |
| ByteCounts.NewAsWrittenNeverReturns | geobrs/byte_count.py:79-86 | as written, the constructor never returns a byte count: an integer argument never returns, and a string raises FormatError or never returns |
| ByteCounts.ByteCount.New | geobrs/byte_count.py:79-86 | `__new__` as evidently intended: a string is parsed by from_str, an integer becomes the count. No contract of its own; NewAgrees states that both paths agree |
| ByteCounts.NewAgrees | geobrs/byte_count.py:79-86 | the constructor gives the same result for an integer and for its decimal string, for every integer of at most 4300 digits (str() raises beyond) |

## Findings

| source | as written | input that shows it | evidently intended | confidence | as-written member | corrected member |
|---|---|---|---|---|---|---|
| geobrs/byte_count.py:83-84 | an integer argument is passed back to the class itself, so the constructor calls itself again with the same integer; `from_str` does the same with every integer it builds (line 67, line 75) | `ByteCount(5)` or `ByteCount("5")` | wrap the integer as the count, as the integer type's own constructor would | high, not executed | ByteCounts.NewAsWrittenNeverReturns | ByteCounts.NewAgrees |

## Left out

- `solve` (geobrs/lib_math.py:100 on) and the rest of the repository are not part of this model:
  - the `du` helper;
  - the command line;
  - the configuration;
  - `ByteCount.__repr__`, which formats floats.
- Ratios are exact `real` divisions, so floating-point rounding is not modelled, and neither is a tie that rounding would create or break.
- GeoDensity.PopGeometricallyDense: requires every key to be positive, because a zero key would divide by zero in the source. The requirement also excludes inputs the source handles:
  - negative keys, whose ratios Python computes (keys -2 and -1 give the ratio 0.5, and the first item is yielded);
  - a lone item with a zero or negative key, from which the source yields nothing.
- Items are modelled as a pair of an identifier and a real key. The source accepts any pairs whose second elements can be divided and compared. The unpacking `((_, smaller), (_, bigger))` (geobrs/lib_math.py:90, geobars/__init__.py:93) raises ValueError on an item of any other length; that error is not modelled.
- The `key` parameter of `pop_geometrically_dense` (geobrs/lib_math.py:35) is not modelled, because the code never uses it.
- The `key` parameter of `find_min` is not modelled. Its only caller passes none.
- GeoDensity.PopGeometricallyDense: the source is a lazy generator. The method runs the loop to the end and returns everything it yields, together with the list that is left. A caller that stops early sees a prefix of that sequence.
- `ByteCount.from_str` uses a simplified `int()`. It accepts ASCII digits with an optional sign, at most 4300 of them, with the whitespace `int()` skips around them. A changed limit (`sys.set_int_max_str_digits`, `PYTHONINTMAXSTRDIGITS`) is not modelled; the default is. Underscores between digits and non-ASCII digits are not accepted. A character beyond ASCII that is neither whitespace nor a digit is kept as it is rather than ending the text; either way the string is not an integer.
- `lower()` is modelled on ASCII letters only. A unit written with non-ASCII letters is therefore treated as an unknown unit.
- The `TypeError` branch of `ByteCount.__new__` is not modelled. The `Arg` datatype admits only strings and integers.
- The model keeps `FormatError` but not the exception it is chained from.
- `first_letters` is written as a map display. `ByteCounts.FirstLettersIndex` proves that it equals the comprehension over `kmgtpezyrq`.
- `ByteCount.FromStr`, `ByteCount.New`, `NewAsWritten`, `ParseInt`, `Strip` and `GeoThin` carry no contract of their own. Their rows in the "## Model" table name the lemmas that state their behaviour.
