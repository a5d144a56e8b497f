# indexesOf: search offsets in article text

This project models the search-index helper of the article reader,
the Kotlin extension function `String?.indexesOf(substr, ignoreCase = true): List<Int>`.
It returns the start offset of every match of `substr` in a nullable text.
The offsets come in reading order, and matching ignores case by default.
The function:

- returns no offsets for an empty `substr`, before looking at the text;
- returns no offsets when the text is `null`;
- otherwise builds a regular expression from `substr` (case-insensitive unless
  `ignoreCase` is false) and returns the first offset of every match that
  `findAll` reports.

`findAll` resumes each search at the END of the previous match.
So `findAll` does not report overlapping occurrences: `"aaa".indexesOf("aa")` is `[0]`, not `[0, 1]` (`ExampleNoOverlap`).

## Structure

- `wrappers.dfy`, module `Wrappers`: `Option`, standing for Kotlin's nullable types.
- `string_ext.dfy`, module `StringExtensions`: the model and its proofs.
  - `MatchesAt(text, query, ignoreCase, i)`: the query occurs at offset `i`, comparing
    characters through `SameChar`. Under `ignoreCase` both sides go through the same
    case-folding function `Fold`.
  - `FindFrom`: one `find` of the regex engine, giving the first match at or after an offset.
  - `ScanFrom`: `findAll(...).map { it.range.first }`, resuming after each match's end.
  - `IndexesOf`: the early return for an empty query and the `?.let { … } ?: emptyList()` null handling.
  - `GreedyScan`: an independent, index-based description of what a "find all" scan reports.
    Result `k` is the leftmost match at or after where the scan resumed.
    After the last result no match remains.
    `IndexesOfIsGreedyScan` proves that `IndexesOf` is the one sequence with this property.

Assumption: the query is a literal character sequence. This matches the code only for queries
without regular-expression metacharacters; the code does not escape the query.

## Model

| member | source | states |
|---|---|---|
| `StringExtensions.IndexesOf` | app/src/main/java/ru/skillbranch/skillarticles/extensions/String.kt:3-14 | an empty `substr` gives `[]` whatever the text; a `null` text gives `[]`; every offset `i` has `0 <= i`, `i + |substr| <= |text|` and is a match position |
| `StringExtensions.FindFrom` | app/src/main/java/ru/skillbranch/skillarticles/extensions/String.kt:12 | one search from `from` returns, if anything, a match position at or after `from` |
| `StringExtensions.FindFromLeftmost` | app/src/main/java/ru/skillbranch/skillarticles/extensions/String.kt:12 | a search returns the leftmost match at or after its start, and returns nothing only when no match lies there |
| `StringExtensions.ScanFrom` | app/src/main/java/ru/skillbranch/skillarticles/extensions/String.kt:12 | every offset of a scan from `from` is a match position at or after `from` |
| `StringExtensions.ScanIsGreedy` | app/src/main/java/ru/skillbranch/skillarticles/extensions/String.kt:12 | the scan's first offset is the leftmost match, each later one is the leftmost match at or after the previous match's end, and none remains after the last |
| `StringExtensions.GreedyScanUnique` | app/src/main/java/ru/skillbranch/skillarticles/extensions/String.kt:12 | any sequence making those greedy leftmost choices is the scan's result |
| `StringExtensions.NoMatchFindsNone` | app/src/main/java/ru/skillbranch/skillarticles/extensions/String.kt:12 | with no match at or after `from`, the search finds nothing |
| `StringExtensions.LeftmostIsUnique` | app/src/main/java/ru/skillbranch/skillarticles/extensions/String.kt:12 | the leftmost match at or after `from` is exactly what the search returns |
| `StringExtensions.IndexesOfIsGreedyScan` | app/src/main/java/ru/skillbranch/skillarticles/extensions/String.kt:10-13 | for a present text and non-empty `substr`, a sequence is a greedy leftmost "find all" result from offset 0 if and only if it equals `indexesOf` |
| `StringExtensions.ScanComplete` | app/src/main/java/ru/skillbranch/skillarticles/extensions/String.kt:12 | every match position at or after `from` lies inside some match the scan reports |
| `StringExtensions.IndexesOfComplete` | app/src/main/java/ru/skillbranch/skillarticles/extensions/String.kt:12 | no match position is skipped except those inside an earlier reported match |
| `StringExtensions.IndexesOfFirst` | app/src/main/java/ru/skillbranch/skillarticles/extensions/String.kt:12 | a text with any match gives a non-empty result whose first offset is the leftmost match |
| `StringExtensions.ScanNonOverlapping` | app/src/main/java/ru/skillbranch/skillarticles/extensions/String.kt:12 | any two offsets of the scan are at least `|substr|` apart |
| `StringExtensions.IndexesOfAscending` | app/src/main/java/ru/skillbranch/skillarticles/extensions/String.kt:12 | offsets strictly ascend and matches never overlap: each offset is at least `|substr|` after every earlier one |
| `StringExtensions.ScanCount` | app/src/main/java/ru/skillbranch/skillarticles/extensions/String.kt:12 | the scan's matches together fit in the text after `from` |
| `StringExtensions.IndexesOfCount` | app/src/main/java/ru/skillbranch/skillarticles/extensions/String.kt:12 | for non-empty `substr` there are at most `|text| / |substr|` offsets (none for a `null` text) |
| `StringExtensions.AgreeChars` | app/src/main/java/ru/skillbranch/skillarticles/extensions/String.kt:11 | agreement of a text window with the query is agreement character by character |
| `StringExtensions.IndexesOfSound` | app/src/main/java/ru/skillbranch/skillarticles/extensions/String.kt:11-12 | each offset `i` starts a window `text[i..i+|substr|]` that equals `substr` character by character, under case folding when `ignoreCase` |
| `StringExtensions.DefaultIgnoresCase` | app/src/main/java/ru/skillbranch/skillarticles/extensions/String.kt:5-11 | the two-argument call matches under case folding |
| `StringExtensions.ExampleHelloWorld` | app/src/main/java/ru/skillbranch/skillarticles/extensions/String.kt:5-12 | `"Hello World".indexesOf("o")` and `"Hello World".indexesOf("O")` are both `[4, 7]` |
| `StringExtensions.ExampleHelloWorldCaseSensitive` | app/src/main/java/ru/skillbranch/skillarticles/extensions/String.kt:11-12 | `"Hello World".indexesOf("O", false)` is `[]` |
| `StringExtensions.ExampleNoOverlap` | app/src/main/java/ru/skillbranch/skillarticles/extensions/String.kt:12 | `"aaa".indexesOf("aa")` is `[0]`: the second, overlapping occurrence is not reported |
| `StringExtensions.ExampleEmpty` | app/src/main/java/ru/skillbranch/skillarticles/extensions/String.kt:7-13 | a `null` text and an empty query both give `[]` |

## Left out

- Regular-expression semantics of the query: the code compiles `substr` as a pattern and does not escape it. A query with metacharacters (`.`, `*`, `(`, …) matches as a pattern in the code, or makes `Regex` throw. The model treats every query as literal text.
- Case folding tables: `Fold` is an ASCII lower-casing stand-in for the JVM's case-insensitive comparison, which under Kotlin's `IGNORE_CASE` also folds non-ASCII letters. Apart from the worked example `ExampleHelloWorld`, the lemmas use only the fact that both sides are folded by one function.
- UTF-16 code units: Kotlin strings and their offsets count UTF-16 code units. The model's strings are sequences of Dafny `char`, and offsets count those.
- `List<Int>` width: offsets are modelled as unbounded naturals. No JVM string is long enough for a 32-bit offset to overflow.
- The search-highlight and navigation code in `ui/RootActivity.kt` (spans, search position, toolbar, lifecycle): Android view code bound to the platform's text object model.
- `data/delegates/PrefObjDelegate.kt`: asynchronous DataStore reads and writes through foreign libraries.
