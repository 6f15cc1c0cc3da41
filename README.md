# lightscript reserved tokens, modelled in Dafny

This project models the reserved-token front end of the lightscript lexer,
`source/tokens.cpp`. It has four parts:

- **The symbol tables.** `operator_token_map` holds 45 operator and
  punctuation spellings and `keyword_token_map` holds 17 keywords. Each is a
  lookup, which keeps its entries sorted by key. `token_string_map` is the
  reverse table: every operator entry turned round, then every keyword entry
  turned round.
- **The printer and the keyword lookup.** `operator<<` prints a kind's
  spelling, read from the reverse table without a check. `get_keyword` is an
  exact keyword lookup.
- **The comparator.** `maximal_munch_comparator(idx)` compares a table entry
  with a character at position `idx`, in its two mixed overloads, for
  `std::equal_range`.
- **The scanner.** `get_operator` pulls characters from a push-back stream.
  It narrows the run of candidate operator entries one position at a time,
  remembers the longest complete spelling it has seen, and then pushes
  characters back.

Files and modules:

| file | module | contents |
|---|---|---|
| `options.dfy` | `Options` | `Option` (the `std::optional` results) |
| `kinds.dfy` | `Tokens` | `ReservedToken`, the 62 kinds the tables name |
| `lookup.dfy` | `Lookup` | a lookup as a sequence of pairs, exact `Find`, the string order, sortedness |
| `tables.dfy` | `TokenTables` | the three tables, the printer `TokenString`, `GetKeyword` |
| `comparator.dfy` | `MunchComparator` | the comparator overloads and `equal_range` as two binary searches |
| `stream.dfy` | `Streams` | the push-back stream as a class |
| `scanner.dfy` | `Scanner` | the scan's specification, the loop as a method, `GetOperator` |
| `munch.dfy` | `OperatorScan` | what the scan does on the operator table, with concrete inputs |

The scanner is specified declaratively.

- `StopIndex(t, s)` is the position where the loop test first fails. At that
  position the input has ended, or no spelling agrees with the characters
  read so far.
- `Longest(t, s, true)` is the length of the longest spelling at the front of
  the input that is followed by at least one more character.
- `Munch(t, s)` is that spelling's kind.

`ScanRounds` is the loop of `get_operator`, proved against these functions
with loop invariants. `ScanLongest` and `GetOperator` add the push-back loop.
Their contracts give the new stream contents and the pull and push-back
counts.

### Where the code departs from plain maximal munch

Plain maximal munch would return `lt` on `"<"` alone. It would also push
back exactly the characters read past the match. The code does neither, and
this model follows the code.

- **End of input.** The loop test `c >= 0` on line 153 fails before the
  completeness check on line 154 runs for that position. So a spelling that
  ends exactly where the input ends is never recorded.
  - `WholeInputNotItself`: an operator spelling that is the whole input is
    never returned as itself.
  - `LtAtEndGivesNone`: `"<"` alone gives none, where plain maximal munch
    gives `lt`.
  - `ShiftlAssignAtEndGivesShiftl`: `"<<="` alone gives `shiftl`, where
    plain maximal munch gives `shiftl_assign`.
- **Push-back.** Lines 161-163 push back the last value pulled, which may be
  the end-of-input value. They push it `idx - match_size + 1` times, in place
  of the characters read past the match.
  - `PushBackExample`: on `"<<b;"` the scan returns `shiftl` and leaves `;;`
    on the stream, so the `b` is lost. Plain maximal munch would leave `b;`.
  - `ShiftlAssignAtEndPushBack`: on `"<<="` the scan leaves two end-of-input
    values on the stream.

## Model

| member | source | states |
|---|---|---|
| Lookup.Find | source/tokens.cpp:112-113 | exact-match find: None exactly when no entry has the key, otherwise the value of an entry with that key |
| Lookup.FindEntry | source/tokens.cpp:107 | in a table with distinct keys, finding an entry's key yields that entry's value |
| Lookup.KeySortedDistinct | source/tokens.cpp:7-91 | a table whose keys strictly increase has no repeated key |
| Lookup.KeyOrderedIsSorted | source/tokens.cpp:7-91 | neighbour-wise increasing keys are increasing across the whole table |
| Lookup.AbsentBetweenNeighbours | source/tokens.cpp:112-113 | in a sorted table, a key strictly between two neighbouring keys is not found |
| TokenTables.OperatorTokenMap | source/tokens.cpp:7-66 | the 45 source pairs of spelling and kind, stored in increasing key order |
| TokenTables.KeywordTokenMap | source/tokens.cpp:68-91 | the 17 source pairs of keyword and kind, stored in increasing key order |
| TokenTables.OperatorTableSorted | source/tokens.cpp:7-66 | operator spellings strictly increase in storage order, so they are pairwise distinct |
| TokenTables.OperatorSpellingLengths | source/tokens.cpp:7-66 | every operator spelling is 1 to 3 characters long |
| TokenTables.KeywordTableSorted | source/tokens.cpp:68-91 | keyword spellings strictly increase, so they are pairwise distinct |
| TokenTables.TokenStringMap | source/tokens.cpp:93-103 | every operator pair turned round, then every keyword pair turned round, each table walked in its storage order |
| TokenTables.KindSlots | source/tokens.cpp:93-103 | operator kind i sits at reverse position i, keyword kind i at 45 + i |
| TokenTables.KindAtSlot | source/tokens.cpp:93-103 | every kind is named by one entry of one of the two tables |
| TokenTables.TokenStringMapComplete | source/tokens.cpp:93-103 | the reverse table has 45 + 17 = 62 entries, no kind twice, and an entry for every kind |
| TokenTables.ReverseEntryOrigin | source/tokens.cpp:93-103 | a reverse entry (k, w) leads back: finding w in the operator or keyword table gives k |
| TokenTables.KindHasSpelling | source/tokens.cpp:106-108 | the printer's unchecked find never misses |
| TokenTables.TokenString | source/tokens.cpp:106-108 | the printed spelling of k looks up to k in the table it came from |
| TokenTables.PrintedSpelling | source/tokens.cpp:106-108 | printing the kind of any operator or keyword entry gives that entry's spelling |
| TokenTables.GetKeyword | source/tokens.cpp:111-114 | some exactly when the word is a keyword spelling, and then the kind stored with it |
| TokenTables.KeywordRoundTrip | source/tokens.cpp:111-114 | an accepted word prints back as itself, and every keyword's printed spelling looks up to it |
| TokenTables.KeywordFound | source/tokens.cpp:111-114 | `"fun"` gives `kw_fun` |
| TokenTables.KeywordExtensionNotFound | source/tokens.cpp:111-114 | `"funny"` gives none |
| TokenTables.KeywordPrefixNotFound | source/tokens.cpp:111-114 | `"fu"` gives none |
| MunchComparator.BeforeAndAfterExclusive | source/tokens.cpp:130-136 | no entry is both before and after c, and an entry is neither exactly when its character at idx is c |
| MunchComparator.OrderedPairComparesInOrder | source/tokens.cpp:130-136 | of two sorted entries that share idx characters, the earlier one is before c whenever the later one is, and the later one is after c whenever the earlier one is |
| MunchComparator.ComparatorPartitions | source/tokens.cpp:130-136 | a sorted run that shares idx characters is partitioned by the comparator, as equal_range requires |
| MunchComparator.CompleteEntryIsFirst | source/tokens.cpp:153-157 | in such a run, an entry exactly idx characters long can only be the first one |
| MunchComparator.LowerBound | source/tokens.cpp:158 | the first position not before c: everything before it is before c, nothing from it on is |
| MunchComparator.UpperBound | source/tokens.cpp:158 | the first position after c: nothing before it is after c, everything from it on is |
| MunchComparator.EqualRange | source/tokens.cpp:158 | the narrowed run lies within the old one and its entries share idx + 1 characters |
| MunchComparator.EqualRangeSelects | source/tokens.cpp:126-136 | the narrowed run holds exactly the entries longer than idx whose character at idx is c |
| Streams.PushBackStream.Pull | source/tokens.cpp:150 | a pull returns the next value, or the end-of-input value when none is left; it counts one pull |
| Streams.PushBackStream.PullAt | source/tokens.cpp:153 | after k pulls, the next pull returns value k of the input |
| Streams.PushBackStream.PushBack | source/tokens.cpp:162 | the value pushed back is the next one delivered; it counts one push-back |
| Streams.PushBackStream.PushBackCopies | source/tokens.cpp:161-163 | pushing c back n times puts n copies of c in front and counts n push-backs |
| Streams.PushBackStream.PushBackLast | source/tokens.cpp:161-163 | after k + 1 pulls, pushing the last value back n times puts n copies of value k in front of the rest |
| Scanner.OperatorTableScannable | source/tokens.cpp:7-66 | the operator table is sorted and its spellings are 1 to 3 characters long |
| Scanner.NothingViablePastLongest | source/tokens.cpp:153 | no spelling agrees with 4 characters, and none is empty |
| Scanner.StopFrom | source/tokens.cpp:153 | the loop's exit position: at most 4, the input has ended or no candidate is left there, and every earlier position had both |
| Scanner.SpelledWithinScan | source/tokens.cpp:153-159 | a spelling at the front of the input ends no later than the stop position, and before it when a character follows |
| Scanner.LongestBelow | source/tokens.cpp:154-156 | the longest complete spelling below a position, or 0, and no longer one below it |
| Scanner.Longest | source/tokens.cpp:150-159 | the longest spelling at the front of the input that a character follows: it is at least as long as every such spelling and ends before the stop position |
| Scanner.SpelledKindIs | source/tokens.cpp:154-156 | the spelling of a given length at the front is unique, so its kind is determined |
| Scanner.MunchSpelling | source/tokens.cpp:147-159 | a kind is returned exactly when the match is non-empty; its entry's spelling is exactly the characters matched, all before the end of input |
| Scanner.LongestBelowStop | source/tokens.cpp:153-159 | no followed spelling completes at or past the stop position |
| Scanner.BeginsSharePrefix | source/tokens.cpp:153-158 | candidates that agree with the characters read agree with each other |
| Scanner.RoundRecords | source/tokens.cpp:154-157 | in a round, the run's first entry has length idx exactly when a followed spelling completes there, and it is that spelling |
| Scanner.RoundNarrows | source/tokens.cpp:158 | narrowing keeps exactly the candidates that agree with one more character |
| Scanner.RoundStep | source/tokens.cpp:153-159 | one round preserves the loop invariants |
| Scanner.ScanRounds | source/tokens.cpp:145-159 | the loop ends at StopIndex with match_size = the longest followed spelling below it and its kind; it has pulled idx + 1 values |
| Scanner.ScanLongest | source/tokens.cpp:144-166 | returns Munch and matches Longest; pulls stop + 1 values and pushes back stop + 1 - matched copies of the last one; net advance equals matched |
| Scanner.GetOperator | source/tokens.cpp:144-166 | get_operator on the operator table: result, stop position at most 4, new stream contents and counts, as ScanLongest |
| OperatorScan.OperatorCharacters | source/tokens.cpp:7-66 | every character of every operator spelling is one of the 24 characters `! % & ( ) * + , - / : ; < = > ? [ \ ] ^ { \| } ~` |
| OperatorScan.MunchMeansTaken | source/tokens.cpp:147-159 | get_operator returns a kind exactly when match_size > 0, and the match ends before the input does |
| OperatorScan.MunchPrintsAsTaken | source/tokens.cpp:153-156 | the returned kind prints as exactly the first match_size characters pulled |
| OperatorScan.StopsAtForeign | source/tokens.cpp:153-158 | a character in no operator spelling at position k stops the scan by k + 1, so at most k characters are matched |
| OperatorScan.TakenWhole | source/tokens.cpp:150-159 | an operator followed by a character in no operator spelling is taken whole and its kind returned |
| OperatorScan.ForeignFirstGivesNone | source/tokens.cpp:150-159 | input starting with a character in no operator spelling gives none |
| OperatorScan.WholeInputNotItself | source/tokens.cpp:153-154 | a spelling that ends exactly at end of input is not taken, so its kind is not returned |
| OperatorScan.ShiftlAssignBeforeLetter | source/tokens.cpp:150-159 | `"<<=x"` gives `shiftl_assign` |
| OperatorScan.LeBeforeLetter | source/tokens.cpp:150-159 | `"<=x"` gives `le` |
| OperatorScan.LtBeforeLetter | source/tokens.cpp:150-159 | `"<x"` gives `lt` |
| OperatorScan.LtBeforeDot | source/tokens.cpp:150-159 | `"<."` gives `lt`: the dot is in no operator spelling |
| OperatorScan.AtSignGivesNone | source/tokens.cpp:150-159 | `"@x"` gives none |
| OperatorScan.LtAtEndGivesNone | source/tokens.cpp:153-154 | `"<"` at end of input gives none |
| OperatorScan.ShiftlAssignAtEndGivesShiftl | source/tokens.cpp:153-154 | `"<<="` at end of input gives `shiftl`, matching 2 characters |
| OperatorScan.ShiftlAssignAtEndPushBack | source/tokens.cpp:161-163 | on `"<<="` alone the scan stops at 3 and leaves two end-of-input values on the stream |
| OperatorScan.PushBackExample | source/tokens.cpp:150-163 | on `"<<b;"`: `shiftl`, stop 3, match 2, and the stream then holds two `;` and nothing else |

## Left out

- `lookup<K,V>` (lookup.hpp) is not part of this model. The operator and keyword tables are stored as sequences already sorted by spelling. The reverse table `TokenStringMap` is kept in build order, operators then keywords, whereas the lookup's constructor (source/tokens.cpp:102) sorts it by kind. The binary-search `find` is an exact linear `Find`. It returns the same result in either order because the keys are distinct (`TokenStringMapComplete` proves this for the reverse table). The sort performed at construction is not modelled.
- `push_back_stream` is not part of this model. It is modelled as one sequence of upcoming values: pushed-back values come first, most recent first, then the unread input. It also has pull and push-back counters. Where the input comes from (file or console) and how it tracks line and column are left out.
- `reserved_token` (tokens.hpp) is not part of this model. `ReservedToken` has exactly the 62 kinds that the two tables name.
- `operator<<` writes to a `std::ostream`. The model keeps only the spelling it writes, as `TokenString`.
- The pair-with-pair comparator overload (source/tokens.cpp:138-140) is not modelled. `equal_range` with a character value does not use it in its result.
- The static initialisation order and the thread safety of the global tables are not modelled. The tables are constants.
- Scanner.GetOperator: character values are compared as non-negative integers. The `char(c)` narrowing on line 158 is signed, so a value from 128 to 255 becomes negative. No operator spelling contains such a character. The model does not show that this leaves the result unchanged. The stream is taken to deliver byte values (0 to 255) or a negative end-of-input value. Values of 256 and above, which `char(c)` would wrap onto a byte (316 onto `<`), are not modelled: the model compares them unwrapped.
- The scan's specification and loop are stated for any sorted table of spellings 1 to 3 characters long. `GetOperator` uses them with the operator table.
