# Affix splitter — a verified model

This project models the core of an English vocabulary tool that splits a word into a
prefix, a root and a suffix, and reports the gloss ("meaning") of each affix it finds.
The core consists of two steps:

- **Building the lexicons.** The loaded prefix list and the loaded suffix list are
  each copied and then sorted by descending affix length. The sort is
  `Array.prototype.sort`, which is stable, so affixes of equal length keep their load
  order.
- **Splitting a word** (`splitAffixes`). The word is lower-cased. The prefix lexicon is
  scanned in its stored order, and the scan stops at the first entry whose affix
  starts the word. Once that prefix is cut off, the suffix lexicon is scanned the same
  way against what is left. The result record is
  `{original, prefix, prefixMeaning, root, suffix, suffixMeaning, unmatched}`, where
  `unmatched` is always a copy of `root`.

The project has three modules, one per file:

- `lexicon.dfy` (`AffixLexicon`) holds the following:
  - the `AffixEntry` value;
  - `SortByLength`, the stable longest-first order, defined as a function;
  - its properties: permutation, order and stability;
  - `StableSortIsUnique`, which shows that any stable sort with the source's comparator
    yields exactly this order;
  - the in-place insertion sort on an `array`, proved to produce `SortByLength`;
  - the copy-then-sort loader `LoadLexicon`.
- `splitter.dfy` (`AffixSplitter`) holds the following:
  - ASCII lower-casing;
  - `startsWith` / `endsWith`;
  - the first-fit scan, specified by `IsFirstFit`;
  - the specification function `Split`;
  - the two `for … break` loops of the source as the methods `ScanPrefixes` and
    `ScanSuffixes`, each proved to return what the first-fit scan finds;
  - `SplitAffixes`, the method that runs them, cuts the matched affixes and builds the
    record, proved equal to `Split`;
  - the lemmas about the result record.
- `longest_match.dfy` (`LongestMatch`) proves why a first-fit scan over the sorted
  lexicon is a longest match. It has a reference definition `Longest` of "the longest
  fitting entry of the list as loaded, the earliest loaded among equally long ones". It
  then proves that scanning `SortByLength(loaded)` finds exactly that entry. It also
  works the "undercut" example (`UndercutExample`): with the list as loaded and not
  sorted, "undercut" loses only "un" (`UnsortedUndercutExample`). The "red" and
  "unable" examples (`RedExample`, `UnableExample`) are in `splitter.dfy`.

The lexicons are parameters of the splitter, not the two global arrays the source
reassigns.

An empty prefix in the result does not by itself mean that no entry matched. An entry
whose affix is the empty string matches every word, because `startsWith("")` and
`endsWith("")` hold. The scan therefore stops at such an entry: nothing is cut off on that
side, but the meaning reported is that entry's meaning. `EmptyAffixStopsScan` states this.
`EmptyMeansNoFit` proves that, for lexicons without empty affixes, an empty prefix (suffix)
means exactly that no entry fits.

The result record `Decomposition` has the seven fields of the object literal at
js/affixSplitter.js:90-98.

## Model

| member | source | states |
|---|---|---|
| AffixLexicon.SortByLength | js/affixSplitter.js:24-25 | the lexicon order, defined by stable insertion longest first; it has as many entries as the loaded list, and its content, order and stability are the lemmas below |
| AffixLexicon.SortPermutes | js/affixSplitter.js:24-25 | the sorted lexicon holds exactly the loaded entries, duplicates included (multiset equality) |
| AffixLexicon.SortedByLength | js/affixSplitter.js:24-25 | the sorted lexicon lists affixes longest first, as the comparator `b.affix.length - a.affix.length` asks |
| AffixLexicon.SortKeepsTies | js/affixSplitter.js:24-25 | stability: for every affix length, the entries of that length appear in the lexicon in their load order |
| AffixLexicon.InsertPermutes | js/affixSplitter.js:24-25 | one stable insertion adds exactly the inserted entry to the multiset of entries |
| AffixLexicon.JoinSorted | js/affixSplitter.js:24-25 | two longest-first lists, the first ending no shorter than the second starts, join into a longest-first list |
| AffixLexicon.InsertKeepsOrder | js/affixSplitter.js:24-25 | inserting into a longest-first list keeps it longest first |
| AffixLexicon.InsertKeepsTies | js/affixSplitter.js:24-25 | an insertion puts the new entry behind all earlier entries of its length and leaves the other lengths alone |
| AffixLexicon.TiesDetermineOrder | js/affixSplitter.js:24-25 | two longest-first orders that agree, length by length, on the order of their entries are the same sequence |
| AffixLexicon.StableSortIsUnique | js/affixSplitter.js:24-25 | every longest-first arrangement of the loaded entries that keeps the load order among equal lengths equals `SortByLength` of the loaded list, so any stable sort with that comparator yields the model's lexicon |
| AffixLexicon.ShiftIntoPlace | js/affixSplitter.js:24-25 | one in-place step: the entry at `i` moves left past exactly the neighbours with shorter affixes, those shift one cell right, and nothing else moves |
| AffixLexicon.InsertAt | js/affixSplitter.js:24-25 | after the step, the first `i + 1` cells are the stable insertion of the old `a[i]` into the old first `i` cells, and the cells beyond are unchanged |
| AffixLexicon.SortByDescendingLength | js/affixSplitter.js:24-25 | sorting in place leaves the array equal to `SortByLength` of its old contents |
| AffixLexicon.LoadLexicon | js/affixSplitter.js:16-25 | the lexicon is a fresh copy of the loaded array, sorted into `SortByLength` order; the loaded array is not modified |
| AffixSplitter.ToLower | js/affixSplitter.js:55 | lower-casing keeps the length and maps each character by itself, ASCII capitals to small letters |
| AffixSplitter.LowerOfUpper | js/affixSplitter.js:55 | lower-casing the upper-cased word gives the lower-cased word |
| AffixSplitter.LowerIdempotent | js/affixSplitter.js:55 | lower-casing twice is lower-casing once |
| AffixSplitter.StartsWith | js/affixSplitter.js:61 | `startsWith`, compared literally: the empty affix starts every string, and a matched affix is no longer than the string |
| AffixSplitter.EndsWith | js/affixSplitter.js:75 | `endsWith`, compared literally: the empty affix ends every string, and a matched affix is no longer than the string |
| AffixSplitter.CutFront | js/affixSplitter.js:69 | a matched prefix followed by `word.slice(prefix.length)` gives back the word |
| AffixSplitter.CutBack | js/affixSplitter.js:83-85 | the slice in front of a matched suffix, followed by the suffix, gives back the string |
| AffixSplitter.AffixFitsItsWord | js/affixSplitter.js:61-75 | the converse: an affix starts any string that begins with it and ends any string that finishes with it |
| AffixSplitter.FirstFit | js/affixSplitter.js:60-65 | the scan stops at the first entry whose affix fits, with no earlier entry fitting; it stops at the end of the lexicon when nothing fits |
| AffixSplitter.FirstFitUnique | js/affixSplitter.js:60-65 | a scan has exactly one resting place |
| AffixSplitter.Scan | js/affixSplitter.js:58-66 | a found entry belongs to the lexicon and fits; nothing is found if and only if no entry fits |
| AffixSplitter.ScanOne | js/affixSplitter.js:60-65 | a one-entry lexicon yields its entry exactly when the affix fits, and nothing otherwise |
| AffixSplitter.AfterPrefix | js/affixSplitter.js:69 | the found prefix followed by what is left gives back the word |
| AffixSplitter.BeforeSuffix | js/affixSplitter.js:83-85 | the root followed by the found suffix gives back what the prefix left over |
| AffixSplitter.Decomposition | js/affixSplitter.js:90-98 | the result record: the seven fields of the returned object literal, all strings |
| AffixSplitter.Split | js/affixSplitter.js:54-99 | `original` is the input unchanged; `prefix + root + suffix` is the lower-cased word, so `root` has the remaining length and may be empty; `unmatched` equals `root` |
| AffixSplitter.PrefixIsFirstFit | js/affixSplitter.js:58-66 | prefix and prefixMeaning come from the first entry, in stored order, that starts the lower-cased word, with no earlier entry starting it |
| AffixSplitter.SuffixIsFirstFit | js/affixSplitter.js:69-80 | suffix and suffixMeaning come from the first entry, in stored order, that ends the word with its prefix cut off, not the whole word |
| AffixSplitter.NoPrefixFit | js/affixSplitter.js:58-69 | when no prefix entry starts the word, prefix and prefixMeaning are both empty and root plus suffix is the whole lower-cased word |
| AffixSplitter.NoSuffixFit | js/affixSplitter.js:72-85 | when no suffix entry ends what the prefix leaves, suffix and suffixMeaning are both empty and prefix plus root is the whole lower-cased word |
| AffixSplitter.EmptyMeansNoFit | js/affixSplitter.js:58-80 | for lexicons without empty affixes: the prefix (suffix) is empty if and only if no entry fits, both directions |
| AffixSplitter.EmptyAffixStopsScan | js/affixSplitter.js:61-69 | an entry with the empty affix stops the scan: the prefix is empty but the meaning is that entry's |
| AffixSplitter.EmptyLexicons | js/affixSplitter.js:54-99 | with empty lexicons, both affixes and meanings are empty and root and unmatched are the lower-cased word |
| AffixSplitter.SplitIgnoresCase | js/affixSplitter.js:54-55 | two words with the same lower-cased form split identically, except for `original` |
| AffixSplitter.SplitOfUpperCase | js/affixSplitter.js:54-55 | splitting the upper-cased word gives the same segments and glosses, and `original` keeps the literal input |
| AffixSplitter.RedExample | js/affixSplitter.js:69-85 | "red" with prefix "re" and suffix "ed" keeps the root "d": the suffix is looked for after the prefix is cut |
| AffixSplitter.UnableExample | js/affixSplitter.js:83-88 | "unable" with prefix "un" and suffix "able" leaves an empty root, and unmatched is empty as well |
| AffixSplitter.ScanPrefixes | js/affixSplitter.js:58-66 | the prefix loop with `break` returns the affix and gloss of the first entry, in stored order, that starts the word, or two empty strings when none does |
| AffixSplitter.ScanSuffixes | js/affixSplitter.js:72-80 | the suffix loop with `break` returns the affix and gloss of the first entry, in stored order, that ends what the prefix left, or two empty strings when none does |
| AffixSplitter.SplitAffixes | js/affixSplitter.js:54-99 | lower-casing, the two scanning loops, the truthiness tests on the matched affixes and the record construction return exactly `Split` of the word and the two lexicons |
| LongestMatch.LongestFit | js/affixSplitter.js:57-66 | reference definition: the position, in load order, of the fitting entry with the longest affix, the earliest among equally long ones, or the end when none fits |
| LongestMatch.ScanInsert | js/affixSplitter.js:24-25 | scanning a longest-first list after a stable insertion equals scanning it first and then weighing the inserted entry against the result |
| LongestMatch.SortedScanIsLongest | js/affixSplitter.js:24-25 | a first-fit scan of `SortByLength(loaded)` stops at the longest fitting entry of `loaded`, the earliest loaded among equally long ones |
| LongestMatch.EarlierTieWins | js/affixSplitter.js:24-25 | of two equally long fitting affixes, the one loaded later is never the longest fit |
| LongestMatch.ScanOfSortedIsLongest | js/affixSplitter.js:60-65 | over a longest-first lexicon, no fitting entry is longer than the one the scan stops at |
| LongestMatch.SplitTakesLongest | js/affixSplitter.js:57-80 | with sorted lexicons, no prefix entry longer than the result's prefix starts the word, and no suffix entry longer than the result's suffix ends what the prefix leaves |
| LongestMatch.SplitOfLoadedLexicons | js/affixSplitter.js:24-80 | end to end: over lexicons built from loaded lists, the prefix and suffix with their meanings are the longest fits over the load order, ties going to the entry loaded first |
| LongestMatch.SortTwo | js/affixSplitter.js:24-25 | of two loaded entries, in either order, the one with the strictly longer affix comes first in the lexicon; equally long affixes keep their load order |
| LongestMatch.UndercutExample | js/affixSplitter.js:57-66 | with "un" loaded before "under", "undercut" loses the prefix "under" |
| LongestMatch.UnsortedUndercutExample | js/affixSplitter.js:58-66 | over the unsorted list, where "un" comes before "under", the scan stops at "un": the longest match relies on the sort |

## Left out

- Loading the lists with `fetch`, parsing the JSON, the `try`/`catch` and the `console.error` (js/affixSplitter.js:11-22, 26-28) are network and parsing I/O. The model starts from the loaded arrays.
- `DOMContentLoaded` wiring and `onFormSubmit` with its `trim` and empty check (js/affixSplitter.js:31-49) are event handling and DOM reads.
- `renderResult` (js/affixSplitter.js:104-184) builds HTML for display only.
- The global `PREFIXES` / `SUFFIXES` arrays and their reassignment (js/affixSplitter.js:4-5, 16, 21) are not modelled. The lexicons are passed to the splitter as arguments.
- A partly failed load is not modelled as a state. `PREFIXES` receives its unsorted copy at js/affixSplitter.js:16, before the suffix list is fetched at js/affixSplitter.js:19-21. If that fetch or `suffixData.suffixes` fails, the `catch` at js/affixSplitter.js:26-28 skips both sorts at js/affixSplitter.js:24-25, and the submit handler is still attached at js/affixSplitter.js:32-34. Prefixes are then matched first in load order, not longest first. `SortedScanIsLongest` and `SplitOfLoadedLexicons` do not describe that case. `Split` with the unsorted list does, and `UnsortedUndercutExample` shows the difference.
- AffixSplitter.ToLower: maps only the ASCII capitals `A`-`Z`, because full Unicode case mapping (locale-independent special cases, characters whose lower-case form is longer) belongs to the JavaScript engine. `LowerOfUpper` and `SplitOfUpperCase` hold only under this ASCII mapping. Under JavaScript's full mapping, "ß".toUpperCase() is "SS", so `splitAffixes("STRASSE")` and `splitAffixes("straße")` split different lower-cased words.
- Strings are sequences of Dafny `char`. JavaScript strings are UTF-16 code units, so affix lengths of characters outside the Basic Multilingual Plane are not modelled.
- AffixLexicon.SortByDescendingLength: an insertion sort stands in for the engine's own algorithm behind `Array.prototype.sort`. The algorithm is not observable, because `StableSortIsUnique` shows that every stable sort with the same comparator produces the same lexicon.
- AffixSplitter.EmptyMeansNoFit: proved only for lexicons without empty affixes, because the code lets an empty affix match every word (see `EmptyAffixStopsScan`).
