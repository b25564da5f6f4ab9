# anagram: histograms, the word list and the search

A model of the core of `anagram`. The program prints every way to write an
input phrase as a sequence of dictionary words.

The phrase is first reduced to a character histogram. A histogram holds two
parallel arrays: `bins` has the distinct characters in ascending order and
`freq` has their counts. It also caches `len`, `maxfreq` and `ntotal`.

Each dictionary line that could be part of an anagram goes on a word list,
together with its own histogram. `words_find` then searches depth first:

- it tries every listed word that still fits the remaining letters;
- it subtracts that word's histogram from a copy of the remaining letters;
- it prints a line when nothing is left;
- otherwise it recurses on the copy.

The modules follow the program:

- `HistogramSpec` is the histogram value (`HistView`) and its algebra:
  - `Tally` is the reference histogram of a string;
  - `Fits` is the test of `histogram_fits`;
  - `Subtracted` is the result of a successful `histogram_subtract`.
- `SubtractSpec` is the merge walk of `histogram_subtract` as a function
  (`Walk`, `Subtraction`), with what its outcome means.
- `Histograms` is the `Histogram` class. It has array fields, and its methods
  `Create`, `Copy`, `FindCharacter`, `Fits`, `FitsMerge` and `Subtract`
  update it in place.
- `Words` covers `word_add` and the per-line rule of `parse_dictfile`. It
  holds the `WordStore` class, which is the global list from `word_head` to
  `word_tail`.
- `SearchSpec` is `words_find` as functions (`Find`, `Scan`), with its
  soundness proof.
- `Search` is `words_find` as a recursive method over a `WordStore` and
  fresh histogram copies, plus the part of `main` that decides whether to
  search.
- `Input` covers `input_from_args`, the compaction in `input_from_stdin`,
  `input_get`, and `get_instr_from_args` of `anagram.c`.
- `Examples` states the assertions of `test/test.c` as lemmas.
- `Exhaustive` holds corrected versions of the subtraction and of the
  search. It proves that the corrected search is exact, and it gives the
  two inputs on which the code as written loses lines.

The repository has two versions of several functions:

- `histogram_create`, `histogram_copy` and `histogram_subtract` are the same
  in `histogram.c` and `src/histogram.c`, so they are modelled once.
- The two `histogram_fits` are `Histogram.Fits` (`src/histogram.c`) and
  `Histogram.FitsMerge` (`histogram.c`). Both are proved equal to the same
  `Fits`, so they agree.
- `word_add`, `parse_dictfile`'s line rule and `words_find` are the same in
  `src/main.c` and `anagram.c` up to parameter passing. In `anagram.c` the
  required length is `anagram_contains_len` and the minimum is `minlen`.

The model follows the code where the code departs from what its comments
promise: src/main.c:1 says the program finds the anagrams of the input text,
and src/main.c:130 that the search loops over all words. There are three such
places:

- **Early return.** When a word exhausts the letters, `words_find` returns
  (src/main.c:163-164, anagram.c:163-164). It does not go on with the later
  words of the list. `SearchSpec.Scan` returns there too.
- **Print order.** A printed line is the last-chosen word, then the
  breadcrumbs from newest to oldest (src/main.c:153-161). That is the reverse
  of selection order, and the model's lines are in this order.
- **`maxfreq` after a subtraction.** `histogram_subtract` recomputes
  `maxfreq` only over the slots its walk visits. `Subtracted` and `Walk`
  keep that behaviour.

"## Findings" shows, on two small inputs, the lines that the first and the third of these lose.

## Model

| member | source | states |
|---|---|---|
| HistogramSpec.SortChars | src/histogram.c:54-55 | the qsort result is sorted, a permutation of the input, of the same length |
| HistogramSpec.TallyFacts | src/histogram.c:48-76 | the histogram of a string is canonical:<br>• strictly ascending bins<br>• every count positive and equal to the number of occurrences of its bin<br>• `ntotal` is the string length and equals the sum of the counts<br>• `maxfreq` is the largest count, 0 when empty<br>• the bins are exactly the characters of the string<br>• its multiset is the string's |
| HistogramSpec.TallyCard | src/histogram.c:64-72 | `len` is the number of distinct characters of the string |
| HistogramSpec.TallyBag | src/histogram.c:64-72 | the slots of the histogram hold exactly the multiset of the string |
| HistogramSpec.Unique | src/histogram.c:61-76 | two canonical histograms with the same multiset are equal, so the run-length encoding has only one possible result |
| HistogramSpec.ContainedSound | src/histogram.c:159-173 | passing the slot loop of histogram_fits implies multiset inclusion |
| HistogramSpec.ContainedComplete | src/histogram.c:159-173 | for a histogram with no zero slots, multiset inclusion implies passing the slot loop |
| HistogramSpec.CheapChecksNecessary | src/histogram.c:147-157 | the `len` and `maxfreq` rejections never reject a contained histogram when the base's `maxfreq` is exact |
| HistogramSpec.FitsIffSubBag | src/histogram.c:144-176 | against a base with exact `maxfreq`, fits holds exactly when the multiset is included (both directions) |
| HistogramSpec.TallyFits | src/histogram.h:28-31 | a word's histogram fits an input's exactly when the input holds the word's letters; fitting implies the `maxfreq` order |
| HistogramSpec.NoUnderflow | src/histogram.h:28-31 | a contained histogram's count of each target character is at most the target's slot count, so subtracting it cannot underflow |
| HistogramSpec.SubtractedFacts | src/histogram.c:189-221 | a successful subtraction:<br>• keeps the bins<br>• lowers each slot by the subtrahend's count of its character<br>• takes exactly the subtrahend's multiset away<br>• lowers `ntotal` by the subtrahend's `ntotal`<br>• leaves a valid histogram (zero slots allowed, `maxfreq` never over-reported) |
| SubtractSpec.SubtractionMeaning | src/histogram.c:178-222 | the walk of histogram_subtract succeeds exactly when the subtrahend is contained in the target. On success the result is `Subtracted`. Wherever it stops:<br>• the result is valid<br>• the slots already decremented stay decremented<br>• `maxfreq` is the largest visited count |
| SubtractSpec.WalkMeaning | src/histogram.c:191-220 | from any state of the loop the walk ends in the outcome that state promises (the induction over both cursors) |
| SubtractSpec.RanOff | src/histogram.c:195-201 | the target cursor running off the end means the character is missing, and the subtraction fails |
| SubtractSpec.Mismatched | src/histogram.c:204-214 | stopping on a larger bin, or on the bin with too small a count, means the subtrahend is not contained, and the subtraction fails |
| SubtractSpec.Matched | src/histogram.c:211-219 | a matched slot without underflow is lowered by the subtrahend's count and `ntotal` by the same amount; the walk invariant is kept |
| SubtractSpec.DecrementStep | src/histogram.c:215-216 | decrementing the matched slot takes one more subtrahend slot's characters away from the multiset and from the sum |
| Histograms.Histogram.Create | src/histogram.c:29-91 | the new histogram is valid and equals `Tally` of the string (same code in histogram.c:25-87) |
| Histograms.EncodeRuns | src/histogram.c:61-76 | the run-length loop leaves one strictly ascending slot per run of the sorted buffer, with the run lengths as counts, their multiset that of the buffer, and `maxfreq` the largest count |
| Histograms.EncodeRun | src/histogram.c:64-75 | one outer turn writes the run's character and length at the write cursor and folds the length into `maxfreq` |
| Histograms.RunEnd | src/histogram.c:67-70 | the inner loop stops at the end of the run: every character before the cursor equals the run's, the one at the cursor does not |
| Histograms.RunsTally | src/histogram.c:57-76 | runs covering the whole sorted string are `Tally` of the string |
| Histograms.Histogram.Copy | src/histogram.c:93-115 | the copy has fresh arrays and the same slots, `len`, `maxfreq` and `ntotal` (same code in histogram.c:89-111) |
| Histograms.Histogram.FindCharacter | src/histogram.c:129-142 | the result is a slot holding the character; none exactly when the character is not among the bins |
| Histograms.Histogram.Fits | src/histogram.c:144-176 | the result equals `Fits` of the two histograms |
| Histograms.Histogram.FitsMerge | histogram.c:125-160 | the merge-cursor version returns the same `Fits`, so the two versions of histogram_fits agree |
| Histograms.Histogram.Seek | histogram.c:143-153 | the base cursor moves only forward past smaller bins; found exactly when it then stands on the character |
| Histograms.Histogram.Subtract | src/histogram.c:178-222 | the new state is the walk `Subtraction`:<br>• bins and `len` unchanged<br>• the result is valid<br>• it succeeds exactly when `from` is contained<br>• on success it is `Subtracted`<br>(same code in histogram.c:162-206) |
| Histograms.Histogram.Locate | src/histogram.c:194-203 | the inner loop passes only bins smaller than the character and raises `maxfreq` to the largest count it passes; it fails when it runs off the end, and otherwise keeps the walk invariant: the rest of the walk ends where the old state's did |
| Histograms.Histogram.TakeAway | src/histogram.c:211-219 | the matched slot and `ntotal` drop by the subtrahend's count, the other slots are unchanged, and `maxfreq` is raised to the new count if that is larger; `ntotal` stays the sum of the counts, and the rest of the walk ends where the old state's did |
| Words.AcceptedIff | src/main.c:69-88 | word_add's tests accept exactly the non-empty words whose letters the input holds; the length and `maxfreq` tests never reject a word `Fits` accepts |
| Words.Admit | src/main.c:69-88 | a histogram is returned exactly when the word passes word_add's tests, and it is `Tally` of the word |
| Words.WordStore.constructor | src/main.c:41-42 | the list starts empty |
| Words.WordStore.Add | src/main.c:63-114 | word_add appends the word at the tail exactly when it is accepted, and leaves the list alone otherwise (same code in anagram.c:64-115) |
| Words.WordStore.Push | src/main.c:101-108 | the new word goes at the tail, and the earlier words keep their order |
| Words.Measure | src/main.c:222-239 | `skip_word` is set exactly when some character is not among the input's bins; otherwise `len` is the line length |
| Words.AddLine | src/main.c:240-250 | a line is added exactly when it passes the bins test, the `minlength` test and word_add |
| Words.LineAcceptedIff | src/main.c:229-241 | against the input's histogram, a line is accepted exactly when it is non-empty, at least `minlength` long and made of the input's letters |
| Words.ParseDictfile | src/main.c:205-259 | the list grows by the accepted lines in file order, `nwords` is their number and `max_found_len` their greatest length (same rule in anagram.c:278-332) |
| Words.DictSound | src/main.c:222-251 | every kept word is a dictionary line, non-empty, at least `minlength` long, made of the input's letters, and no longer than `max_found_len` |
| SearchSpec.Chosen | src/main.c:133-147 | a word that passes both skip tests is subtracted from the copy without failure; the copy keeps the other letters and has strictly fewer of them (the termination measure) |
| SearchSpec.ScanSkip | src/main.c:133-140 | a word that is too long or does not fit prints nothing, and the loop goes on (one branch of `Scan`, unfolded for the loop proof of `Search.Try`) |
| SearchSpec.ScanDone | src/main.c:148-165 | on exhaustion the one line is the word then the breadcrumbs, printed only if the length requirement is met, and the call returns without trying later words (one branch of `Scan`, unfolded for the loop proof of `Search.Try`) |
| SearchSpec.ScanDeeper | src/main.c:166-178 | otherwise the lines are those of the recursive call on the copy, with the word pushed on the breadcrumbs, followed by those of the later words (one branch of `Scan`, unfolded for the loop proof of `Search.Try`) |
| SearchSpec.Exhausted | src/main.c:149-161 | a line printed on exhaustion completes its branch |
| SearchSpec.Extended | src/main.c:168-177 | a line that completes the branch below a chosen word completes the current branch |
| SearchSpec.FindSound | src/main.c:116-180 | every line words_find prints ends in the breadcrumbs. Its words in front of them:<br>• are listed words<br>• have exactly the remaining letters<br>• include one long enough, unless the branch was already satisfied |
| SearchSpec.ScanSound | src/main.c:130-179 | every line of the loop from any word on completes the branch |
| SearchSpec.PruneHarmless | src/main.c:124-129 | the pruning test only cuts branches that would print nothing |
| SearchSpec.TooShort | src/main.c:124-129 | with fewer letters left than the required length, no line completes an unsatisfied branch |
| Search.WordsFind | src/main.c:116-180 | the lines printed are `Find` of the list and the histogram's value, and the histogram is not modified (same code in anagram.c:117-179) |
| Search.TryAll | src/main.c:130-179 | the loop over the list prints `Scan` from the first word, stopping where the call returns |
| Search.Try | src/main.c:133-178 | one turn of the loop prints the `Scan` lines of its word and says whether the call returns |
| Search.Branch | src/main.c:141-147 | the copy is fresh and holds the result of the subtraction from `h`, with strictly fewer letters; `h` is left as it was |
| Search.Run | src/main.c:286-304 | main's output is `Anagrams`: the search over the kept words, run only when some word was kept and `max_found_len` reaches haslength (same in anagram.c:390-405) |
| Search.GateHarmless | src/main.c:300-304 | the gate in main only skips searches that would print nothing |
| Search.RunSound | src/main.c:149-161 | every printed line is an anagram of the input: its letters are exactly the input's, every word is a dictionary line of at least `minlength`, and some word reaches haslength |
| Search.LineSound | src/main.c:240-245 | each line's words are kept words, no longer than `max_found_len`, besides what `RunSound` states |
| Input.SqueezeMembers | src/input.c:47-51 | a character is kept exactly when it occurs in the string and is not whitespace |
| Input.SqueezeAppend | src/input.c:99-105 | dropping whitespace word by word gives the same string as dropping it from the concatenation |
| Input.SqueezeIdempotent | src/input.c:47-51 | dropping whitespace twice is dropping it once |
| Input.CountKept | src/input.c:79-86 | the counting loop counts exactly the characters that are not whitespace, across all words |
| Input.CountWord | src/input.c:81-85 | the inner counting loop over one word counts its characters that are not whitespace |
| Input.CopyKept | src/input.c:98-105 | the copying loop fills the fresh buffer with exactly those characters, in order |
| Input.CopyWord | src/input.c:100-104 | the inner copying loop appends one word's non-whitespace characters at the cursor and keeps what is before it |
| Input.InputFromArgs | src/input.c:65-108 | false with a NULL string and length 0 when no word is given or all is whitespace; otherwise the in-order concatenation without whitespace and its length |
| Input.GetInstrFromArgs | anagram.c:195-230 | NULL when no argument is left or all of them are whitespace (`*inlen` untouched); otherwise the concatenation without whitespace with `*inlen` its length |
| Input.Received | src/input.c:21-44 | the read loop keeps a prefix of what standard input delivers: all of it when there are at most STDIN_SIZE = 100 characters, and exactly 100 otherwise |
| Input.Compact | src/input.c:46-51 | the in-place compaction leaves the non-whitespace characters of the first `len`, in order, at the front, and touches nothing past `len` |
| Input.InputFromStdin | src/input.c:12-63 | false (string NULL) exactly when nothing non-blank was received; otherwise at most STDIN_SIZE kept characters followed by a NUL inside the buffer, which has STDIN_SIZE + 1 bytes: the correction of the NUL finding below |
| Input.TerminatorOverrun | src/input.c:60 | with 100 letters on standard input the code writes the NUL at index 100 of a 100-byte buffer |
| Input.TerminatorFitsCorrected | src/input.c:22 | with room for STDIN_SIZE + 1 characters the NUL always fits |
| Input.InputGet | src/input.c:110-124 | the command-line words are used when they hold a non-blank character; only otherwise standard input |
| Examples.CreateExamples | test/test.c:11-40 | `len`, `maxfreq` and `ntotal` of the histograms of "abc", "aaa", "a", "", "abcabc" and "abcabcabc" are those the test expects |
| Examples.FitsReflexive | test/test.c:42-48 | every valid histogram fits itself |
| Examples.EmptyFitsAll | test/test.c:62-68 | the histogram of the empty string fits every histogram |
| Examples.FitsA | test/test.c:56-60 | "a" fits "abc", "aaa", "abcabc" and "abcabcabc" |
| Examples.FitsAbc | test/test.c:50-72 | "abc" does not fit "aaa"; it fits "abcabc" and "abcabcabc"; "abcabc" does not fit "abc" |
| Examples.FitsAbc2 | test/test.c:74-76 | "abcabc" fits "abcabcabc", not the reverse |
| Examples.WholeWalk | src/histogram.c:189-219 | when the subtrahend's last bin is the target's last bin, the cached `maxfreq` is exact |
| Examples.SubtractExamples | test/test.c:78-91 | "abc" from "abcabcabc" gives 3 slots, `maxfreq` 2, `ntotal` 6; then "abcabc" from that gives 3 zero slots and `ntotal` 0 |
| Exhaustive.ExactFacts | src/histogram.c:189-221 | the corrected subtraction has the code's counts and total, an exact `maxfreq`, and a `maxfreq` never below the code's |
| Exhaustive.FitsAfterExact | src/histogram.c:144-176 | after the corrected subtraction, fits is again exactly multiset inclusion in what is left |
| Exhaustive.FindAllSound | src/main.c:116-180 | every line of the corrected search completes its branch |
| Exhaustive.FindAllComplete | src/main.c:116-180 | every line that completes the branch is printed by the corrected search |
| Exhaustive.FindAllExact | src/main.c:116-180 | the corrected search prints exactly the lines that complete the branch (both directions) |
| Exhaustive.EarlyReturnLosesLines | src/main.c:163-164 | with the list "ab", "a", "b", input "ab" and the default haslength 1, the code prints only "ab"; the corrected search also prints "a b". Only the return loses that line: along "b" then "a" the code's own subtraction keeps `maxfreq` at 1, so both words fit and the letters run out |
| Exhaustive.UnderReported | src/histogram.c:189-203 | taking "a" from the histogram of "abbb" leaves the three b's with `maxfreq` 0, so "bbb" no longer fits; after the corrected subtraction it does |
| Exhaustive.MaxfreqLosesLine | src/histogram.c:189-221 | with the list "a", "bbb", input "abbb" and the default haslength 1, the code prints only "a bbb"; the corrected search also prints "bbb a" |

## Left out

- File and stream I/O:
  - the chunked `fread` window of `parse_dictfile`, with its remainder carry-over (src/main.c:216-258, anagram.c:289-331);
  - the `read` loop on standard input with its EINTR retries (src/input.c:26-44).

  The dictionary is a given sequence of lines without newlines. What standard input delivers is a given sequence; `Received` keeps its first 100 characters.
- `get_instr_from_stdin` of anagram.c (anagram.c:232-267) is not part of this model. `input_from_stdin` of src/input.c replaces it.
- Command-line parsing (src/args.c, anagram.c:347-382) and `usage` are not modelled. The defaults minlength = haslength = 1 of src/config.c:7-8 are plain parameters of `Search.Run`.
- Memory management is not modelled:
  - `malloc`, the `realloc` trimming (src/histogram.c:77-85), `histogram_destroy` and `words_destroy`;
  - the allocation-failure branches, including the early returns of `words_find` when `histogram_copy` fails. Allocation always succeeds.
- Output formatting (`fwrite`, `printf`, separators) is not modelled. The output is the sequence of printed lines, each a sequence of words.
- `qsort` is specified by its result only (`SortChars`: sorted and a permutation). `bsearch` is specified as membership in the bins (`Words.InBins`). `Histograms.Histogram.Create` copies the `SortChars` result into its bins buffer.
- Integer widths and `char` signedness are not modelled. Counts are `nat` and characters are Dafny `char`, ordered by code point. `size_t`/`int` overflow is not modelled: every count and total is at most the input's length, standard input is cut at 100 characters (src/input.c:10, 26), and command-line input (src/input.c:79-96) is bounded only by the operating system's argument space, far below `INT_MAX`.
- Histograms.Histogram.Subtract: requires `freq != from.freq`. No caller in the source passes a histogram's own arrays as both operands, and with aliasing `ntotal` would no longer be the sum of the counts.
- Words.WordStore.Add: the list's `next` pointers are a Dafny sequence of words, so the model does not capture pointer aliasing between list nodes.
- Search.WordsFind: the breadcrumb chain on the stack (`struct prev_word`) is a sequence passed by value, newest first.

## Findings

| source | as written | input that shows it | evidently intended | confidence | as-written member | corrected member |
|---|---|---|---|---|---|---|
| src/histogram.c:189-203 | `maxfreq` is reset to 0 and recomputed only over the target slots up to the one matched by `from`'s last bin, so it can fall below the largest count. histogram_fits then rejects words whose letters are all still there, and words_find loses lines | word list "a", "bbb", input "abbb": after "a" the histogram holds three b's with `maxfreq` 0, so "bbb a" is never printed | `maxfreq` is the largest remaining count, so the search prints every anagram | not executed | Exhaustive.MaxfreqLosesLine | Exhaustive.FindAllExact |
| src/main.c:163-164 | after a word exhausts the letters, words_find returns and never tries the later words of the list at that level | word list "ab", "a", "b", input "ab": only "ab" is printed, not "a b" (picking "b" and then "a", which the code's own subtraction allows) | go on with the later words (the loop would `continue`) | not executed | Exhaustive.EarlyReturnLosesLines | Exhaustive.FindAllExact |
| src/input.c:60 | the NUL is written at index `t - input->str`, which is 100 when all 100 bytes read are kept, one past the 100-byte buffer | 100 non-blank characters on standard input | allocate STDIN_SIZE + 1 bytes | not executed | Input.TerminatorOverrun | Input.InputFromStdin |
