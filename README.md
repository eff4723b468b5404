# Extractive summarisers, modelled in Dafny

This project models the two extractive summarisers of the repository and
proves properties of them.

- The **text summariser** is `app/utils/models/textsum_client.py`, modelled in
  module `TextSum`. It has these stages:
  - an empty-input guard;
  - a cleaner: collapse whitespace, then delete characters outside an
    allow-list;
  - a length parser: a length name, else the `N words` phrase, else the first
    number, else 200;
  - a sentence splitter on runs of `.`, `!` and `?`;
  - a word-frequency scorer with a position bonus and a short-sentence penalty;
  - top-`k` selection by a stable descending sort;
  - re-emission of the selected sentence texts in document order.
- The **transcript summariser** is `app/utils/models/youtube_client.py`,
  modelled in module `YouTube`. It has these parts:
  - the video-id extractor: two URL patterns, each written as a scanner;
  - its own length parser, which does not strip its input and has no
    `N words` rule;
  - a splitter on the literal `". "`;
  - an even-spacing sampler;
  - the entry point and its invalid-URL guard.

Shared modules:

- `PyStr` models the Python string operations the two files use, on ASCII:
  `strip`, `lower`, `split()`, `join`, and the first `\d+` run.
- `Sizing` holds two things both files compute:
  - the length names;
  - the sentence budget `k = max(1, floor(target * n / W))`.
- `ParserContrast` states where the two length parsers agree and where they
  differ.
- `Wrappers` holds `Option`.

Integer modelling choices:

- **Scores are scaled by ten so they are integers.** A sentence whose tokens
  have frequency sum `f` scores:
  - `10f` normally;
  - `12f` when it is the first or last sentence;
  - `7f` when it has fewer than five tokens;
  - `9f` when both apply.

  The integer scores are exact. Python's float products can round, so their
  ties are not always the ties of the exact scores (see "## Left out").
- **The sentence budget is exact.** The floating-point quotient
  `target / (W / n)` becomes the exact `floor(target * n / W)`.
- **The default length is modelled.** Both entry points take
  `summary_length="medium"` when the caller gives none. The Dafny entry points
  have the same default parameter.

The stable sort of `(sentence, score)` pairs is modelled as follows:

- It is an in-place insertion sort on an array of sentence indices.
- The sorted list is characterised by `Outranks`: a higher score comes first,
  and an equal score with an earlier position comes first.
- A stable sort has exactly one correct output, so this sort produces the same
  list as Python's.

Choices about the source:

- **Re-emission by text, as in the source.** Re-emission tests
  `sentence in selected` on the sentence text, so every copy of a selected
  text is emitted. The model does the same. When no sentence text repeats,
  exactly `k` sentences are emitted (`ExactlyKWithoutDuplicates`). A chosen
  text that occurs more than once is emitted once per copy.
- **The parsed length can be 0.** A target word count reads as a positive
  number, but both parsers return 0 for `"0 words"` or `"0"`. The model
  follows the code and returns a `nat` (`TextSum.ZeroWords`).
- **The transcript sampler never indexes out of range.** The sampling
  arithmetic has no bounds check and looks as if it could index past the end.
  It cannot:
  - on the sampling path the budget is below the number of fragments
    (`YouTube.SamplingBranchTaken`);
  - every index `i * (n // k)` with `i < k` is then below `n`
    (`YouTube.SampleIndices`, `YouTube.SampleInBounds`).

  So the model has no error path for it.

## Model

All source paths are under `app/utils/models/`.

| member | source | states |
|---|---|---|
| TextSum.SummarizeTextContent | app/utils/models/textsum_client.py:1-26 | empty or whitespace-only input gives exactly "Error: No text content provided"; other input gives the summary of the cleaned text at the parsed length |
| TextSum.CollapseSpaces | app/utils/models/textsum_client.py:36 | `re.sub(r'\s+', ' ', ·)` is no longer than its input and keeps a leading non-space character |
| TextSum.CollapseShape | app/utils/models/textsum_client.py:36 | after the substitution the only whitespace left is ' ', and no two whitespace characters are adjacent |
| TextSum.CollapseConcat | app/utils/models/textsum_client.py:36 | two strings that do not meet inside a whitespace run are substituted separately: the result on `a + b` is the result on `a` followed by the result on `b` |
| TextSum.CollapseBlank | app/utils/models/textsum_client.py:36 | a nonempty whitespace run becomes exactly one ' '; with CollapseConcat this fixes the result on every input |
| TextSum.CollapseSingleSpaces | app/utils/models/textsum_client.py:36 | text whose only whitespace is single spaces is left unchanged |
| TextSum.Clean | app/utils/models/textsum_client.py:31-41 | the cleaned text is no longer than the input; every character is a word character, a space or one of `.,!?;:-()`; every whitespace character is ' ', so no tab or newline is left |
| TextSum.CleanKeepsVisible | app/utils/models/textsum_client.py:31-41 | cleaning keeps every word character and every one of `.,!?;:-()` of the input, all of them and in order, and adds none |
| TextSum.CleanKeepsWordChars | app/utils/models/textsum_client.py:36-39 | cleaning keeps every word character of the input, in order, and adds none |
| TextSum.CleanFixesNormalised | app/utils/models/textsum_client.py:36-39 | text that is allowed-only, single-spaced and stripped is left unchanged by the cleaner |
| TextSum.CleanNotIdempotent | app/utils/models/textsum_client.py:36-39 | "a @ b" cleans to "a  b", which cleans to "a b": the cleaner is not idempotent |
| TextSum.SearchWordsPattern | app/utils/models/textsum_client.py:58 | the search for `(\d+)\s*words?` returns the leftmost match position, or None when nothing matches |
| TextSum.ParseSummaryLength | app/utils/models/textsum_client.py:42-68 | on the stripped, lowercased input: "short", "medium" and "long" give 75, 200 and 400; otherwise the digit run of the leftmost `N words` match; with no such match, the first digit run; with no digit at all, 200 |
| TextSum.SpecNumber | app/utils/models/textsum_client.py:57-68 | with no length name: the leftmost `N words` match decides the number; with no such match, the first digit run; with neither, 200 |
| TextSum.LeftmostWordsMatchStartsRun | app/utils/models/textsum_client.py:58-60 | the leftmost `N words` match starts a whole digit run, so its number is never a digit suffix |
| TextSum.MediumPadded | app/utils/models/textsum_client.py:47-53 | "  Medium " parses to 200 |
| TextSum.WordsPatternWins | app/utils/models/textsum_client.py:57-60 | "3 parts, 90 words" parses to 90: the `N words` phrase beats the earlier number |
| TextSum.ZeroWords | app/utils/models/textsum_client.py:58-60 | "0 words" parses to 0 |
| TextSum.SplitOnTerminators | app/utils/models/textsum_client.py:109 | `re.split(r'[.!?]+', ·)` gives at least one piece, and no piece contains `.`, `!` or `?` |
| TextSum.SplitConcat | app/utils/models/textsum_client.py:109 | text on either side of a maximal run of terminators splits apart: the pieces of `a + t + b` are the pieces of `a` followed by the pieces of `b` |
| TextSum.SplitRun | app/utils/models/textsum_client.py:109 | a maximal run of terminators at the front gives an empty first piece |
| TextSum.SplitFree | app/utils/models/textsum_client.py:109 | text with no terminator is a single piece, itself; with SplitConcat this fixes the pieces on every input |
| TextSum.SplitJoinDot | app/utils/models/textsum_client.py:109 | pieces with no terminator, nonempty except perhaps the first and last, joined with "." split back into the same pieces |
| TextSum.SplitOnTerminatorsKeeps | app/utils/models/textsum_client.py:109 | the pieces, concatenated in order, are the input with exactly the terminators removed |
| TextSum.StripNonBlankTrimmed | app/utils/models/textsum_client.py:110 | every piece kept by `[s.strip() for s in sentences if s.strip()]` is nonempty, with no whitespace at either end |
| TextSum.StripNonBlankFree | app/utils/models/textsum_client.py:110 | when no fragment contains `.`, `!` or `?`, no kept piece does either |
| TextSum.StripNonBlank | app/utils/models/textsum_client.py:110 | `[s.strip() for s in sentences if s.strip()]` keeps at most one string per fragment; with StripNonBlankConcat and StripNonBlankOne its result is fixed on every input: each fragment contributes its strip when that is nonempty, in order |
| TextSum.StripNonBlankConcat | app/utils/models/textsum_client.py:110 | the comprehension works piece by piece: on `x + y` it gives its result on `x` followed by its result on `y` |
| TextSum.StripNonBlankOne | app/utils/models/textsum_client.py:110 | one piece is kept, stripped, exactly when its strip is nonempty |
| TextSum.StripNonBlankKeeps | app/utils/models/textsum_client.py:110 | stripping the pieces and dropping the blank ones keeps every non-whitespace character, in order |
| TextSum.SplitSentences | app/utils/models/textsum_client.py:104-112 | every sentence is nonempty, trimmed at both ends, and free of `.`, `!` and `?` |
| TextSum.SplitSentencesConcat | app/utils/models/textsum_client.py:104-112 | text on either side of a maximal run of terminators gives its sentences separately, in order |
| TextSum.SplitSentencesFree | app/utils/models/textsum_client.py:104-112 | text with no terminator is one sentence, stripped, or none when it is blank |
| TextSum.SplitSentencesKeepsContent | app/utils/models/textsum_client.py:104-112 | the sentences hold every non-space, non-terminator character of the text, in source order, and nothing else |
| TextSum.TallyKeys | app/utils/models/textsum_client.py:119 | only lowercase keys longer than three characters are ever counted |
| TextSum.Tokens | app/utils/models/textsum_client.py:123 | every token of `sentence.lower().split()` is nonempty with no whitespace in it, and the tokens together are the non-space characters of the lowercased sentence, in order |
| TextSum.CountWords | app/utils/models/textsum_client.py:119 | the `Counter` holds exactly the keys with a positive count, each with the number of words longer than three characters that lowercase to it |
| TextSum.LookupSumIsFreq | app/utils/models/textsum_client.py:126 | summing `word_freq.get(token, 0)` over a sentence's tokens gives the sum of their counts |
| TextSum.ScoreSentences | app/utils/models/textsum_client.py:114-141 | exactly one score per sentence, in order; each is the frequency sum times 10, 12 (first or last), 7 (fewer than five tokens) or 9 (both) |
| TextSum.ScoreZeroIff | app/utils/models/textsum_client.py:126-138 | a score is never negative, and it is 0 exactly when none of the sentence's tokens is in the table |
| TextSum.StableSortByScore | app/utils/models/textsum_client.py:89-90 | the sorted list holds every sentence exactly once (a permutation of the positions); every entry outranks all later ones: a higher score, or an equal score and an earlier position |
| TextSum.InsertAt | app/utils/models/textsum_client.py:90 | one insertion step keeps the entries as a permutation and extends the sorted prefix by one |
| TextSum.Swap | app/utils/models/textsum_client.py:90 | exchanges two adjacent entries and keeps the multiset |
| TextSum.Texts | app/utils/models/textsum_client.py:92 | one text per chosen position, in the chosen order: the text of the sentence at that position |
| TextSum.TopKOfSorted | app/utils/models/textsum_client.py:92 | the first `k` entries of the sorted list are `k` distinct sentences, each outranking every sentence left out |
| TextSum.EmittedPositionsFacts | app/utils/models/textsum_client.py:95-98 | re-emitted sentences sit at strictly increasing positions; a position is emitted exactly when its text is among the selected texts |
| TextSum.ReorderSelected | app/utils/models/textsum_client.py:95-98 | the loop emits every sentence whose text is selected, in document order |
| TextSum.ExactlyKWithoutDuplicates | app/utils/models/textsum_client.py:92-98 | when no sentence text repeats, exactly the `k` chosen sentences are emitted |
| TextSum.GenerateSummaryText | app/utils/models/textsum_client.py:70-102 | with at most two sentences or at most `target` words the text is returned unchanged; otherwise `1 <= k <= n-1`, the chosen sentences are the top `k`, and the summary is the ' '-join of the sentences whose text was chosen, in document order |
| PyStr.Strip | app/utils/models/textsum_client.py:110 | `strip()` removes only whitespace from the two ends: the result is a part of the input whose ends are not whitespace, empty exactly when the input is blank, and the input itself when its ends are not whitespace; StripRange and TrimLeftDropsBlank pin the slice it keeps |
| PyStr.StripRange | app/utils/models/textsum_client.py:110 | when the input's first and last non-whitespace characters are at `i` and `j - 1`, `strip()` gives exactly the slice from `i` to `j` |
| PyStr.TrimLeftDropsBlank | app/utils/models/textsum_client.py:110 | what the left half of `strip()` drops is blank; with Strip's ensures this pins the left end exactly |
| PyStr.Lower | app/utils/models/textsum_client.py:47 | `lower()` keeps the length, leaves no capital letter, turns each capital into its own lowercase letter and leaves every other character as it is |
| PyStr.StripKeeps | app/utils/models/textsum_client.py:110 | stripping keeps every non-whitespace character |
| PyStr.Words | app/utils/models/textsum_client.py:77 | `split()` gives at most one word per character; its result is fixed on every input by WordsShape, WordsConcat, WordsOfWord and WordsBlank below |
| PyStr.WordsShape | app/utils/models/textsum_client.py:77 | `split()` gives nonempty words with no whitespace in them |
| PyStr.WordsConcat | app/utils/models/textsum_client.py:77 | two strings that meet at whitespace split separately: the words of `a + b` are the words of `a` followed by the words of `b` |
| PyStr.WordsOfWord | app/utils/models/textsum_client.py:77 | a nonempty string with no whitespace is one word, itself |
| PyStr.WordsBlank | app/utils/models/textsum_client.py:77 | a blank string has no words; with WordsConcat and WordsOfWord this fixes the words on every input |
| PyStr.WordsJoin | app/utils/models/textsum_client.py:77 | nonempty words with no whitespace, joined with ' ', split back into the same words |
| PyStr.WordsKeepNonSpace | app/utils/models/textsum_client.py:77 | the words, concatenated, are the input without its whitespace |
| PyStr.Join | app/utils/models/textsum_client.py:100 | `sep.join(parts)` is empty for no parts and the part itself for one; WordsJoin, SplitJoinDot and YouTube.SplitDotJoin split it back into the parts |
| PyStr.JoinEnds | app/utils/models/textsum_client.py:100 | a join starts with its first part and ends with its last |
| PyStr.DigitsValue | app/utils/models/textsum_client.py:60 | `int()` of a digit run is below 10 to the power of its length |
| PyStr.DigitsValueLeadingZero | app/utils/models/textsum_client.py:60 | `int()` ignores a leading zero |
| PyStr.FirstNumber | app/utils/models/textsum_client.py:63-65 | None exactly when there is no digit; otherwise the value of the digit run at the first digit |
| PyStr.FirstNumberFacts | app/utils/models/youtube_client.py:64-66 | the first number is the value of the run at the first digit, and there is none exactly when no character is a digit |
| Sizing.TargetSentenceCount | app/utils/models/textsum_client.py:85-86 | the budget is at least 1; unless it is 1 it is the largest `k` with `k * W <= target * n`; and it is 1 exactly when `target * n < 2 * W` |
| Sizing.BudgetBelowSentenceCount | app/utils/models/youtube_client.py:83-84 | with at least two sentences and more words than the target, `1 <= k < n` |
| YouTube.Group | app/utils/models/youtube_client.py:48 | `match.group(1)` at a position where an id character starts is the whole maximal run of id characters there |
| YouTube.IdEnd | app/utils/models/youtube_client.py:41 | the group `([^&\n?#]+)` ends at the end of the maximal run of id characters |
| YouTube.Pattern1At | app/utils/models/youtube_client.py:41 | the first pattern matches at a position exactly when one of "youtube.com/watch?v=", "youtu.be/", "youtube.com/embed/" occurs there followed by an id character; the group starts right after that prefix |
| YouTube.LastVEq | app/utils/models/youtube_client.py:42 | the greedy `.*` backtracks to the rightmost "v=" that is followed by an id character |
| YouTube.Pattern2At | app/utils/models/youtube_client.py:42 | the second pattern matches at a position exactly when "youtube.com/watch?" occurs there and some "v=" followed by an id character comes after it with no newline in between; the group starts after the rightmost such "v=" |
| YouTube.Search1 | app/utils/models/youtube_client.py:46 | `re.search` with the first pattern finds its leftmost match, or None when there is none |
| YouTube.Search2 | app/utils/models/youtube_client.py:46 | `re.search` with the second pattern finds its leftmost match, or None when there is none |
| YouTube.ExtractVideoId | app/utils/models/youtube_client.py:37-49 | None exactly when neither pattern matches anywhere; otherwise a nonempty, maximal run of characters other than `&`, `?`, `#` and newline that occurs in the URL, taken from the leftmost match of the first pattern, or failing that of the second |
| YouTube.ExtractAfterPrefix | app/utils/models/youtube_client.py:40-48 | a URL that starts with "youtu.be/", "youtube.com/watch?v=" or "youtube.com/embed/" yields the maximal id run after the prefix |
| YouTube.Pattern2Example | app/utils/models/youtube_client.py:42 | "youtube.com/watch?t=1&v=ab" matches only the second pattern and yields "ab" |
| YouTube.ParseSummaryLength | app/utils/models/youtube_client.py:51-69 | on the lowercased but unstripped input the three names give 75, 200 and 400; otherwise the first digit run of the input; otherwise 200 |
| YouTube.ShortNotStripped | app/utils/models/youtube_client.py:56 | " short" parses to 200 |
| YouTube.FirstNumberWins | app/utils/models/youtube_client.py:64-66 | "3 parts, 90 words" parses to 3 |
| YouTube.FindSeparator | app/utils/models/youtube_client.py:73 | finds the leftmost `". "` at or after a position, or reports that there is none |
| YouTube.SplitDot | app/utils/models/youtube_client.py:73 | `split('. ')` gives at least one piece, and no piece contains `". "` |
| YouTube.JoinSplitDot | app/utils/models/youtube_client.py:73 | joining the pieces with `". "` gives back the text |
| YouTube.SplitDotJoin | app/utils/models/youtube_client.py:73 | pieces without `". "`, joined with it, split back into the same pieces |
| YouTube.SplitKeepsEmpty | app/utils/models/youtube_client.py:73 | "a. . b" splits into "a", "" and "b": empty pieces are kept |
| YouTube.SampleIndices | app/utils/models/youtube_client.py:88-89 | `k` indices spaced `n // k` apart from 0; when `k <= n` they are strictly increasing and all below `n` |
| YouTube.SampleInBounds | app/utils/models/youtube_client.py:89 | `i * (n // k) < n` for every `i < k <= n` |
| YouTube.SampleTenThree | app/utils/models/youtube_client.py:88-89 | n=10, k=3 gives [0, 3, 6] |
| YouTube.SampleSevenFour | app/utils/models/youtube_client.py:88-89 | n=7, k=4 gives [0, 1, 2, 3] |
| YouTube.Pick | app/utils/models/youtube_client.py:89 | one fragment per index, the fragment at that index |
| YouTube.Sample | app/utils/models/youtube_client.py:87-91 | `min(k, n)` fragments: evenly spaced when `k < n`, otherwise all of them |
| YouTube.EndWithPeriod | app/utils/models/youtube_client.py:96-97 | the result ends with '.'; a period is added only when the text does not already end with one |
| YouTube.GenerateSummary | app/utils/models/youtube_client.py:71-99 | at most three fragments or at most `target` words return the text unchanged; otherwise the summary ends with '.' |
| YouTube.SamplingBranchTaken | app/utils/models/youtube_client.py:83-91 | on the sampling path `1 <= k < n`, so the slice branch at lines 90-91 is never taken |
| YouTube.SampledSummary | app/utils/models/youtube_client.py:83-97 | on the sampling path the summary is the fragments at strictly increasing in-range indices `i * (n // k)`, joined by `". "` and ended by a period |
| YouTube.SampledFragmentsSplitBack | app/utils/models/youtube_client.py:89-93 | exactly `k` fragments are joined, and splitting the join gives them back |
| YouTube.SummarizeVideo | app/utils/models/youtube_client.py:1-35 | a URL without a video id gives exactly "Error: Invalid YouTube URL" whatever the transcript service would answer; a failed fetch gives "Error summarizing video: " and the message; otherwise the summary of the space-joined transcript entries |
| ParserContrast.StripDecidesName | app/utils/models/textsum_client.py:47-55 | " short" gives 75 to the text parser, which strips, and 200 to the transcript parser, which does not |
| ParserContrast.WordsPhraseDecidesNumber | app/utils/models/textsum_client.py:57-65 | "3 parts, 90 words" gives 90 to the text parser and 3 to the transcript parser |
| ParserContrast.AgreeOnPlainInput | app/utils/models/youtube_client.py:56-69 | on stripped, lowercase input the two parsers agree on the names and whenever there is no `N words` phrase |

## Left out

- The transcript fetch (youtube_client.py line 23) is network I/O. The service is a function parameter that answers with the transcript entries or a failure message.
- The `youtube_transcript_api` import (youtube_client.py line 15) is a module import inside the `try`, and it runs before the URL guard at lines 18-20. When the import fails, every call answers "Error summarizing video: " with the message, invalid URLs included. The model assumes the import succeeds.
- `str(e)` of the service's exception is not modelled; the failure message is taken as given.
- The outer `try/except` blocks, apart from a failed fetch, catch runtime type errors and one value error. Type errors cannot occur on typed Dafny strings. The text summariser's "Error summarizing text: " path is therefore absent.
- TextSum.ParseSummaryLength and YouTube.ParseSummaryLength: `int()` on a digit run longer than 4300 digits raises `ValueError` in CPython 3.11 and later (the default `sys.int_max_str_digits`). The entry points then answer "Error summarizing text: " or "Error summarizing video: " with the message. The model reads a digit run of any length as its value.
- Floating-point arithmetic is replaced by exact integers:
  - the sentence budget is the exact `floor(target * n / W)`;
  - the score factors 1.2, 0.7 and 0.9 are scaled by ten.

  This leaves out the rare inputs where float rounding in `int(target / (W / n))` gives a different budget than the exact quotient.
- TextSum.ScoreSentences: float rounding can break a tie between exact scores or create one, and the model does not capture this. Take a first sentence with frequency sum 4 and fewer than five tokens, and a last sentence with sum 3 and at least five tokens. In IEEE doubles they score `4 + 4*0.2 - 4*0.3 = 3.5999999999999996` and `3 + 3*0.2 = 3.6`, so Python ranks the last sentence higher. The model scores both 36, and the tie goes to the earlier position. Where rounding changes a tie, the sort and so the selection can differ from the model's.
- Unicode is out: `\s`, `\w`, `\d`, `lower()`, `strip()` and `split()` are modelled on ASCII. Whitespace is tab to carriage return, the four separators 28 to 31, and space.
- A general regular-expression engine is out. Each of the seven patterns is its own scanner: `\s+`, `[^\w\s.,!?;:\-()]`, `(\d+)\s*words?`, `\d+` (the first match of `re.findall`), `[.!?]+`, and the two URL patterns.
- TextSum.StableSortByScore sorts with insertion sort rather than Python's TimSort. The contract (a permutation in stable descending order) fixes the output uniquely, but the number of comparisons is not modelled.
- TextSum.GenerateSummaryText returns the chosen sentence positions only as a ghost output used to state the top-`k` property; the Python function returns just the string.
- `app/main.py` (the HTTP routes) and `app/utils/agents/gemini_client.py` (the language-model SDK glue) are not part of this model.
