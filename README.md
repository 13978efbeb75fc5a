# Article summarizer text pipeline, modelled in Dafny

This project models the text pipeline of the article summarizer backend
(`summarization.py`) and proves properties of it. The pipeline has these stages:

- **Sentence splitter** (`re.split` at lines 13 and 28). It splits at a whitespace
  character that follows `.` or `?`. There is no split after a dotted abbreviation
  such as "U.S." or after a title such as "Mr.". The whitespace character at a
  split is consumed.
- **Chunker** (line 15). Consecutive runs of `chunk_size` sentences are joined
  with a space.
- **Summarize loop** (lines 17-22). The summarization model is called once per
  chunk, in order. The summaries are joined with a space and cleaned of
  redundancies.
- **Redundancy cleaner** (`remove_repeated_phrases`, `clean_redundancies`).
  - Within a sentence, only the first occurrence of each whitespace token is
    kept.
  - A sentence is dropped when its word-cleaned, lower-cased form was already
    seen.
- **Post-processor** (`post_process_summary`), in this order:
  1. strip;
  2. `str.capitalize`;
  3. collapse runs of spaces;
  4. put a space after a `.` or `,` that is directly followed by a
     non-whitespace character.
- **Title** (lines 71-72). The first two tokens of the summary, joined by a
  space, followed by "...".

## Modules

- **`Outcomes`**: `Option`, and `Result` with the error kinds
  `InvalidConfiguration` and `ModelInvocationFailed`.
- **`TextOps`**:
  - character classes: `str.isspace`/`\s`, the `\w` subset, and the two letter
    classes of the splitter;
  - the case maps;
  - `Words` (`str.split()`) and `JoinSpace` (`" ".join`).
- **`SentenceSplitter`**: `Split`.
  - It is defined over a boundary test passed in as a parameter.
  - `IsBoundary` is the pattern's test.
- **`Chunker`**: `Groups` (the grouping) and `Chunk` (group and join).
- **`Dedup`**: `KeepFirst`, the "first occurrence by key" policy that both cleaner
  loops implement, with its characterization.
- **`RedundancyCleaner`**: the two cleaner loops.
  - They are methods that keep a `seen` set and an output list.
  - Each is proved equal to a function built from `KeepFirst`.
- **`CleanerCases`**: worked inputs for the cleaner, proved from the general
  lemmas.
- **`Orchestrator`**: the summarize loop as a method.
  - It is proved against the `Summaries` function.
  - Its ghost out-parameter records the chunks the model was called on.
- **`PostProcessor`**: `PostProcess` and its four steps.
- **`TitleExtractor`**: `Title`.

The summarization model is the function parameter
`Summarizer = (chunk, max_length, min_length) -> Option<string>`. `None` stands
for a call that raises.

### Where the code governs

In these places the code behaves differently from what its names or a quick
reading suggest, and the model follows the code:

- **Empty text.** Splitting "" gives `[""]`, not `[]`. So an empty text is one
  chunk, "", and the model is called once on it (`Orchestrator.SummarizeEmpty`).
- **`chunk_size`.**
  - `chunk_size == 0` fails before any model call, because `range` rejects a zero
    step.
  - A negative `chunk_size` is not an error: `range` is then empty, nothing is
    summarized, and the result is "".
- **Title abbreviations.** The splitter's second exception is an upper-case
  letter, a lower-case letter, then `.` ("Mr.", "Dr."). It is not a single
  initial such as "A.".
- **`capitalize`.** It lower-cases everything after the first character.
- **Sentence key.** The key is taken after word cleaning. "It is is done. It is
  done." cleans to "It is done." (`CleanerCases.KeyAfterWordCleaning`).

## Model

| member | source | states |
|---|---|---|
| `SentenceSplitter.Split` | summarization.py:13 | splitting the empty text yields one empty piece, not none |
| `SentenceSplitter.BoundariesExact` | summarization.py:13 | a position is a split point exactly when it holds whitespace right after `.` or `?`, and the four characters before are not word/`.`/word/non-newline, and the three before are not upper/lower/`.` |
| `SentenceSplitter.SplitPieces` | summarization.py:13 | there is one more piece than split points; piece k is exactly the text strictly between split point k-1 and split point k |
| `SentenceSplitter.SplitReconstructs` | summarization.py:13 | putting each consumed character back between the pieces rebuilds the input, and every consumed character is whitespace |
| `SentenceSplitter.SplitSingle` | summarization.py:13 | the split yields a single piece exactly when there is no split point, and that piece is the whole input |
| `SentenceSplitter.NoTerminalNoSplit` | summarization.py:13 | text where no `.` or `?` is followed by whitespace is one sentence equal to the input |
| `SentenceSplitter.SplitOfJoin` | summarization.py:28 | re-splitting well-formed sentences joined by single spaces gives back the same sentences |
| `Chunker.Groups` | summarization.py:15 | each group is non-empty and at most chunk_size long; every group but the last has exactly chunk_size; there are no groups exactly when there are no sentences |
| `Chunker.GroupsFlatten` | summarization.py:15 | the groups, concatenated in order, give back the sentences: nothing is lost, duplicated or reordered |
| `Chunker.GroupsCount` | summarization.py:15 | there are ceil(#sentences / chunk_size) groups |
| `Chunker.GroupFrom` | summarization.py:15 | group k starts at offset k*chunk_size and runs chunk_size sentences or to the end of the list |
| `Chunker.GroupAt` | summarization.py:15 | group k is the slice `sentences[k*chunk_size : (k+1)*chunk_size]`, as Python's slice clamps it |
| `Chunker.Chunk` | summarization.py:15 | a zero chunk size, and only that, is an InvalidConfiguration error; a negative one gives no chunks; a positive one gives ceil(n/chunk_size) chunks, chunk k joining sentences k*chunk_size up to min((k+1)*chunk_size, n) by spaces, never from no sentence |
| `Chunker.SixSentencesTwoChunks` | summarization.py:15 | six sentences with chunk size 3 make two chunks: the first three and the last three, each joined |
| `Orchestrator.Summaries` | summarization.py:17-20 | success exactly when every model call succeeds; then one summary per chunk, the i-th being the model's answer for chunk i; otherwise a ModelInvocationFailed error |
| `Orchestrator.SummarizeChunks` | summarization.py:17-20 | the loop's result equals `Summaries`; on success the model was called on every chunk in order; on failure it was called on a prefix of the chunks, ending at the first chunk whose call raised, with every earlier call succeeding |
| `Orchestrator.SummarizeTextInChunks` | summarization.py:12-25 | the result is the cleaned space-join of the chunk summaries; a non-positive chunk size makes no model call; on success exactly one call per chunk, in chunk order; on failure the calls are a prefix of the chunks whose last call raised and whose earlier calls all answered, so they stop at the first one that raised |
| `Orchestrator.SummariesOfChunks` | summarization.py:15-20 | when the model answers on each chunk of these sentences (whatever it does on other strings), summary k is the model's answer for sentences k*chunk_size up to min((k+1)*chunk_size, n), joined by spaces, and there are ceil(n/chunk_size) of them |
| `Orchestrator.SummarizeOnSuccess` | summarization.py:12-25 | when the model answers on each chunk of the text (whatever it does on other strings), the result is the cleaned join of the ceil(n/chunk_size) chunk summaries, in chunk order |
| `Orchestrator.SummarizeFailsWithModel` | summarization.py:17-20 | if the model raises on any chunk, the whole summarization fails with ModelInvocationFailed and returns no partial result |
| `Orchestrator.SummarizeEmpty` | summarization.py:13-25 | an empty article is one empty chunk; the result is the model's answer on "" cleaned, or a failure if that call raised |
| `Dedup.KeepFirstCharacterized` | summarization.py:45-48 | keep-first output has pairwise distinct keys and covers every input key; each kept element is the first input element with its key; kept elements are ordered by first occurrence |
| `Dedup.KeepFirstIsSubsequence` | summarization.py:45-48 | keep-first output is an order-preserving subsequence of the input |
| `Dedup.KeepFirstOfDistinct` | summarization.py:45-48 | an input whose keys are already distinct is returned unchanged |
| `Dedup.KeepFirstIdempotent` | summarization.py:45-48 | applying keep-first twice equals applying it once |
| `RedundancyCleaner.RemoveRepeatedPhrases` | summarization.py:40-50 | the set-backed loop returns the first-occurrence word filter, joined by single spaces |
| `RedundancyCleaner.CleanRedundancies` | summarization.py:27-38 | the set-backed loop over split sentences returns the first-occurrence filter of the word-cleaned sentences keyed by their lower-case form, joined by single spaces |
| `RedundancyCleaner.CleanedSentences` | summarization.py:28-33 | one cleaned sentence per split sentence, in order; cleaned sentence i tokenizes to the first occurrences of the tokens of sentence i, and is exactly those tokens joined by single spaces |
| `RedundancyCleaner.WordsOfDedupWords` | summarization.py:40-50 | re-tokenizing a word-cleaned sentence gives exactly the kept tokens |
| `RedundancyCleaner.DedupWordsTokens` | summarization.py:40-50 | output tokens are pairwise distinct and are exactly the distinct input tokens (case-sensitive); they come in order of first occurrence and form a subsequence of the input tokens |
| `RedundancyCleaner.DedupWordsIdempotent` | summarization.py:40-50 | cleaning a sentence twice equals cleaning it once |
| `RedundancyCleaner.DedupSentencesSpec` | summarization.py:27-38 | kept sentences are pairwise distinct once lower-cased; they cover every lower-cased form of the cleaned sentences; each is the first cleaned sentence of its form; they come in the order in which their forms first occur; they form a subsequence of the cleaned sentences and are joined by single spaces |
| `CleanerCases.DedupWordsOfDistinct` | summarization.py:40-50 | a sentence of distinct single-spaced words is left unchanged |
| `CleanerCases.RedRedRedBlueBlue` | summarization.py:40-50 | "red red Red blue blue" becomes "red Red blue" |
| `CleanerCases.CatCatDog` | summarization.py:27-38 | "The cat sat. The cat sat. The dog ran." becomes "The cat sat. The dog ran." |
| `CleanerCases.KeyAfterWordCleaning` | summarization.py:33-35 | "It is is done. It is done." becomes "It is done.", because the sentence key is taken after word cleaning |
| `TextOps.WordsOfJoin` | summarization.py:41 | splitting words joined by single spaces on whitespace gives back the words |
| `TextOps.WordsCoverNonSpace` | summarization.py:41 | the tokens of `str.split()`, concatenated, are the input with its whitespace removed |
| `TextOps.CaseMapsIdempotent` | summarization.py:34 | lower-casing and upper-casing a character are each idempotent |
| `PostProcessor.Strip` | summarization.py:53 | the result has no whitespace at either end; an input already trimmed is unchanged |
| `PostProcessor.StripInfix` | summarization.py:53 | the result is a contiguous slice of the input, and everything removed before and after it is whitespace; the result is empty exactly when the input is all whitespace |
| `PostProcessor.Capitalize` | summarization.py:54 | same length; the first character is the input's first character upper-cased and every other character is the input's lower-cased; so whitespace positions are unchanged, the result is capitalized, and already capitalized text is unchanged |
| `PostProcessor.CollapseSpaces` | summarization.py:55 | no two spaces in a row; the first and last characters are kept |
| `PostProcessor.CollapseFixed` | summarization.py:55 | text without two spaces in a row is unchanged |
| `PostProcessor.CollapseKeepsTail` | summarization.py:55 | any property of characters that holds after the first character of the input still holds after the first character of the result |
| `PostProcessor.CollapseKeepsCapitalized` | summarization.py:54-55 | collapsing spaces keeps a capitalized text capitalized |
| `PostProcessor.CollapseDropsOnlyDoubled` | summarization.py:55 | collapsing removes exactly the spaces that are followed by another space and nothing else: every other character of the input lands, in order, at its index minus the removed spaces before it, and the length drops by their number |
| `PostProcessor.CollapseKeepsNonSpace` | summarization.py:55 | collapsing removes only spaces: the non-whitespace characters are unchanged, in order |
| `PostProcessor.SpaceAfterPunctuation` | summarization.py:56 | every `.` or `,` that is not last is followed by whitespace; the first and last characters are kept |
| `PostProcessor.SpacingFixed` | summarization.py:56 | text where every non-final `.`/`,` is already followed by whitespace is unchanged |
| `PostProcessor.SpacingKeepsNoDoubleSpace` | summarization.py:55-56 | inserting spaces after punctuation creates no two spaces in a row |
| `PostProcessor.SpacingKeepsTail` | summarization.py:56 | any property of characters that a space has and that holds after the first character of the input still holds after the first character of the result: the inserted characters are spaces and the others come from the input |
| `PostProcessor.SpacingKeepsCapitalized` | summarization.py:54-56 | inserting spaces keeps a capitalized text capitalized |
| `PostProcessor.SpacingInsertsExactly` | summarization.py:56 | every input character is kept in order, shifted right by the spaces inserted before it; exactly one space follows each `.` or `,` that precedes a non-whitespace character; the length grows by exactly the number of such places, so nothing else is inserted |
| `PostProcessor.SpacingKeepsNonSpace` | summarization.py:56 | the insertion adds only spaces: the non-whitespace characters are unchanged, in order |
| `PostProcessor.PostProcess` | summarization.py:52-57 | strip, capitalize, collapse, then space punctuation; the result has no leading or trailing whitespace, no two spaces in a row, whitespace after every non-final `.`/`,`, an upper-case first character and lower-case others |
| `PostProcessor.PostProcessIdempotent` | summarization.py:52-57 | post-processing twice equals post-processing once |
| `PostProcessor.PostProcessKeepsText` | summarization.py:52-57 | apart from whitespace, the result is the stripped summary capitalized |
| `TitleExtractor.Title` | summarization.py:72 | the title ends in "..." |
| `TitleExtractor.TitleIsFirstWords` | summarization.py:71-72 | the title minus its "..." is exactly the first min(2, #tokens) tokens of the summary joined by single spaces |
| `TitleExtractor.TitleOfBlank` | summarization.py:71-72 | an empty or all-whitespace summary gets the title "..." |
| `TitleExtractor.TitleOfLongSummary` | summarization.py:71-72 | a summary with at least two tokens gets its first two tokens, joined by a space, plus "..." |
| `TitleExtractor.TitleOfDeepLearning` | summarization.py:71-72 | "Deep learning models improve accuracy." gets the title "Deep learning..." |

## Left out

- **HTTP layer.** The Flask app, CORS, the `/summarize` route, request parsing,
  the empty-article 400 response, `jsonify` and `app.run`
  (summarization.py:7-8, 59-69, 74-80) are I/O. The route's composition of
  summarizing, post-processing and title (lines 68-72) is modelled stage by stage
  and not as one member.
- **The transformers model.**
  - Loading the model (line 10) is left out.
  - The model itself (line 19) is an uninterpreted function parameter. `None`
    means the call raised.
  - `do_sample=False`, and the `[0]["summary_text"]` indexing of the reply, are
    taken to give one string.
  - `max_length` and `min_length` are only passed through, and the pipeline does
    not check them. The transformers model bounds its summary's length by them;
    the `Summarizer` parameter here puts no bound on the length of its answer.
- **Unicode.**
  - Python's `\w` is modelled as ASCII letters, digits, `_` and the twelve Turkish
    letters of the abbreviation classes. Other non-ASCII letters are not word
    characters here.
  - `str.lower`/`str.upper`/`str.capitalize` are modelled on ASCII and the Turkish
    pairs (ı upper-cases to I).
  - 'İ', which Python lower-cases to two code points, and title-case forms that
    differ from upper case are not modelled.
  - Whitespace (`str.isspace`, `\s`) is modelled in full.
- **Default arguments.** The defaults `chunk_size=3`, `max_length=90` and
  `min_length=30` (summarization.py:12) are not modelled; every member takes the
  three values as parameters, and the route at line 68 relies on the defaults.
