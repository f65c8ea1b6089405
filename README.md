# Text chunkers of `chunking_method_LAB_2.py`, in Dafny

This project models the three text chunkers of `chunking_method_LAB_2.py` and
proves what they produce.

- **`chunk_text_charwise`** cuts the text into windows of at most `max_chars`
  characters. Each later window starts `min(overlap_chars, max_chars - 1)`
  characters before the end of the previous one.
- **`chunk_text_tokenwise`** runs the same window loop over one of two inputs:
  - the token ids of a tokenizer, decoding each window back to text;
  - when no tokenizer is available, the words of `text.split()`, joining each
    window with single spaces.
- **`chunk_text_sentencewise`** splits the text into sentences with
  `re.split(r'(?<=[.!?])\s+', text)`, strips every piece and drops the empty
  ones. It then packs the sentences greedily into chunks of at most
  `max_chars` characters. The exception is a single sentence longer than
  `max_chars`, which becomes a chunk of its own. When a chunk is full it is
  emitted. With a positive overlap, the chunk's last `overlap_chars`
  characters seed the next chunk.

Every chunker checks its sizes first. A non-positive maximum is refused, then a
negative overlap, each with its own `ValueError` message.

The modules:

- `Results`: `Option`, and the `Result` type for the `ValueError` outcomes.
- `Text`: the whitespace class shared by `\s`, `str.strip()` and `str.split()`,
  and those string operations.
- `Windows`: the window loop shared by the character and token chunkers. It is
  specified by the list of windows it visits. This module proves the bounds,
  the exact overlap, the closed form and count of the windows, and that the
  chunks reassemble to the input.
- `Sentences`: the sentence splitter, written as a scan for split points.
- `Packing`: the sentence packing loop. On every run that terminates, each
  sentence appears whole in some chunk, and later sentences never go to earlier
  chunks. With a positive overlap, each chunk after the first begins with the
  previous chunk's last `overlap_chars` characters, less any leading
  whitespace. With no overlap, every chunk is a run of whole consecutive
  sentences.
- `Chunking`: the three public operations.

**The sentence loop can fail to terminate.** The packing loop moves to the next
sentence only when it appends one. Suppose an emitted chunk leaves a tail that
cannot take the waiting sentence. Then the loop emits that tail, keeps it, and
repeats for ever.

The file's own sample run shows this: `max_chars=50, overlap_chars=10` on its
sample text. The 10-character tail `"t example."` cannot take the 61-character
second sentence.

The model follows the code, not the wish that every loop terminates:

- `Packing.After` gives the loop's state after any number of turns.
- `Packing.Halts` says that some number of turns finishes the loop.
- `Chunking.ChunkSentencewise` is specified for the inputs on which it halts.
- `Packing.RoomHalts` proves it halts when there is no overlap, or when every
  sentence leaves room for the overlap.
- `Packing.SecondSentenceHangs` and `Packing.SampleNeverFinishes` prove the
  divergence.

**The window count is not `ceil(n / (max - overlap))`.** That estimate is
sometimes quoted for this loop, and it is not exact. With `n = 10`,
`max = 4` and `overlap = 2` the windows are `[0,4) [2,6) [4,8) [6,10)`: four,
not five. The loop stops as soon as a window reaches the end.
`Windows.WindowCount` states the exact count: `c` windows with
`(c - 2) * stride + max < n <= (c - 1) * stride + max`.

The source file wraps its whole content, from line 1 to line 127, in one
triple-quoted string. The model reads the functions as the code they spell out.

## Model

| member | source | states |
|---|---|---|
| Chunking.ChunkCharwise | chunking_method_LAB_2.py:98-116 | Refuses `max_chars <= 0`, then `overlap_chars < 0`, with the source's messages. Otherwise it returns the windows of the text. The result is empty exactly for empty text. Every chunk is non-empty and at most `max_chars` long, and every chunk but the last is exactly `max_chars` long. Consecutive chunks share exactly `min(overlap, max-1)` characters, and dropping the shared prefixes gives back the text. |
| Chunking.ChunkTokenwise | chunking_method_LAB_2.py:26-66 | Refuses the same two cases with the token messages. With a tokenizer, chunk `k` decodes token window `k`. Without one, chunk `k` is `" ".join` of word window `k` of `text.split()`, and splitting it gives that window back. Each chunk holds between 1 and `max_tokens` words, the windows reassemble to all words, and there are no chunks exactly for blank text. |
| Chunking.ChunkSentencewise | chunking_method_LAB_2.py:68-96 | Refuses the same two cases with the source's messages. On a halting run it returns the packing of the split sentences. Every chunk is non-empty, and a chunk over `max_chars` is a single sentence. There are no chunks exactly for blank text. Every sentence appears whole in some chunk, and later sentences in the same or later chunks. With a positive overlap, each chunk after the first begins with the stripped last `overlap_chars` characters of the one before. With no overlap, joining the chunks gives the sentences joined, and every chunk is a run of whole consecutive sentences. |
| Chunking.SentenceChunks | chunking_method_LAB_2.py:78-96 | What any terminating packing of a text's sentences yields: non-empty chunks, chunks over the limit only when they are single sentences, no chunks exactly for blank text, every sentence whole in a chunk and in order, with a positive overlap each chunk beginning with the stripped tail of the one before, and, without overlap, the sentences once each and in order, grouped without cuts. |
| Chunking.SentencewiseTerminates | chunking_method_LAB_2.py:78-93 | The sentence loop halts when the overlap is 0, or when every sentence fits after an overlap-sized tail. |
| Windows.Stride | chunking_method_LAB_2.py:115 | Consecutive window starts lie between 1 and `max` units apart, so the loop always progresses. |
| Windows.NextStart | chunking_method_LAB_2.py:115 | `max(end - overlap, end - max + 1)` lies in `(end - max, end]`, and exactly `min(overlap, max - 1)` before `end`. |
| Windows.SpansFrom | chunking_method_LAB_2.py:107-116 | The loop visits no window exactly when it starts at the end. Otherwise its first window is `[start, min(start + max, n))` and its last window ends at `n`. |
| Windows.SpanBounds | chunking_method_LAB_2.py:110-111 | Every visited window is a non-empty range inside the input, at most `max` long, ending at `min(lo + max, n)`. |
| Windows.WindowsInBounds | chunking_method_LAB_2.py:110-112 | The same bounds, for the windows from index 0. |
| Windows.WindowedAt | chunking_method_LAB_2.py:112 | The contents of window `k` are `units[lo:hi]` of its range. |
| Windows.Windowed | chunking_method_LAB_2.py:110-115 | The contents `units[start:end]` of the windows the loop visits: one piece per window. Their shape, overlap and reassembly are stated by the `Windowed…` lemmas below. |
| Windows.ConsecutiveSpans | chunking_method_LAB_2.py:113-115 | A window followed by another does not reach `n`, and the next one starts at the next start of its end. |
| Windows.WindowsAdvance | chunking_method_LAB_2.py:113-115 | Starts and ends strictly increase, and each start lies no later than the previous end. Every window but the last is exactly `max` long. Neighbouring windows share exactly `min(overlap, max-1)` units. |
| Windows.WindowsCover | chunking_method_LAB_2.py:109-113 | There are no windows exactly for empty input. The first window starts at 0, and the last ends at `n`. |
| Windows.WindowAt | chunking_method_LAB_2.py:110-115 | Closed form: window `k` is `[k*stride, min(k*stride + max, n))`. |
| Windows.WindowCount | chunking_method_LAB_2.py:110-115 | For `n > max`, the count `c` is at least 2 and `(c-2)*stride + max < n <= (c-1)*stride + max`. |
| Windows.WindowedShape | chunking_method_LAB_2.py:107-116 | The chunks are empty exactly for empty input. Every chunk is non-empty and at most `max` long, and all but the last are exactly `max` long. |
| Windows.WindowedOverlap | chunking_method_LAB_2.py:115 | The last `min(overlap, max-1)` units of chunk `k` are the first units of chunk `k+1`. |
| Windows.WindowedOverlapping | chunking_method_LAB_2.py:115 | The same, for all consecutive chunks at once. |
| Windows.TailsFrom | chunking_method_LAB_2.py:110-115 | The windows from `start`, each less its shared prefix, spell out the rest of the input after `start + shared`. |
| Windows.PiecesStep | chunking_method_LAB_2.py:111-115 | The first window from `start` less its shared prefix, followed by the windows after it. |
| Windows.WindowedReassembles | chunking_method_LAB_2.py:107-116 | The first chunk, followed by every later chunk less its shared prefix, is the input again. |
| Windows.ChunkByWindows | chunking_method_LAB_2.py:107-116 | The loop's result has one chunk per window, and chunk `k` renders window `k`'s contents. |
| Text.IsSpace | chunking_method_LAB_2.py:14 | The one whitespace class used by `\s` (line 14), `split()` (line 56) and `strip()` (lines 78 and 85). It includes space, tab, newline and carriage return, and never `.`, `!` or `?`, the characters that the lookbehind of line 14 looks for. |
| Text.Strip | chunking_method_LAB_2.py:78 | `str.strip()` never lengthens a string. |
| Text.StripIsStripped | chunking_method_LAB_2.py:78 | The result of `strip()` has no whitespace at either end. |
| Text.StripKeepsText | chunking_method_LAB_2.py:78 | `strip()` removes whitespace only: the non-whitespace characters survive, in order. |
| Text.StripEmpty | chunking_method_LAB_2.py:78 | `s.strip()` is empty exactly when `s` is all whitespace: the condition of the filter. |
| Text.StripStripped | chunking_method_LAB_2.py:85 | `strip()` leaves a string with no surrounding whitespace unchanged. |
| Text.StripKeepsLast | chunking_method_LAB_2.py:78 | `strip()` keeps a final non-whitespace character as its last character. |
| Text.StripIsSlice | chunking_method_LAB_2.py:78 | `strip()` returns a contiguous slice of its argument. |
| Text.StripFront | chunking_method_LAB_2.py:85 | For a string ending in non-whitespace, `strip()` removes a leading whitespace run and nothing else. |
| Text.StripAppend | chunking_method_LAB_2.py:85 | `(c + y).strip()` is `c.strip() + y` when both end in non-whitespace. |
| Text.OccursStrip | chunking_method_LAB_2.py:85 | A piece starting with non-whitespace survives `strip()` of a string ending in non-whitespace. |
| Text.OccursPrefix | chunking_method_LAB_2.py:85 | A piece of `c` is a piece of any extension of `c`. |
| Text.SplitWords | chunking_method_LAB_2.py:56 | Every element of `text.split()` is a non-empty word without whitespace. |
| Text.SplitWordsKeepsText | chunking_method_LAB_2.py:56 | The words of `text.split()`, concatenated, are the text's non-whitespace characters in order. |
| Text.SplitWordsEmpty | chunking_method_LAB_2.py:56-60 | `text.split()` is empty exactly for blank text, so the fallback returns no chunks then. |
| Text.JoinWords | chunking_method_LAB_2.py:62 | `" ".join(ws)` begins with the first word. Its round trip with `split()` is `SplitJoinWords`. |
| Text.JoinWordsSnoc | chunking_method_LAB_2.py:62 | `" ".join` of a longer list is the shorter join, a space and the new word. |
| Text.JoinWordsEmpty | chunking_method_LAB_2.py:62 | The join of non-empty strings is empty exactly when there are none. |
| Text.SplitJoinWords | chunking_method_LAB_2.py:62 | Round trip: splitting the single-space join of words gives back the words. |
| Sentences.FirstBreak | chunking_method_LAB_2.py:14 | The first place where the pattern matches (`.`, `!` or `?` then whitespace) at or after the given index, or the end when there is none. |
| Sentences.SkipSpace | chunking_method_LAB_2.py:14 | The greedy `\s+`: the end of the maximal whitespace run. |
| Sentences.Fragments | chunking_method_LAB_2.py:14 | `re.split` always returns at least one piece. |
| Sentences.FragmentAt | chunking_method_LAB_2.py:14 | No piece contains a split point. Every piece but the last is non-empty and ends with `.`, `!` or `?`. |
| Sentences.BeforeBreak | chunking_method_LAB_2.py:14 | The text before the first split point has none inside it, and ends with terminal punctuation. |
| Sentences.FragmentsKeepText | chunking_method_LAB_2.py:14 | The split removes whitespace only: the pieces keep every other character, in order. |
| Sentences.SkipKeepsText | chunking_method_LAB_2.py:14 | Skipping the whitespace run matched by `\s+` loses no other character. |
| Sentences.DropEmpty | chunking_method_LAB_2.py:78 | The filter `if s.strip()`: it keeps only non-empty strings, each taken from its input, and never adds any. |
| Sentences.StripAll | chunking_method_LAB_2.py:78 | The comprehension: no more sentences than pieces, none of them empty. |
| Sentences.SplitSentences | chunking_method_LAB_2.py:78 | The sentence list: at most one per piece of the split, none of them empty. `SentencesAreStripped`, `SentencesHaveNoBreak`, `SentencesEndWithTerminal`, `SentencesKeepText` and `NoSentences` state the rest. |
| Sentences.DropEmptyAt | chunking_method_LAB_2.py:78 | Each kept string is a non-empty input string, and later kept strings come from later inputs. |
| Sentences.StripAllAt | chunking_method_LAB_2.py:78 | Sentence `k` is the stripped, non-empty piece `m`, and later sentences come from later pieces. |
| Sentences.DropEmptyConcat | chunking_method_LAB_2.py:78 | Dropping empty strings does not change the concatenation. |
| Sentences.StripEachKeepsText | chunking_method_LAB_2.py:78 | Stripping every piece keeps their non-whitespace characters. |
| Sentences.SentencesHaveNoBreak | chunking_method_LAB_2.py:14 | No sentence contains a split point. |
| Sentences.SentenceNoBreakAt | chunking_method_LAB_2.py:14 | The same, for one sentence `k`. |
| Sentences.SentencesAreStripped | chunking_method_LAB_2.py:78 | Every sentence is non-empty and has no surrounding whitespace. |
| Sentences.SentencesEndWithTerminal | chunking_method_LAB_2.py:14 | Every sentence but the last ends with `.`, `!` or `?`. |
| Sentences.SentenceEndAt | chunking_method_LAB_2.py:14 | The same, for one sentence `k`. |
| Sentences.StripKeepsTerminal | chunking_method_LAB_2.py:78 | `strip()` keeps a final `.`, `!` or `?`. |
| Sentences.SentencesKeepText | chunking_method_LAB_2.py:78 | The sentences hold exactly the text's non-whitespace characters, in order. |
| Sentences.NoSentences | chunking_method_LAB_2.py:78 | There are no sentences exactly for blank text. |
| Packing.Tail | chunking_method_LAB_2.py:91 | `current[-overlap:]` is the last `min(overlap, len)` characters. |
| Packing.Fits | chunking_method_LAB_2.py:84 | The first half of the test holds exactly when the string that line 85 builds before stripping (`current + " " + s`, or `s` for an empty `current`) is at most `max_chars` long. |
| Packing.Grow | chunking_method_LAB_2.py:85 | `(current + " " + s).strip()` is at most `len(current) + 1 + len(s)` long. |
| Packing.Step | chunking_method_LAB_2.py:83-93 | A turn advances the index by 0 or 1. |
| Packing.Advance | chunking_method_LAB_2.py:82 | A turn, or none once every sentence is taken, keeps the index within the sentences. |
| Packing.After | chunking_method_LAB_2.py:82-93 | After any number of turns, the index is within the sentences. |
| Packing.Halts | chunking_method_LAB_2.py:82-93 | The `while` loop ends on the sentence list: some number of turns takes every sentence. It always ends on an empty list. |
| Packing.Packs | chunking_method_LAB_2.py:79-95 | The loop ends and the flush returns exactly `cs`. Such a run always halts, and `PacksUnique` shows that `cs` is determined. |
| Packing.Flush | chunking_method_LAB_2.py:94-95 | The result starts with the emitted chunks and adds one more, `current`, exactly when `current` is non-empty. |
| Packing.PackSentences | chunking_method_LAB_2.py:79-95 | On a halting input, the loop and the final flush return the chunks of the run that reaches the end of the sentences. |
| Packing.FinishedStays | chunking_method_LAB_2.py:82 | Once every sentence is taken, the state no longer changes. |
| Packing.PacksUnique | chunking_method_LAB_2.py:79-95 | A terminating run has one result. |
| Packing.StepDescends | chunking_method_LAB_2.py:84-93 | When every sentence leaves room for the overlap, every turn lowers a bounded measure. |
| Packing.Within | chunking_method_LAB_2.py:82-93 | In that case, after `k` turns the loop is done or the measure has fallen by `k`. |
| Packing.RoomHalts | chunking_method_LAB_2.py:82-93 | In that case, the loop finishes within `2 * len(sentences)` turns. |
| Packing.DoomedStays | chunking_method_LAB_2.py:87-93 | A tail that cannot take the waiting sentence is emitted and kept unchanged, on every later turn. |
| Packing.NextGrows | chunking_method_LAB_2.py:84-86 | The index never moves back. |
| Packing.DoomedNeverHalts | chunking_method_LAB_2.py:82-93 | From such a state the loop never ends. |
| Packing.TailTooLongHangs | chunking_method_LAB_2.py:84-93 | An emission whose tail cannot take the waiting sentence makes the loop run for ever. |
| Packing.SecondSentenceHangs | chunking_method_LAB_2.py:82-93 | With a positive overlap, if the second sentence fits neither after the first sentence nor after its tail, the loop never ends. |
| Packing.SampleNeverFinishes | chunking_method_LAB_2.py:119-124 | On the file's sample sentences, with `max_chars=50, overlap_chars=10`, the loop never ends. |
| Packing.StepSound | chunking_method_LAB_2.py:84-93 | A turn from a state that is not doomed emits only non-empty chunks, and a chunk over `max_chars` only when it is one sentence. |
| Packing.GoodSoFar | chunking_method_LAB_2.py:82-93 | Every state of a terminating run has only such chunks. |
| Packing.PacksGood | chunking_method_LAB_2.py:84-95 | A terminating run yields non-empty chunks, and a chunk over `max_chars` only when it is a single sentence. |
| Packing.GrowNonEmpty | chunking_method_LAB_2.py:85 | Appending a sentence never leaves `current` empty. |
| Packing.StepKeepsContent | chunking_method_LAB_2.py:84-93 | Once a sentence has been taken, `current` or the chunks hold something. |
| Packing.ContentSoFar | chunking_method_LAB_2.py:82-95 | The same, after any number of turns. |
| Packing.PacksEmpty | chunking_method_LAB_2.py:78-96 | A terminating run yields no chunks exactly when there are no sentences. |
| Packing.SpacedStripped | chunking_method_LAB_2.py:85 | Two stripped non-empty strings joined by a space are stripped. |
| Packing.GrowStripped | chunking_method_LAB_2.py:85 | Between stripped sentences, the `.strip()` of line 85 removes nothing. |
| Packing.JoinStart | chunking_method_LAB_2.py:85 | A sentence taken into an empty `current` keeps the chunks' join equal to the sentences' join. |
| Packing.JoinGrow | chunking_method_LAB_2.py:85 | So does a sentence appended to a non-empty `current`. |
| Packing.JoinedStart | chunking_method_LAB_2.py:85-86 | The join invariant survives a turn that starts a chunk. |
| Packing.JoinedGrow | chunking_method_LAB_2.py:85-86 | The join invariant survives a turn that extends a chunk. |
| Packing.StepJoined | chunking_method_LAB_2.py:84-93 | Without overlap, every turn keeps the chunks and `current`, joined, equal to the taken sentences, joined. |
| Packing.JoinedSoFar | chunking_method_LAB_2.py:82-93 | The same, after any number of turns. |
| Packing.PacksKeepSentences | chunking_method_LAB_2.py:82-95 | Without overlap, the chunks joined by spaces are the sentences joined by spaces. |
| Packing.JoinSentences | chunking_method_LAB_2.py:85 | The space join of one or more sentences is non-empty and stripped. |
| Packing.GroupsOpen | chunking_method_LAB_2.py:85-86 | A sentence taken into an empty `current` opens a new group of one sentence. |
| Packing.GroupsExtend | chunking_method_LAB_2.py:85-86 | A sentence appended to `current` extends the last group by that sentence. |
| Packing.StepGroups | chunking_method_LAB_2.py:84-93 | Without overlap, every turn keeps the chunks a split of the taken sentences into consecutive non-empty runs. |
| Packing.GroupsSoFar | chunking_method_LAB_2.py:82-93 | The same, after any number of turns. |
| Packing.PacksWholeSentences | chunking_method_LAB_2.py:79-95 | Without overlap, the chunks are consecutive non-empty runs of whole sentences, covering all of them. Chunk `k` joins its run with spaces. |
| Packing.GrowSolid | chunking_method_LAB_2.py:85 | For a `current` ending in non-whitespace, line 85 gives `current.strip() + " " + s`. |
| Packing.GrowHasSentence | chunking_method_LAB_2.py:85 | The sentence appended by line 85 appears whole in the new `current`, which ends in non-whitespace. |
| Packing.GrowKeepsSentence | chunking_method_LAB_2.py:85 | A sentence already in `current` is still in it after line 85. |
| Packing.TailSolid | chunking_method_LAB_2.py:91 | The tail of a chunk ending in non-whitespace ends in non-whitespace too. |
| Packing.StepPlaced | chunking_method_LAB_2.py:83-93 | Every turn keeps each taken sentence whole in some chunk or in `current`, with later sentences never placed earlier. |
| Packing.PlacedSoFar | chunking_method_LAB_2.py:82-93 | The same, after any number of turns. |
| Packing.PacksPlaced | chunking_method_LAB_2.py:79-95 | With any overlap, a terminating run places every sentence whole in some chunk, and later sentences in the same or later chunks. |
| Packing.CarriesOverSnoc | chunking_method_LAB_2.py:88 | Emitting a chunk that begins with the stripped tail of the previous one keeps the overlap property. |
| Packing.StripTail | chunking_method_LAB_2.py:91 | A tail ending in non-whitespace is non-empty and stripped once stripped. |
| Packing.EmitCarried | chunking_method_LAB_2.py:87-93 | An emission keeps the overlap property, and leaves the tail of the emitted chunk in `current`. |
| Packing.GrowKeepsStart | chunking_method_LAB_2.py:85 | Growing a stripped `current` keeps it stripped and keeps its beginning. |
| Packing.GrowTail | chunking_method_LAB_2.py:85 | Growing a retained tail strips its leading whitespace and keeps the rest at the front. |
| Packing.TakeCarried | chunking_method_LAB_2.py:84-86 | Taking a sentence keeps `current` beginning with the stripped tail of the last chunk. |
| Packing.StepCarried | chunking_method_LAB_2.py:84-93 | A turn from a state that is not doomed keeps the overlap invariant. |
| Packing.CarriedSoFar | chunking_method_LAB_2.py:82-93 | Every state of a terminating run with a positive overlap keeps it. |
| Packing.FinalCarried | chunking_method_LAB_2.py:94-95 | The final flush keeps it. |
| Packing.PacksCarryOver | chunking_method_LAB_2.py:88-91 | With `overlap_chars > 0`, each chunk of a terminating run after the first begins with the last `overlap_chars` characters of the one before, less any leading whitespace. |

## Left out

- `_try_get_tokenizer` (lines 16-24) and tiktoken: the tokenizer is a parameter `Option<Encoder>` of `Chunking.ChunkTokenwise`. Its `encode` and `decode` are arbitrary functions, so loading by name and catching import errors are not modelled.
- Chunking.ChunkTokenwise: with a tokenizer, nothing is stated about the decoded text beyond "chunk `k` decodes token window `k`", because the tokenizer's behaviour is not part of this model.
- The regular-expression engine: the pattern of line 14 is modelled as a direct scan for `.`, `!` or `?` followed by a maximal whitespace run. `\s`, `str.strip()` and `str.split()` share one whitespace predicate, `Text.IsSpace`, covering the characters for which `str.isspace()` is true.
- Chunking.ChunkSentencewise: with a positive overlap, the contract places every sentence whole and in order and fixes how each chunk begins. It does not say that a chunk holds nothing but the carried tail and its sentences.
- Chunking.ChunkSentencewise: it is specified only for inputs on which the packing loop halts (`Packing.Halts`). On the others the source runs for ever, and for those the model proves non-termination instead of giving a result.
- Packing.PackSentences: requires that the run halts, for the same reason.
- The `__main__` block (lines 118-127) prints, and printing is not modelled. `Packing.SampleSentences` lists the three sentences of its sample text by hand. The splitter is not evaluated on the literal.
- `ValueError` becomes the `InvalidArgument` result carrying the same message. The model keeps the order of the checks, and the chunkers do nothing before them.
- Python lists built by `append` are modelled as sequences extended at the end. Python integers are unbounded, like Dafny's `int`, so no overflow is modelled.
- Default arguments (`max_tokens=500`, `overlap=50`, `tokenizer_name="gpt2"`, `max_chars=2000`, `overlap_chars=200`) are not modelled: every operation takes its sizes explicitly.
