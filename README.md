# randln in Dafny

A model of the core of `randln`, a command-line filter that prints the lines of a
file in random order. The tool memory-maps the file. It counts the lines, then
slices the mapping into zero-copy line records (`TextSegment`: a start and a
length). It permutes those records in place with a swap-based shuffle driven by
`/dev/urandom`, and writes each record followed by a `'\n'`.

The model has three modules:

- `Segments` (`segments.dfy`) covers `count_lines` and `populate_lines`. The
  mapped file is a `seq<char>`. A record is an offset pair
  `TextSegment(start, length)`. `populate_lines` fills a Dafny `array` in place.
- `Shuffler` (`shuffler.dfy`) covers `random_line`, `swap_lines` and `shuffle`.
  They work in place on the same `array`. The random device becomes a
  caller-supplied sequence of 64-bit words (`Word`), one per shuffle step.
- `Randomize` (`randomize.dfy`) covers the populate, shuffle and emit body of
  `randomize_lines`. The output stream becomes the returned `seq<char>`.

Every imperative routine is a method proved against a specification function:

| method | specification function |
|---|---|
| `CountLines` | `NewlineCount` and `LineCount` |
| `PopulateLines` | `Records` |
| `SwapLines` | `Swap` |
| `Shuffle` | `Shuffled` |
| `EmitLines` | `Emitted` |

The lemmas state the properties of those functions.

### Where the code differs from its evident intent (the model follows the code)

- `count_lines` counts every `'\n'` and then subtracts one when the text ends in
  `'\n'`. The result is the number of `'\n'` bytes before the last byte. That is
  always one fewer than the number of lines (`LineCountDropsOne`). So the last
  line of the file is never printed. For example, both `"a\nb\nc\n"` and
  `"a\nb\nc"` give 2, although both texts have three lines.
- The comment in `shuffle` says Fisher-Yates. But the partner is drawn from
  `this_line + 1`, that is from positions `(i, count)`. This is Sattolo's
  algorithm, so with two or more distinct records no record stays at its own
  index (`ShuffledIsDerangement`, `ShuffledLinesAllMove`). The result is not a uniform choice among all `n!`
  orderings.
- `populate_lines` does not stop at the end of the text. Its cursor keeps moving
  one byte past the end per extra record. The model keeps that behaviour. Such
  records get a start offset beyond the text and length 0, and they designate no
  characters (`Bytes`).

## Model

| member | source | states |
|---|---|---|
| `Segments.NewlineCountIsMultiplicity` | randln.c:187-191 | the quantity the counting loop accumulates is the multiplicity of `'\n'` in the text |
| `Segments.CountLines` | randln.c:181-199 | needs a non-empty text; returns the number of `'\n'` bytes, minus one when the last byte is `'\n'`, without underflow; equivalently the number of `'\n'` bytes strictly before the last byte |
| `Segments.LineEnd` | randln.c:210-213 | the inner scan stops at the first `'\n'` at or after the cursor, or at the end of the text (or at once when the cursor is past the end); every byte it skips is a non-`'\n'` byte inside the text |
| `Segments.Records` | randln.c:209-222 | the records of a run from cursor `c` number exactly `k`, and the first starts at `c` (offset 0 for `populate_lines`) |
| `Segments.PopulateLines` | randln.c:201-225 | writes exactly `max_lines` records, equal in order to `Records(text, 0, max_lines)`, returns `max_lines` (so the count check in `randomize_lines` always holds), and leaves the rest of the array unchanged |
| `Segments.RecordsLinked` | randln.c:215-221 | record `q + 1` starts one byte after record `q` ends |
| `Segments.RecordsIncreasing` | randln.c:209-222 | record starts never precede the cursor and strictly increase, so the records are pairwise distinct |
| `Segments.RecordsAreLines` | randln.c:210-218 | every record lies inside the text or is empty, and contains no `'\n'` |
| `Segments.RecordsTerminated` | randln.c:209-222 | when no more records are asked for than there are `'\n'` bytes after the cursor, every record lies inside the text and is followed by a `'\n'` |
| `Segments.LineCountRecordsTerminated` | randln.c:181-225 | with the count `count_lines` returns, every record lies inside the text and is followed by a `'\n'` |
| `Segments.RecordsPrefix` | randln.c:209-224 | asking for fewer records gives a prefix of the longer run |
| `Shuffler.RandomLine` | randln.c:108-113 | needs `count > 0`; the selected index lies in the sub-array `[base, base + count)` |
| `Shuffler.RandomLineReachesEvery` | randln.c:112 | every index of the sub-array is selected by some word |
| `Shuffler.Swap` | randln.c:115-123 | the two positions exchange their records, every other position keeps its record, and the multiset of records is unchanged |
| `Shuffler.SwapLines` | randln.c:115-123 | the array after the call is `Swap` of the array before it |
| `Shuffler.Partner` | randln.c:133 | the swap partner of step `i` lies in `(i, count)`, never `i` itself |
| `Shuffler.ShuffleFrom` | randln.c:130-134 | the shuffle from step `i` on keeps the length and the multiset of records, and never touches the positions before `i` again |
| `Shuffler.Shuffle` | randln.c:125-135 | the array after the call is `Shuffled` of the array before it, with one word consumed per step |
| `Shuffler.SizeTMinusOne` | randln.c:130 | the loop bound `count - 1` in size_t arithmetic is `count - 1` for `count >= 1` and wraps to the largest size_t at `count == 0` |
| `Shuffler.ShuffledShortIsIdentity` | randln.c:130 | a shuffle of zero or one record leaves it unchanged |
| `Shuffler.DerangedFrom` | randln.c:130-134 | the loop invariant: positions before step `i` no longer hold their original record, positions from `i` on hold their own record or one from before `i`, and after the first step at least one of them holds a record from before `i` |
| `Shuffler.ShuffledIsDerangement` | randln.c:130-134 | with two or more distinct records, no record ends at its original index |
| `Randomize.EmittedNewlineCount` | randln.c:245-248 | emitting records that contain no `'\n'` writes exactly one `'\n'` per record |
| `Randomize.EmitLines` | randln.c:245-248 | the output is each record's bytes followed by one `'\n'`, in array order |
| `Randomize.ShuffledRecordsHaveNoNewline` | randln.c:239-242 | after populating and shuffling, every record in the array is a record of the text and contains no `'\n'` |
| `Randomize.RandomizeLines` | randln.c:233-249 | the output is the emission of the shuffled records of `populate_lines`, and it holds exactly `line_count` newline bytes |
| `Randomize.ShuffledLinesAllMove` | randln.c:239-242 | with two or more lines, no line is printed at the position it had in the file |
| `Randomize.LineCountDropsOne` | randln.c:187-196 | `count_lines` always reports exactly one line fewer than the text has |
| `Randomize.LineCountRecordsDropLast` | randln.c:187-224 | for every non-empty text, the records written under the count `count_lines` returns are the records of the text's true line count with the last one dropped |
| `Randomize.LastLineDropped` | randln.c:181-199 | for both `"a\nb\nc\n"` and `"a\nb\nc"` `count_lines` gives 2, and in each case only `"a\n"` and `"b\n"` are emitted in original order |
| `Randomize.IntendedCountCoversText` | randln.c:193-196 | with the corrected line count, segmenting the text and emitting the records in order gives back the text, with a `'\n'` added after an unterminated last line; a text holding only `"\n"` counts as one empty line |
| `Randomize.IntendedShuffleCoversText` | randln.c:233-248 | with the corrected line count, the shuffle permutes exactly the records whose in-order emission gives back the text (with a final `'\n'` added) |
| `Randomize.OneLineTextCountsZero` | randln.c:187-196 | every non-empty text with exactly one line makes `count_lines` return 0 |
| `Randomize.SingleLineTextUnderflowsShuffle` | randln.c:130 | `"x"` and `"x\n"` make `count_lines` return 0, and at `count == 0` the shuffle's loop bound wraps to a positive value |

## Findings

| source | as written | input that shows it | evidently intended | confidence | as-written member | corrected member |
|---|---|---|---|---|---|---|
| randln.c:193-196 | the trailing-newline decrement runs after every `'\n'` has already been counted, so the count is one short and the last line is never printed | `"a\nb\nc\n"` gives 2 lines, and `c` is not printed | count the `'\n'`-terminated lines plus a final unterminated one, so every line is printed (a text holding only `"\n"` is one empty line) | high, not executed | `Randomize.LastLineDropped` and `Randomize.LineCountRecordsDropLast` (model `Segments.CountLines`) | `Randomize.IntendedCountCoversText` (about `IntendedLineCount`) |
| randln.c:130 | `count - 1` is computed in size_t, so at `count == 0` the loop runs and touches `lines[0]` of an empty array; `count_lines` returns 0 for any one-line file | the file `"x\n"` or `"x"` | an empty or one-record array is left unchanged | high, not executed | `Randomize.SingleLineTextUnderflowsShuffle` and `Randomize.OneLineTextCountsZero` (about `Shuffler.SizeTMinusOne`) | `Shuffler.ShuffledShortIsIdentity` (about `Shuffler.Shuffle`) |

`RandomizeLines` takes the line count as a parameter, as `randomize_lines` does.
With the corrected count, the records emitted in their original order give
back the text, with a final `'\n'` added (`IntendedCountCoversText`).
`RandomizeLines` prints the same records in shuffled order
(`IntendedShuffleCoversText`).
`Shuffle` uses the corrected loop guard. That guard equals randln's for every
non-empty array.

## Left out

- `main` and `usage_error` (randln.c:56-73, randln.c:252-261). They only check
  arguments and call `exit`.
- `init_random` and `urandom` (randln.c:77-106). Opening `/dev/urandom`, `read`
  and the short-read abort are I/O. The words they return are the `words`
  parameter of `Shuffle` and `RandomizeLines`. There must be at least
  `count - 1` of them.
- `read_file` (randln.c:139-178). `fopen`, `fstat` and `mmap` and their error
  reports are OS calls. The mapped contents are the `text` parameter.
- `put_text_segment`'s `fwrite` and the `putc` of `'\n'` (randln.c:227-231,
  randln.c:246-247). They become appending `Bytes(text, record)` and `'\n'` to
  the returned output.
- Uniformity and the modulo bias of `urandom() % count`. These are
  probabilistic statements. The model proves only which indices can be drawn.
- `CountLines` requires a non-empty text. randln reads the byte before the end
  of the mapping even for an empty file, whose mapping failed. The model does
  not give that read a meaning.
- `CountLines`: the counter is an unbounded `nat`. randln uses a 32-bit
  `unsigned` that would wrap after 2^32 - 1 newlines. Files that large are
  not modelled.
- The `int` index of the emission loop (randln.c:245) and the `long` line count
  are unbounded naturals here. Overflow past 2^31 lines is not modelled.
- Pointer arithmetic past the end of the mapping in `populate_lines`
  (randln.c:221) is modelled as offsets. So records past the end are harmless
  values here. In C, forming those pointers is undefined behaviour.
- `Shuffle` and `RandomizeLines` at a line count of 0: the model leaves the
  empty array alone and `RandomizeLines` returns `""`. randln declares a
  zero-length array (randln.c:236) and runs its shuffle loop with a wrapped
  size_t bound (randln.c:130), which is undefined behaviour in C. The model
  follows the corrected guard, as the second finding says.
- The stack-allocated variable-length array (randln.c:236) and its size limits.
  The model allocates a fresh Dafny array.
