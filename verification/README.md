# ROM corruptor, modelled in Dafny

`Corruptorv4.py` corrupts a file in place, such as an NES ROM. It clamps a
requested offset range to the file. It then walks that range in strides of
`chunk_size` bytes and flips one coin per stride. In every stride whose coin
comes up, it rewrites each byte with one of four rules: `flip_bit`,
`increment`, `decrement` or `randomize`. The rule is either one fixed method
or a pattern of methods used in turn. If a log file is named, the tool dumps
one entry per written byte.

This project models that core in four modules:

- `ByteRules` (`byte_rules.dfy`) holds `corrupt_byte`: the four rules on a
  byte value, and the error for any other method name. `^` on non-negative
  integers is defined one binary digit at a time (`Xor`).
- `RomWalk` (`rom_walk.dfy`) defines what a run leaves behind, offset by
  offset, without following the loop. It covers:
  - the clamp;
  - the strides (`StrideStart`, `StrideOf`);
  - the rule of a stride (`RuleAt`);
  - the first stride at which the run stops (`Halt`);
  - the rewritten offsets and their values (`Rewritten`, `Rewrite`);
  - the log (`Entries`).

  `RunSpec` puts these together.
- `Corruptor` (`corruptor.dfy`) follows the loop of `corrupt_nes_rom`, one
  stride at a time, over an in-memory file. `CorruptNesRom` is proved to
  return exactly the outcome `RunSpec` describes.
- `WalkProperties` (`walk_properties.dfy`) proves properties about every
  outcome `RunSpec` admits. They cover the frame, the log, the rule
  selection, determinism and worked examples.

The randomness is supplied as inputs:

- `Choices.corrupts` holds one coin per stride, indexed by stride number. It
  stands for `random.random() < corruption_chance`.
- `Choices.draws` holds one `Draw(bit, value)` per offset. It stands for the
  `randint` calls a rewrite of that offset would consume.

A run ends as either `Completed(rom, log)` or `Aborted(rom, error)`. In an
aborted run, the bytes already written stay in the file and no log is written.

Where the code and a plain reading of the tool's description differ, the
model follows the code:

- **Pattern index.** In pattern mode the rule is
  `pattern[stride start % len(pattern)]`, not the pattern entry of each byte's
  own offset, so all bytes of one stride share a rule
  (`WalkProperties.PatternIndexedByStrideStart`).
- **Log field.** The field `original_byte` (here `originalByte`) holds the
  value written, not the value read.
- **Empty file.** The clamp maps it to the window 0..0. The run fails on the
  empty read only if stride 0 is selected; otherwise it completes untouched.
- **Chunk size.** A chunk size of 0 fails before anything is written
  (`range` refuses a zero step). A negative chunk size makes the walk empty.
- **Unknown method.** An unknown method name is only detected when a
  selected stride first uses it. Earlier strides' writes persist.

## Model

| member | source | states |
|---|---|---|
| ByteRules.ParseMethod | Corruptorv4.py:7-18 | a name selects a rule exactly when it is one of the four names, compared exactly, and the selected rule carries that name |
| ByteRules.ParseMethodName | Corruptorv4.py:7-18 | each of the four rule names selects its own rule |
| ByteRules.FlipBitAt | Corruptorv4.py:8-10 | flipping bit k of a byte gives a byte, and never the same byte |
| ByteRules.FlipBitChangesExactlyBitK | Corruptorv4.py:8-10 | `flip_bit` with bit index k inverts bit k and leaves every other bit as it was |
| ByteRules.FlipBitInvolution | Corruptorv4.py:8-10 | flipping the same bit twice restores the byte |
| ByteRules.XorBit | Corruptorv4.py:10 | each bit of `a ^ b` is the exclusive or of the operands' bits |
| ByteRules.XorBelowPow2 | Corruptorv4.py:10 | `^` of two numbers below 2^n stays below 2^n |
| ByteRules.XorCancel | Corruptorv4.py:10 | `(a ^ m) ^ m == a` |
| ByteRules.SameBitsEqual | Corruptorv4.py:10 | two non-negative integers with the same bits are equal |
| ByteRules.Pow2Bit | Corruptorv4.py:9 | `1 << k` has bit k set and no other |
| ByteRules.IncrementByte | Corruptorv4.py:11-12 | `increment` gives a byte: b + 1, wrapping 255 to 0 |
| ByteRules.DecrementByte | Corruptorv4.py:13-14 | `decrement` gives a byte: b - 1, wrapping 0 to 255, and `increment` undoes it |
| ByteRules.IncrementDecrementInverse | Corruptorv4.py:11-14 | `increment` and `decrement` are inverses on every byte, with 255 -> 0 and 0 -> 255 |
| ByteRules.Apply | Corruptorv4.py:7-16 | every rule maps a byte to a byte; `flip_bit` gives `b ^ (1 << k)` for the drawn bit k; `randomize` returns its draw; the other three always change the byte |
| ByteRules.CorruptByte | Corruptorv4.py:7-18 | the result is a byte exactly when the name is one of the four rules, and otherwise an error carrying that name; the results of `flip_bit` (`b ^ (1 << k)` for the drawn bit k), `randomize`, `increment` and `decrement` |
| RomWalk.Clamp | Corruptorv4.py:31-32 | the clamped window satisfies 0 <= start <= end <= size - 1 for a non-empty file; it is 0..0 for an empty one; a start at or below 0 becomes 0, one at or past the last offset becomes size - 1, and one in range is kept; an end past the file becomes size - 1, one at or below the clamped start becomes that start, and one in between is kept |
| RomWalk.FirstFailure | Corruptorv4.py:38-49 | the run stops at the first selected stride whose first byte cannot be read or has an unknown rule name; no earlier stride fails |
| RomWalk.HaltWhenNoneFails | Corruptorv4.py:38-49 | when no stride fails, the walk reaches the end of the window |
| RomWalk.StrideStartGrows | Corruptorv4.py:38 | each stride starts at least one chunk after the one before it |
| RomWalk.StrideOfBounds | Corruptorv4.py:38-42 | an offset lies in stride j exactly when it is in [start of j, start of j + chunk size) |
| RomWalk.StrideCountBounds | Corruptorv4.py:38 | stride j exists exactly when its start is at most the clamped end |
| RomWalk.EntriesSkip | Corruptorv4.py:54-55 | offsets that are not rewritten add nothing to the log |
| Corruptor.CorruptOffset | Corruptorv4.py:41-55 | one offset of a selected stride: the run stops there exactly when it is the stride's first offset and the stride fails, with that stride's error and nothing written; otherwise the offset holds its corrupted value and is logged |
| Corruptor.CorruptStride | Corruptorv4.py:40-55 | one selected stride: it fails at its first byte exactly when the run stops there, with that error and nothing written; otherwise it rewrites and logs every offset of the stride up to the clamped end |
| Corruptor.CorruptNesRom | Corruptorv4.py:29-55 | the loop returns exactly the outcome of the walk's specification: a zero chunk size fails untouched; a negative one completes untouched; otherwise each byte is rewritten exactly when it is in a selected stride the run reaches, the run completes exactly when no stride fails, an aborted run reports the failing stride's error, and a completed run's log is the rewritten offsets in order |
| Corruptor.WriteStep | Corruptorv4.py:43-55 | writing an offset of a selected stride stores its corrupted value and adds one log entry for it |
| Corruptor.StoreStep | Corruptorv4.py:51-52 | writing the corrupted value at the next offset extends the handled part of the stride by that offset |
| Corruptor.FinishStride | Corruptorv4.py:40-42 | the inner loop ends at the end of the stride or of the window, and the stride then counts as handled |
| Corruptor.SkipStride | Corruptorv4.py:39 | a stride whose coin does not come up changes no byte and logs nothing |
| Corruptor.StopAt | Corruptorv4.py:38-55 | when the walk stops, the bytes written are exactly the rewritten ones |
| WalkProperties.ClampIdempotent | Corruptorv4.py:31-32 | clamping a clamped window changes nothing |
| WalkProperties.EntriesWithin | Corruptorv4.py:38-55 | the log names only rewritten offsets of the walked range, each with its written value |
| WalkProperties.EntriesInOrder | Corruptorv4.py:38-55 | the log lists its offsets in strictly increasing order |
| WalkProperties.EntriesComplete | Corruptorv4.py:38-55 | the log names every rewritten offset |
| WalkProperties.EntriesCount | Corruptorv4.py:54-55 | when every offset of a range is rewritten, the log has one entry per offset |
| WalkProperties.ChangesOnlyInSelectedStrides | Corruptorv4.py:38-52 | a byte differs from the original only if the chunk size is positive and the byte is in the clamped window, in a stride whose coin came up |
| WalkProperties.NoCoinNoChange | Corruptorv4.py:38-39 | when no coin comes up, the file is unchanged and the log is empty |
| WalkProperties.PatternRuleOfStrideStart | Corruptorv4.py:46-47 | in pattern mode every rewritten byte is corrupted with the pattern entry at its stride's start offset modulo the pattern length |
| WalkProperties.FixedMethodRule | Corruptorv4.py:48-49 | without a pattern every rewritten byte is corrupted with the fixed method |
| WalkProperties.StrideUsesRuleOfItsStart | Corruptorv4.py:46-49 | every byte of a rewritten stride is corrupted with the pattern entry at the stride's start offset, or with the fixed method when there is no pattern |
| WalkProperties.RunDeterministic | Corruptorv4.py:28-55 | given the same file, arguments and random choices, a run has exactly one outcome |
| WalkProperties.SameWindowSameRun | Corruptorv4.py:31-38 | two requests whose offsets clamp to the same window run identically |
| WalkProperties.OutOfRangeOffsetsCoverWholeFile | Corruptorv4.py:31-32 | on a 100-byte file, offsets -5 and 10000000 behave as 0 and 99 |
| WalkProperties.EveryByteRewritten | Corruptorv4.py:38-55 | on a non-empty file, with every coin up and every rule name known, the run completes, rewrites every byte of the clamped window and logs end - start + 1 entries |
| WalkProperties.LogIncreasingInRun | Corruptorv4.py:38-55 | a completed, logged run lists its offsets in strictly increasing order |
| WalkProperties.LogValuesInFile | Corruptorv4.py:51-55 | each entry of a completed, logged run holds the byte now in the file at its offset (the value written) |
| WalkProperties.LogNamesRewritten | Corruptorv4.py:38-55 | a completed, logged run logs exactly the rewritten offsets |
| WalkProperties.LogMatchesFile | Corruptorv4.py:54-55 | a completed, logged run logs each rewritten offset exactly once, in increasing order, and each entry's value is the byte now in the file at that offset |
| WalkProperties.EmptyFileRun | Corruptorv4.py:29-44 | on an empty file the run fails on the empty read if stride 0's coin comes up, and completes untouched otherwise |
| WalkProperties.UnknownMethodFailsOnlyWhenUsed | Corruptorv4.py:38-49 | on a non-empty file, an unknown fixed method fails the run exactly when some coin comes up, with that name as the error, and nothing is written |
| WalkProperties.RunKeepsBytes | Corruptorv4.py:44-52 | every value a run leaves in the file is a byte |
| WalkProperties.PatternIndexedByStrideStart | Corruptorv4.py:46-47 | with strides of two and an `increment`/`decrement` pattern, the four zero bytes all become 1, because both strides start at even offsets |
| WalkProperties.IncrementEverywhere | Corruptorv4.py:11-12 | on a non-empty file, with every coin up and the fixed method `increment`, the run completes, every byte of the clamped window is incremented (255 wraps to 0), and a logged run has end - start + 1 entries; sixteen zero bytes with strides of four thus become sixteen 1s with sixteen entries |

## Left out

- File I/O is not modelled. The file is a sequence of byte values. Seeking,
  reading and writing become indexing and updating. The file size is the
  sequence length.
- The `.bak` backup (lines 22-26) is file-system plumbing and is not modelled.
- The JSON dump of the log (lines 57-59) is not modelled. A completed run
  returns the log it would dump. A run that raises dumps nothing, and neither
  does the model.
- `random.random() < corruption_chance` (line 39) is not modelled, to avoid
  floating point and a global generator. The coins are an input sequence.
  `random.randint` in `flip_bit` and `randomize` is replaced by the per-offset
  `Draw`s.
- The `tqdm` progress bar (line 38) only observes progress and is not
  modelled.
- The success message and the catch-all `except` (lines 61-63) are not
  modelled. The model returns the error instead of printing it.
- The command-line parser (lines 65-89) is user-interface glue and is not
  modelled. Its `choices` restriction on method names is therefore absent,
  and the model handles any method string.
- ByteRules.CorruptByte: requires a byte value in 0..255, as the walk always
  passes `ord` of a one-byte read. The behaviour of `corrupt_byte` on other
  integers is not modelled.
- Corruptor.CorruptNesRom: requires one coin per stride and one draw per
  offset. The source draws these lazily, only as the walk needs them.
