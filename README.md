# ravensaid in Dafny

ravensaid rates how likely it is that a message was written by Ravenholdt.
It uses a small neural network over a byte one-hot encoding of the message.
The Rust program `src/main.rs` trains the network from four quote corpora and
runs it interactively on standard input. The Rust library `src/lib.rs` gives C
three functions: `ravensaid_init`, `ravensaid` and `ravensaid_free`.

This project models the parts of that code that are exact, not floating point,
and proves properties about them:

- `utf8.dfy` (`Utf8`): the bytes of a string (`str::bytes`) and the validity
  check of `CStr::to_str`. Both follow sections 3 and 4 of RFC 3629.
- `encoder.dfy` (`Encoder`): `sentence_to_tensor`, the 32 × 256 one-hot
  encoding. `OneHot` states what the vector is. The method `SentenceToTensor`
  fills an array, as the source fills its `Vec`.
- `dataset.dfy` (`Dataset`): splitting each corpus on blank lines, chaining
  berk with sidju, the three-way round-robin `loop`, and the `split_off` that
  holds out a fifth of the data for validation.
- `schedule.dfy` (`Schedule`): the epoch loop of `train_nn`. This covers the
  shard each epoch trains on, the learning-rate switch at epoch 50, and the
  checkpoint file name.
- `evaluation.dfy` (`Evaluation`): the counting done by `test`.
- `library.dfy` (`Library`): the C interface.
  - `ravensaid_init` and `ravensaid_free` act on a `RavensaidState` object.
  - `ravensaid` has an inlined copy of the encoder and maps the network output
    to a result code.
- `interactive.dfy` (`Interactive`): the per-line decision of the interactive
  loop, and the whole loop as given by that decision.
- `wrappers.dfy` (`Wrappers`): `Option`.

Foreign parts are parameters of the model:

- The trained network, meaning the forward pass followed by the sigmoid, is a
  function `seq<real> -> real`.
- Loading weights from a path is a function that may fail.
- The prediction used by `test` is a function from quote to `bool`.
- Standard input is the sequence of lines still to be read.
- The corpus files are the four strings already read from them.

Three facts about the code are easy to miss:

- **The sample count is not a strict 3 × min.** With 50 negative, 10
  Ravenholdt and 8 dreamer quotes the loop gives 26 samples. The last round
  adds one negative quote and one Ravenholdt quote before the dreamer stream
  runs out (`Dataset.UnbalancedExample`).
- **A rating is not capped at 10000.** The code rejects only outputs above 2.0
  or below 0.0, so a rating can be up to 20000 (`Library.FixedPointRange`).
  `ravensaid.h` says the same: -2 only above 200%.
- **What -1 means.** `ravensaid.h` says -1 also means "bad length". The code
  never checks a length: -1 means a null pointer or bytes that are not UTF-8.
  A long message is cut to 32 bytes by the encoder.

## Model

| member | source | states |
|---|---|---|
| Utf8.EncodeChar | src/main.rs:143 | one scalar value takes 1 to 4 bytes; it takes one byte exactly when it is ASCII |
| Utf8.Encode | src/main.rs:143 | a string has at least as many bytes as characters |
| Utf8.CharLength | src/lib.rs:83 | a well-formed leading character is at most 4 bytes and fits in the input; an ASCII lead byte is a 1-byte character |
| Utf8.CharLengthOfEncodeChar | src/lib.rs:83 | decoding reads the bytes of an encoded character back as one well-formed character of the same length |
| Utf8.EncodeIsValid | src/lib.rs:83-86 | the bytes of every string pass `to_str`'s check |
| Utf8.EncodeAscii | src/main.rs:143 | an ASCII string is encoded byte for byte, at the same length |
| Utf8.EncodeNoNul | src/lib.rs:83 | a string without NUL characters has no 0 byte in its UTF-8 form |
| Utf8.EncodeAppend | src/main.rs:143-144 | the bytes of a concatenation are the concatenation of the bytes |
| Encoder.Consumed | src/main.rs:144-145 | the encoder uses min(32, number of bytes) bytes |
| Encoder.OneHot | src/main.rs:141-142 | the tensor has exactly 32 · 256 = 8192 entries |
| Encoder.SentenceToTensor | src/main.rs:139-149 | filling the zeroed vector in the loop, with the break at index 32, yields exactly `OneHot` of the string's bytes |
| Encoder.OneHotEntry | src/main.rs:144-146 | every entry is 0 or 1; an entry is 1 exactly when it is the slot `i*256 + bytes[i]` of some byte `i` below the cutoff |
| Encoder.SlotIsSet | src/main.rs:146 | every write index `i*256 + b` is below 8192, and the entry written reads 1 |
| Encoder.AtMostOnePerBlock | src/main.rs:146 | each block of 256 entries holds at most one 1 |
| Encoder.OnesAppend | src/main.rs:142-146 | counting the 1s of a concatenation adds the counts of its parts |
| Encoder.OnesUnitBlock | src/main.rs:146 | a block with one byte written holds one 1; a block with none holds no 1 |
| Encoder.OnesOfBlocks | src/main.rs:144-146 | the first `i` blocks hold `min(i, consumed)` ones |
| Encoder.OnesCount | src/main.rs:144-146 | the tensor holds exactly `min(32, number of bytes)` ones |
| Encoder.Truncation | src/main.rs:145 | bytes after position 31 do not change the tensor |
| Encoder.OneHotInjective | src/main.rs:144-146 | two byte sequences encode alike if and only if their first 32 bytes agree |
| Encoder.SameSlot | src/main.rs:146 | equal tensors have equal bytes at every consumed position of either input |
| Encoder.EmptyIsZero | src/main.rs:142-144 | the empty string encodes as all zeros, with no 1s |
| Encoder.OnlyPrefixMatters | src/main.rs:145 | appending bytes to 32 or more bytes leaves the tensor unchanged |
| Encoder.FortyAsLikeThirtyTwo | src/main.rs:145 | forty `A`s encode the same as thirty-two |
| Dataset.Split | src/main.rs:61-63 | splitting on a non-empty separator yields at least one chunk, possibly empty |
| Dataset.JoinSplit | src/main.rs:61-63 | joining the chunks with the separator gives back the text |
| Dataset.FirstChunkIsPrefix | src/main.rs:61-63 | the first chunk is a prefix of the text |
| Dataset.FirstChunkEndsAtSeparator | src/main.rs:61-63 | the first chunk ends at the leftmost occurrence of the separator: none occurs inside it, and when there is more than one chunk one occurs right after it |
| Dataset.ChunksAreFree | src/main.rs:61-63 | no chunk contains the separator |
| Dataset.OverlappingSeparator | src/main.rs:61-63 | overlapping separators are taken from the left: three newlines split into an empty quote and a quote of one newline |
| Dataset.OtherQuotes | src/main.rs:61 | the negative stream `bi` is the berk chunks followed by the sidju chunks, so it has at least two entries |
| Dataset.RoundRobin | src/main.rs:66-80 | one quote from each stream in turn, labelled false, true, false, stopping at the first empty stream |
| Dataset.OtherQuotesOrder | src/main.rs:60-61 | the negative stream is the berk chunks in order, then the sidju chunks in order |
| Dataset.Interleave | src/main.rs:65-80 | the `loop` pushes exactly the round-robin sequence of labelled quotes |
| Dataset.RoundRobinLength | src/main.rs:66-80 | the data has `3k + [b>k] + [b>k and r>k]` samples, where `k = min(b, r, d)` |
| Dataset.RoundRobinAt | src/main.rs:68-79 | entries `3j`, `3j+1` and `3j+2` are `(bi[j], false)`, `(ri[j], true)` and `(di[j], false)` |
| Dataset.RoundRobinIndex | src/main.rs:68-79 | entry `i` is the `i/3`-th quote of the negative, Ravenholdt or dreamer stream, by `i % 3`, with that stream's label |
| Dataset.UnbalancedExample | src/main.rs:66-80 | corpora of 50, 10 and 8 quotes give 26 samples |
| Dataset.SplitOff | src/main.rs:81 | `split_off(at)` keeps the first `at` elements; the two parts concatenate to the original |
| Dataset.Samples | src/main.rs:55-80 | the interleaving of the split corpora holds between `3k` and `3k + 2` samples, `k` the shortest stream's length, at most `3r + 1` for `r` Ravenholdt quotes, and at least one |
| Dataset.BuildData | src/main.rs:55-82 | validation is the first fifth, rounded down, of the interleaved samples; validation followed by training is exactly that data |
| Dataset.SampleOrigins | src/main.rs:60-80 | every sample is labelled Ravenholdt exactly when it came from the Ravenholdt corpus, and its text is the quote of its stream at its round |
| Schedule.ShardLength | src/main.rs:96 | `len` is the training size divided by 10, rounded down: `10 * len <= n < 10 * len + 10` |
| Schedule.ShardStart | src/main.rs:97 | `starting_point` is a multiple of `len` whose quotient is `epoch % 10` |
| Schedule.ShardInBounds | src/main.rs:96-99 | `starting_point + len` never exceeds the training data, so the slice is in bounds |
| Schedule.SameResidueSameShard | src/main.rs:97 | epochs with the same residue mod 10 train on the same shard |
| Schedule.DifferentResiduesDisjoint | src/main.rs:96-99 | epochs with different residues train on disjoint shards |
| Schedule.ShardCoverage | src/main.rs:96-99 | every position below `10 * len` lies in the shard of some epoch 0 to 9; the last `n % 10` examples lie in no shard |
| Schedule.Shard | src/main.rs:96-99 | an epoch's shard has `n / 10` examples, taken in order from its starting point |
| Schedule.Slice | src/main.rs:99 | a slice holds the `len` elements from `start` on |
| Schedule.LearningRateAt | src/main.rs:89-91 | the rate of an epoch is one of the two named rates, never above the first |
| Schedule.PrefixArgument | src/main.rs:32 | a missing prefix argument becomes the empty string, a given one is used as is |
| Schedule.CheckpointName | src/main.rs:116 | `./`, the prefix, `epoch_`, the decimal epoch and `.nn`, in that order |
| Schedule.CheckpointNameShape | src/main.rs:116 | a checkpoint name starts with `./` and the prefix, ends in `.nn`, and is at least 10 characters longer than the prefix |
| Schedule.Decimal | src/main.rs:116 | `{}` writes decimal digits with no leading zero |
| Schedule.DecimalRoundTrip | src/main.rs:116 | reading the decimal form back gives the number |
| Schedule.EpochOfCheckpointName | src/main.rs:116 | the epoch can be read back from its checkpoint name |
| Schedule.DefaultCheckpointName | src/main.rs:32 | without a prefix argument the checkpoints are `./epoch_N.nn` |
| Schedule.CheckpointNamesDistinct | src/main.rs:116 | with the same prefix, distinct epochs save to distinct files |
| Schedule.TrainEpochs | src/main.rs:89-117 | epoch `e` uses `LearningRateAt(e)`, trains on `Shard(data, e)` and saves to `CheckpointName(prefix, e)`; the loop runs 100 epochs when every save succeeds, and otherwise stops after the first epoch whose save fails, with an error |
| Schedule.LearningRateSteps | src/main.rs:89-91 | the rate is the first rate exactly before epoch 50, and it never rises |
| Evaluation.Correct | src/main.rs:160-162 | a prediction succeeds when the rounded output equals the label |
| Evaluation.Successes | src/main.rs:158-165 | there are never more successes than samples |
| Evaluation.Test | src/main.rs:154-165 | one test per sample; successes counts the correct predictions |
| Evaluation.SuccessesAppend | src/main.rs:158-165 | success counts add over concatenation |
| Evaluation.AllCorrect | src/main.rs:158-165 | every test passes if and only if every prediction matches its label |
| Utf8.Valid | src/lib.rs:38 | the bytes are well-formed UTF-8; a valid non-empty sequence starts with an ASCII byte or a lead byte in C2 to F4 |
| Library.IsText | src/lib.rs:83 | the message is not null and its bytes pass `to_str` |
| Library.RavensaidState.constructor | src/lib.rs:54-57 | a new state holds the loaded network and is live |
| Library.RavensaidInit | src/lib.rs:33-58 | null exactly for a null path, a path that is not UTF-8, or a failed load; otherwise a new live state with the loaded network |
| Library.RavensaidFree | src/lib.rs:61-68 | needs a non-null, live state, since null panics; afterwards the state is no longer live |
| Library.FixedPoint | src/lib.rs:103-108 | above 2.0 gives -2, checked first; below 0.0 gives -3; otherwise the output×10000 truncated |
| Library.FixedPointRange | src/lib.rs:70-73 | a rating is non-negative exactly for outputs in [0, 2]; it is at most 20000, at most 10000 for an output up to 1, and never -1 |
| Library.FixedPointMonotone | src/lib.rs:107 | a higher output never gets a lower rating |
| Library.Ravensaid | src/lib.rs:75-109 | a null or non-UTF-8 message gives -1 without using the state; otherwise the inlined encoder produces exactly `Encoder.OneHot`, and the result is the fixed-point code of the network's output on it |
| Library.Rating | src/lib.rs:80-108 | the result of `ravensaid` is -1 exactly for a null or non-UTF-8 message, and always lies in [-3, 20000] |
| Library.RatingCodes | src/lib.rs:80-108 | -1 comes exactly from bad messages, whatever the network; every result is -1, -2, -3 or a rating in [0, 20000] |
| Library.BadMessageIgnoresNetwork | src/lib.rs:80-86 | the result for a bad message does not depend on the network |
| Library.StringMessagesAreRated | src/lib.rs:83-86 | the bytes of a string without NUL have no 0 byte, and as a message they are never rejected as bad |
| Interactive.Pop | src/main.rs:129 | `pop` removes exactly the last character, whatever it is |
| Interactive.LineAction | src/main.rs:127-130 | 0 bytes read gives `continue`; otherwise the line stops the loop exactly when it is `exit` once its last character is dropped, and is rated otherwise |
| Interactive.ExitAnyTerminator | src/main.rs:129-130 | `exit` followed by any one character stops the loop |
| Interactive.ExitNeedsOneTerminator | src/main.rs:129-130 | a final `exit` without a newline, or `exit` ended by CR LF, is rated instead |
| Interactive.ReadLine | src/main.rs:126-127 | `read_line` reads 0 bytes exactly at end of input; otherwise it reads the next line |
| Interactive.BlankLineIsRated | src/main.rs:127-132 | a blank line typed by the user is rated as the empty message, not skipped |
| Interactive.RunAsWritten | src/main.rs:125-135 | the loop as written rates at most one message per input line and per iteration |
| Interactive.EndOfInputNeverStops | src/main.rs:125-128 | at end of input the loop as written never stops |
| Interactive.NoExitNeverStops | src/main.rs:125-135 | on input without an `exit` line the loop as written never stops |
| Interactive.LineActionCorrected | src/main.rs:127-130 | corrected: 0 bytes read stops the loop; any other read is decided as written |
| Interactive.RunCorrected | src/main.rs:125-135 | the corrected loop always stops |
| Interactive.AsWrittenFuel | src/main.rs:125-135 | a session that has stopped is not changed by running longer |
| Interactive.RatedLineStep | src/main.rs:127-132 | a rated line records its message in both loops, then the loop continues with the rest of the input |
| Interactive.CorrectedAgreesOnExit | src/main.rs:125-135 | on input with an `exit` line, the corrected loop behaves exactly as the loop as written |

## Left out

- The neural network and its training. This covers the `seq`/`linear` layers,
  `forward`, `sigmoid`, `binary_cross_entropy_with_logits`, Adam,
  `backward_step_clip`, the `Float` kind conversion and CUDA selection. They are
  foreign floating-point code. The network is an opaque function, and the
  optimiser is reduced to the learning rate it is set to.
- `bool_to_tensor` and the loss computed from it: they only feed the
  foreign loss.
- `sum_loss`/`cnt_loss` and the mean loss printed per epoch: accumulated
  floating point.
- The success percentage printed by `test`: floating point. Only the integer
  counts are modelled.
- `VarStore::save`/`load` and the checkpoint format: foreign serialisation and
  file I/O. Only the file name is kept, and whether loading or saving fails.
- `read_to_string` of the `data/*.txt` files: file I/O. The contents are
  parameters.
- Every `println!`/`eprintln!`: output only.
- Scoring and printing each interactive line: foreign network and output. A
  session records which messages would be scored.
- The command-line dispatch in `main`: only its "missing prefix means empty"
  rule is kept (`Schedule.PrefixArgument`).
- `test.c`, a C demo of the interface. `ravensaid.h` holds declarations only;
  its comments were read alongside `src/lib.rs`.
- Library.FixedPoint: models `(output * 100. * 100.) as i32` as the exact floor
  of `output × 10000` over the reals. It does not model f64 rounding, which can
  differ by one. It also leaves out NaN, which passes both range checks and
  saturates to 0.
- Library.Ravensaid: the state is a Dafny object. Dangling or foreign pointers,
  a use after free, and a null state with a valid message are not modelled. The
  precondition requires a live state whenever the message is valid, because
  the source then dereferences it.
- Library.RavensaidFree: models the panic on null as a precondition. Freeing
  only flips the ghost `live` flag; memory itself is not modelled.
- Utf8.Valid: describes `CStr::to_str` by the syntax of section 4 of RFC 3629,
  not by the standard library's own code.
- Interactive.RunAsWritten: has a fuel bound, since the loop as written need
  not terminate. The `?` on read errors is not modelled.
- The tensor entries are `real` 1.0/0.0, standing for `f64` values that are
  whole numbers and exact.

## Findings

| source | as written | input that shows it | evidently intended | confidence | as-written member | corrected member |
|---|---|---|---|---|---|---|
| src/main.rs:127-128 | `read == 0` leads to `continue`. `read_line` returns 0 only at end of input, so once input ends the loop reads 0 bytes forever and never stops | standard input closed without an `exit` line, e.g. piped from an empty file | end of input ends the loop; a blank typed line is 1 byte and is not affected | not executed | Interactive.EndOfInputNeverStops | Interactive.RunCorrected |
