# i2sTXcircular in Dafny

A model of the non-hardware core of the ESP8266 `i2sTXcircular` library
(`libraries/i2sTXcircular/i2sTXcircular.c`). The library streams a mark/space
bit pattern out of the I2S data pin. Its sample buffer is played by the DMA
engine through a circular ring of descriptors.

The model covers four pieces:

- **Partition** (`partition.dfy`). This is `i2scInit`. It validates the total
  word count. It then splits the count into a power-of-two number of
  sub-buffers by repeated doubling and halving, and the leftover words go to
  the last sub-buffer.
- **Ring** (`ring.dfy`). This is the descriptor loop of `i2scSlc_begin`. It
  builds one descriptor per sub-buffer.
  - The buffer pointer is a word offset into the sample buffer.
  - The link pointer is an index into the ring.
  - The 12-bit `blocksize` and `datalen` fields are modelled as a truncation to
    12 bits.
- **Pattern** (`pattern.dfy`). This is the mark/space table, its setter
  `i2scSetMSArrayItem`, and the default pattern that `i2scBegin` installs.
- **Encoder** (`encoder.dfy`, `steady.dfy`). This is `i2scFillBuffersMS`.
  - The output is specified as an infinite bit stream. A step function over
    the encoder state defines it: record index, level, bits left in the
    phase, and repeat counter.
  - Word k is bits 32k to 32k+31 of the stream, packed most significant bit
    first.
  - The source's loop is a method. Its invariants prove that it stores
    exactly those words.
  - `steady.dfy` follows the stream record by record and compares it with an
    independent reference wave. Record i plays m ones then s zeros, for R
    cycles when its repeat count R is nonzero and forever when R is 0. After
    its last cycle the next record starts, or the same one again when it is
    the last. From that, every word of the default pattern is 0xFFFF0000.

Three more files hold the supporting code:

- `samples.dfy` is the sample buffer, with `i2scWriteSample` and
  `i2scClearBuffers`.
- `session.dfy` composes the pieces as `i2scBegin` does. It builds the ring,
  installs the default pattern and encodes.
- `words.dfy` holds the machine-word vocabulary: `uint16_t`, `uint32_t`, bits,
  and bit packing.

Details of the code that the model keeps, some of which a reader of the
library's comments might not expect:

- The repeat counter is bumped when a space phase ends, that is, when the
  level flips back to mark. It is not bumped when the mark phase ends.
- The remainder words are added to the last descriptor's `datalen` only. Its
  `blocksize` stays at the plain sub-buffer length.
- For every accepted count, the largest last `datalen` is 632 bytes. That is
  127 words plus 31 remainder words, at count 4095. The bound 4·(128+31) = 636
  is never reached, because 128-word sub-buffers only arise at count 4096,
  where the remainder is 0.
- The encoder's accumulator `sample` is never initialised in the source. The
  model takes its initial value as a parameter. The invariant constrains only
  the bits shifted in so far, so the stored words do not depend on it.

## Model

| member | source | states |
|---|---|---|
| Partition.Boot | libraries/i2sTXcircular/i2sTXcircular.c:16-21 | Before `i2scInit` runs, the static count, split and one-shot variables are all zero. |
| Partition.Init | libraries/i2sTXcircular/i2sTXcircular.c:228-244 | A count below 32 or above 4096 is rejected with `false`, and the configuration is left exactly as it was. Any other count sets the count and the one-shot flag, and sets a split satisfying `Balanced`. The success path returns no defined value. |
| Partition.Halve | libraries/i2sTXcircular/i2sTXcircular.c:234-240 | The doubling/halving loop ends at a power-of-two count of at most 32, with length count32/cnt. It stops because the count reached 32 or the length is at most 32. Every smaller power-of-two count it passed left sub-buffers longer than 32 words. |
| Partition.HalveStep | libraries/i2sTXcircular/i2sTXcircular.c:237-239 | One loop round keeps the invariant. Doubling a power of two below 32 stays a power of two of at most 32, and the halved length is the count divided by the doubled count. |
| Partition.LengthFloor | libraries/i2sTXcircular/i2sTXcircular.c:235-241 | On exit the sub-buffer length is at least 16 words, and the remainder is between 0 and the count minus 1. |
| Partition.Log2 | libraries/i2sTXcircular/i2sTXcircular.c:234-240 | Every count the halving loop can reach (a power of two) is 2 to the power of its logarithm, linking the loop's counts to the word-level powers of two. |
| Partition.Pow2IsPow2 | libraries/i2sTXcircular/i2sTXcircular.c:234-240 | Conversely, every power 2^k is a count the halving loop's doubling can produce. |
| Partition.BalancedUnique | libraries/i2sTXcircular/i2sTXcircular.c:233-241 | Any two splits of the same count that satisfy the loop-free characterisation are equal. So the split `Init` computes is the only one. |
| Partition.BalancedBounds | libraries/i2sTXcircular/i2sTXcircular.c:237-241 | For every accepted count, sub-buffers hold at most 128 words and the remainder is at most 31. |
| Partition.AcceptedCountReturnsNothing | libraries/i2sTXcircular/i2sTXcircular.c:242-244 | Count 32 is accepted and the configuration changes, but no value is returned. |
| Partition.InitChecked | libraries/i2sTXcircular/i2sTXcircular.c:228-244 | The corrected `i2scInit` returns true exactly for counts in [32, 4096]. The configuration is unchanged on `false` and balanced on `true`. |
| Pattern.EmptyTable | libraries/i2sTXcircular/i2sTXcircular.c:47-48 | The static table starts with size 0 and every one of the 100 records all zero; it is valid and every record below the size was written. |
| Pattern.SetMSArrayItem | libraries/i2sTXcircular/i2sTXcircular.c:123-137 | An index below 100 stores mark and repeat and sets the size to index+1. The space is stored unchanged exactly when mark+space > 0, and a 0/0 record gets space 16 instead, so the stored record is always productive. Any other index empties the table and leaves every record as it was. No other record changes in either case. |
| Pattern.InstallDefault | libraries/i2sTXcircular/i2sTXcircular.c:249-255 | An empty table becomes the one record {mark 16, space 16, repeat 0} with size 1. A non-empty table is untouched, and records 1 to 99 never change. |
| Pattern.SetterKeepsPrefix | libraries/i2sTXcircular/i2sTXcircular.c:123-137 | Setting any index up to the current size keeps every record below the size productive. |
| Pattern.DefaultMakesWellFormed | libraries/i2sTXcircular/i2sTXcircular.c:249-255 | A table written through the setter meets the encoder's termination condition once the default is installed. |
| Pattern.SkippedIndexIsNotWellFormed | libraries/i2sTXcircular/i2sTXcircular.c:133 | Setting only index 5 of the initial table leaves all-zero records below the size, so the termination condition fails. |
| Samples.WriteSample | libraries/i2sTXcircular/i2sTXcircular.c:119-121 | The word at the index becomes the sample and every other word is unchanged. |
| Samples.WriteOverwrites | libraries/i2sTXcircular/i2sTXcircular.c:119-121 | A second write to the same index replaces the first. |
| Samples.WritesCommute | libraries/i2sTXcircular/i2sTXcircular.c:119-121 | Writes to different indices commute. |
| Samples.ClearBuffers | libraries/i2sTXcircular/i2sTXcircular.c:139-142 | Every one of the 4096 words is zero afterwards, whatever the buffer held. |
| Ring.Field12 | libraries/i2sTXcircular/i2sTXcircular.c:25-26 | A 12-bit field holds values below 4096, and a value below 4096 is stored unchanged. |
| Ring.BuildRing | libraries/i2sTXcircular/i2sTXcircular.c:67-78 | The ring has one descriptor per sub-buffer, and every link points inside the ring. |
| Ring.RingCycle | libraries/i2sTXcircular/i2sTXcircular.c:75 | Following k links from descriptor 0 reaches descriptor k for k < bufCnt, so each descriptor is visited once in order. The bufCnt-th link returns to 0. |
| Ring.EofOnlyLast | libraries/i2sTXcircular/i2sTXcircular.c:70-77 | A descriptor has eof = 1 exactly when it is the last. |
| Ring.OwnedByDma | libraries/i2sTXcircular/i2sTXcircular.c:68-71 | Every descriptor has owner 1, sub_sof 0 and unused 0. |
| Ring.FieldsFit | libraries/i2sTXcircular/i2sTXcircular.c:72-78 | For an accepted split nothing is truncated. Every blocksize is 4·bufLen, and every datalen but the last is too. The last datalen is 4·(bufLen+remainder), at most 632. |
| Ring.LastLengthBound | libraries/i2sTXcircular/i2sTXcircular.c:237-241 | For an accepted split, the last sub-buffer holds at most 158 words. |
| Ring.LargestLastLength | libraries/i2sTXcircular/i2sTXcircular.c:233-241 | Count 4095 splits into 32 sub-buffers of 127 words with remainder 31, so the last datalen is 632. |
| Ring.Tiling | libraries/i2sTXcircular/i2sTXcircular.c:72-78 | Descriptor x starts at word x·bufLen. Each data range ends where the next begins, and the last ends at count32, so the ranges tile [0, count32). |
| Encoder.Start | libraries/i2sTXcircular/i2sTXcircular.c:146-152 | The encoder starts on record 0 at the mark level with repeat counter 0, and its bit counter is loaded with record 0's mark count. |
| Encoder.Emit | libraries/i2sTXcircular/i2sTXcircular.c:171 | Emitting a bit lowers the phase's bit counter by one and leaves the record index, level and repeat counter unchanged. |
| Encoder.Advance | libraries/i2sTXcircular/i2sTXcircular.c:155-168 | The transition at the end of a phase flips the level and keeps the state valid. The record index moves only on entry to a mark phase, by one, and never past size-1. |
| Encoder.AdvanceMakesProgress | libraries/i2sTXcircular/i2sTXcircular.c:155-168 | When every reachable record is productive, each transition gets closer to a phase with bits to emit. |
| Encoder.Settle | libraries/i2sTXcircular/i2sTXcircular.c:154-168 | Repeating the transition reaches a valid state with bits left, and the record index never decreases. |
| Encoder.ZeroRecordStalls | libraries/i2sTXcircular/i2sTXcircular.c:127-129 | With an all-zero record 0, two transitions return to the start state and no bit is ever emitted. This is the endless loop the setter guards against. |
| Encoder.WordIsNextBitsMsbFirst | libraries/i2sTXcircular/i2sTXcircular.c:170-176 | Bit i of word k, counted from the most significant end, is bit 32k+i of the stream. |
| Encoder.RecordIndexMonotone | libraries/i2sTXcircular/i2sTXcircular.c:162-164 | Along the stream the record index never decreases and stays below max(size, 1). |
| Encoder.SettleHolds | libraries/i2sTXcircular/i2sTXcircular.c:158 | A record with repeat 0 is never left while settling. |
| Encoder.HoldForever | libraries/i2sTXcircular/i2sTXcircular.c:158-166 | Once the stream reaches a record with repeat 0, it stays on that record for every later bit. |
| Encoder.EmitStep | libraries/i2sTXcircular/i2sTXcircular.c:169-171 | A settled state that stands for the stream after e bits emits bit e, and the decrement gives the state after e+1 bits. |
| Encoder.BitsExtend | libraries/i2sTXcircular/i2sTXcircular.c:170 | The first k+1 bits of a window are its first k bits followed by the next stream bit. |
| Encoder.ShiftInStep | libraries/i2sTXcircular/i2sTXcircular.c:170 | Shifting the next stream bit into the 32-bit accumulator extends its low bits from k to k+1 bits of the current word. |
| Encoder.FullWord | libraries/i2sTXcircular/i2sTXcircular.c:173-175 | After 32 shifts the accumulator equals the word of the stream. |
| Encoder.AdvanceKeepsStep | libraries/i2sTXcircular/i2sTXcircular.c:155-168 | A transition keeps the loop state in step with the stream and decreases the termination measure. |
| Encoder.EmitKeepsStep | libraries/i2sTXcircular/i2sTXcircular.c:169-171 | Emitting a bit moves the loop state one bit along the stream, and the level is that bit. |
| Encoder.ShiftKeepsAccumulated | libraries/i2sTXcircular/i2sTXcircular.c:170-172 | The accumulator invariant survives one shift. |
| Encoder.WordDone | libraries/i2sTXcircular/i2sTXcircular.c:173-176 | Storing a completed accumulator extends the prefix of correct words by one and leaves the rest of the buffer untouched. |
| Encoder.ShiftOut | libraries/i2sTXcircular/i2sTXcircular.c:169-177 | The source's bit branch advances the bit position by one and keeps the accumulator invariant. Exactly when 32 bits are in, it writes the current buffer index once and moves to the next word with all earlier words correct; otherwise it writes nothing and the buffer is unchanged. |
| Encoder.StoreWord | libraries/i2sTXcircular/i2sTXcircular.c:173-176 | The completed word goes to the current buffer index through `i2scWriteSample`, and moving to the next index keeps the words written so far correct. |
| Encoder.FillBuffersMS | libraries/i2sTXcircular/i2sTXcircular.c:145-181 | It returns true. Words 0 to count32-1 are the stream's words. The indices passed to `i2scWriteSample` are exactly 0, 1, ..., count32-1 in that order, and every word at or above count32 is untouched. It terminates when every reachable record is productive. |
| Steady.CyclePhase | libraries/i2sTXcircular/i2sTXcircular.c:150-171 | Once a cycle of a record starts at bit e, the stream after e+p bits stands p bits into the mark phase when p < mark and p-mark bits into the space phase otherwise, for every p within the cycle. |
| Steady.CycleEnd | libraries/i2sTXcircular/i2sTXcircular.c:155-168 | After a full cycle of mark+space bits the stream stands at the transition out of the space phase, with record and counter unchanged. |
| Steady.CycleRepeats | libraries/i2sTXcircular/i2sTXcircular.c:155-168 | A cycle that is not the last of its record is followed by another cycle of the same record, with the repeat counter one higher, or still 0 for a record with repeat 0. |
| Steady.CycleHandsOver | libraries/i2sTXcircular/i2sTXcircular.c:155-168 | The last cycle of a record with repeat R > 0 is followed by record i+1 when i < size-1 and by record i again otherwise, with the counter back at 0. |
| Steady.Rounds | libraries/i2sTXcircular/i2sTXcircular.c:155-168 | Entered at bit e with counter 0, a record begins its cycle c at bit e + c·(mark+space) for every c below its repeat count, and at every multiple of its period when its repeat is 0. |
| Steady.HandOver | libraries/i2sTXcircular/i2sTXcircular.c:155-171 | A record with repeat R > 0 entered at bit e hands over at bit e + R·(mark+space) to the next record (or itself, when last), and the first bit there is the next record's cycle start. |
| Steady.WithinRecord | libraries/i2sTXcircular/i2sTXcircular.c:150-171 | Entered at bit e with counter 0, record i emits bit e+n equal to the reference wave (1 exactly when n mod (mark+space) < mark) and is still the current record, for n below R·(mark+space), or for every n when R is 0. |
| Steady.EnteredAt | libraries/i2sTXcircular/i2sTXcircular.c:155-168 | When every record before i has a nonzero repeat, the stream enters record i with counter 0 at the bit given by summing repeat·period over the earlier records. |
| Steady.StreamOfRecords | libraries/i2sTXcircular/i2sTXcircular.c:150-171 | Under the same condition, the stream from that entry bit on is record i's reference wave and record i stays current, for R·(mark+space) bits, or forever when record i is held (repeat 0), whatever its index. |
| Steady.DefaultPatternWords | libraries/i2sTXcircular/i2sTXcircular.c:249-255 | After the default is installed on an empty table, every word is 0xFFFF0000. |
| Words.PackMsbFirst | libraries/i2sTXcircular/i2sTXcircular.c:170 | Unpacking a packed word from the most significant end gives back the bits in the order they were shifted in. |
| Words.ShiftInLowBits | libraries/i2sTXcircular/i2sTXcircular.c:170 | A 32-bit shift-and-or keeps the low k bits, shifted up, with the new bit appended, whatever the high bits were. |
| Words.PackAppend | libraries/i2sTXcircular/i2sTXcircular.c:170 | Packing a concatenation puts the first part above the second. |
| Session.Begin | libraries/i2sTXcircular/i2sTXcircular.c:247-259 | It returns true. The ring is built from the configuration with eof on the last descriptor, and an empty table gets the default. Words 0 to count32-1 hold the stream's words, all 0xFFFF0000 for an empty table, and later words are untouched. For a balanced configuration the last descriptor ends at word count32. |
| Session.InitThenBegin | libraries/i2sTXcircular/i2sTXcircular.c:228-259 | Start-up is accepted exactly for counts in [32, 4096]. Then the ring starts at word 0 and ends at count32, and with no pattern set every filled word is 0xFFFF0000. A rejected count leaves the buffer untouched. |

## Left out

- The clock code is not modelled: `i2scSetBitClock` and `i2scGetRealBitClock`, and the call to the first at the end of `i2scInit`. It uses floating-point search, and its constants come from a register header that is not part of this model.
- Register and pin I/O is not modelled. This covers the SLC/I2S register writes, reset sequences, `pinMode`, interrupt attach and enable, `i2scSlc_end` and `i2scEnd`.
- The interrupt handler `i2scSlc_isr` and the one-shot stop are not modelled. They only coordinate with the DMA engine in interrupt context.
- `i2scSet_fillBuffers` and `i2scGetDebugVal` are not modelled. The encoder is always `i2scFillBuffersMS`, so the failure branch of `i2scBegin` is unreachable and is not modelled either.
- Buffer and link pointers are modelled as a word offset and a ring index, not machine addresses.
- `espI2sClockGen/BaseConfig.h` and `libraries/i2sTXcircular/i2sTXcircular.h` are not part of this model. They hold configuration macros and prototypes.
- Session.Begin requires a count between 1 and 64 and count32 of at most 4096. Called before a successful `i2scInit`, the source writes descriptor index -1, which is undefined behaviour.
- Samples.WriteSample requires the index to be inside the buffer. The source does no bounds check, and an index past 4095 writes outside the array.
- Encoder.FillBuffersMS requires every record below max(size, 1) to be productive. Without that the source's loop can run forever, as `Encoder.ZeroRecordStalls` shows. The requirement also covers records the stream can never reach.

## Findings

| source | as written | input that shows it | evidently intended | confidence | as-written member | corrected member |
|---|---|---|---|---|---|---|
| libraries/i2sTXcircular/i2sTXcircular.c:228-244 | `i2scInit` is declared `bool` but its success path ends without a `return` statement, so the caller reads an undefined value | `i2scInit(32, …)`: the count is accepted and the state is set, but nothing is returned | `return true` after the set-up | high; not executed | Partition.AcceptedCountReturnsNothing | Partition.InitChecked |
