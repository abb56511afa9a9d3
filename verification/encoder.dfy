/** The mark/space bit encoder `i2scFillBuffersMS`.

    The functional side describes the output as an infinite bit stream. The
    encoder's state is (record index, level, bits left in the current phase,
    repeat counter). `Advance` is the transition the source makes when a phase
    runs out; `Settle` applies it until a phase with bits left is reached;
    `StateAfter(t, n)` is the state once n bits have been emitted, and bit n of
    the stream is the level of the settled state. Word k of the buffer is
    bits 32k .. 32k+31 packed most significant first.

    The imperative side, `FillBuffersMS`, is the source's loop; its invariants
    tie it to the stream. */
module Encoder {
  import opened Words
  import opened Pattern
  import opened Samples

  datatype EncState = EncState(ix: nat, level: Bit, bitCount: nat, repeatCount: nat)

  /** The states the encoder can be in: the record index never leaves the
      reachable records, the phase length came from a 16-bit field, and the
      repeat counter stays below a nonzero repeat (so its 16-bit increment
      never wraps). */
  predicate ValidState(t: Table, s: EncState)
    requires Valid(t)
  {
    && s.ix < Active(t)
    && s.bitCount < 0x1_0000
    && (s.repeatCount == 0 || s.repeatCount < t.records[s.ix].repeat)
  }

  /** The initial state: record 0, mark phase, repeat counter 0. */
  function Start(t: Table): (s: EncState)
    requires Valid(t)
    ensures ValidState(t, s)
    ensures s.ix == 0 && s.level == 1 && s.repeatCount == 0
    ensures s.bitCount == t.records[0].mark
  {
    EncState(0, 1, t.records[0].mark, 0)
  }

  /** The phase bits of a record at a level: space at 0, mark at 1. */
  function PhaseBits(r: Record, level: Bit): U16 {
    if level == 1 then r.mark else r.space
  }

  /** The transition taken when the current phase has no bits left: flip the
      level; on entering a mark phase, count one more completed cycle of a
      repeating record and, after `repeat` of them, move to the next record
      unless this is the last active one; then load the new phase length. */
  function Advance(t: Table, s: EncState): (s': EncState)
    requires Valid(t) && ValidState(t, s)
    ensures ValidState(t, s')
    ensures s'.level == 1 - s.level
    ensures s'.ix == s.ix || (s.level == 0 && s'.ix == s.ix + 1 && s'.ix < t.size)
  {
    var level := 1 - s.level;
    if level == 1 then
      var rec := t.records[s.ix];
      var wrapped := rec.repeat != 0 && s.repeatCount + 1 >= rec.repeat;
      var ix := if wrapped && s.ix < t.size - 1 then s.ix + 1 else s.ix;
      var count :=
        if rec.repeat == 0 then s.repeatCount
        else if wrapped then 0
        else s.repeatCount + 1;
      EncState(ix, level, PhaseBits(t.records[ix], level), count)
    else
      EncState(s.ix, level, PhaseBits(t.records[s.ix], level), s.repeatCount)
  }

  /** Upper bound on the transitions left before a bit is emitted. */
  function Pending(t: Table, s: EncState): nat {
    if s.bitCount > 0 then 0
    else if s.level == 0 then 2
    else if s.ix < |t.records| && t.records[s.ix].space > 0 then 1
    else 3
  }

  lemma AdvanceMakesProgress(t: Table, s: EncState)
    requires WellFormed(t) && ValidState(t, s) && s.bitCount == 0
    ensures Pending(t, Advance(t, s)) < Pending(t, s)
  {
    var s' := Advance(t, s);
    assert Productive(t.records[s'.ix]);
  }

  /** The state reached from `s` once a phase with bits left is loaded. */
  function Settle(t: Table, s: EncState): (r: EncState)
    requires WellFormed(t) && ValidState(t, s)
    ensures ValidState(t, r) && r.bitCount > 0
    ensures s.ix <= r.ix
    decreases Pending(t, s)
  {
    if s.bitCount > 0 then s
    else
      AdvanceMakesProgress(t, s);
      Settle(t, Advance(t, s))
  }

  /** Why the setter never stores an all-zero record: with record 0 all zero
      and held forever, two transitions lead back to the start state without
      a bit being emitted, so the source's loop would never end. */
  lemma ZeroRecordStalls(t: Table)
    requires Valid(t) && t.records[0] == Record(0, 0, 0)
    ensures Start(t).bitCount == 0 && Advance(t, Start(t)).bitCount == 0
    ensures Advance(t, Advance(t, Start(t))) == Start(t)
  {
  }

  /** Emitting one bit of the current phase. */
  function Emit(t: Table, s: EncState): (s': EncState)
    requires Valid(t) && ValidState(t, s) && s.bitCount > 0
    ensures ValidState(t, s')
    ensures s'.bitCount == s.bitCount - 1
    ensures s'.ix == s.ix && s'.level == s.level && s'.repeatCount == s.repeatCount
  {
    s.(bitCount := s.bitCount - 1)
  }

  /** The encoder state after n bits have been emitted. */
  function StateAfter(t: Table, n: nat): (s: EncState)
    requires WellFormed(t)
    ensures ValidState(t, s)
  {
    if n == 0 then Start(t) else Emit(t, Settle(t, StateAfter(t, n - 1)))
  }

  /** Bit n of the infinite output stream. */
  function BitAt(t: Table, n: nat): Bit
    requires WellFormed(t)
  {
    Settle(t, StateAfter(t, n)).level
  }

  /** The `len` bits of the stream starting at bit `from`. */
  function Bits(t: Table, from: nat, len: nat): (b: seq<Bit>)
    requires WellFormed(t)
    ensures |b| == len
  {
    seq<Bit>(len, (i: int) requires 0 <= i < len => BitAt(t, from + i))
  }

  /** Word k of the encoded buffer. */
  function WordAt(t: Table, k: nat): U32
    requires WellFormed(t)
  {
    Pow2Values();
    Pack(Bits(t, 32 * k, WORD_BITS))
  }

  /** Bit i (from the most significant end) of word k is bit 32k+i of the stream. */
  lemma WordIsNextBitsMsbFirst(t: Table, k: nat, i: nat)
    requires WellFormed(t) && i < WORD_BITS
    ensures BitOf(WordAt(t, k), WORD_BITS, i) == BitAt(t, 32 * k + i)
  {
    PackMsbFirst(Bits(t, 32 * k, WORD_BITS), i);
  }

  /** The record index of the settled state never decreases along the stream,
      and never passes the last active record. */
  lemma {:induction false} RecordIndexMonotone(t: Table, n: nat)
    requires WellFormed(t)
    ensures Settle(t, StateAfter(t, n)).ix <= Settle(t, StateAfter(t, n + 1)).ix < Active(t)
  {
  }

  lemma {:induction false} SettleHolds(t: Table, s: EncState)
    requires WellFormed(t) && ValidState(t, s) && t.records[s.ix].repeat == 0
    ensures Settle(t, s).ix == s.ix
    decreases Pending(t, s)
  {
    if s.bitCount == 0 {
      AdvanceMakesProgress(t, s);
      SettleHolds(t, Advance(t, s));
    }
  }

  /** A record whose repeat count is 0 is held for the rest of the stream. */
  lemma {:induction false} HoldForever(t: Table, n: nat, m: nat)
    requires WellFormed(t) && n <= m
    requires t.records[Settle(t, StateAfter(t, n)).ix].repeat == 0
    ensures Settle(t, StateAfter(t, m)).ix == Settle(t, StateAfter(t, n)).ix
    decreases m - n
  {
    if n < m {
      var s := Settle(t, StateAfter(t, n));
      assert StateAfter(t, n + 1) == Emit(t, s);
      SettleHolds(t, Emit(t, s));
      HoldForever(t, n + 1, m);
    }
  }

  /** A settled state that the stream is in after e bits emits bit e and
      moves to the state after e+1 bits. */
  lemma {:induction false} EmitStep(t: Table, s: EncState, e: nat)
    requires WellFormed(t) && ValidState(t, s) && s.bitCount > 0
    requires Settle(t, s) == Settle(t, StateAfter(t, e))
    ensures BitAt(t, e) == s.level
    ensures Emit(t, s) == StateAfter(t, e + 1)
  {
  }

  /** Shifting bit `from+k` of the stream into the accumulator extends its low
      bits from the first k to the first k+1 bits of the word. */
  lemma {:induction false} ShiftInStep(t: Table, sample: nat, from: nat, k: nat)
    requires WellFormed(t) && k < WORD_BITS
    requires sample % Pow2(k) == Pack(Bits(t, from, k))
    ensures ShiftIn(sample, BitAt(t, from + k)) % Pow2(k + 1)
            == Pack(Bits(t, from, k + 1))
  {
    var b := Bits(t, from, k + 1);
    BitsExtend(t, from, k);
    ShiftInPacked(sample, b);
  }

  /** The first k+1 bits from `from` are the first k followed by bit from+k. */
  lemma BitsExtend(t: Table, from: nat, k: nat)
    requires WellFormed(t)
    ensures Bits(t, from, k + 1)[..k] == Bits(t, from, k)
    ensures Bits(t, from, k + 1)[k] == BitAt(t, from + k)
  {
    assert Bits(t, from, k + 1)[..k] == Bits(t, from, k);
  }

  /** Once all 32 bits of word k are in the accumulator, it holds exactly that word. */
  lemma {:induction false} FullWord(t: Table, sample: U32, k: nat)
    requires WellFormed(t)
    requires sample % WORD_RANGE == Pack(Bits(t, 32 * k, WORD_BITS))
    ensures sample == WordAt(t, k)
  {
    Pow2Values();
  }

  /** The encoder state `s` is where the stream stands after e emitted bits. */
  ghost predicate InStep(t: Table, s: EncState, e: nat)
    requires WellFormed(t)
  {
    ValidState(t, s) && Settle(t, s) == Settle(t, StateAfter(t, e))
  }

  /** The low k bits of the accumulator are the first k bits of the word whose
      first bit is stream bit `from`. */
  ghost predicate Accumulated(t: Table, sample: U32, from: nat, k: nat)
    requires WellFormed(t)
  {
    sample % Pow2(k) == Pack(Bits(t, from, k))
  }

  /** Words 0 .. n-1 of `out` are the encoded words; the rest are as in `buf`. */
  ghost predicate Written(t: Table, buf: seq<U32>, out: seq<U32>, n: nat)
    requires WellFormed(t)
  {
    && |out| == |buf| && n <= |buf|
    && (forall k :: 0 <= k < n ==> out[k] == WordAt(t, k))
    && (forall k :: n <= k < |buf| ==> out[k] == buf[k])
  }

  lemma AdvanceKeepsStep(t: Table, s: EncState, e: nat)
    requires WellFormed(t) && InStep(t, s, e) && s.bitCount == 0
    ensures InStep(t, Advance(t, s), e)
    ensures Pending(t, Advance(t, s)) < Pending(t, s)
  {
    AdvanceMakesProgress(t, s);
  }

  lemma EmitKeepsStep(t: Table, s: EncState, e: nat)
    requires WellFormed(t) && InStep(t, s, e) && s.bitCount > 0
    ensures InStep(t, Emit(t, s), e + 1)
    ensures BitAt(t, e) == s.level
  {
    EmitStep(t, s, e);
  }

  lemma ShiftKeepsAccumulated(t: Table, sample: U32, from: nat, k: nat)
    requires WellFormed(t) && Accumulated(t, sample, from, k) && k < WORD_BITS
    ensures Accumulated(t, ShiftIn(sample, BitAt(t, from + k)), from, k + 1)
  {
    ShiftInStep(t, sample, from, k);
  }

  lemma WordDone(t: Table, buf: seq<U32>, out: seq<U32>, sample: U32, n: nat)
    requires WellFormed(t) && Written(t, buf, out, n) && n < |buf| <= MAX_BUFFERDATA
    requires Accumulated(t, sample, 32 * n, WORD_BITS)
    ensures Written(t, buf, WriteSample(out, n, sample), n + 1)
    ensures Accumulated(t, sample, 32 * (n + 1), 0)
  {
    Pow2Values();
    FullWord(t, sample, n);
  }

  /** The `bitCount == 0` branch of the loop in `i2scFillBuffersMS`, as written:
      it makes exactly the transition `Advance`. */
  method NextPhase(t: Table, markspaceIx: nat, level: Bit, bitCount: nat, repeatCount: nat)
    returns (ix': nat, level': Bit, bitCount': nat, repeatCount': nat)
    requires Valid(t) && ValidState(t, EncState(markspaceIx, level, bitCount, repeatCount))
    ensures EncState(ix', level', bitCount', repeatCount')
            == Advance(t, EncState(markspaceIx, level, bitCount, repeatCount))
  {
    ix', level', repeatCount' := markspaceIx, 1 - level, repeatCount;
    if level' == 1 {
      if t.records[ix'].repeat != 0 {
        repeatCount' := repeatCount' + 1;
        if repeatCount' >= t.records[ix'].repeat {
          repeatCount' := 0;
          if ix' < t.size - 1 {
            ix' := ix' + 1;
          }
        }
      }
    }
    bitCount' := PhaseBits(t.records[ix'], level');
  }

  /** The bit-emitting branch of the loop in `i2scFillBuffersMS`, as written:
      shift the current level into the 32-bit accumulator and, once 32 bits
      are in, store the word at `bufIx` and move to the next word. `wrote`
      lists the buffer index handed to `i2scWriteSample`, if any. */
  method ShiftOut(t: Table, buf: seq<U32>, out: seq<U32>, bufIx: nat, sampleB: nat,
                  sample: U32, level: Bit)
    returns (out': seq<U32>, bufIx': nat, sampleB': nat, sample': U32, wrote: seq<nat>)
    requires WellFormed(t) && sampleB < WORD_BITS && bufIx < |buf| <= MAX_BUFFERDATA
    requires Written(t, buf, out, bufIx)
    requires Accumulated(t, sample, 32 * bufIx, sampleB)
    requires level == BitAt(t, 32 * bufIx + sampleB)
    ensures sampleB' < WORD_BITS
    ensures 32 * bufIx' + sampleB' == 32 * bufIx + sampleB + 1
    ensures || (wrote == [] && bufIx' == bufIx && out' == out)
            || (wrote == [bufIx] && bufIx' == bufIx + 1 && sampleB' == 0)
    ensures Accumulated(t, sample', 32 * bufIx', sampleB')
    ensures Written(t, buf, out', bufIx')
  {
    ShiftKeepsAccumulated(t, sample, 32 * bufIx, sampleB);
    sample' := ShiftIn(sample, level);
    if sampleB + 1 == WORD_BITS {
      var ix;
      out', ix := StoreWord(t, buf, out, bufIx, sample');
      bufIx', sampleB', wrote := bufIx + 1, 0, [ix];
    } else {
      out', bufIx', sampleB', wrote := out, bufIx, sampleB + 1, [];
    }
  }

  /** Storing a completed word through `i2scWriteSample`; `ix` is the buffer
      index written, the word index the accumulator was collecting. */
  method StoreWord(t: Table, buf: seq<U32>, out: seq<U32>, bufIx: nat, sample: U32)
    returns (out': seq<U32>, ix: nat)
    requires WellFormed(t) && bufIx < |buf| <= MAX_BUFFERDATA
    requires Written(t, buf, out, bufIx)
    requires Accumulated(t, sample, 32 * bufIx, WORD_BITS)
    ensures ix == bufIx && out' == WriteSample(out, ix, sample)
    ensures Accumulated(t, sample, 32 * (bufIx + 1), 0)
    ensures Written(t, buf, out', bufIx + 1)
  {
    WordDone(t, buf, out, sample, bufIx);
    ix := bufIx;
    out' := WriteSample(out, ix, sample);
  }

  /** `i2scFillBuffersMS`: fills words 0 .. count32-1 of the sample buffer with
      the encoded stream, in increasing order, and leaves the rest alone.
      `order` lists the indices passed to `i2scWriteSample`, in the order of
      the calls. `garbage` is the value of the uninitialised accumulator on
      entry. */
  method FillBuffersMS(t: Table, count32: U16, buf: seq<U32>, garbage: U32)
    returns (ok: bool, out: seq<U32>, order: seq<nat>)
    requires WellFormed(t)
    requires |buf| == MAX_BUFFERDATA && count32 <= MAX_BUFFERDATA
    ensures ok
    ensures |out| == |buf|
    ensures forall k :: 0 <= k < count32 ==> out[k] == WordAt(t, k)
    ensures forall k :: count32 <= k < |buf| ==> out[k] == buf[k]
    ensures |order| == count32 && forall i :: 0 <= i < count32 ==> order[i] == i
  {
    var markspaceIx: nat := 0;
    var bufIx: nat := 0;
    var sample: U32 := garbage;
    var sampleB: nat := 0;
    var level: Bit := 1;
    var bitCount: nat := t.records[markspaceIx].mark;
    var repeatCount: nat := 0;
    out := buf;
    order := [];
    ghost var emitted: nat := 0;
    while bufIx < count32
      invariant bufIx <= count32 && sampleB < WORD_BITS
      invariant emitted == 32 * bufIx + sampleB
      invariant InStep(t, EncState(markspaceIx, level, bitCount, repeatCount), emitted)
      invariant Accumulated(t, sample, 32 * bufIx, sampleB)
      invariant Written(t, buf, out, bufIx)
      invariant |order| == bufIx && forall i :: 0 <= i < bufIx ==> order[i] == i
      decreases count32 - bufIx, WORD_BITS - sampleB,
                Pending(t, EncState(markspaceIx, level, bitCount, repeatCount))
    {
      ghost var s := EncState(markspaceIx, level, bitCount, repeatCount);
      if bitCount == 0 {
        markspaceIx, level, bitCount, repeatCount :=
          NextPhase(t, markspaceIx, level, bitCount, repeatCount);
        AdvanceKeepsStep(t, s, emitted);
      } else {
        EmitKeepsStep(t, s, emitted);
        bitCount := bitCount - 1;
        assert EncState(markspaceIx, level, bitCount, repeatCount) == Emit(t, s);
        emitted := emitted + 1;
        var wrote;
        out, bufIx, sampleB, sample, wrote := ShiftOut(t, buf, out, bufIx, sampleB, sample, level);
        order := order + wrote;
      }
    }
    ok := true;
  }
}
