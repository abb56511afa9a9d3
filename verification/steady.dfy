/** The stream record by record. A record with `mark` m, `space` s and
    `repeat` R plays a periodic wave of m ones followed by s zeros: forever
    when R is 0, and for R cycles otherwise, after which the encoder starts the
    next record (or the same one again, when it is the last active record).
    This covers the default pattern that `i2scBegin` installs, whose every
    word is 0xFFFF0000. */
module Steady {
  import opened Words
  import opened Pattern
  import opened Encoder

  /** The independent reference: bit n of a wave that is high for the first
      `mark` bits of every `period`. */
  function WaveBit(mark: nat, period: nat, n: nat): Bit
    requires period > 0
  {
    if n % period < mark then 1 else 0
  }

  /** The bits of one mark/space cycle of a record. */
  function Period(r: Record): nat {
    r.mark + r.space
  }

  /** The bits taken by c cycles of a record. */
  function Cycles(r: Record, c: nat): nat {
    c * Period(r)
  }

  /** The state in which a cycle of record i begins: the mark phase just
      loaded, with k cycles of the record already completed. */
  function CycleStart(t: Table, i: nat, k: nat): EncState
    requires Valid(t) && i < Active(t)
  {
    EncState(i, 1, t.records[i].mark, k)
  }

  /** A repeat counter the encoder can hold for record i. */
  predicate CounterOk(t: Table, i: nat, k: nat)
    requires Valid(t) && i < Active(t)
  {
    k == 0 || k < t.records[i].repeat
  }

  /** The repeat counter of record i at the start of its cycle c: c for a
      repeating record, 0 for a held one. */
  function Counter(t: Table, i: nat, c: nat): nat
    requires Valid(t) && i < Active(t)
  {
    if t.records[i].repeat == 0 then 0 else c
  }

  /** The settled state at offset p of a cycle of record i: p bits into the
      mark phase, or p - mark bits into the space phase. */
  function InCycle(t: Table, i: nat, k: nat, p: nat): EncState
    requires Valid(t) && i < Active(t) && p < Period(t.records[i])
  {
    var r := t.records[i];
    if p < r.mark then EncState(i, 1, r.mark - p, k)
    else EncState(i, 0, Period(r) - p, k)
  }

  /** The record the encoder moves to after the last cycle of record i. */
  function Next(t: Table, i: nat): (j: nat)
    requires Valid(t) && i < Active(t)
    ensures j < Active(t)
  {
    if i < t.size - 1 then i + 1 else i
  }

  /** The bit at which record i is entered when every record before it
      repeats: the sum of repeat * period over the records before it. */
  function Entry(t: Table, i: nat): nat
    requires Valid(t) && i < FILL_MAX
  {
    if i == 0 then 0
    else Entry(t, i - 1) + Cycles(t.records[i - 1], t.records[i - 1].repeat)
  }

  /** Once a cycle of record i has begun at bit e, the stream stands at offset
      p of that cycle after e+p bits, for every offset p within the cycle. */
  lemma {:induction false} CyclePhase(t: Table, i: nat, k: nat, e: nat, p: nat)
    requires WellFormed(t) && i < Active(t) && CounterOk(t, i, k)
    requires InStep(t, CycleStart(t, i, k), e)
    requires p < Period(t.records[i])
    ensures InStep(t, InCycle(t, i, k, p), e + p)
  {
    if p == 0 {
      CycleBegins(t, i, k, e);
      assert e + p == e;
    } else {
      var q := p - 1;
      CyclePhase(t, i, k, e, q);
      CycleStep(t, i, k, e + q, q);
      assert q + 1 == p && e + q + 1 == e + p;
    }
  }

  /** The first bit of a cycle is emitted from offset 0 of that cycle. */
  lemma CycleBegins(t: Table, i: nat, k: nat, e: nat)
    requires WellFormed(t) && i < Active(t) && CounterOk(t, i, k)
    requires InStep(t, CycleStart(t, i, k), e)
    requires Period(t.records[i]) > 0
    ensures InStep(t, InCycle(t, i, k, 0), e)
  {
    var s := CycleStart(t, i, k);
    if t.records[i].mark == 0 {
      AdvanceKeepsStep(t, s, e);
      assert Advance(t, s) == InCycle(t, i, k, 0);
    } else {
      assert s == InCycle(t, i, k, 0);
    }
  }

  /** One emitted bit moves the stream from offset p of a cycle to offset p+1. */
  lemma CycleStep(t: Table, i: nat, k: nat, e: nat, p: nat)
    requires WellFormed(t) && i < Active(t) && CounterOk(t, i, k)
    requires p + 1 < Period(t.records[i])
    requires InStep(t, InCycle(t, i, k, p), e)
    ensures InStep(t, InCycle(t, i, k, p + 1), e + 1)
  {
    var c := InCycle(t, i, k, p);
    EmitKeepsStep(t, c, e);
    var d := Emit(t, c);
    if p + 1 == t.records[i].mark {
      assert d == EncState(i, 1, 0, k);
      AdvanceKeepsStep(t, d, e + 1);
      assert Advance(t, d) == InCycle(t, i, k, p + 1);
    } else {
      assert d == InCycle(t, i, k, p + 1);
    }
  }

  /** When a cycle of record i that began at bit e has emitted all its bits,
      the stream stands at the transition out of the space phase. */
  lemma CycleEnd(t: Table, i: nat, k: nat, e: nat)
    requires WellFormed(t) && i < Active(t) && CounterOk(t, i, k)
    requires InStep(t, CycleStart(t, i, k), e)
    ensures InStep(t, Advance(t, EncState(i, 0, 0, k)), e + Period(t.records[i]))
  {
    var r := t.records[i];
    var last := Period(r) - 1;
    var d := e + last;
    if r.space > 0 {
      assert InStep(t, EncState(i, 0, 1, k), d) by {
        CyclePhase(t, i, k, e, last);
        assert InCycle(t, i, k, last) == EncState(i, 0, 1, k);
      }
      SpaceEnds(t, i, k, d);
    } else {
      assert InStep(t, EncState(i, 1, 1, k), d) by {
        CyclePhase(t, i, k, e, last);
        assert InCycle(t, i, k, last) == EncState(i, 1, 1, k);
      }
      MarkEnds(t, i, k, d);
    }
    assert d + 1 == e + Period(r);
  }

  /** The last bit of a cycle with a space phase ends that phase. */
  lemma SpaceEnds(t: Table, i: nat, k: nat, d: nat)
    requires WellFormed(t) && i < Active(t) && CounterOk(t, i, k)
    requires t.records[i].space > 0
    requires InStep(t, EncState(i, 0, 1, k), d)
    ensures InStep(t, Advance(t, EncState(i, 0, 0, k)), d + 1)
  {
    assert StateAfter(t, d + 1) == EncState(i, 0, 0, k);
  }

  /** The last bit of a cycle without a space phase ends the mark phase, and
      the empty space phase ends with it. */
  lemma MarkEnds(t: Table, i: nat, k: nat, d: nat)
    requires WellFormed(t) && i < Active(t) && CounterOk(t, i, k)
    requires t.records[i].space == 0
    requires InStep(t, EncState(i, 1, 1, k), d)
    ensures InStep(t, Advance(t, EncState(i, 0, 0, k)), d + 1)
  {
    var y := EncState(i, 1, 0, k);
    assert StateAfter(t, d + 1) == y;
    assert Advance(t, y) == EncState(i, 0, 0, k);
  }

  /** A cycle that is not the last of its record is followed by the next
      cycle of the same record, with the counter one higher (a held record's
      counter stays 0). */
  lemma CycleRepeats(t: Table, i: nat, k: nat, e: nat)
    requires WellFormed(t) && i < Active(t)
    requires t.records[i].repeat == 0 || k + 1 < t.records[i].repeat
    requires t.records[i].repeat == 0 ==> k == 0
    requires InStep(t, CycleStart(t, i, k), e)
    ensures InStep(t, CycleStart(t, i, Counter(t, i, k + 1)), e + Period(t.records[i]))
  {
    CycleEnd(t, i, k, e);
  }

  /** The last cycle of a repeating record is followed by the first cycle of
      the next record, or of the same record when it is the last active one,
      with the counter back at 0. */
  lemma CycleHandsOver(t: Table, i: nat, k: nat, e: nat, end: nat)
    requires WellFormed(t) && i < Active(t)
    requires t.records[i].repeat > 0 && k + 1 == t.records[i].repeat
    requires InStep(t, CycleStart(t, i, k), e) && end == e + Period(t.records[i])
    ensures InStep(t, CycleStart(t, Next(t, i), 0), end)
  {
    CycleEnd(t, i, k, e);
  }

  /** Entered at bit e with its counter at 0, record i begins cycle c at bit
      e + c*period for every c below its repeat count; a held record (repeat
      0) begins a cycle at every multiple of its period, its counter staying 0. */
  lemma {:induction false} Rounds(t: Table, i: nat, e: nat, c: nat)
    requires WellFormed(t) && i < Active(t)
    requires InStep(t, CycleStart(t, i, 0), e)
    requires t.records[i].repeat == 0 || c < t.records[i].repeat
    ensures InStep(t, CycleStart(t, i, Counter(t, i, c)), e + Cycles(t.records[i], c))
  {
    if c > 0 {
      Rounds(t, i, e, c - 1);
      NextRound(t, i, e, c);
    }
  }

  /** Cycle c of a record follows cycle c-1 by one period. */
  lemma NextRound(t: Table, i: nat, e: nat, c: nat)
    requires WellFormed(t) && i < Active(t) && c > 0
    requires t.records[i].repeat == 0 || c < t.records[i].repeat
    requires InStep(t, CycleStart(t, i, Counter(t, i, c - 1)), e + Cycles(t.records[i], c - 1))
    ensures InStep(t, CycleStart(t, i, Counter(t, i, c)), e + Cycles(t.records[i], c))
  {
    var r := t.records[i];
    var k := Counter(t, i, c - 1);
    var mid := e + Cycles(r, c - 1);
    CycleRepeats(t, i, k, mid);
    assert Counter(t, i, k + 1) == Counter(t, i, c);
    assert mid + Period(r) == e + Cycles(r, c) by {
      MulSucc(c - 1, Period(r));
    }
  }

  /** Entered at bit e with its counter at 0, a record with a nonzero repeat
      count R hands over after R cycles: at bit e + R*period the next record
      begins (record i again, when i is the last active record), and the
      first bit there is the first bit of that record's cycle. */
  lemma HandOver(t: Table, i: nat, e: nat)
    requires WellFormed(t) && i < Active(t) && t.records[i].repeat > 0
    requires InStep(t, CycleStart(t, i, 0), e)
    ensures var end := e + Cycles(t.records[i], t.records[i].repeat);
            && InStep(t, CycleStart(t, Next(t, i), 0), end)
            && Settle(t, StateAfter(t, end)) == InCycle(t, Next(t, i), 0, 0)
  {
    var j := Next(t, i);
    var end := e + Cycles(t.records[i], t.records[i].repeat);
    HandOverAt(t, i, e);
    assert Productive(t.records[j]);
    CycleBegins(t, j, 0, end);
  }

  /** The state part of `HandOver`. */
  lemma HandOverAt(t: Table, i: nat, e: nat)
    requires WellFormed(t) && i < Active(t) && t.records[i].repeat > 0
    requires InStep(t, CycleStart(t, i, 0), e)
    ensures InStep(t, CycleStart(t, Next(t, i), 0), e + Cycles(t.records[i], t.records[i].repeat))
  {
    var r := t.records[i];
    var last := r.repeat - 1;
    var mid := e + Cycles(r, last);
    assert InStep(t, CycleStart(t, i, last), mid) by {
      Rounds(t, i, e, last);
      assert Counter(t, i, last) == last;
    }
    assert e + Cycles(r, r.repeat) == mid + Period(r) by {
      MulSucc(last, Period(r));
    }
    CycleHandsOver(t, i, last, mid, e + Cycles(r, r.repeat));
  }

  /** Entered at bit e with its counter at 0, record i plays its reference
      wave and stays the current record: for its repeat count times its
      period bits, or forever when it is held (repeat 0). */
  lemma WithinRecord(t: Table, i: nat, e: nat, n: nat)
    requires WellFormed(t) && i < Active(t)
    requires InStep(t, CycleStart(t, i, 0), e)
    requires t.records[i].repeat == 0 || n < Cycles(t.records[i], t.records[i].repeat)
    ensures BitAt(t, e + n) == WaveBit(t.records[i].mark, Period(t.records[i]), n)
    ensures Settle(t, StateAfter(t, e + n)).ix == i
  {
    var r := t.records[i];
    assert Productive(r);
    var x := InCycle(t, i, Counter(t, i, n / Period(r)), n % Period(r));
    RecordPhase(t, i, e, n);
    SettledBit(t, x, e + n);
  }

  /** The state part of `WithinRecord`: bit e+n is emitted at offset
      n mod period of cycle n / period. */
  lemma RecordPhase(t: Table, i: nat, e: nat, n: nat)
    requires WellFormed(t) && i < Active(t)
    requires InStep(t, CycleStart(t, i, 0), e)
    requires t.records[i].repeat == 0 || n < Cycles(t.records[i], t.records[i].repeat)
    ensures Productive(t.records[i])
    ensures InStep(t, InCycle(t, i, Counter(t, i, n / Period(t.records[i])), n % Period(t.records[i])),
                   e + n)
  {
    var r := t.records[i];
    assert Productive(r);
    var c, p := SplitOffset(r, n);
    var k := Counter(t, i, c);
    var from := e + Cycles(r, c);
    assert InStep(t, InCycle(t, i, k, p), from + p) by {
      assert InStep(t, CycleStart(t, i, k), from) by {
        Rounds(t, i, e, c);
      }
      CyclePhase(t, i, k, from, p);
    }
    assert from + p == e + n;
  }

  /** An offset into a record's run is a whole number of cycles, below the
      repeat count when there is one, plus an offset within one cycle. */
  lemma SplitOffset(r: Record, n: nat) returns (c: nat, p: nat)
    requires Productive(r) && (r.repeat == 0 || n < Cycles(r, r.repeat))
    ensures c == n / Period(r) && p == n % Period(r) && p < Period(r)
    ensures n == Cycles(r, c) + p
    ensures r.repeat == 0 || c < r.repeat
  {
    c, p := n / Period(r), n % Period(r);
    DivMod(n, Period(r));
    MulMono(r.repeat, c, Period(r));
  }

  /** A state with bits left that the stream stands at after e bits is the
      state bit e is emitted from. */
  lemma SettledBit(t: Table, s: EncState, e: nat)
    requires WellFormed(t) && InStep(t, s, e) && s.bitCount > 0
    ensures BitAt(t, e) == s.level && Settle(t, StateAfter(t, e)).ix == s.ix
  {
  }

  /** With every record before i repeating, the stream enters record i at
      bit `Entry(t, i)` with its counter at 0. */
  lemma {:induction false} EnteredAt(t: Table, i: nat)
    requires WellFormed(t) && i < Active(t)
    requires forall j :: 0 <= j < i ==> t.records[j].repeat > 0
    ensures InStep(t, CycleStart(t, i, 0), Entry(t, i))
  {
    if i > 0 {
      var h := i - 1;
      EnteredAt(t, h);
      HandOverAt(t, h, Entry(t, h));
      assert Next(t, h) == i;
      assert Entry(t, i) == Entry(t, h) + Cycles(t.records[h], t.records[h].repeat);
    }
  }

  /** The stream as a whole: with every record before i repeating, the bits
      from `Entry(t, i)` on are record i's reference wave, for its repeat
      count times its period bits or forever when it is held. */
  lemma StreamOfRecords(t: Table, i: nat, n: nat)
    requires WellFormed(t) && i < Active(t)
    requires forall j :: 0 <= j < i ==> t.records[j].repeat > 0
    requires t.records[i].repeat == 0 || n < Cycles(t.records[i], t.records[i].repeat)
    ensures BitAt(t, Entry(t, i) + n) == WaveBit(t.records[i].mark, Period(t.records[i]), n)
    ensures Settle(t, StateAfter(t, Entry(t, i) + n)).ix == i
  {
    EnteredAt(t, i);
    WithinRecord(t, i, Entry(t, i), n);
  }

  /** With the default pattern installed on an empty table, every encoded word
      is 16 ones followed by 16 zeros. */
  lemma DefaultPatternWords(t: Table, k: nat)
    requires Valid(t) && t.size == 0
    ensures WellFormed(InstallDefault(t))
    ensures WordAt(InstallDefault(t), k) == 0xFFFF_0000
  {
    var d := InstallDefault(t);
    var bits := Bits(d, 32 * k, WORD_BITS);
    var ones, zeros := seq(16, _ => 1), seq(16, _ => 0);
    forall i | 0 <= i < WORD_BITS
      ensures bits[i] == (ones + zeros)[i]
    {
      StreamOfRecords(d, 0, 32 * k + i);
      assert (32 * k + i) % 32 == i by {
        DivUnique(32 * k + i, 32, k, i);
      }
    }
    assert bits == ones + zeros;
    PackAppend(ones, zeros);
    PackConstant(16, 1);
    PackConstant(16, 0);
    Pow2Values();
  }
}
