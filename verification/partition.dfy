/** `i2scInit`: validation of the total word count and its split into a
    power-of-two number of sub-buffers, the leftover words going to the last. */
module Partition {
  import opened Words
  import opened Samples

  /** Capacity of the descriptor array (`MAX_QUEUE`). */
  const MAX_QUEUE: nat := 64

  /** Smallest total word count `i2scInit` accepts. */
  const MIN_COUNT32: nat := 32

  /** Sub-buffers stop being halved once they are no longer than this. */
  const MIN_SPLIT_LEN: nat := 32

  /** The configuration variables `i2scInit` sets (`slcCount32`, `slcBufCnt`,
      `slcBufLen`, `slcBufRemainder`, `slcOneShot`). */
  datatype Config = Config(count32: U16, bufCnt: U16, bufLen: U16, remainder: U16, oneShot: U16)

  /** What `i2scInit` returns: `false` on rejection; on success it runs off its
      end without a `return`, so the caller sees no defined value. */
  datatype InitReturn = ReturnedFalse | Unspecified

  datatype InitOutcome = InitOutcome(returned: InitReturn, config: Config)

  /** The statically initialised configuration, before any `i2scInit`. */
  function Boot(): (c: Config)
    ensures c.count32 == 0 && c.bufCnt == 0 && c.bufLen == 0
    ensures c.remainder == 0 && c.oneShot == 0
  {
    Config(0, 0, 0, 0, 0)
  }

  /** The sub-buffer counts the halving loop of `i2scInit` can produce, as a
      predicate the halving steps can be checked against; `Log2` and
      `Pow2IsPow2` show it holds of exactly the values `Pow2(k)`. */
  predicate IsPow2(n: nat) {
    n == 1 || (n > 1 && n % 2 == 0 && IsPow2(n / 2))
  }

  function Log2(n: nat): (k: nat)
    requires IsPow2(n)
    ensures Pow2(k) == n
  {
    if n == 1 then 0 else 1 + Log2(n / 2)
  }

  lemma {:induction false} Pow2IsPow2(k: nat)
    ensures IsPow2(Pow2(k))
  {
    if k > 0 {
      Pow2IsPow2(k - 1);
      assert Pow2(k) / 2 == Pow2(k - 1);
    }
  }

  /** Powers of two are at least a factor of two apart. */
  lemma {:induction false} Pow2Gap(a: nat, b: nat)
    requires IsPow2(a) && IsPow2(b) && a < b
    ensures 2 * a <= b
  {
    if a > 1 {
      Pow2Gap(a / 2, b / 2);
    }
  }

  lemma DivHalf(c: nat, a: nat)
    requires a > 0
    ensures (c / a) / 2 == c / (2 * a)
  {
    var q, r := c / a, c % a;
    DivMod(c, a);
    var q2, b := q / 2, q % 2;
    DivMod(q, 2);
    assert q == 2 * q2 + b;
    SplitProduct(q2, b, a);
    MulDouble(q2, a);
    assert b * a <= a by {
      if b == 1 {
        assert b * a == a;
      }
    }
    DivUnique(c, 2 * a, q2, b * a + r);
  }

  lemma SplitProduct(x: int, b: int, a: int)
    ensures (2 * x + b) * a == 2 * (x * a) + b * a
  {
  }

  /** The split the halving loop settles on, stated without the loop: the
      sub-buffer count is the first power of two from 2 upwards at which either
      the count reaches MAX_QUEUE/2 or the sub-buffers are no longer than 32
      words; the words are shared out as quotient and remainder. */
  predicate Balanced(count32: nat, cnt: nat, len: nat, rem: nat) {
    && IsPow2(cnt) && 2 <= cnt <= MAX_QUEUE / 2
    && cnt * len + rem == count32 && 0 <= rem < cnt
    && len >= MIN_SPLIT_LEN / 2
    && (cnt == MAX_QUEUE / 2 || len <= MIN_SPLIT_LEN)
    && (forall p: nat :: IsPow2(p) && 2 <= p < cnt ==> count32 / p > MIN_SPLIT_LEN)
  }

  /** The `while` loop of `i2scInit`: double the count and halve the length
      while the count is under MAX_QUEUE/2 and the length over 32 words. */
  function Halve(count32: nat, cnt: nat, len: nat): (r: (nat, nat))
    requires IsPow2(cnt) && 2 <= cnt <= MAX_QUEUE / 2 && len == count32 / cnt
    requires forall p: nat :: IsPow2(p) && 2 <= p < cnt ==> count32 / p > MIN_SPLIT_LEN
    ensures IsPow2(r.0) && cnt <= r.0 <= MAX_QUEUE / 2
    ensures r.1 == count32 / r.0
    ensures r.0 == MAX_QUEUE / 2 || r.1 <= MIN_SPLIT_LEN
    ensures forall p: nat :: IsPow2(p) && 2 <= p < r.0 ==> count32 / p > MIN_SPLIT_LEN
    decreases MAX_QUEUE / 2 - cnt
  {
    if cnt < MAX_QUEUE / 2 && len > MIN_SPLIT_LEN then
      HalveStep(count32, cnt);
      Halve(count32, 2 * cnt, len / 2)
    else (cnt, len)
  }

  /** One round of the loop keeps its invariant: the doubled count is a power
      of two whose length is the halved length, and every count skipped so far
      left sub-buffers longer than 32 words. */
  lemma HalveStep(count32: nat, cnt: nat)
    requires IsPow2(cnt) && 2 <= cnt < MAX_QUEUE / 2 && count32 / cnt > MIN_SPLIT_LEN
    requires forall p: nat :: IsPow2(p) && 2 <= p < cnt ==> count32 / p > MIN_SPLIT_LEN
    ensures IsPow2(2 * cnt) && 2 * cnt <= MAX_QUEUE / 2
    ensures (count32 / cnt) / 2 == count32 / (2 * cnt)
    ensures forall p: nat :: IsPow2(p) && 2 <= p < 2 * cnt ==> count32 / p > MIN_SPLIT_LEN
  {
    DivHalf(count32, cnt);
    assert (2 * cnt) / 2 == cnt;
    assert IsPow2(MAX_QUEUE / 2) by {
      assert IsPow2(2) && IsPow2(4) && IsPow2(8) && IsPow2(16);
    }
    Pow2Gap(cnt, MAX_QUEUE / 2);
    forall p: nat | IsPow2(p) && 2 <= p < 2 * cnt
      ensures count32 / p > MIN_SPLIT_LEN
    {
      if p > cnt {
        Pow2Gap(cnt, p);
      }
    }
  }

  /** `i2scInit`, minus the clock set-up and the register writes. */
  function Init(st: Config, count32: U16, oneShot: U16): (r: InitOutcome)
    ensures r.returned == ReturnedFalse <==> count32 < MIN_COUNT32 || count32 > MAX_BUFFERDATA
    ensures r.returned == ReturnedFalse ==> r.config == st
    ensures r.returned == Unspecified ==>
              && r.config.count32 == count32
              && r.config.oneShot == oneShot
              && Balanced(count32, r.config.bufCnt, r.config.bufLen, r.config.remainder)
  {
    if count32 > MAX_BUFFERDATA || count32 < MIN_COUNT32 then
      InitOutcome(ReturnedFalse, st)
    else
      var split := Halve(count32, 2, count32 / 2);
      var cnt, len := split.0, split.1;
      LengthFloor(count32, cnt);
      InitOutcome(Unspecified, Config(count32, cnt, len, count32 - cnt * len, oneShot))
  }

  /** As written, an accepted count produces no return value: count 32 is
      accepted, and the outcome carries no boolean. */
  lemma AcceptedCountReturnsNothing()
    ensures Init(Boot(), MIN_COUNT32, 0).returned == Unspecified
    ensures Init(Boot(), MIN_COUNT32, 0).config != Boot()
  {
  }

  /** `i2scInit` with the `return true` its success path evidently intends:
      the boolean says whether the count was accepted. */
  function InitChecked(st: Config, count32: U16, oneShot: U16): (r: (bool, Config))
    ensures r.0 <==> MIN_COUNT32 <= count32 <= MAX_BUFFERDATA
    ensures !r.0 ==> r.1 == st
    ensures r.0 ==> && r.1.count32 == count32 && r.1.oneShot == oneShot
                    && Balanced(count32, r.1.bufCnt, r.1.bufLen, r.1.remainder)
  {
    var o := Init(st, count32, oneShot);
    (o.returned == Unspecified, o.config)
  }

  lemma LengthFloor(count32: nat, cnt: nat)
    requires MIN_COUNT32 <= count32 && IsPow2(cnt) && 2 <= cnt
    requires forall p: nat :: IsPow2(p) && 2 <= p < cnt ==> count32 / p > MIN_SPLIT_LEN
    ensures count32 / cnt >= MIN_SPLIT_LEN / 2
    ensures 0 <= count32 - cnt * (count32 / cnt) < cnt
  {
    DivMod(count32, cnt);
    if cnt > 2 {
      DivHalf(count32, cnt / 2);
      assert IsPow2(cnt / 2);
    }
  }

  /** `Balanced` pins the split down: two splits of the same count that both
      satisfy it are the same split. */
  lemma BalancedUnique(c: nat, cnt1: nat, len1: nat, rem1: nat, cnt2: nat, len2: nat, rem2: nat)
    requires Balanced(c, cnt1, len1, rem1) && Balanced(c, cnt2, len2, rem2)
    ensures cnt1 == cnt2 && len1 == len2 && rem1 == rem2
  {
    DivUnique(c, cnt1, len1, rem1);
    DivUnique(c, cnt2, len2, rem2);
  }

  /** Every accepted count gives sub-buffers of at most 128 words and a
      remainder of at most 31. */
  lemma BalancedBounds(c: nat, cnt: nat, len: nat, rem: nat)
    requires Balanced(c, cnt, len, rem) && c <= MAX_BUFFERDATA
    ensures len <= MAX_BUFFERDATA / (MAX_QUEUE / 2) && rem < MAX_QUEUE / 2
  {
    if cnt == MAX_QUEUE / 2 {
      assert cnt * len <= MAX_BUFFERDATA;
    }
  }
}
