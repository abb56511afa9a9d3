/** The DMA descriptor ring that `i2scSlc_begin` builds: one descriptor per
    sub-buffer, linked in a cycle, the last one flagged end-of-frame and
    carrying the remainder words. Buffer and link pointers are modelled as a
    word offset into the sample buffer and an index into the ring. */
module Ring {
  import opened Words
  import opened Samples
  import opened Partition

  /** 2^12: the range of the 12-bit `blocksize` and `datalen` fields. */
  const FIELD12_RANGE: nat := 4096

  /** One `slc_queue_item`. `blocksize` and `datalen` are in bytes. */
  datatype Descriptor = Descriptor(
    blocksize: nat, datalen: nat, unused: nat,
    subSof: Bit, eof: Bit, owner: Bit,
    bufOffset: nat, next: nat)

  /** A store into a 12-bit bitfield keeps the low 12 bits. */
  function Field12(x: nat): (r: nat)
    ensures r < FIELD12_RANGE
    ensures x < FIELD12_RANGE ==> r == x
  {
    x % FIELD12_RANGE
  }

  /** The descriptor the loop body of `i2scSlc_begin` writes at index x. */
  function LoopItem(bufCnt: nat, bufLen: nat, x: nat): Descriptor
    requires x < bufCnt
  {
    Descriptor(
      Field12(bufLen * 4), Field12(bufLen * 4), 0,
      0, 0, 1,
      x * bufLen, if x < bufCnt - 1 then x + 1 else 0)
  }

  /** `i2scSlc_begin`, descriptor part: the loop over all sub-buffers, then the
      end-of-frame flag and the remainder bytes on the last descriptor. The
      descriptor array has MAX_QUEUE entries and the last index written is
      bufCnt-1, so the count must be between 1 and MAX_QUEUE. */
  function BuildRing(bufCnt: nat, bufLen: nat, remainder: nat): (ring: seq<Descriptor>)
    requires 1 <= bufCnt <= MAX_QUEUE
    ensures |ring| == bufCnt
    ensures forall x :: 0 <= x < bufCnt ==> ring[x].next < bufCnt
  {
    var items := seq(bufCnt, (x: int) requires 0 <= x < bufCnt => LoopItem(bufCnt, bufLen, x));
    var last := items[bufCnt - 1];
    items[bufCnt - 1 := last.(eof := 1, datalen := Field12(last.datalen + remainder * 4))]
  }

  /** The descriptor the DMA engine reaches after following k next-links
      from descriptor `from`. */
  function Follow(ring: seq<Descriptor>, from: nat, k: nat): (x: nat)
    requires from < |ring|
    requires forall i :: 0 <= i < |ring| ==> ring[i].next < |ring|
    ensures x < |ring|
  {
    if k == 0 then from else ring[Follow(ring, from, k - 1)].next
  }

  /** Starting at descriptor 0, the first bufCnt links visit descriptors
      0, 1, ..., bufCnt-1 in order, each once, and the next link closes the
      cycle back at descriptor 0. */
  lemma {:induction false} RingCycle(bufCnt: nat, bufLen: nat, remainder: nat, k: nat)
    requires 1 <= bufCnt <= MAX_QUEUE && k <= bufCnt
    ensures var ring := BuildRing(bufCnt, bufLen, remainder);
            Follow(ring, 0, k) == if k < bufCnt then k else 0
  {
    var ring := BuildRing(bufCnt, bufLen, remainder);
    if k > 0 {
      RingCycle(bufCnt, bufLen, remainder, k - 1);
      assert Follow(ring, 0, k) == ring[k - 1].next;
    }
  }

  /** Exactly one descriptor, the last, marks the end of a frame. */
  lemma EofOnlyLast(bufCnt: nat, bufLen: nat, remainder: nat)
    requires 1 <= bufCnt <= MAX_QUEUE
    ensures var ring := BuildRing(bufCnt, bufLen, remainder);
            forall x :: 0 <= x < bufCnt ==> (ring[x].eof == 1 <==> x == bufCnt - 1)
  {
  }

  /** Every descriptor is handed to the DMA engine (owner 1), starts no
      sub-frame, and has its unused bits clear. */
  lemma OwnedByDma(bufCnt: nat, bufLen: nat, remainder: nat)
    requires 1 <= bufCnt <= MAX_QUEUE
    ensures var ring := BuildRing(bufCnt, bufLen, remainder);
            forall x :: 0 <= x < bufCnt ==>
              ring[x].owner == 1 && ring[x].subSof == 0 && ring[x].unused == 0
  {
  }

  /** For a split that `i2scInit` accepts, no length is truncated by its 12-bit
      field: every block size is the sub-buffer length in bytes, every data
      length but the last is too, and the last data length adds the remainder
      words; that last length is at most 632 bytes. The last block size does
      not include the remainder. */
  lemma FieldsFit(count32: nat, bufCnt: nat, bufLen: nat, remainder: nat)
    requires Balanced(count32, bufCnt, bufLen, remainder) && count32 <= MAX_BUFFERDATA
    ensures var ring := BuildRing(bufCnt, bufLen, remainder);
            && (forall x :: 0 <= x < bufCnt ==> ring[x].blocksize == 4 * bufLen)
            && (forall x :: 0 <= x < bufCnt - 1 ==> ring[x].datalen == 4 * bufLen)
            && ring[bufCnt - 1].datalen == 4 * (bufLen + remainder)
            && ring[bufCnt - 1].datalen <= 632
  {
    BalancedBounds(count32, bufCnt, bufLen, remainder);
    LastLengthBound(count32, bufCnt, bufLen, remainder);
  }

  /** The remainder words and the length add up to at most 158 words: the
      remainder is below the count, and a full count of 32 leaves at most 127
      words per sub-buffer when the remainder is not zero. */
  lemma LastLengthBound(count32: nat, bufCnt: nat, bufLen: nat, remainder: nat)
    requires Balanced(count32, bufCnt, bufLen, remainder) && count32 <= MAX_BUFFERDATA
    ensures bufLen + remainder <= 158
  {
    BalancedBounds(count32, bufCnt, bufLen, remainder);
    if bufCnt < MAX_QUEUE / 2 {
      assert bufLen <= MIN_SPLIT_LEN;
    } else if remainder > 0 {
      assert bufCnt * bufLen < MAX_BUFFERDATA;
    }
  }

  /** The 632-byte bound is reached: a count of 4095 words is split into 32
      sub-buffers of 127 words and 31 remainder words. */
  lemma LargestLastLength()
    ensures var c := Init(Boot(), 4095, 0).config;
            && c.bufCnt == 32 && c.bufLen == 127 && c.remainder == 31
            && BuildRing(c.bufCnt, c.bufLen, c.remainder)[31].datalen == 632
  {
  }

  /** The word range a descriptor hands to the DMA engine. */
  function WordsEnd(d: Descriptor): nat {
    d.bufOffset + d.datalen / 4
  }

  /** For a split that `i2scInit` accepts, the data ranges of the descriptors
      tile words [0, count32) of the sample buffer: descriptor x starts at
      word x*bufLen (so the first at word 0), each starts where the previous ended, and the last ends at count32. */
  lemma Tiling(count32: nat, bufCnt: nat, bufLen: nat, remainder: nat)
    requires Balanced(count32, bufCnt, bufLen, remainder) && count32 <= MAX_BUFFERDATA
    ensures var ring := BuildRing(bufCnt, bufLen, remainder);
            && (forall x :: 0 <= x < bufCnt ==> ring[x].bufOffset == x * bufLen)
            && (forall x :: 0 <= x < bufCnt - 1 ==> WordsEnd(ring[x]) == ring[x + 1].bufOffset)
            && WordsEnd(ring[bufCnt - 1]) == count32
  {
    var ring := BuildRing(bufCnt, bufLen, remainder);
    FieldsFit(count32, bufCnt, bufLen, remainder);
    DivUnique(4 * bufLen, 4, bufLen, 0);
    forall x | 0 <= x < bufCnt - 1
      ensures WordsEnd(ring[x]) == ring[x + 1].bufOffset
    {
      MulSucc(x, bufLen);
    }
    DivUnique(4 * (bufLen + remainder), 4, bufLen + remainder, 0);
    MulSucc(bufCnt - 1, bufLen);
  }
}
