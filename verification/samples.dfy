/** The sample buffer `i2scBufferData`: MAX_BUFFERDATA 32-bit words that the
    DMA ring reads from, with the two operations that write it directly. */
module Samples {
  import opened Words

  /** Capacity of the sample buffer, in 32-bit words (`MAX_BUFFERDATA`). */
  const MAX_BUFFERDATA: nat := 4096

  /** `i2scWriteSample`: store one word. The source does no bounds check; the
      index must lie inside the buffer. */
  function WriteSample(buf: seq<U32>, bufIx: U16, sample: U32): (r: seq<U32>)
    requires bufIx < |buf|
    ensures |r| == |buf|
    ensures r[bufIx] == sample
    ensures forall i :: 0 <= i < |buf| && i != bufIx ==> r[i] == buf[i]
  {
    buf[bufIx := sample]
  }

  /** A later write to the same index replaces an earlier one. */
  lemma WriteOverwrites(buf: seq<U32>, bufIx: U16, a: U32, b: U32)
    requires bufIx < |buf|
    ensures WriteSample(WriteSample(buf, bufIx, a), bufIx, b) == WriteSample(buf, bufIx, b)
  {
  }

  /** Writes to different indices do not interfere. */
  lemma WritesCommute(buf: seq<U32>, i: U16, j: U16, a: U32, b: U32)
    requires i < |buf| && j < |buf| && i != j
    ensures WriteSample(WriteSample(buf, i, a), j, b) == WriteSample(WriteSample(buf, j, b), i, a)
  {
  }

  /** `i2scClearBuffers`: zero every word of the buffer, whatever it held. */
  method ClearBuffers(buf: seq<U32>) returns (r: seq<U32>)
    requires |buf| == MAX_BUFFERDATA
    ensures |r| == MAX_BUFFERDATA
    ensures forall i :: 0 <= i < MAX_BUFFERDATA ==> r[i] == 0
  {
    r := buf;
    var x := 0;
    while x < MAX_BUFFERDATA
      invariant x <= MAX_BUFFERDATA && |r| == MAX_BUFFERDATA
      invariant forall i :: 0 <= i < x ==> r[i] == 0
    {
      r := WriteSample(r, x, 0);
      x := x + 1;
    }
  }
}
