/** `i2scBegin`, minus the pin, clock and register set-up: build the
    descriptor ring from the configuration `i2scInit` left behind, install the
    default pattern on an empty table, and encode the table into the first
    count32 words of the sample buffer. */
module Session {
  import opened Words
  import opened Samples
  import opened Partition
  import opened Ring
  import opened Pattern
  import opened Encoder
  import opened Steady

  /** `i2scBegin`. `garbage` is the encoder's uninitialised accumulator. The
      source indexes descriptor bufCnt-1 and stores count32 words, so the
      configuration must have come through a successful `i2scInit` in those
      two respects; the table must reach no all-zero record once the default
      is installed, or the encoder never ends. */
  method Begin(cfg: Config, t: Table, buf: seq<U32>, garbage: U32)
    returns (ok: bool, ring: seq<Descriptor>, table: Table, out: seq<U32>)
    requires 1 <= cfg.bufCnt <= MAX_QUEUE && cfg.count32 <= MAX_BUFFERDATA
    requires Valid(t) && WellFormed(InstallDefault(t))
    requires |buf| == MAX_BUFFERDATA
    ensures ok
    ensures ring == BuildRing(cfg.bufCnt, cfg.bufLen, cfg.remainder)
    ensures |ring| == cfg.bufCnt && ring[cfg.bufCnt - 1].eof == 1
    ensures table == InstallDefault(t) && WellFormed(table)
    ensures t.size == 0 ==> table.size == 1 && table.records[0] == Record(16, 16, 0)
    ensures t.size != 0 ==> table == t
    ensures |out| == MAX_BUFFERDATA
    ensures forall k :: 0 <= k < cfg.count32 ==> out[k] == WordAt(table, k)
    ensures t.size == 0 ==> forall k :: 0 <= k < cfg.count32 ==> out[k] == 0xFFFF_0000
    ensures forall k :: cfg.count32 <= k < MAX_BUFFERDATA ==> out[k] == buf[k]
    ensures Balanced(cfg.count32, cfg.bufCnt, cfg.bufLen, cfg.remainder) ==>
              WordsEnd(ring[cfg.bufCnt - 1]) == cfg.count32
  {
    ring := BuildRing(cfg.bufCnt, cfg.bufLen, cfg.remainder);
    EofOnlyLast(cfg.bufCnt, cfg.bufLen, cfg.remainder);
    if Balanced(cfg.count32, cfg.bufCnt, cfg.bufLen, cfg.remainder) {
      Tiling(cfg.count32, cfg.bufCnt, cfg.bufLen, cfg.remainder);
    }
    table := InstallDefault(t);
    var order;
    ok, out, order := FillBuffersMS(table, cfg.count32, buf, garbage);
    if t.size == 0 {
      forall k | 0 <= k < cfg.count32
        ensures out[k] == 0xFFFF_0000
      {
        DefaultPatternWords(t, k);
      }
    }
  }

  /** The whole start-up sequence from boot: every count `i2scInit` accepts
      yields a ring whose sub-buffers cover exactly the words the encoder
      fills, and an unset table plays the default square wave throughout. */
  method InitThenBegin(count32: U16, oneShot: U16, buf: seq<U32>, garbage: U32)
    returns (accepted: bool, ring: seq<Descriptor>, out: seq<U32>)
    requires |buf| == MAX_BUFFERDATA
    ensures accepted <==> MIN_COUNT32 <= count32 <= MAX_BUFFERDATA
    ensures |out| == MAX_BUFFERDATA
    ensures accepted ==> |ring| >= 2 && ring[0].bufOffset == 0
    ensures accepted ==> WordsEnd(ring[|ring| - 1]) == count32
    ensures accepted ==> forall k :: 0 <= k < count32 ==> out[k] == 0xFFFF_0000
    ensures !accepted ==> out == buf
  {
    var init := InitChecked(Boot(), count32, oneShot);
    var cfg := init.1;
    accepted := init.0;
    if !accepted {
      return accepted, [], buf;
    }
    Tiling(cfg.count32, cfg.bufCnt, cfg.bufLen, cfg.remainder);
    DefaultMakesWellFormed(EmptyTable());
    var ok, table;
    ok, ring, table, out := Begin(cfg, EmptyTable(), buf, garbage);
  }
}
