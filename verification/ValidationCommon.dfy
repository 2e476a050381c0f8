/**
 * src/validation_common.h: fill patterns, chunk and ring sizing and the
 * classification of a mismatch. Fixed-width arithmetic is written out with its
 * wrap-around.
 */
module ValidationCommon {
  import opened Arithmetic

  // ----- patterns -----

  const PATTERNS_COUNT := 3
  const PATTERN_0 := 1

  /** The fill byte of a 0-based cycle. */
  function CycleToPattern(cycle: nat): nat {
    PATTERN_0 + cycle % PATTERNS_COUNT
  }

  predicate IsPattern(value: nat) {
    PATTERN_0 <= value < PATTERN_0 + PATTERNS_COUNT
  }

  /** The fill bytes go round: 0x01 first, then 0x02 and 0x03, then 0x01 again; these are the known patterns. */
  lemma PatternRound(cycle: nat, value: nat)
    ensures CycleToPattern(0) == 0x01
    ensures CycleToPattern(cycle + 1) == if CycleToPattern(cycle) == 0x03 then 0x01 else CycleToPattern(cycle) + 1
    ensures IsPattern(value) <==> value == 0x01 || value == 0x02 || value == 0x03
  {
    ModStep(cycle, PATTERNS_COUNT);
  }

  lemma ThreeDivides(k: int, e: int)
    requires -3 < e < 3
    ensures (3 * k + e) % 3 == 0 <==> e == 0
  {
  }

  /** Two cycles have the same fill byte if and only if they are a multiple of three apart. */
  lemma PatternPeriod(a: nat, b: nat)
    ensures CycleToPattern(a) == CycleToPattern(b) <==> (a - b) % 3 == 0
  {
    var q, r, q', r' := a / 3, a % 3, b / 3, b % 3;
    assert a - b == 3 * (q - q') + (r - r');
    ThreeDivides(q - q', r - r');
  }

  // ----- chunk sizing -----

  const MIN_CHUNK_BYTES := 64 * 1024
  const MAX_CHUNK_BYTES := 8 * 1024 * 1024

  /** Operations between two marker firings. */
  function DeriveChunkSize(payload: nat, txDepth: nat): nat
    requires txDepth > 0
  {
    var raw := payload * txDepth % U64;
    if raw < MIN_CHUNK_BYTES && payload > 0 then
      var needed := (MIN_CHUNK_BYTES + payload - 1) % U64 / payload % U32;
      (needed + txDepth - 1) % U32 / txDepth * txDepth % U32
    else if raw > MAX_CHUNK_BYTES && payload > 0 then
      var target := MAX_CHUNK_BYTES / payload % U32;
      if target >= txDepth then target / txDepth * txDepth % U32
      else if target > 0 then target else 1
    else
      txDepth
  }

  /** The two roundings of the raising branch. */
  function Needed(payload: nat): nat
    requires payload > 0
  {
    (MIN_CHUNK_BYTES + payload - 1) / payload
  }

  /** Small payloads: the least multiple of tx_depth that reaches 64 KiB, below 128 KiB. */
  lemma RaisedChunk(payload: nat, txDepth: nat, k: nat)
    requires payload > 0 && txDepth > 0 && payload * txDepth < MIN_CHUNK_BYTES
    requires k == (Needed(payload) + txDepth - 1) / txDepth
    ensures k * txDepth * payload >= MIN_CHUNK_BYTES
    ensures k >= 1 && (k - 1) * txDepth * payload < MIN_CHUNK_BYTES
    ensures k * txDepth * payload < 2 * MIN_CHUNK_BYTES
  {
    var needed, ops := Needed(payload), k * txDepth;
    CeilBounds(MIN_CHUNK_BYTES, payload);
    CeilBounds(needed, txDepth);
    if k == 0 {
      MulNonNegative(needed, payload);
    }
    MulMonotone(needed, ops, payload);
    MulOneMore(k - 1, txDepth);
    MulMonotone(ops - txDepth, needed - 1, payload);
    MulOneMore(needed - 1, payload);
    MulAdd(ops - txDepth, txDepth, payload);
    MulCommutes(txDepth, payload);
  }

  /** Nothing wraps in the raising branch. */
  lemma RaisedFits(payload: nat, txDepth: nat)
    requires payload > 0 && txDepth > 0 && payload * txDepth < MIN_CHUNK_BYTES
    ensures DeriveChunkSize(payload, txDepth) == (Needed(payload) + txDepth - 1) / txDepth * txDepth
  {
    FactorBound(payload, txDepth);
    FactorBound(txDepth, payload);
    var needed := Needed(payload);
    CeilAtMost(MIN_CHUNK_BYTES, payload);
    CeilBounds(needed, txDepth);
    SmallMod(payload * txDepth, U64);
    SmallMod(MIN_CHUNK_BYTES + payload - 1, U64);
    SmallMod(needed, U32);
    SmallMod(needed + txDepth - 1, U32);
    SmallMod((needed + txDepth - 1) / txDepth * txDepth, U32);
  }

  lemma CeilAtMost(n: nat, d: nat)
    requires d > 0 && n > 0
    ensures (n + d - 1) / d <= n
  {
    CeilBounds(n, d);
    var q := (n + d - 1) / d;
    if q > 0 {
      MulOneMore(q - 1, d);
      FactorBound(q - 1, d);
    }
  }

  lemma TargetBound(payload: nat, target: nat)
    requires payload > 0 && target == MAX_CHUNK_BYTES / payload
    ensures target <= MAX_CHUNK_BYTES
    ensures payload <= MAX_CHUNK_BYTES <==> target >= 1
  {
    DivBounds(MAX_CHUNK_BYTES, payload);
    FactorBound(target, payload);
    if target > 0 {
      FactorBound(payload, target);
      MulCommutes(payload, target);
    } else {
      MulNonNegative(target, payload);
    }
  }

  /** Large chunks: the most operations that stay within 8 MiB, or one. The rounding branch is never taken. */
  lemma LoweredChunk(payload: nat, txDepth: nat)
    requires payload > 0 && txDepth > 0 && MAX_CHUNK_BYTES < payload * txDepth < U64
    ensures MAX_CHUNK_BYTES / payload < txDepth
    ensures DeriveChunkSize(payload, txDepth) == if payload <= MAX_CHUNK_BYTES then MAX_CHUNK_BYTES / payload else 1
    ensures payload <= MAX_CHUNK_BYTES <==> MAX_CHUNK_BYTES / payload >= 1
  {
    var target := MAX_CHUNK_BYTES / payload;
    MulCommutes(payload, txDepth);
    QuotientBelow(MAX_CHUNK_BYTES, payload, txDepth);
    TargetBound(payload, target);
    SmallMod(payload * txDepth, U64);
    SmallMod(target, U32);
  }

  /**
   * What a chunk of ops operations should be: between 64 KiB and 8 MiB for
   * payloads up to 8 MiB and one operation beyond; where tx_depth operations
   * are too few, the least multiple of tx_depth that reaches 64 KiB and below
   * 128 KiB; where they are too many, the most operations that fit 8 MiB.
   */
  predicate WellSized(payload: nat, txDepth: nat, ops: nat)
    requires txDepth > 0
  {
    && (payload <= MAX_CHUNK_BYTES ==> MIN_CHUNK_BYTES <= ops * payload <= MAX_CHUNK_BYTES)
    && (payload > MAX_CHUNK_BYTES ==> ops == 1)
    && (payload * txDepth < MIN_CHUNK_BYTES ==>
          && ops % txDepth == 0
          && ops >= txDepth && (ops - txDepth) * payload < MIN_CHUNK_BYTES
          && ops * payload < 2 * MIN_CHUNK_BYTES)
    && (MIN_CHUNK_BYTES <= payload * txDepth <= MAX_CHUNK_BYTES ==> ops == txDepth)
    && (payload * txDepth > MAX_CHUNK_BYTES ==> ops * payload + payload > MAX_CHUNK_BYTES)
  }

  lemma RaisedSized(payload: nat, txDepth: nat, k: nat)
    requires payload > 0 && txDepth > 0 && payload * txDepth < MIN_CHUNK_BYTES
    requires k == (Needed(payload) + txDepth - 1) / txDepth
    ensures WellSized(payload, txDepth, k * txDepth)
  {
    RaisedChunk(payload, txDepth, k);
    MultipleMod(k, txDepth);
    MulOneMore(k - 1, txDepth);
    MulNonNegative(k - 1, txDepth);
    FactorBound(payload, txDepth);
  }

  lemma KeptSized(payload: nat, txDepth: nat)
    requires txDepth > 0 && MIN_CHUNK_BYTES <= payload * txDepth <= MAX_CHUNK_BYTES
    ensures WellSized(payload, txDepth, txDepth)
  {
    FactorBound(payload, txDepth);
    MulCommutes(payload, txDepth);
  }

  lemma LoweredSized(payload: nat, txDepth: nat, ops: nat)
    requires payload > 0 && txDepth > 0 && payload * txDepth > MAX_CHUNK_BYTES
    requires ops == if payload <= MAX_CHUNK_BYTES then MAX_CHUNK_BYTES / payload else 1
    ensures WellSized(payload, txDepth, ops)
  {
    if payload <= MAX_CHUNK_BYTES {
      DivBounds(MAX_CHUNK_BYTES, payload);
      TargetBound(payload, ops);
      MulMonotone(1, ops, payload);
    }
  }

  lemma RaisedCase(payload: nat, txDepth: nat)
    requires payload > 0 && txDepth > 0 && payload * txDepth < MIN_CHUNK_BYTES
    ensures WellSized(payload, txDepth, DeriveChunkSize(payload, txDepth))
  {
    RaisedFits(payload, txDepth);
    RaisedSized(payload, txDepth, (Needed(payload) + txDepth - 1) / txDepth);
  }

  lemma LoweredCase(payload: nat, txDepth: nat)
    requires payload > 0 && txDepth > 0 && MAX_CHUNK_BYTES < payload * txDepth < U64
    ensures WellSized(payload, txDepth, DeriveChunkSize(payload, txDepth))
  {
    LoweredChunk(payload, txDepth);
    LoweredSized(payload, txDepth, DeriveChunkSize(payload, txDepth));
  }

  lemma KeptCase(payload: nat, txDepth: nat)
    requires txDepth > 0 && MIN_CHUNK_BYTES <= payload * txDepth <= MAX_CHUNK_BYTES
    ensures WellSized(payload, txDepth, DeriveChunkSize(payload, txDepth))
  {
    SmallMod(payload * txDepth, U64);
    KeptSized(payload, txDepth);
  }

  /** The derived chunk is well sized, for every payload and depth whose product fits 64 bits. */
  lemma ChunkSizing(payload: nat, txDepth: nat)
    requires payload > 0 && txDepth > 0 && payload * txDepth < U64
    ensures WellSized(payload, txDepth, DeriveChunkSize(payload, txDepth))
  {
    if payload * txDepth < MIN_CHUNK_BYTES {
      RaisedCase(payload, txDepth);
    } else if payload * txDepth > MAX_CHUNK_BYTES {
      LoweredCase(payload, txDepth);
    } else {
      KeptCase(payload, txDepth);
    }
  }

  // ----- ring depth -----

  const MAX_CHUNKS_PER_QP := 24

  function DeriveChunksPerQp(chunkBytes: nat, qps: int, isRead: bool): nat {
    var b0 := if chunkBytes < 128 * 1024 then 12
              else if chunkBytes < 512 * 1024 then 10
              else if chunkBytes < 2 * 1024 * 1024 then 8
              else if chunkBytes < 8 * 1024 * 1024 then 6
              else 4;
    var b1 := if qps <= 2 then b0 * 2 else if qps <= 4 then b0 * 3 / 2 else b0;
    var b2 := if isRead then b1 * 3 / 2 else b1;
    if b2 > MAX_CHUNKS_PER_QP then MAX_CHUNKS_PER_QP else b2
  }

  /** The ring has 4 to 24 chunks, never more for a larger chunk. */
  lemma RingDepth(a: nat, b: nat, qps: int, isRead: bool)
    requires a <= b
    ensures 4 <= DeriveChunksPerQp(b, qps, isRead) <= DeriveChunksPerQp(a, qps, isRead) <= MAX_CHUNKS_PER_QP
  {
  }

  /** For payloads up to 8 MiB the ring of one queue pair, as force_dependecies sizes it, is below 144 MiB. */
  lemma RingBytes(payload: nat, txDepth: nat, qps: int, isRead: bool)
    requires 0 < payload <= MAX_CHUNK_BYTES && txDepth > 0 && payload * txDepth < U64
    ensures var chunkBytes := DeriveChunkSize(payload, txDepth) * payload;
            chunkBytes * DeriveChunksPerQp(chunkBytes, qps, isRead) < 144 * 1024 * 1024
  {
    ChunkSizing(payload, txDepth);
    var c := DeriveChunkSize(payload, txDepth) * payload;
    var d := DeriveChunksPerQp(c, qps, isRead);
    if c < 2 * 1024 * 1024 {
      assert d <= 24;
      MulMonotone(d, 24, c);
    } else if c < 8 * 1024 * 1024 {
      assert d <= 18;
      MulMonotone(d, 18, c);
    } else {
      assert d <= 12;
      MulMonotone(d, 12, c);
    }
  }

  /** The depth tier by tier: a few queue pairs, up to four, more; each for writes and for reads. */
  lemma RingTable(chunkBytes: nat, qps: int, isRead: bool)
    ensures var r := DeriveChunksPerQp(chunkBytes, qps, isRead);
            && (chunkBytes < 0x2_0000 ==>
                  r == if qps <= 2 then 24 else if qps <= 4 then (if isRead then 24 else 18) else if isRead then 18 else 12)
            && (0x2_0000 <= chunkBytes < 0x8_0000 ==>
                  r == if qps <= 2 then (if isRead then 24 else 20) else if qps <= 4 then (if isRead then 22 else 15)
                       else if isRead then 15 else 10)
            && (0x8_0000 <= chunkBytes < 0x20_0000 ==>
                  r == if qps <= 2 then (if isRead then 24 else 16) else if qps <= 4 then (if isRead then 18 else 12)
                       else if isRead then 12 else 8)
            && (0x20_0000 <= chunkBytes < 0x80_0000 ==>
                  r == if qps <= 2 then (if isRead then 18 else 12) else if qps <= 4 then (if isRead then 13 else 9)
                       else if isRead then 9 else 6)
            && (chunkBytes >= 0x80_0000 ==>
                  r == if qps <= 2 then (if isRead then 12 else 8) else if qps <= 4 then (if isRead then 9 else 6)
                       else if isRead then 6 else 4)
  {
  }

  /** More queue pairs never get deeper rings, and reads never shallower ones. */
  lemma RingMonotone(chunkBytes: nat, qps: int, qps': int, isRead: bool)
    requires qps <= qps'
    ensures DeriveChunksPerQp(chunkBytes, qps', isRead) <= DeriveChunksPerQp(chunkBytes, qps, isRead)
    ensures DeriveChunksPerQp(chunkBytes, qps, false) <= DeriveChunksPerQp(chunkBytes, qps, true)
  {
    RingTable(chunkBytes, qps, isRead);
    RingTable(chunkBytes, qps', isRead);
  }

  // ----- classification -----

  datatype MismatchType = RealMismatch | RaceMismatch | StaleMismatch

  /** Bytes at the end of a chunk in which a late flush is still possible. */
  function TailBytes(payload: nat): nat {
    var t := payload * 2 % U64;
    if t < 256 then 256 else t
  }

  /** Where the tail zone starts, by unsigned subtraction. */
  function TailStart(chunkSize: nat, payload: nat): nat {
    if chunkSize >= TailBytes(payload) then chunkSize - TailBytes(payload)
    else (chunkSize - TailBytes(payload)) % U64
  }

  /** The zone is two payloads, or 256 bytes if that is more, and ends with the chunk where it fits. */
  lemma TailZone(chunkSize: nat, payload: nat)
    requires payload < U64 / 2
    ensures TailBytes(payload) >= 2 * payload && TailBytes(payload) >= 256
    ensures TailBytes(payload) == 2 * payload || TailBytes(payload) == 256
    ensures TailBytes(payload) <= chunkSize ==> TailStart(chunkSize, payload) + TailBytes(payload) == chunkSize
  {
    SmallMod(payload * 2, U64);
  }

  function ClassifyMismatch(offset: nat, chunkSize: nat, payload: nat, expected: nat, actual: nat,
                            retryMatched: bool, fwd: seq<nat>, fwdValid: bool): MismatchType
    requires |fwd| == 4
  {
    if offset >= TailStart(chunkSize, payload) && retryMatched then StaleMismatch
    else if fwdValid && actual != expected && IsPattern(actual)
            && actual == fwd[0] && actual == fwd[1] && actual == fwd[2] && actual == fwd[3] then RaceMismatch
    else RealMismatch
  }

  lemma TwoFit(payload: nat, txDepth: nat, ops: nat)
    requires 0 < payload <= 4 * 1024 * 1024 && txDepth >= 32 && WellSized(payload, txDepth, ops)
    ensures payload * 2 <= ops * payload
  {
    if payload * txDepth > MAX_CHUNK_BYTES {
      MulOneMore(ops, payload);
      MulCancels(2, ops + 1, payload);
    } else {
      assert ops >= txDepth;
    }
    MulMonotone(2, ops, payload);
  }

  lemma TwoDoNotFit(payload: nat, txDepth: nat, ops: nat)
    requires payload > 4 * 1024 * 1024 && txDepth > 0 && WellSized(payload, txDepth, ops)
    ensures ops * payload < payload * 2
  {
    if payload > MAX_CHUNK_BYTES {
      assert ops * payload == payload;
    }
  }

  /**
   * With the depth data validation requires, the tail-zone subtraction of a
   * derived chunk stays in range exactly for payloads up to 4 MiB.
   */
  lemma TailZoneExact(payload: nat, txDepth: nat)
    requires payload > 0 && txDepth >= 32 && payload * txDepth < U64
    ensures TailBytes(payload) <= DeriveChunkSize(payload, txDepth) * payload <==> payload <= 4 * 1024 * 1024
  {
    ChunkSizing(payload, txDepth);
    if payload <= 4 * 1024 * 1024 {
      TwoFit(payload, txDepth, DeriveChunkSize(payload, txDepth));
    } else {
      TwoDoNotFit(payload, txDepth, DeriveChunkSize(payload, txDepth));
    }
    MulMonotone(2, txDepth, payload);
    MulCommutes(payload, txDepth);
    SmallMod(payload * 2, U64);
  }
}
