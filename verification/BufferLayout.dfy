/**
 * The buffer layout of src/validation_common.h, the chunk addresses
 * distribute_markers scans, and the address set_up_connection publishes.
 */
module BufferLayout {
  import opened Arithmetic
  import opened Wrappers
  import ValidationCommon

  datatype Layout = Layout(totalSize: nat, markersOffset: nat, slotsOffset: nat, atomicOffset: nat,
                           markersSize: nat, slotsSize: nat, atomicSize: nat, slotsPerQp: nat)

  /** (x + 63) & ~63 in 64 bits. */
  function CacheLineAlign(x: nat): nat {
    (x + 63) % U64 / 64 * 64
  }

  /** Checked multiplication: fails exactly when the product does not fit. */
  function SafeMul(a: nat, b: nat): (r: Option<nat>)
    requires a < U64 && b < U64
    ensures r == if a * b < U64 then Some(a * b) else None
  {
    if a != 0 && b > (U64 - 1) / a then
      MulOverflows(a, b);
      None
    else
      MulFits(a, b);
      Some(a * b % U64)
  }

  lemma MulOverflows(a: nat, b: nat)
    requires a > 0 && b > (U64 - 1) / a
    ensures a * b >= U64
  {
    var q := (U64 - 1) / a;
    DivBounds(U64 - 1, a);
    BlockBefore(q, b, a);
    MulCommutes(a, b);
  }

  lemma MulFits(a: nat, b: nat)
    requires a == 0 || b <= (U64 - 1) / a
    ensures a * b < U64 && a * b % U64 == a * b
  {
    if a > 0 {
      DivBounds(U64 - 1, a);
      MulMonotone(b, (U64 - 1) / a, a);
      MulCommutes(a, b);
    }
    SmallMod(a * b, U64);
  }

  /** The checked size of the slot region: payload * ops * chunks * qps. */
  function SlotsSize(payload: nat, ops: nat, qps: nat, chunks: nat): (r: Option<nat>)
    requires payload < U64 && ops < U32 && qps < U32 && chunks < U32
    requires payload > 0 && ops > 0 && qps > 0 && chunks > 0
  {
    match SafeMul(payload, ops)
    case None => None
    case Some(chunkBytes) =>
      match SafeMul(chunkBytes, chunks)
      case None => None
      case Some(qpBytes) => SafeMul(qpBytes, qps)
  }

  /** The offsets, each region aligned after the one before. */
  function Arrange(patterns: nat, markersSize: nat, slotsSize: nat, atomicSize: nat, slotsPerQp: nat): Layout {
    var markersOffset := CacheLineAlign(patterns);
    var slotsOffset := CacheLineAlign((markersOffset + markersSize) % U64);
    var atomicOffset := CacheLineAlign((slotsOffset + slotsSize) % U64);
    Layout((atomicOffset + atomicSize) % U64, markersOffset, slotsOffset, atomicOffset,
           markersSize, slotsSize, atomicSize, slotsPerQp)
  }

  /** compute_validation_layout; ops is the number of operations per chunk. */
  function ComputeLayout(payload: nat, ops: nat, qps: nat, chunks: nat, isRead: bool): Option<Layout>
    requires payload < U64 && ops < U32 && qps < U32 && chunks < U32
  {
    if payload == 0 || ops == 0 || qps == 0 || chunks == 0 then None
    else
      var totalChunks := qps * chunks % U32;
      match SlotsSize(payload, ops, qps, chunks)
      case None => None
      case Some(slotsSize) =>
        Some(Arrange(payload * 3 % U64, totalChunks * 8 % U64, slotsSize,
                     if isRead then totalChunks * 8 % U64 else qps * 8 % U64, ops * chunks % U32))
  }

  /** Regions in a row: aligned, in order, apart, and inside the total. */
  predicate InOrder(l: Layout, patterns: nat) {
    && l.markersOffset % 64 == 0 && l.slotsOffset % 64 == 0 && l.atomicOffset % 64 == 0
    && patterns <= l.markersOffset < patterns + 64
    && l.markersOffset + l.markersSize <= l.slotsOffset < l.markersOffset + l.markersSize + 64
    && l.slotsOffset + l.slotsSize <= l.atomicOffset < l.slotsOffset + l.slotsSize + 64
    && l.totalSize == l.atomicOffset + l.atomicSize
  }

  /** The next multiple of 64, without wrap-around. */
  function AlignUp(x: nat): nat {
    (x + 63) / 64 * 64
  }

  /** Where the last region ends if nothing wraps. */
  function TrueEnd(patterns: nat, markers: nat, slots: nat, atomic: nat): nat {
    AlignUp(AlignUp(AlignUp(patterns) + markers) + slots) + atomic
  }

  lemma AlignUnique(x: nat, y: nat)
    ensures y % 64 == 0 && x <= y < x + 64 <==> y == AlignUp(x)
  {
  }

  lemma AlignNoWrap(x: nat)
    requires AlignUp(x) < U64
    ensures x % U64 == x && CacheLineAlign(x) == AlignUp(x)
  {
    AlignUnique(x, AlignUp(x));
    SmallMod(x, U64);
    SmallMod(x + 63, U64);
  }

  /** When the true end fits, nothing wraps. */
  lemma ArrangeNoWrap(patterns: nat, markers: nat, slots: nat, atomic: nat, slotsPerQp: nat)
    requires TrueEnd(patterns, markers, slots, atomic) < U64
    ensures InOrder(Arrange(patterns % U64, markers, slots, atomic, slotsPerQp), patterns)
  {
    var m := AlignUp(patterns);
    var s := AlignUp(m + markers);
    var a := AlignUp(s + slots);
    AlignUnique(patterns, m);
    AlignUnique(m + markers, s);
    AlignUnique(s + slots, a);
    AlignNoWrap(patterns);
    AlignNoWrap(m + markers);
    AlignNoWrap(s + slots);
    SmallMod(a + atomic, U64);
  }

  /** A layout in order ends at the true end. */
  lemma InOrderEnd(l: Layout, patterns: nat)
    requires InOrder(l, patterns)
    ensures l.totalSize == TrueEnd(patterns, l.markersSize, l.slotsSize, l.atomicSize)
  {
    AlignUnique(patterns, l.markersOffset);
    AlignUnique(l.markersOffset + l.markersSize, l.slotsOffset);
    AlignUnique(l.slotsOffset + l.slotsSize, l.atomicOffset);
  }

  /** The regions come out in order exactly when their true end fits 64 bits. */
  lemma ArrangeExact(patterns: nat, markers: nat, slots: nat, atomic: nat, slotsPerQp: nat)
    ensures InOrder(Arrange(patterns % U64, markers, slots, atomic, slotsPerQp), patterns) <==>
              TrueEnd(patterns, markers, slots, atomic) < U64
  {
    var l := Arrange(patterns % U64, markers, slots, atomic, slotsPerQp);
    if InOrder(l, patterns) {
      InOrderEnd(l, patterns);
    }
    if TrueEnd(patterns, markers, slots, atomic) < U64 {
      ArrangeNoWrap(patterns, markers, slots, atomic, slotsPerQp);
    }
  }

  lemma SlotsSizeExact(payload: nat, ops: nat, qps: nat, chunks: nat)
    requires payload < U64 && ops < U32 && qps < U32 && chunks < U32
    requires payload > 0 && ops > 0 && qps > 0 && chunks > 0
    ensures SlotsSize(payload, ops, qps, chunks)
         == if payload * ops * chunks * qps < U64 then Some(payload * ops * chunks * qps) else None
  {
    FactorBound(payload * ops * chunks, qps);
    FactorBound(payload * ops, chunks);
  }

  function AtomicCount(qps: nat, chunks: nat, isRead: bool): nat {
    if isRead then qps * chunks else qps
  }

  /** A layout with the sizes the configuration really needs, its regions in order. */
  predicate Truthful(l: Layout, payload: nat, ops: nat, qps: nat, chunks: nat, isRead: bool) {
    && InOrder(l, payload * 3)
    && l.markersSize == qps * chunks * 8
    && l.slotsSize == payload * ops * chunks * qps
    && l.atomicSize == AtomicCount(qps, chunks, isRead) * 8
    && l.slotsPerQp == ops * chunks
  }

  /** What a caller can check beforehand: no count is zero, the three products fit, and so does the end. */
  predicate LayoutFits(payload: nat, ops: nat, qps: nat, chunks: nat, isRead: bool) {
    && payload > 0 && ops > 0 && qps > 0 && chunks > 0
    && qps * chunks < U32 && ops * chunks < U32 && payload * ops * chunks * qps < U64
    && TrueEnd(payload * 3, qps * chunks * 8, payload * ops * chunks * qps, AtomicCount(qps, chunks, isRead) * 8) < U64
  }

  lemma WrapsExact(n: nat)
    ensures n % U32 * 8 % U64 == n * 8 <==> n < U32
  {
    SmallMod(n % U32 * 8, U64);
  }

  /** The layout of an accepted configuration. */
  lemma LayoutIs(payload: nat, ops: nat, qps: nat, chunks: nat, isRead: bool)
    requires payload < U64 && ops < U32 && qps < U32 && chunks < U32
    requires payload > 0 && ops > 0 && qps > 0 && chunks > 0
    ensures var slots, n := payload * ops * chunks * qps, qps * chunks % U32;
            ComputeLayout(payload, ops, qps, chunks, isRead) ==
              if slots < U64 then
                Some(Arrange(payload * 3 % U64, n * 8 % U64, slots,
                             if isRead then n * 8 % U64 else qps * 8 % U64, ops * chunks % U32))
              else None
  {
    SlotsSizeExact(payload, ops, qps, chunks);
  }

  /** The four sizes of an accepted layout are the true ones exactly when both 32-bit products fit. */
  lemma SizesExact(patterns: nat, n: nat, slots: nat, qps: nat, spq: nat, isRead: bool)
    requires qps < U32
    ensures var l := Arrange(patterns, n % U32 * 8 % U64, slots,
                             if isRead then n % U32 * 8 % U64 else qps * 8 % U64, spq % U32);
            && (l.markersSize == n * 8 && l.slotsPerQp == spq <==> n < U32 && spq < U32)
            && (n < U32 ==> l.atomicSize == (if isRead then n else qps) * 8)
            && l.slotsSize == slots
  {
    WrapsExact(n);
    SmallMod(qps * 8, U64);
  }

  /**
   * The source checks one product of three. What it accepts has the true region
   * sizes, with the four regions aligned, in order, apart and inside total_size,
   * if and only if the other products and the true end fit as well.
   */
  lemma LayoutExact(payload: nat, ops: nat, qps: nat, chunks: nat, isRead: bool)
    requires payload < U64 && ops < U32 && qps < U32 && chunks < U32
    ensures var r := ComputeLayout(payload, ops, qps, chunks, isRead);
            r.Some? && Truthful(r.value, payload, ops, qps, chunks, isRead) <==>
            LayoutFits(payload, ops, qps, chunks, isRead)
  {
    if payload > 0 && ops > 0 && qps > 0 && chunks > 0 {
      var n, spq, slots := qps * chunks, ops * chunks, payload * ops * chunks * qps;
      var atomic := AtomicCount(qps, chunks, isRead) * 8;
      LayoutIs(payload, ops, qps, chunks, isRead);
      SizesExact(payload * 3 % U64, n, slots, qps, spq, isRead);
      ArrangeExact(payload * 3, n * 8, slots, atomic, spq % U32);
    }
  }

  /** The marker region of an accepted configuration holds what is left of the marker count. */
  lemma MarkerRoom(payload: nat, ops: nat, qps: nat, chunks: nat, isRead: bool)
    requires payload < U64 && ops < U32 && qps < U32 && chunks < U32
    requires payload > 0 && ops > 0 && qps > 0 && chunks > 0 && payload * ops * chunks * qps < U64
    ensures ComputeLayout(payload, ops, qps, chunks, isRead).Some?
    ensures ComputeLayout(payload, ops, qps, chunks, isRead).value.markersSize == qps * chunks % U32 * 8 % U64
  {
    LayoutIs(payload, ops, qps, chunks, isRead);
  }

  /** What is left of a count that is a multiple of 2^32. */
  lemma NothingLeft(n: nat, room: nat)
    requires n % U32 == 0 && room == n % U32 * 8 % U64
    ensures room == 0
  {
  }

  /** Accepted configurations whose marker count wraps to zero: their markers are given a region of no bytes. */
  lemma WrappedMarkers(payload: nat, ops: nat, qps: nat, chunks: nat, isRead: bool) returns (r: Option<Layout>)
    requires payload < U64 && ops < U32 && qps < U32 && chunks < U32
    requires payload > 0 && ops > 0 && qps > 0 && chunks > 0
    requires payload * ops * chunks * qps < U64 && qps * chunks % U32 == 0
    ensures r == ComputeLayout(payload, ops, qps, chunks, isRead)
    ensures r.Some? && r.value.markersSize == 0
  {
    r := ComputeLayout(payload, ops, qps, chunks, isRead);
    MarkerRoom(payload, ops, qps, chunks, isRead);
    NothingLeft(qps * chunks, r.value.markersSize);
  }

  /** There are such: 65536 queue pairs with rings of 65536 one-byte chunks. */
  lemma WrappedLayout() returns (qps: nat, chunks: nat, r: Option<Layout>)
    ensures qps == chunks == 0x1_0000 && r == ComputeLayout(1, 1, qps, chunks, false)
    ensures r.Some? && r.value.markersSize == 0
  {
    qps, chunks := 0x1_0000, 0x1_0000;
    r := WrappedMarkers(1, 1, qps, chunks, false);
  }

  // ----- chunk addresses -----

  /** Where chunk `chunk` of queue pair `qp` is scanned, from the start of the slot region. */
  function ChunkOffset(payload: nat, ops: nat, slotsPerQp: nat, qp: nat, chunk: nat): nat {
    (qp * slotsPerQp + chunk * ops) % U32 * payload % U64
  }

  /** The write address published for queue pair i, from the start of the buffer. */
  function PublishedOffset(slotsOffset: nat, payload: nat, ops: nat, chunks: nat, i: nat): nat {
    (slotsOffset + i * (chunks * ops % U32 * payload % U64)) % U64
  }

  /** Every slot number fits 32 bits, and the slot region 64. */
  predicate SlotsFit(payload: nat, ops: nat, qps: nat, chunks: nat) {
    payload > 0 && payload * ops * chunks * qps < U64 && (qps * chunks - 1) * ops < U32
  }

  lemma SlotNumber(qp: nat, chunk: nat, ops: nat, chunks: nat)
    ensures qp * (ops * chunks) + chunk * ops == (qp * chunks + chunk) * ops
  {
    MulAdd(qp * chunks, chunk, ops);
    MulCommutes(ops, chunks);
    MulAssociates(qp, chunks, ops);
  }

  lemma SlotBytes(n: nat, ops: nat, payload: nat)
    ensures n * ops * payload == n * (payload * ops)
  {
    MulAssociates(n, ops, payload);
    MulCommutes(ops, payload);
  }

  lemma RegionBytes(payload: nat, ops: nat, chunks: nat, qps: nat)
    ensures qps * chunks * (payload * ops) == payload * ops * chunks * qps
  {
    var b := payload * ops;
    MulAssociates(qps, chunks, b);
    MulCommutes(chunks, b);
    MulCommutes(qps, b * chunks);
  }

  lemma ChunkNumber(qps: nat, chunks: nat, qp: nat, chunk: nat)
    requires qp < qps && chunk < chunks
    ensures qp * chunks + chunk <= qps * chunks - 1
  {
    BlockBefore(qp, qps, chunks);
  }

  /** A chunk ends inside the slot region. */
  lemma ChunkInside(payload: nat, ops: nat, qps: nat, chunks: nat, n: nat)
    requires n < qps * chunks
    ensures n * (payload * ops) + payload * ops <= payload * ops * chunks * qps
  {
    BlockBefore(n, qps * chunks, payload * ops);
    RegionBytes(payload, ops, chunks, qps);
  }

  /** The position of chunk number n: exact if and only if its slot number fits 32 bits. */
  lemma OffsetAt(payload: nat, ops: nat, n: nat)
    requires payload > 0 && n * (payload * ops) < U64
    ensures n * ops % U32 * payload % U64 == n * (payload * ops) <==> n * ops < U32
  {
    var x := n * ops;
    SlotBytes(n, ops, payload);
    Quotient(x, U32);
    if x < U32 {
      SmallMod(x, U32);
    } else {
      BlockBefore(x % U32, x, payload);
    }
    MulMonotone(x % U32, x, payload);
    MulNonNegative(x % U32, payload);
    SmallMod(x % U32 * payload, U64);
  }

  /** A chunk is scanned at its number in qp-major order times the chunk size if and only if its slot number fits 32 bits. */
  lemma ChunkOffsetExact(payload: nat, ops: nat, qps: nat, chunks: nat, qp: nat, chunk: nat)
    requires payload > 0 && payload * ops * chunks * qps < U64 && qp < qps && chunk < chunks
    ensures ChunkOffset(payload, ops, ops * chunks, qp, chunk) == (qp * chunks + chunk) * (payload * ops) <==>
              (qp * chunks + chunk) * ops < U32
    ensures (qp * chunks + chunk) * (payload * ops) + payload * ops <= payload * ops * chunks * qps
  {
    var n := qp * chunks + chunk;
    ChunkNumber(qps, chunks, qp, chunk);
    ChunkInside(payload, ops, qps, chunks, n);
    SlotNumber(qp, chunk, ops, chunks);
    MulNonNegative(payload, ops);
    OffsetAt(payload, ops, n);
  }

  lemma OffsetFits(payload: nat, ops: nat, qps: nat, chunks: nat, qp: nat, chunk: nat)
    requires SlotsFit(payload, ops, qps, chunks) && qp < qps && chunk < chunks
    ensures ChunkOffset(payload, ops, ops * chunks, qp, chunk) == (qp * chunks + chunk) * (payload * ops)
  {
    ChunkNumber(qps, chunks, qp, chunk);
    MulMonotone(qp * chunks + chunk, qps * chunks - 1, ops);
    ChunkOffsetExact(payload, ops, qps, chunks, qp, chunk);
  }

  predicate Apart(a: nat, b: nat, size: nat) {
    a + size <= b || b + size <= a
  }

  /** All chunks are scanned in disjoint ranges. */
  predicate AllApart(payload: nat, ops: nat, qps: nat, chunks: nat) {
    forall qp: nat, chunk: nat, qp': nat, chunk': nat ::
      qp < qps && chunk < chunks && qp' < qps && chunk' < chunks && (qp != qp' || chunk != chunk') ==>
      Apart(ChunkOffset(payload, ops, ops * chunks, qp, chunk), ChunkOffset(payload, ops, ops * chunks, qp', chunk'), payload * ops)
  }

  lemma NumbersDiffer(chunks: nat, qp: nat, chunk: nat, qp': nat, chunk': nat)
    requires chunk < chunks && chunk' < chunks && (qp != qp' || chunk != chunk')
    ensures qp * chunks + chunk != qp' * chunks + chunk'
  {
    if qp < qp' {
      BlockBefore(qp, qp', chunks);
    } else if qp' < qp {
      BlockBefore(qp', qp, chunks);
    }
  }

  lemma BlocksApart(m: nat, n: nat, size: nat)
    requires m != n
    ensures Apart(m * size, n * size, size)
  {
    if m < n {
      BlockBefore(m, n, size);
    } else {
      BlockBefore(n, m, size);
    }
  }

  lemma PairApart(payload: nat, ops: nat, qps: nat, chunks: nat, qp: nat, chunk: nat, qp': nat, chunk': nat)
    requires SlotsFit(payload, ops, qps, chunks) && qp < qps && chunk < chunks && qp' < qps && chunk' < chunks
    requires qp != qp' || chunk != chunk'
    ensures Apart(ChunkOffset(payload, ops, ops * chunks, qp, chunk),
                  ChunkOffset(payload, ops, ops * chunks, qp', chunk'), payload * ops)
  {
    OffsetFits(payload, ops, qps, chunks, qp, chunk);
    OffsetFits(payload, ops, qps, chunks, qp', chunk');
    NumbersDiffer(chunks, qp, chunk, qp', chunk');
    MulNonNegative(payload, ops);
    BlocksApart(qp * chunks + chunk, qp' * chunks + chunk', payload * ops);
  }

  lemma FittingApart(payload: nat, ops: nat, qps: nat, chunks: nat)
    requires SlotsFit(payload, ops, qps, chunks)
    ensures AllApart(payload, ops, qps, chunks)
  {
    forall qp: nat, chunk: nat, qp': nat, chunk': nat |
      qp < qps && chunk < chunks && qp' < qps && chunk' < chunks && (qp != qp' || chunk != chunk')
      ensures Apart(ChunkOffset(payload, ops, ops * chunks, qp, chunk),
                    ChunkOffset(payload, ops, ops * chunks, qp', chunk'), payload * ops)
    {
      PairApart(payload, ops, qps, chunks, qp, chunk, qp', chunk');
    }
  }

  /** The first chunk number whose slot number wraps. */
  lemma FirstWrap(ops: nat, total: nat) returns (n: nat)
    requires 0 < ops < U32 && (total - 1) * ops >= U32
    ensures 0 < n < total && U32 <= n * ops < U32 + ops
  {
    n := (U32 + ops - 1) / ops;
    CeilBounds(U32, ops);
    if n > 0 {
      MulOneMore(n - 1, ops);
      MulCancels(n - 1, total - 1, ops);
    }
  }

  /** It is scanned inside the range of chunk 0. */
  lemma WrappedMeetsFirst(payload: nat, ops: nat, n: nat, size: nat)
    requires payload > 0 && 0 < ops < U32 && U32 <= n * ops < U32 + ops && size == payload * ops < U64
    ensures n * ops % U32 * payload % U64 < size
  {
    var w := n * ops - U32;
    DivModUnique(n * ops, U32, 1, w);
    BlockBefore(w, ops, payload);
    MulCommutes(payload, ops);
    MulNonNegative(w, payload);
    SmallMod(w * payload, U64);
  }

  lemma NumberedOffset(payload: nat, ops: nat, chunks: nat, n: nat)
    requires chunks > 0
    ensures ChunkOffset(payload, ops, ops * chunks, n / chunks, n % chunks) == n * ops % U32 * payload % U64
  {
    Quotient(n, chunks);
    SlotNumber(n / chunks, n % chunks, ops, chunks);
  }

  lemma FirstOffset(payload: nat, ops: nat, chunks: nat)
    ensures ChunkOffset(payload, ops, ops * chunks, 0, 0) == 0
  {
  }

  /** Chunks are scanned in disjoint ranges if and only if the slot numbers fit 32 bits. */
  lemma DisjointIff(payload: nat, ops: nat, qps: nat, chunks: nat)
    requires payload > 0 && 0 < ops < U32 && qps > 0 && chunks > 0 && payload * ops * chunks * qps < U64
    ensures AllApart(payload, ops, qps, chunks) <==> SlotsFit(payload, ops, qps, chunks)
  {
    if SlotsFit(payload, ops, qps, chunks) {
      FittingApart(payload, ops, qps, chunks);
    } else {
      var n := FirstWrap(ops, qps * chunks);
      FactorBound(payload * ops * chunks, qps);
      FactorBound(payload * ops, chunks);
      FactorBound(payload, ops);
      WrappedMeetsFirst(payload, ops, n, payload * ops);
      NumberedOffset(payload, ops, chunks, n);
      FirstOffset(payload, ops, chunks);
      QuotientBelow(n, chunks, qps);
      Quotient(n, chunks);
      MulNonNegative(n / chunks, chunks);
      assert n / chunks != 0 || n % chunks != 0;
      assert !Apart(ChunkOffset(payload, ops, ops * chunks, 0, 0),
                    ChunkOffset(payload, ops, ops * chunks, n / chunks, n % chunks), payload * ops);
    }
  }

  /** The published stride is the ring of one queue pair. */
  lemma StrideExact(payload: nat, ops: nat, qps: nat, chunks: nat)
    requires qps > 0 && ops * chunks < U32 && payload * ops * chunks * qps < U64
    ensures chunks * ops % U32 * payload % U64 == payload * ops * chunks
  {
    MulCommutes(chunks, ops);
    SmallMod(chunks * ops, U32);
    SlotBytes(chunks, ops, payload);
    MulCommutes(chunks, payload * ops);
    FactorBound(payload * ops * chunks, qps);
    SmallMod(payload * ops * chunks, U64);
  }

  lemma RingStart(i: nat, chunks: nat, size: nat)
    ensures i * (size * chunks) == i * chunks * size
  {
    MulCommutes(size, chunks);
    MulAssociates(i, chunks, size);
  }

  /** Queue pair i's published offset is i whole rings after the slot region's start. */
  lemma PublishedExact(slotsOffset: nat, payload: nat, ops: nat, qps: nat, chunks: nat, i: nat)
    requires i < qps && ops * chunks < U32 && slotsOffset + payload * ops * chunks * qps < U64
    ensures PublishedOffset(slotsOffset, payload, ops, chunks, i) == slotsOffset + i * chunks * (payload * ops)
    ensures i * chunks * (payload * ops) + payload * ops * chunks <= payload * ops * chunks * qps
  {
    var ring := payload * ops * chunks;
    StrideExact(payload, ops, qps, chunks);
    BlockBefore(i, qps, ring);
    MulCommutes(qps, ring);
    RingStart(i, chunks, payload * ops);
    MulNonNegative(i, ring);
    SmallMod(slotsOffset + i * ring, U64);
  }

  /**
   * The address the peer is told to write to for queue pair i is where that queue
   * pair's chunk 0 is scanned if and only if the slot number of that chunk fits
   * 32 bits; the published ring lies in the slot region either way.
   */
  lemma PublishedIsScanned(payload: nat, ops: nat, qps: nat, chunks: nat, isRead: bool, i: nat)
    requires LayoutFits(payload, ops, qps, chunks, isRead) && i < qps
    requires payload < U64 && ops < U32 && qps < U32 && chunks < U32
    ensures ComputeLayout(payload, ops, qps, chunks, isRead).Some?
    ensures var l := ComputeLayout(payload, ops, qps, chunks, isRead).value;
            var published := PublishedOffset(l.slotsOffset, payload, ops, chunks, i);
            && (published == l.slotsOffset + ChunkOffset(payload, ops, l.slotsPerQp, i, 0) <==> i * chunks * ops < U32)
            && published + payload * ops * chunks <= l.atomicOffset
  {
    LayoutExact(payload, ops, qps, chunks, isRead);
    var l := ComputeLayout(payload, ops, qps, chunks, isRead).value;
    EndBelow(payload, ops, qps, chunks, isRead);
    ChunkOffsetExact(payload, ops, qps, chunks, i, 0);
    PublishedExact(l.slotsOffset, payload, ops, qps, chunks, i);
  }

  /** The total size of a true layout is a 64-bit value, so every region lies below 2^64. */
  lemma EndBelow(payload: nat, ops: nat, qps: nat, chunks: nat, isRead: bool)
    requires LayoutFits(payload, ops, qps, chunks, isRead)
    requires payload < U64 && ops < U32 && qps < U32 && chunks < U32
    ensures ComputeLayout(payload, ops, qps, chunks, isRead).Some?
    ensures ComputeLayout(payload, ops, qps, chunks, isRead).value.totalSize < U64
  {
    LayoutExact(payload, ops, qps, chunks, isRead);
    LayoutIs(payload, ops, qps, chunks, isRead);
  }

  // ----- the configurations the program admits -----

  const MAX_QP_NUM := 16384
  const MAX_TX := 15000
  const MAX_MESSAGE := 0x7FFF_FFFF

  lemma EndBound(patterns: nat, markers: nat, slots: nat, atomic: nat)
    ensures TrueEnd(patterns, markers, slots, atomic) < patterns + markers + slots + atomic + 192
  {
    var m := AlignUp(patterns);
    AlignUnique(patterns, m);
    AlignUnique(m + markers, AlignUp(m + markers));
    AlignUnique(AlignUp(m + markers) + slots, AlignUp(AlignUp(m + markers) + slots));
  }

  /** Derived chunks are small in operations and in bytes. */
  lemma DerivedChunk(payload: nat, txDepth: nat)
    requires 0 < payload <= MAX_MESSAGE && 0 < txDepth <= MAX_TX
    ensures var ops := ValidationCommon.DeriveChunkSize(payload, txDepth);
            0 < ops <= ValidationCommon.MAX_CHUNK_BYTES && ops * payload <= MAX_MESSAGE
  {
    MulMonotone(payload, MAX_MESSAGE, txDepth);
    ValidationCommon.ChunkSizing(payload, txDepth);
    var ops := ValidationCommon.DeriveChunkSize(payload, txDepth);
    if payload <= ValidationCommon.MAX_CHUNK_BYTES {
      FactorBound(ops, payload);
      if ops == 0 {
        MulCommutes(ops, payload);
      }
    }
  }

  lemma DerivedRing(chunkBytes: nat, sized: int, isRead: bool)
    ensures 4 <= ValidationCommon.DeriveChunksPerQp(chunkBytes, sized, isRead) <= 24
  {
    ValidationCommon.RingDepth(chunkBytes, chunkBytes, sized, isRead);
  }

  lemma ProductsFit(payload: nat, ops: nat, qps: nat, chunks: nat)
    requires payload > 0 && 0 < ops <= 0x80_0000 && ops * payload <= MAX_MESSAGE
    requires 0 < qps <= 2 * MAX_QP_NUM && 0 < chunks <= 24
    ensures 0 < qps * chunks <= 0xC_0000 && ops * chunks < U32
    ensures 0 <= payload * ops * chunks * qps <= MAX_MESSAGE * 0xC_0000
  {
    MulNonNegative(payload, ops);
    MulNonNegative(payload * ops, chunks);
    MulNonNegative(payload * ops * chunks, qps);
    MulMonotone(qps, 2 * MAX_QP_NUM, chunks);
    MulMonotone(1, qps, chunks);
    MulMonotone(ops, 0x80_0000, chunks);
    MulCommutes(ops, payload);
    var b := payload * ops;
    MulMonotone(b, MAX_MESSAGE, qps * chunks);
    MulAssociates(b, chunks, qps);
    MulCommutes(chunks, qps);
  }

  lemma SumsFit(payload: nat, markers: nat, slots: nat, atomic: nat)
    requires payload <= MAX_MESSAGE && markers <= 0xC_0000 * 8 && atomic <= 0xC_0000 * 8
    requires slots <= MAX_MESSAGE * 0xC_0000
    ensures TrueEnd(payload * 3, markers, slots, atomic) < U64
  {
    EndBound(payload * 3, markers, slots, atomic);
  }

  lemma AtomicSmall(qps: nat, chunks: nat, isRead: bool)
    requires chunks > 0 && qps * chunks <= 0xC_0000
    ensures AtomicCount(qps, chunks, isRead) <= 0xC_0000
  {
    FactorBound(qps, chunks);
  }

  lemma SmallFits(payload: nat, ops: nat, qps: nat, chunks: nat, isRead: bool)
    requires 0 < payload <= MAX_MESSAGE && 0 < ops <= 0x80_0000 && ops * payload <= MAX_MESSAGE
    requires 0 < qps <= 2 * MAX_QP_NUM && 0 < chunks <= 24
    ensures LayoutFits(payload, ops, qps, chunks, isRead)
  {
    ProductsFit(payload, ops, qps, chunks);
    AtomicSmall(qps, chunks, isRead);
    FitsBy(payload, ops, qps, chunks, isRead, qps * chunks, payload * ops * chunks * qps, AtomicCount(qps, chunks, isRead));
  }

  /** The condition, with its products named. */
  lemma FitsBy(payload: nat, ops: nat, qps: nat, chunks: nat, isRead: bool, n: nat, slots: nat, atomic: nat)
    requires n == qps * chunks && slots == payload * ops * chunks * qps && atomic == AtomicCount(qps, chunks, isRead)
    requires 0 < payload <= MAX_MESSAGE && ops > 0 && qps > 0 && chunks > 0
    requires n <= 0xC_0000 && atomic <= 0xC_0000 && ops * chunks < U32 && slots <= MAX_MESSAGE * 0xC_0000
    ensures LayoutFits(payload, ops, qps, chunks, isRead)
  {
    SumsFit(payload, n * 8, slots, atomic * 8);
  }

  /**
   * Every configuration the options admit is laid out truthfully: payloads up to
   * 2^31 - 1 bytes, tx_depth up to 15000, up to 16384 queue pairs, which two
   * ports double after the ring was sized, and derived chunks and rings.
   */
  lemma AdmittedFits(payload: nat, txDepth: nat, sized: int, qps: nat, isRead: bool)
    requires 0 < payload <= MAX_MESSAGE && 0 < txDepth <= MAX_TX && 0 < qps <= 2 * MAX_QP_NUM
    ensures var ops := ValidationCommon.DeriveChunkSize(payload, txDepth);
            var chunks := ValidationCommon.DeriveChunksPerQp(ops * payload, sized, isRead);
            ops < U32 && chunks < U32 && LayoutFits(payload, ops, qps, chunks, isRead)
  {
    var ops := ValidationCommon.DeriveChunkSize(payload, txDepth);
    var chunks := ValidationCommon.DeriveChunksPerQp(ops * payload, sized, isRead);
    DerivedChunk(payload, txDepth);
    DerivedRing(ops * payload, sized, isRead);
    SmallFits(payload, ops, qps, chunks, isRead);
  }

  /**
   * One of them, 16384 queue pairs writing single bytes with tx_depth 32, where
   * the last queue pair is told to write elsewhere than its chunk 0 is scanned.
   */
  lemma PublishedElsewhere() returns (ops: nat, chunks: nat, l: Layout)
    ensures ops == ValidationCommon.DeriveChunkSize(1, 32) == 65536
    ensures chunks == ValidationCommon.DeriveChunksPerQp(ops, MAX_QP_NUM, false) == 12
    ensures ComputeLayout(1, ops, MAX_QP_NUM, chunks, false) == Some(l)
    ensures PublishedOffset(l.slotsOffset, 1, ops, chunks, MAX_QP_NUM - 1)
         != l.slotsOffset + ChunkOffset(1, ops, l.slotsPerQp, MAX_QP_NUM - 1, 0)
  {
    ops, chunks := 65536, 12;
    assert ValidationCommon.DeriveChunkSize(1, 32) == 65536;
    AdmittedFits(1, 32, MAX_QP_NUM, MAX_QP_NUM, false);
    PublishedIsScanned(1, ops, MAX_QP_NUM, chunks, false, MAX_QP_NUM - 1);
    l := ComputeLayout(1, ops, MAX_QP_NUM, chunks, false).value;
  }
}
