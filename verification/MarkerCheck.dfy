/**
 * validate_one_marker of src/host_validation.c: scan the chunk, retry a late
 * tail, sample the bytes after the mismatch, classify. The remote peer may
 * write to the chunk meanwhile, so the scan, the retry and the sample each see
 * memory of their own.
 */
module MarkerCheck {
  import opened Arithmetic
  import opened SimdScan
  import opened ValidationCommon

  datatype Isa = Avx512 | Avx2 | Sse42 | Neon

  /** The compile-time choice of a scanner. */
  method ValidateChunk(isa: Isa, data: Bytes, pattern: nat, actual0: nat) returns (r: int, actual: nat)
    ensures r == FirstMismatch(data, pattern)
    ensures actual == if r >= 0 then data[r] else actual0
  {
    match isa
    case Avx512 => r, actual := ValidateAvx512(data, pattern, actual0);
    case Avx2 => r, actual := ValidateAvx2(data, pattern, actual0);
    case Sse42 => r, actual := ValidateSse42(data, pattern, actual0);
    case Neon => r, actual := ValidateNeon(data, pattern, actual0);
  }

  datatype Verdict = Skipped | Clean | Stale | Race | Real(offset: nat, expected: nat, actual: nat)

  /** Five equal bytes of a pattern other than the expected one start at i. */
  predicate Overwritten(data: Bytes, i: nat, expected: nat) {
    && i + 4 < |data|
    && IsPattern(data[i]) && data[i] != expected
    && Uniform(data[i..i + 5], data[i])
  }

  /** The mismatch lies in the tail zone, and everything from there on now reads as expected. */
  predicate Flushed(again: Bytes, payload: nat, expected: nat, r: nat) {
    r <= |again| && r >= TailStart(|again|, payload) && Uniform(again[r..], expected)
  }

  /** Where the mismatch is after the retry, with the byte seen there. */
  datatype Spot = Spot(at: nat, actual: nat)

  /** A retry in the tail zone that still fails moves on to its own first mismatch. */
  function Retried(again: Bytes, payload: nat, expected: nat, spot: Spot): Spot
    requires spot.at < |again|
  {
    var k := FirstMismatch(again[spot.at..], expected);
    if spot.at >= TailStart(|again|, payload) && k >= 0 then Spot(spot.at + k, again[spot.at + k]) else spot
  }

  /** A mismatch that no retry has cleared. */
  function Judged(sample: Bytes, payload: nat, expected: nat, spot: Spot): Verdict
    requires payload > 0
  {
    if Overwritten(sample, spot.at, expected) then Race else Real(spot.at % payload, expected, spot.actual)
  }

  /** What the three looks at the chunk amount to. */
  function Judge(scan: Bytes, again: Bytes, sample: Bytes, payload: nat, expected: nat): Verdict
    requires |scan| == |again| == |sample| && payload > 0
  {
    var r := FirstMismatch(scan, expected);
    if r < 0 then Clean
    else if Flushed(again, payload, expected, r) then Stale
    else Judged(sample, payload, expected, Retried(again, payload, expected, Spot(r, scan[r])))
  }

  /** The snapshot bytes are equal to the first one exactly when the five bytes are uniform. */
  lemma FiveEqual(data: Bytes, i: nat)
    requires i + 4 < |data|
    ensures Uniform(data[i..i + 5], data[i]) <==>
              data[i] == data[i + 1] && data[i] == data[i + 2] && data[i] == data[i + 3] && data[i] == data[i + 4]
  {
    var s := data[i..i + 5];
    assert s[0] == data[i] && s[1] == data[i + 1] && s[2] == data[i + 2] && s[3] == data[i + 3] && s[4] == data[i + 4];
  }

  /** The retry of a mismatch in the tail zone. */
  method RetryTail(isa: Isa, again: Bytes, payload: nat, expected: nat, spot: Spot) returns (matched: bool, spot': Spot)
    requires spot.at < |again|
    ensures matched <==> Flushed(again, payload, expected, spot.at)
    ensures spot' == Retried(again, payload, expected, spot)
  {
    matched, spot' := false, spot;
    if spot.at >= TailStart(|again|, payload) {
      var retry, retryActual := ValidateChunk(isa, again[spot.at..], expected, 0);
      FirstMismatchIs(again[spot.at..], expected, retry);
      if retry < 0 {
        matched := true;
      } else {
        spot' := Spot(spot.at + retry, retryActual);
      }
    }
  }

  /** The snapshot of the bytes from the mismatch on, and the classification. */
  method Classify(sample: Bytes, payload: nat, expected: nat, matched: bool, spot: Spot) returns (v: Verdict)
    requires spot.at < |sample| && payload > 0
    requires matched ==> spot.at >= TailStart(|sample|, payload)
    ensures v == if matched then Stale else Judged(sample, payload, expected, spot)
  {
    var actualSnap := spot.actual;
    var fwd := [expected, expected, expected, expected];
    var fwdValid := false;
    var i := spot.at;
    if !matched && i + 4 < |sample| {
      actualSnap := sample[i];
      fwd := [sample[i + 1], sample[i + 2], sample[i + 3], sample[i + 4]];
      fwdValid := true;
      FiveEqual(sample, i);
    }
    var mtype := ClassifyMismatch(i, |sample|, payload, expected, actualSnap, matched, fwd, fwdValid);
    match mtype
    case StaleMismatch => v := Stale;
    case RaceMismatch => v := Race;
    case RealMismatch => v := Real(i % payload, expected, spot.actual);
  }

  method ValidateOneMarker(isa: Isa, scan: Bytes, again: Bytes, sample: Bytes, markerVal: nat, payload: nat)
    returns (v: Verdict)
    requires |scan| == |again| == |sample| && payload > 0
    ensures markerVal == 0 ==> v == Skipped
    ensures markerVal > 0 ==> v == Judge(scan, again, sample, payload, CycleToPattern(markerVal - 1))
  {
    if markerVal == 0 {
      return Skipped;
    }
    var expected := CycleToPattern(markerVal - 1);
    var mismatch, actual := ValidateChunk(isa, scan, expected, 0);
    if mismatch < 0 {
      return Clean;
    }
    var matched, spot := RetryTail(isa, again, payload, expected, Spot(mismatch, actual));
    v := Classify(sample, payload, expected, matched, spot);
  }

  /** A second look at the same memory sees the same mismatch. */
  lemma SameSpot(data: Bytes, payload: nat, expected: nat, r: nat)
    requires r < |data| && data[r] != expected
    ensures !Flushed(data, payload, expected, r)
    ensures Retried(data, payload, expected, Spot(r, data[r])) == Spot(r, data[r])
  {
    var rest := data[r..];
    assert rest[0] == data[r] && rest[..0] == [];
    FirstMismatchIs(rest, expected, 0);
  }

  /**
   * On memory that does not change: a hit is clean exactly when every byte
   * matches, it is never stale, it is a race exactly when the first mismatch
   * starts five equal bytes of another pattern inside the chunk, and otherwise
   * it is real and reports that byte.
   */
  lemma StableVerdict(data: Bytes, payload: nat, expected: nat)
    requires payload > 0
    ensures var v, r := Judge(data, data, data, payload, expected), FirstMismatch(data, expected);
            && (v == Clean <==> Uniform(data, expected))
            && v != Stale && v != Skipped
            && (v == Race <==> r >= 0 && Overwritten(data, r, expected))
            && (v.Real? <==> r >= 0 && !Overwritten(data, r, expected))
            && (v.Real? ==> v == Real(r % payload, expected, data[r]))
  {
    var r := FirstMismatch(data, expected);
    FirstMismatchIs(data, expected, r);
    FirstMismatchIs(data, expected, -1);
    if r >= 0 {
      SameSpot(data, payload, expected, r);
    }
  }

  /**
   * A chunk filled for marker value k, looked at for marker value n, is clean if
   * and only if k and n have the same fill byte: at n itself, and at no value one
   * or two away.
   */
  lemma FilledVerdict(data: Bytes, payload: nat, k: nat, n: nat)
    requires payload > 0 && data != [] && k >= 1 && n >= 1 && Uniform(data, CycleToPattern(k - 1))
    ensures Judge(data, data, data, payload, CycleToPattern(n - 1)) == Clean <==> (k - n) % 3 == 0
    ensures k == n ==> Judge(data, data, data, payload, CycleToPattern(n - 1)) == Clean
    ensures k + 1 == n || k + 2 == n ==> Judge(data, data, data, payload, CycleToPattern(n - 1)) != Clean
  {
    StableVerdict(data, payload, CycleToPattern(n - 1));
    PatternPeriod(k - 1, n - 1);
    assert data[0] == CycleToPattern(k - 1);
  }

  /** One filled for the cycle before is a race, whatever its size from five bytes up. */
  lemma LateWriteIsRace(data: Bytes, payload: nat, n: nat)
    requires payload > 0 && |data| >= 5 && n >= 2 && Uniform(data, CycleToPattern(n - 2))
    ensures Judge(data, data, data, payload, CycleToPattern(n - 1)) == Race
  {
    PatternRound(n - 2, data[0]);
    PatternPeriod(n - 2, n - 1);
    StableVerdict(data, payload, CycleToPattern(n - 1));
    FirstMismatchIs(data, CycleToPattern(n - 1), 0);
    assert data[..0] == [] && data[0] == CycleToPattern(n - 2);
    FiveEqual(data, 0);
  }

  /**
   * What a real verdict reports when memory changes under the looks: outside the
   * tail zone the first mismatch of the scan, with the byte the scan saw; inside
   * it the first mismatch the retry finds from there on, with the byte the retry
   * saw.
   */
  lemma RealReports(scan: Bytes, again: Bytes, sample: Bytes, payload: nat, expected: nat, r: nat)
    requires |scan| == |again| == |sample| && payload > 0
    requires r < |scan| && scan[r] != expected && Uniform(scan[..r], expected)
    requires Judge(scan, again, sample, payload, expected).Real?
    ensures var v := Judge(scan, again, sample, payload, expected);
            && v.expected == expected && v.actual != expected
            && (r < TailStart(|again|, payload) ==> v.actual == scan[r] && v.offset == r % payload)
            && (r >= TailStart(|again|, payload) ==>
                  exists at :: r <= at < |again| && again[at] == v.actual && Uniform(again[r..at], expected)
                               && v.offset == at % payload)
  {
    FirstMismatchIs(scan, expected, r);
    if r >= TailStart(|again|, payload) {
      RetriedSpot(again, payload, expected, Spot(r, scan[r]));
    }
  }

  /** A retry in the tail zone that does not clear the mismatch moves to its own first one. */
  lemma RetriedSpot(again: Bytes, payload: nat, expected: nat, spot: Spot)
    requires spot.at < |again| && spot.at >= TailStart(|again|, payload) && !Flushed(again, payload, expected, spot.at)
    ensures var s := Retried(again, payload, expected, spot);
            && spot.at <= s.at < |again| && s.actual == again[s.at] != expected
            && Uniform(again[spot.at..s.at], expected)
  {
    var r, rest := spot.at, again[spot.at..];
    var k := FirstMismatch(rest, expected);
    FirstMismatchIs(rest, expected, k);
    assert rest[k] == again[r + k];
    assert again[r..r + k] == rest[..k];
  }

  /** Where the tail-zone subtraction wraps, no retry ever clears a mismatch. */
  lemma WrapNeverStale(scan: Bytes, again: Bytes, sample: Bytes, payload: nat, expected: nat)
    requires |scan| == |again| == |sample| && payload > 0
    requires |scan| < TailBytes(payload)
    ensures Judge(scan, again, sample, payload, expected) != Stale
  {
    var n, t := |scan|, TailBytes(payload);
    assert t < U64;
    assert n - t + U64 < U64;
    assert TailStart(n, payload) == n - t + U64;
  }
}
