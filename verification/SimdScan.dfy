/**
 * The chunk scanners of src/host_validation.c. The AVX-512, AVX2 and SSE4.2
 * versions compare a vector of bytes with the pattern into a bit mask, look for
 * a mask that is not all ones, and count the trailing zeros of its complement;
 * they differ in the number of lanes. The NEON version keeps byte lanes and
 * looks at them as two 64-bit words. Masks are natural numbers here, bit i
 * standing for lane i.
 */
module SimdScan {

  type Bytes = seq<nat>

  // ----- the plain scan -----

  /** The least mismatching index, or -1. */
  function FirstMismatch(data: Bytes, pattern: nat): (r: int)
    ensures -1 <= r < |data|
  {
    if data == [] then -1
    else if data[0] != pattern then 0
    else
      var r := FirstMismatch(data[1..], pattern);
      if r < 0 then -1 else r + 1
  }

  predicate Uniform(data: Bytes, pattern: nat) {
    forall i :: 0 <= i < |data| ==> data[i] == pattern
  }

  /** The plain scan is the only index with these properties. */
  lemma {:induction false} FirstMismatchIs(data: Bytes, pattern: nat, r: int)
    ensures r == FirstMismatch(data, pattern) <==>
              || (r == -1 && Uniform(data, pattern))
              || (0 <= r < |data| && data[r] != pattern && Uniform(data[..r], pattern))
  {
    if data != [] {
      FirstMismatchIs(data[1..], pattern, r - 1);
      FirstMismatchIs(data[1..], pattern, -1);
      assert forall i :: 0 < i < |data| ==> data[i] == data[1..][i - 1];
      if 0 < r <= |data| {
        assert data[1..][..r - 1] == data[..r][1..];
        assert forall i :: 0 < i < r ==> data[..r][i] == data[..r][1..][i - 1];
      }
    }
  }

  // ----- lane masks as numbers -----

  function Pow2(n: nat): (r: nat)
    ensures r >= 1
  {
    if n == 0 then 1 else 2 * Pow2(n - 1)
  }

  function Full(lanes: nat): nat {
    Pow2(lanes) - 1
  }

  /** cmpeq: bit i is set when lane i equals the pattern. */
  function CompareMask(v: Bytes, pattern: nat): nat {
    if v == [] then 0
    else (if v[0] == pattern then 1 else 0) + 2 * CompareMask(v[1..], pattern)
  }

  function And(a: nat, b: nat): nat {
    if a == 0 || b == 0 then 0
    else (if a % 2 == 1 && b % 2 == 1 then 1 else 0) + 2 * And(a / 2, b / 2)
  }

  /** Count trailing zeros. */
  function Ctz(x: nat): nat
    requires x > 0
  {
    if x % 2 == 1 then 0 else 1 + Ctz(x / 2)
  }

  lemma {:induction false} MaskBound(v: Bytes, pattern: nat)
    ensures CompareMask(v, pattern) <= Full(|v|)
    ensures CompareMask(v, pattern) == Full(|v|) <==> Uniform(v, pattern)
  {
    if v != [] {
      MaskBound(v[1..], pattern);
      assert forall i :: 0 < i < |v| ==> v[i] == v[1..][i - 1];
    }
  }

  lemma CtzEven(x: nat)
    requires x > 0
    ensures Ctz(2 * x) == 1 + Ctz(x)
  {
  }

  lemma CtzOdd(x: nat)
    ensures Ctz(2 * x + 1) == 0
  {
  }

  /** The complement of a mask, lane by lane. */
  lemma ComplementStep(v: Bytes, pattern: nat)
    requires v != []
    ensures Full(|v|) - CompareMask(v, pattern)
         == (if v[0] == pattern then 0 else 1) + 2 * (Full(|v| - 1) - CompareMask(v[1..], pattern))
  {
  }

  /** The trailing zeros of a mask's complement are the matching lanes before the first mismatch. */
  lemma {:induction false} MaskCtz(v: Bytes, pattern: nat)
    requires CompareMask(v, pattern) < Full(|v|)
    ensures Ctz(Full(|v|) - CompareMask(v, pattern)) == FirstMismatch(v, pattern)
  {
    MaskBound(v[1..], pattern);
    ComplementStep(v, pattern);
    var x := Full(|v| - 1) - CompareMask(v[1..], pattern);
    if v[0] == pattern {
      MaskCtz(v[1..], pattern);
      CtzEven(x);
    } else {
      CtzOdd(x);
    }
  }

  lemma {:induction false} AndFull(a: nat, b: nat, lanes: nat)
    requires a <= Full(lanes) && b <= Full(lanes)
    ensures And(a, b) <= Full(lanes)
    ensures And(a, b) == Full(lanes) <==> a == Full(lanes) && b == Full(lanes)
  {
    if lanes > 0 && a > 0 && b > 0 {
      assert Full(lanes) == 2 * Full(lanes - 1) + 1;
      AndFull(a / 2, b / 2, lanes - 1);
    }
  }

  // ----- pieces of a scan -----

  /** A matching piece in front moves the result along. */
  lemma {:induction false} ScanOn(data: Bytes, pattern: nat, k: nat)
    requires k <= |data| && Uniform(data[..k], pattern)
    ensures FirstMismatch(data, pattern)
         == (var r := FirstMismatch(data[k..], pattern); if r < 0 then -1 else k + r)
  {
    if k == 0 {
      assert data[0..] == data;
    } else {
      assert data[..k][0] == data[0];
      assert data[1..][..k - 1] == data[..k][1..];
      ScanOn(data[1..], pattern, k - 1);
      assert data[1..][k - 1..] == data[k..];
    }
  }

  /** A mismatching piece in front decides the result. */
  lemma ScanHere(data: Bytes, pattern: nat, k: nat)
    requires k <= |data| && FirstMismatch(data[..k], pattern) >= 0
    ensures FirstMismatch(data, pattern) == FirstMismatch(data[..k], pattern)
  {
    var r := FirstMismatch(data[..k], pattern);
    FirstMismatchIs(data[..k], pattern, r);
    assert data[..k][..r] == data[..r];
    FirstMismatchIs(data, pattern, r);
  }

  /** Everything before i matches. */
  predicate Cleared(data: Bytes, pattern: nat, i: nat) {
    i <= |data| && Uniform(data[..i], pattern)
  }

  lemma Clear(data: Bytes, pattern: nat, i: nat, k: nat)
    requires Cleared(data, pattern, i) && i + k <= |data| && Uniform(data[i..i + k], pattern)
    ensures Cleared(data, pattern, i + k)
  {
    assert data[..i + k] == data[..i] + data[i..i + k];
  }

  /** A mismatch in the piece at i is the first of the whole. */
  lemma Found(data: Bytes, pattern: nat, i: nat, k: nat)
    requires Cleared(data, pattern, i) && i + k <= |data| && !Uniform(data[i..i + k], pattern)
    ensures var r := FirstMismatch(data[i..i + k], pattern);
            0 <= r < k && FirstMismatch(data, pattern) == i + r && data[i + r] != pattern
  {
    var r := FirstMismatch(data[i..i + k], pattern);
    FirstMismatchIs(data[i..i + k], pattern, r);
    assert data[i..][..k] == data[i..i + k];
    ScanHere(data[i..], pattern, k);
    ScanOn(data, pattern, i);
  }

  // ----- the mask scanners -----

  /** One vector at i: not all ones means the mismatch is here, at the trailing zeros of the complement. */
  lemma VectorAt(data: Bytes, pattern: nat, i: nat, lanes: nat)
    requires Cleared(data, pattern, i) && i + lanes <= |data|
    ensures var m := CompareMask(data[i..i + lanes], pattern);
            && m <= Full(lanes)
            && (m == Full(lanes) ==> Cleared(data, pattern, i + lanes))
            && (m != Full(lanes) ==>
                  var pos := Ctz(Full(lanes) - m);
                  pos < lanes && FirstMismatch(data, pattern) == i + pos && data[i + pos] != pattern)
  {
    var v := data[i..i + lanes];
    MaskBound(v, pattern);
    if CompareMask(v, pattern) == Full(lanes) {
      Clear(data, pattern, i, lanes);
    } else {
      MaskCtz(v, pattern);
      Found(data, pattern, i, lanes);
    }
  }

  /** The scalar tail shared by all four scanners. */
  method ScalarTail(data: Bytes, pattern: nat, start: nat, actual0: nat) returns (r: int, actual: nat)
    requires Cleared(data, pattern, start)
    ensures r == FirstMismatch(data, pattern)
    ensures actual == if r >= 0 then data[r] else actual0
  {
    var i := start;
    while i < |data|
      invariant Cleared(data, pattern, i)
    {
      if data[i] != pattern {
        assert !Uniform(data[i..i + 1], pattern) by {
          assert data[i..i + 1][0] == data[i];
        }
        Found(data, pattern, i, 1);
        return i, data[i];
      }
      Clear(data, pattern, i, 1);
      i := i + 1;
    }
    assert data[..i] == data;
    FirstMismatchIs(data, pattern, -1);
    return -1, actual0;
  }

  /** The one-vector loop and the tail. */
  method VectorLoop(data: Bytes, pattern: nat, lanes: nat, start: nat, actual0: nat) returns (r: int, actual: nat)
    requires lanes > 0 && Cleared(data, pattern, start)
    ensures r == FirstMismatch(data, pattern)
    ensures actual == if r >= 0 then data[r] else actual0
  {
    var i := start;
    while i + lanes <= |data|
      invariant Cleared(data, pattern, i)
    {
      VectorAt(data, pattern, i, lanes);
      var mask := CompareMask(data[i..i + lanes], pattern);
      if mask != Full(lanes) {
        var pos := Ctz(Full(lanes) - mask);
        return i + pos, data[i + pos];
      }
      i := i + lanes;
    }
    r, actual := ScalarTail(data, pattern, i, actual0);
  }

  /** Four masks anded together are all ones exactly when each is. */
  lemma AndFour(m0: nat, m1: nat, m2: nat, m3: nat, lanes: nat)
    requires m0 <= Full(lanes) && m1 <= Full(lanes) && m2 <= Full(lanes) && m3 <= Full(lanes)
    ensures And(And(And(m0, m1), m2), m3) == Full(lanes) <==>
              m0 == Full(lanes) && m1 == Full(lanes) && m2 == Full(lanes) && m3 == Full(lanes)
  {
    AndFull(m0, m1, lanes);
    AndFull(And(m0, m1), m2, lanes);
    AndFull(And(And(m0, m1), m2), m3, lanes);
  }

  /** The compare mask of the vector at i. */
  function MaskAt(data: Bytes, pattern: nat, i: nat, lanes: nat): (m: nat)
    requires i + lanes <= |data|
    ensures m <= Full(lanes)
  {
    MaskBound(data[i..i + lanes], pattern);
    CompareMask(data[i..i + lanes], pattern)
  }

  /** A vector whose mask is not all ones: where its mismatch is. */
  method Locate(data: Bytes, pattern: nat, i: nat, lanes: nat, mask: nat) returns (hit: int)
    requires Cleared(data, pattern, i) && i + lanes <= |data|
    requires mask == MaskAt(data, pattern, i, lanes) && mask != Full(lanes)
    ensures 0 <= hit && hit == FirstMismatch(data, pattern)
  {
    VectorAt(data, pattern, i, lanes);
    return i + Ctz(Full(lanes) - mask);
  }

  lemma ClearVector(data: Bytes, pattern: nat, i: nat, lanes: nat)
    requires Cleared(data, pattern, i) && i + lanes <= |data|
    requires MaskAt(data, pattern, i, lanes) == Full(lanes)
    ensures Cleared(data, pattern, i + lanes)
  {
    VectorAt(data, pattern, i, lanes);
  }

  lemma ClearFour(data: Bytes, pattern: nat, i: nat, lanes: nat)
    requires Cleared(data, pattern, i) && i + 4 * lanes <= |data|
    requires MaskAt(data, pattern, i, lanes) == MaskAt(data, pattern, i + lanes, lanes) == Full(lanes)
    requires MaskAt(data, pattern, i + 2 * lanes, lanes) == MaskAt(data, pattern, i + 3 * lanes, lanes) == Full(lanes)
    ensures Cleared(data, pattern, i + 4 * lanes)
  {
    ClearVector(data, pattern, i, lanes);
    ClearVector(data, pattern, i + lanes, lanes);
    ClearVector(data, pattern, i + 2 * lanes, lanes);
    ClearVector(data, pattern, i + 3 * lanes, lanes);
  }

  /** Which of the last two vectors holds the mismatch. */
  method LocateLast(data: Bytes, pattern: nat, i: nat, lanes: nat, m2: nat, m3: nat) returns (hit: int)
    requires Cleared(data, pattern, i) && i + 2 * lanes <= |data|
    requires m2 == MaskAt(data, pattern, i, lanes) && m3 == MaskAt(data, pattern, i + lanes, lanes)
    requires m2 != Full(lanes) || m3 != Full(lanes)
    ensures 0 <= hit && hit == FirstMismatch(data, pattern)
  {
    if m2 != Full(lanes) {
      hit := Locate(data, pattern, i, lanes, m2);
      return;
    }
    ClearVector(data, pattern, i, lanes);
    hit := Locate(data, pattern, i + lanes, lanes, m3);
  }

  /** Which of four vectors holds the mismatch, and where. */
  method LocateFour(data: Bytes, pattern: nat, i: nat, lanes: nat, m0: nat, m1: nat, m2: nat, m3: nat) returns (hit: int)
    requires Cleared(data, pattern, i) && i + 4 * lanes <= |data|
    requires m0 == MaskAt(data, pattern, i, lanes) && m1 == MaskAt(data, pattern, i + lanes, lanes)
    requires m2 == MaskAt(data, pattern, i + 2 * lanes, lanes) && m3 == MaskAt(data, pattern, i + 3 * lanes, lanes)
    requires m0 != Full(lanes) || m1 != Full(lanes) || m2 != Full(lanes) || m3 != Full(lanes)
    ensures 0 <= hit && hit == FirstMismatch(data, pattern)
  {
    if m0 != Full(lanes) {
      hit := Locate(data, pattern, i, lanes, m0);
      return;
    }
    ClearVector(data, pattern, i, lanes);
    if m1 != Full(lanes) {
      hit := Locate(data, pattern, i + lanes, lanes, m1);
      return;
    }
    ClearVector(data, pattern, i + lanes, lanes);
    hit := LocateLast(data, pattern, i + 2 * lanes, lanes, m2, m3);
  }

  /** One turn of the unrolled loop: the index of a mismatch, or -1 when all four vectors match. */
  method FourVectors(data: Bytes, pattern: nat, i: nat, lanes: nat) returns (hit: int)
    requires Cleared(data, pattern, i) && i + 4 * lanes <= |data|
    ensures hit == -1 ==> Cleared(data, pattern, i + 4 * lanes)
    ensures hit != -1 ==> 0 <= hit && hit == FirstMismatch(data, pattern)
  {
    var m0, m1 := MaskAt(data, pattern, i, lanes), MaskAt(data, pattern, i + lanes, lanes);
    var m2, m3 := MaskAt(data, pattern, i + 2 * lanes, lanes), MaskAt(data, pattern, i + 3 * lanes, lanes);
    AndFour(m0, m1, m2, m3, lanes);
    var all := And(And(And(m0, m1), m2), m3);
    if all != Full(lanes) {
      hit := LocateFour(data, pattern, i, lanes, m0, m1, m2, m3);
      return;
    }
    ClearFour(data, pattern, i, lanes);
    return -1;
  }

  /** The unrolled loop, then the one-vector loop, then the tail. */
  method MaskScan(data: Bytes, pattern: nat, lanes: nat, actual0: nat) returns (r: int, actual: nat)
    requires lanes > 0
    ensures r == FirstMismatch(data, pattern)
    ensures actual == if r >= 0 then data[r] else actual0
  {
    var i := 0;
    while i + 4 * lanes <= |data|
      invariant Cleared(data, pattern, i)
    {
      var hit := FourVectors(data, pattern, i, lanes);
      if hit != -1 {
        return hit, data[hit];
      }
      i := i + 4 * lanes;
    }
    r, actual := VectorLoop(data, pattern, lanes, i, actual0);
  }

  method ValidateAvx512(data: Bytes, pattern: nat, actual0: nat) returns (r: int, actual: nat)
    ensures r == FirstMismatch(data, pattern)
    ensures actual == if r >= 0 then data[r] else actual0
  {
    r, actual := MaskScan(data, pattern, 64, actual0);
  }

  method ValidateAvx2(data: Bytes, pattern: nat, actual0: nat) returns (r: int, actual: nat)
    ensures r == FirstMismatch(data, pattern)
    ensures actual == if r >= 0 then data[r] else actual0
  {
    r, actual := MaskScan(data, pattern, 32, actual0);
  }

  method ValidateSse42(data: Bytes, pattern: nat, actual0: nat) returns (r: int, actual: nat)
    ensures r == FirstMismatch(data, pattern)
    ensures actual == if r >= 0 then data[r] else actual0
  {
    r, actual := MaskScan(data, pattern, 16, actual0);
  }

  // ----- the NEON scanner -----

  /** vceqq: a lane is 0xFF when it equals the pattern and 0 otherwise. */
  function CompareLanes(v: Bytes, pattern: nat): (r: Bytes)
    ensures |r| == |v|
  {
    seq(|v|, i requires 0 <= i < |v| => if v[i] == pattern then 0xFF else 0)
  }

  /** vandq on lanes that are 0 or 0xFF. */
  function AndLanes(a: Bytes, b: Bytes): (r: Bytes)
    requires |a| == |b|
    ensures |r| == |a|
  {
    seq(|a|, i requires 0 <= i < |a| => And(a[i], b[i]))
  }

  /** Byte lanes reinterpreted as one little-endian word. */
  function Word(v: Bytes): nat {
    if v == [] then 0 else v[0] + 256 * Word(v[1..])
  }

  function AllOnes(n: nat): nat {
    if n == 0 then 0 else 255 + 256 * AllOnes(n - 1)
  }

  lemma {:induction false} WordAllOnes(v: Bytes)
    requires forall i :: 0 <= i < |v| ==> v[i] <= 255
    ensures Word(v) <= AllOnes(|v|)
    ensures Word(v) == AllOnes(|v|) <==> Uniform(v, 255)
  {
    if v != [] {
      WordAllOnes(v[1..]);
      assert forall i :: 0 < i < |v| ==> v[i] == v[1..][i - 1];
    }
  }

  /** The test both NEON loops make: neither 64-bit half is all ones short. */
  predicate HalvesAllOnes(v: Bytes)
    requires |v| == 16
  {
    Word(v[..8]) == 0xFFFF_FFFF_FFFF_FFFF && Word(v[8..]) == 0xFFFF_FFFF_FFFF_FFFF
  }

  lemma HalvesUniform(v: Bytes)
    requires |v| == 16 && forall i :: 0 <= i < |v| ==> v[i] <= 255
    ensures HalvesAllOnes(v) <==> Uniform(v, 255)
  {
    WordAllOnes(v[..8]);
    WordAllOnes(v[8..]);
    AllOnesEight();
    assert v == v[..8] + v[8..];
    if Uniform(v, 255) {
      assert forall i :: 0 <= i < 8 ==> v[8..][i] == v[8 + i];
    }
  }

  lemma AllOnesEight()
    ensures AllOnes(8) == 0xFFFF_FFFF_FFFF_FFFF
  {
    assert AllOnes(4) == 0xFFFF_FFFF;
    assert AllOnes(6) == 0xFFFF_FFFF_FFFF;
  }

  lemma AndByte(a: nat, b: nat)
    requires (a == 0 || a == 255) && (b == 0 || b == 255)
    ensures And(a, b) == if a == 255 && b == 255 then 255 else 0
  {
    if a == 255 && b == 255 {
      assert And(15, 15) == 15;
      assert And(63, 63) == 63;
    }
  }

  /** The byte loop the NEON version runs once it knows a mismatch is near. */
  method ByteLoop(data: Bytes, pattern: nat, i: nat, count: nat) returns (hit: int)
    requires Cleared(data, pattern, i) && i + count <= |data|
    ensures hit == -1 ==> Cleared(data, pattern, i + count)
    ensures hit != -1 ==> 0 <= hit && hit == FirstMismatch(data, pattern)
  {
    for j := 0 to count
      invariant Cleared(data, pattern, i + j)
    {
      if data[i + j] != pattern {
        assert data[i + j..i + j + 1][0] == data[i + j];
        Found(data, pattern, i + j, 1);
        return i + j;
      }
      Clear(data, pattern, i + j, 1);
    }
    return -1;
  }

  predicate OnOff(v: Bytes) {
    forall i :: 0 <= i < |v| ==> v[i] == 0 || v[i] == 255
  }

  lemma FourLanes(c0: Bytes, c1: Bytes, c2: Bytes, c3: Bytes)
    requires |c0| == |c1| == |c2| == |c3| == 16
    requires OnOff(c0) && OnOff(c1) && OnOff(c2) && OnOff(c3)
    ensures HalvesAllOnes(AndLanes(AndLanes(c0, c1), AndLanes(c2, c3)))
       <==> Uniform(c0, 255) && Uniform(c1, 255) && Uniform(c2, 255) && Uniform(c3, 255)
  {
    var all := AndLanes(AndLanes(c0, c1), AndLanes(c2, c3));
    forall i | 0 <= i < 16
      ensures all[i] == if c0[i] == 255 && c1[i] == 255 && c2[i] == 255 && c3[i] == 255 then 255 else 0
    {
      AndByte(c0[i], c1[i]);
      AndByte(c2[i], c3[i]);
      AndByte(AndLanes(c0, c1)[i], AndLanes(c2, c3)[i]);
    }
    HalvesUniform(all);
  }

  lemma LanesUniform(v: Bytes, pattern: nat)
    ensures Uniform(CompareLanes(v, pattern), 255) <==> Uniform(v, pattern)
  {
    var c := CompareLanes(v, pattern);
    if Uniform(c, 255) {
      forall i | 0 <= i < |v|
        ensures v[i] == pattern
      {
        assert c[i] == 255;
      }
    }
  }

  /** One turn of the unrolled NEON loop. */
  method FourNeon(data: Bytes, pattern: nat, i: nat) returns (hit: int)
    requires Cleared(data, pattern, i) && i + 64 <= |data|
    ensures hit == -1 ==> Cleared(data, pattern, i + 64)
    ensures hit != -1 ==> 0 <= hit && hit == FirstMismatch(data, pattern)
  {
    var c0 := CompareLanes(data[i..i + 16], pattern);
    var c1 := CompareLanes(data[i + 16..i + 32], pattern);
    var c2 := CompareLanes(data[i + 32..i + 48], pattern);
    var c3 := CompareLanes(data[i + 48..i + 64], pattern);
    if !HalvesAllOnes(AndLanes(AndLanes(c0, c1), AndLanes(c2, c3))) {
      hit := ByteLoop(data, pattern, i, 64);
      return;
    }
    FourLanes(c0, c1, c2, c3);
    LanesUniform(data[i..i + 16], pattern);
    LanesUniform(data[i + 16..i + 32], pattern);
    LanesUniform(data[i + 32..i + 48], pattern);
    LanesUniform(data[i + 48..i + 64], pattern);
    Clear(data, pattern, i, 16);
    Clear(data, pattern, i + 16, 16);
    Clear(data, pattern, i + 32, 16);
    Clear(data, pattern, i + 48, 16);
    return -1;
  }

  method ValidateNeon(data: Bytes, pattern: nat, actual0: nat) returns (r: int, actual: nat)
    ensures r == FirstMismatch(data, pattern)
    ensures actual == if r >= 0 then data[r] else actual0
  {
    var i := 0;
    while i + 64 <= |data|
      invariant Cleared(data, pattern, i)
    {
      var hit := FourNeon(data, pattern, i);
      if hit != -1 {
        return hit, data[hit];
      }
      i := i + 64;
    }
    while i + 16 <= |data|
      invariant Cleared(data, pattern, i)
    {
      var c := CompareLanes(data[i..i + 16], pattern);
      HalvesUniform(c);
      LanesUniform(data[i..i + 16], pattern);
      if !HalvesAllOnes(c) {
        var hit := ByteLoop(data, pattern, i, 16);
        if hit != -1 {
          return hit, data[hit];
        }
      } else {
        Clear(data, pattern, i, 16);
      }
      i := i + 16;
    }
    r, actual := ScalarTail(data, pattern, i, actual0);
  }
}
