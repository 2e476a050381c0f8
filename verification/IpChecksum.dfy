/**
 * ip_checksum and gen_ipv4_header of src/raw_ethernet_resources.c. The source
 * adds the header as 32-bit words in a wide accumulator and folds once at the
 * end; section 3.1 of RFC 791 and section 2 of RFC 1071 define the checksum by
 * 16-bit one's-complement addition. The host is little-endian.
 */
module IpChecksum {
  import opened Arithmetic

  const M := 65535

  type half = x: nat | x < 65536
  type word = x: nat | x < 0x1_0000_0000

  // ----- folding -----

  /** Deferred folding: carries above 16 bits are added back in until none is left. */
  function Fold(x: nat): nat
    decreases x
  {
    if x < 65536 then x else Fold(x % 65536 + x / 65536)
  }

  /** The 16-bit representative of x modulo 65535; zero only for zero. */
  function Canon(x: nat): (r: half)
  {
    if x == 0 then 0 else (x - 1) % M + 1
  }

  lemma ModShift(x: int, k: int)
    ensures (x + M * k) % M == x % M
  {
    var q := (x + M * k) / M - x / M - k;
    assert M * q == x % M - (x + M * k) % M;
  }

  /** Folding terminates in that representative, so it keeps the sum modulo 65535. */
  lemma {:induction false} FoldIsCanon(x: nat)
    ensures Fold(x) == Canon(x)
    ensures Fold(x) % M == x % M
    decreases x
  {
    if x < 65536 {
      assert x > 0 ==> Canon(x) == x;
    } else {
      var y := x % 65536 + x / 65536;
      assert x - 1 == (y - 1) + M * (x / 65536);
      ModShift(y - 1, x / 65536);
      assert x == y + M * (x / 65536);
      ModShift(y, x / 65536);
      FoldIsCanon(y);
    }
  }

  // ----- the definition: 16-bit one's-complement addition -----

  /** Addition with end-around carry. */
  function OnesAdd(a: half, b: half): half {
    if a + b >= 65536 then a + b - 65535 else a + b
  }

  function OnesSum(hs: seq<half>): half {
    if hs == [] then 0 else OnesAdd(OnesSum(hs[..|hs| - 1]), hs[|hs| - 1])
  }

  function Total(hs: seq<half>): nat {
    if hs == [] then 0 else Total(hs[..|hs| - 1]) + hs[|hs| - 1]
  }

  lemma CanonAdd(x: nat, w: half)
    ensures Canon(x + w) == OnesAdd(Canon(x), w)
  {
    if x > 0 {
      var q, c := (x - 1) / M, Canon(x);
      assert x == M * q + c;
      if c + w >= 65536 {
        assert x + w - 1 == (c + w - M - 1) + M * (q + 1);
        ModShift(c + w - M - 1, q + 1);
      } else {
        assert x + w - 1 == (c + w - 1) + M * q;
        ModShift(c + w - 1, q);
      }
    }
  }

  lemma {:induction false} OnesSumIsCanon(hs: seq<half>)
    ensures OnesSum(hs) == Canon(Total(hs))
  {
    if hs != [] {
      OnesSumIsCanon(hs[..|hs| - 1]);
      CanonAdd(Total(hs[..|hs| - 1]), hs[|hs| - 1]);
    }
  }

  // ----- 32-bit words -----

  /** The low and high halves of each word, in memory order. */
  function Halves(ws: seq<word>): (r: seq<half>)
    ensures |r| == 2 * |ws|
  {
    if ws == [] then []
    else
      var w := ws[|ws| - 1];
      Halves(ws[..|ws| - 1]) + [w % 65536, w / 65536]
  }

  function Sum32(ws: seq<word>): nat {
    if ws == [] then 0 else Sum32(ws[..|ws| - 1]) + ws[|ws| - 1]
  }

  function SumHigh(ws: seq<word>): nat {
    if ws == [] then 0 else SumHigh(ws[..|ws| - 1]) + ws[|ws| - 1] / 65536
  }

  lemma TotalTwo(hs: seq<half>, a: half, b: half)
    ensures Total(hs + [a, b]) == Total(hs) + a + b
  {
    assert (hs + [a, b])[..|hs| + 1] == hs + [a];
    assert (hs + [a])[..|hs|] == hs;
  }

  lemma {:induction false} Sum32Halves(ws: seq<word>)
    ensures Sum32(ws) == Total(Halves(ws)) + M * SumHigh(ws)
    ensures Total(Halves(ws)) >= SumHigh(ws)
  {
    if ws != [] {
      var init, w := ws[..|ws| - 1], ws[|ws| - 1];
      Sum32Halves(init);
      TotalTwo(Halves(init), w % 65536, w / 65536);
    }
  }

  lemma CanonShift(x: nat, k: nat)
    requires x == 0 ==> k == 0
    ensures Canon(x + M * k) == Canon(x)
  {
    if x > 0 {
      assert x + M * k - 1 == (x - 1) + M * k;
      ModShift(x - 1, k);
    }
  }

  /** Summing wide and folding late is 16-bit one's-complement addition. */
  lemma WideSumIsOnesSum(ws: seq<word>)
    ensures Fold(Sum32(ws)) == OnesSum(Halves(ws))
  {
    Sum32Halves(ws);
    FoldIsCanon(Sum32(ws));
    CanonShift(Total(Halves(ws)), SumHigh(ws));
    OnesSumIsCanon(Halves(ws));
  }

  lemma {:induction false} Sum32Bound(ws: seq<word>)
    ensures Sum32(ws) <= |ws| * 0xFFFF_FFFF
  {
    if ws != [] {
      Sum32Bound(ws[..|ws| - 1]);
    }
  }

  lemma {:induction false} Sum32Split(ws: seq<word>, k: nat)
    requires k <= |ws|
    ensures Sum32(ws) == Sum32(ws[..k]) + Sum32(ws[k..])
  {
    if k == |ws| {
      assert ws[..k] == ws && ws[k..] == [];
    } else {
      var init := ws[..|ws| - 1];
      Sum32Split(init, k);
      assert init[..k] == ws[..k];
      assert ws[k..][..|ws| - k - 1] == init[k..];
    }
  }

  /** ip_checksum: the complement of the one's-complement sum. */
  method Checksum(raw: seq<word>) returns (check: half)
    requires |raw| <= 0x1_0000_0000
    ensures check == M - OnesSum(Halves(raw))
  {
    Sum32Bound(raw);
    var idx := |raw|;
    var sum: nat := 0;
    while idx > 0
      invariant 0 <= idx <= |raw|
      invariant sum == Sum32(raw[idx..])
    {
      Sum32Split(raw, idx - 1);
      Sum32Split(raw[idx - 1..], 1);
      assert raw[idx - 1..][1..] == raw[idx..];
      assert raw[idx - 1..][..1] == [raw[idx - 1]];
      assert Sum32([raw[idx - 1]]) == raw[idx - 1];
      idx := idx - 1;
      sum := (sum + raw[idx]) % U64;
    }
    assert raw[0..] == raw;
    ghost var total := sum;
    while sum >= 65536
      invariant Fold(sum) == Fold(total)
      decreases sum
    {
      sum := sum % 65536 + sum / 65536;
    }
    WideSumIsOnesSum(raw);
    check := M - sum;
  }

  // ----- the header -----

  /** Four bytes of memory, in address order. */
  datatype Quad = Quad(b0: byte, b1: byte, b2: byte, b3: byte)

  /** A quad as the 32-bit word a little-endian host reads. */
  function LeWord(q: Quad): word {
    (q.b0 as int) + (q.b1 as int) * 0x100 + (q.b2 as int) * 0x1_0000 + (q.b3 as int) * 0x100_0000
  }

  function Words(h: seq<Quad>): (ws: seq<word>)
    ensures |ws| == |h|
  {
    seq(|h|, k requires 0 <= k < |h| => LeWord(h[k]))
  }

  /** The 16-bit words in network order, as a receiver adds them. */
  function NetworkHalves(h: seq<Quad>): seq<half> {
    if h == [] then []
    else
      var q := h[|h| - 1];
      NetworkHalves(h[..|h| - 1])
      + [(q.b0 as int) * 0x100 + (q.b1 as int), (q.b2 as int) * 0x100 + (q.b3 as int)]
  }

  /** What section 3.1 of RFC 791 asks of a received header. */
  predicate Verifies(h: seq<Quad>) {
    OnesSum(NetworkHalves(h)) == 0xFFFF
  }

  /** The sums of the bytes at even and at odd addresses, and of the upper halves. */
  function Even(h: seq<Quad>): nat {
    if h == [] then 0 else Even(h[..|h| - 1]) + (h[|h| - 1].b0 as int) + (h[|h| - 1].b2 as int)
  }

  function Odd(h: seq<Quad>): nat {
    if h == [] then 0 else Odd(h[..|h| - 1]) + (h[|h| - 1].b1 as int) + (h[|h| - 1].b3 as int)
  }

  function Upper(h: seq<Quad>): nat {
    if h == [] then 0 else Upper(h[..|h| - 1]) + (h[|h| - 1].b2 as int) + 0x100 * (h[|h| - 1].b3 as int)
  }

  lemma {:induction false} NetworkTotal(h: seq<Quad>)
    ensures Total(NetworkHalves(h)) == 0x100 * Even(h) + Odd(h)
  {
    if h != [] {
      var q := h[|h| - 1];
      NetworkTotal(h[..|h| - 1]);
      TotalTwo(NetworkHalves(h[..|h| - 1]),
               (q.b0 as int) * 0x100 + (q.b1 as int), (q.b2 as int) * 0x100 + (q.b3 as int));
    }
  }

  /** The bytes as the host weighs them: odd addresses count 256 times. */
  function HostSum(h: seq<Quad>): nat {
    if h == [] then 0
    else
      var q := h[|h| - 1];
      HostSum(h[..|h| - 1]) + ((q.b0 as int) + (q.b2 as int)) + 0x100 * ((q.b1 as int) + (q.b3 as int))
  }

  lemma {:induction false} HostSumSplit(h: seq<Quad>)
    ensures HostSum(h) == Even(h) + 0x100 * Odd(h)
  {
    if h != [] {
      HostSumSplit(h[..|h| - 1]);
    }
  }

  /** What the host's words add up to: the weighed bytes, and a multiple of 65535. */
  lemma {:induction false} HostTotal(h: seq<Quad>)
    ensures Sum32(Words(h)) == HostSum(h) + M * Upper(h)
    ensures HostSum(h) >= Upper(h)
  {
    if h != [] {
      HostTotal(h[..|h| - 1]);
      assert Words(h)[..|h| - 1] == Words(h[..|h| - 1]);
    }
  }

  lemma FoldShift(x: nat, v: nat, k: nat)
    requires x == v + M * k && (v == 0 ==> k == 0)
    ensures Fold(x) == Canon(v)
  {
    FoldIsCanon(x);
    CanonShift(v, k);
  }

  /** The host's folded sum, seen through the bytes. */
  lemma HostFold(h: seq<Quad>)
    ensures Fold(Sum32(Words(h))) == Canon(HostSum(h))
  {
    HostTotal(h);
    FoldShift(Sum32(Words(h)), HostSum(h), Upper(h));
  }

  /** A positive multiple of 65535 folds to all ones. */
  lemma CanonOfMultiple(k: nat)
    requires k > 0
    ensures Canon(M * k) == M
  {
    assert M * k - 1 == (M - 1) + M * (k - 1);
    ModShift(M - 1, k - 1);
  }

  lemma CanonQuotient(v: nat) returns (q: nat)
    requires v > 0
    ensures v == M * q + Canon(v)
  {
    q := (v - 1) / M;
  }

  /** Swapping the weights of two bytes multiplies by 256 modulo 65535. */
  lemma SwappedWeights(e: nat, o: nat)
    requires Canon(e + 0x100 * o) == M
    ensures Canon(0x100 * e + o) == M
  {
    var q := CanonQuotient(e + 0x100 * o);
    assert e == M * (q + 1) - 0x100 * o;
    var n := 0x100 * (q + 1) - o;
    assert 0x100 * e + o == M * n;
    CanonOfMultiple(n);
  }

  /** A sum and the complement of its representative. */
  lemma Complement(v: nat, check: half)
    requires check == M - Canon(v)
    ensures Canon(v + check) == M
  {
    if v == 0 {
      CanonOfMultiple(1);
    } else {
      var q := CanonQuotient(v);
      assert v + check == M * (q + 1);
      CanonOfMultiple(q + 1);
    }
  }

  lemma SwappedWeightsIff(e: nat, o: nat)
    ensures Canon(e + 0x100 * o) == M <==> Canon(0x100 * e + o) == M
  {
    if Canon(e + 0x100 * o) == M {
      SwappedWeights(e, o);
    }
    if Canon(0x100 * e + o) == M {
      SwappedWeights(o, e);
    }
  }

  lemma NetworkSum(h: seq<Quad>)
    ensures OnesSum(NetworkHalves(h)) == Canon(0x100 * Even(h) + Odd(h))
  {
    NetworkTotal(h);
    OnesSumIsCanon(NetworkHalves(h));
  }

  /**
   * Byte order does not matter: the host's folded sum is all ones exactly when
   * the one's-complement sum in network order is.
   */
  lemma ByteOrderIndependent(h: seq<Quad>)
    ensures Fold(Sum32(Words(h))) == 0xFFFF <==> Verifies(h)
  {
    HostFold(h);
    HostSumSplit(h);
    NetworkSum(h);
    SwappedWeightsIff(Even(h), Odd(h));
  }

  /** A 16-bit field in the upper half of a quad, as the little-endian host stores it. */
  function WithCheck(h: seq<Quad>, i: nat, check: half): seq<Quad>
    requires i < |h|
  {
    h[i := h[i].(b2 := check % 0x100, b3 := check / 0x100)]
  }

  lemma {:induction false} CheckAdds(h: seq<Quad>, i: nat, check: half)
    requires i < |h| && h[i].b2 == 0 && h[i].b3 == 0
    ensures HostSum(WithCheck(h, i, check)) == HostSum(h) + check
  {
    var n := |h| - 1;
    if i < n {
      CheckAdds(h[..n], i, check);
      assert WithCheck(h, i, check)[..n] == WithCheck(h[..n], i, check);
    } else {
      assert WithCheck(h, i, check)[..n] == h[..n];
    }
  }

  lemma Completed(h: seq<Quad>, h': seq<Quad>, check: half)
    requires check == M - Fold(Sum32(Words(h))) && HostSum(h') == HostSum(h) + check
    ensures Fold(Sum32(Words(h'))) == 0xFFFF
  {
    HostFold(h);
    HostFold(h');
    Complement(HostSum(h), check);
  }

  /** Storing the complement of the folded sum makes the host's sum all ones. */
  lemma CheckCompletes(h: seq<Quad>, i: nat, check: half)
    requires i < |h| && h[i].b2 == 0 && h[i].b3 == 0
    requires check == M - Fold(Sum32(Words(h)))
    ensures Fold(Sum32(Words(WithCheck(h, i, check)))) == 0xFFFF
  {
    CheckAdds(h, i, check);
    Completed(h, WithCheck(h, i, check), check);
  }

  const DEF_TOS := -1

  /** gen_ipv4_header: every header it builds passes the receiver's check. */
  method GenIpv4Header(saddr: Quad, daddr: Quad, protocol: byte, pktSize: nat, ttl: nat, tos: int)
    returns (h: seq<Quad>)
    ensures |h| == 5 && Verifies(h)
    ensures h[0].b0 == 0x45 && h[0].b1 == (if tos == DEF_TOS then 0 else tos % 0x100)
    ensures (h[0].b2 as int) * 0x100 + (h[0].b3 as int) == pktSize % 0x1_0000
    ensures h[1] == Quad(0, 0, 0, 0) && h[2].b0 == ttl % 0x100 && h[2].b1 == protocol
    ensures h[3] == saddr && h[4] == daddr
  {
    var totLen := pktSize % 0x1_0000;
    var blank := [
      Quad(0x45, if tos == DEF_TOS then 0 else tos % 0x100, totLen / 0x100, totLen % 0x100),
      Quad(0, 0, 0, 0), Quad(ttl % 0x100, protocol, 0, 0), saddr, daddr];
    var check := Checksum(Words(blank));
    h := WithCheck(blank, 2, check);
    WideSumIsOnesSum(Words(blank));
    CheckCompletes(blank, 2, check);
    ByteOrderIndependent(h);
  }
}
