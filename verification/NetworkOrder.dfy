/** Numbers in network byte order: what hton_int, hton_64 and htonl write and their inverses read. */
module NetworkOrder {
  import opened Arithmetic

  type Bytes = seq<nat>

  predicate IsBytes(b: Bytes) {
    forall i :: 0 <= i < |b| ==> b[i] < 256
  }

  function BigEndian(b: Bytes): nat {
    if b == [] then 0 else BigEndian(b[..|b| - 1]) * 256 + b[|b| - 1]
  }

  function Pow256(w: nat): (r: nat)
    ensures r >= 1
  {
    if w == 0 then 1 else Pow256(w - 1) * 256
  }

  /** The first byte has the highest weight. */
  lemma {:induction false} FirstIsHighest(x: nat, rest: Bytes)
    ensures BigEndian([x] + rest) == x * Pow256(|rest|) + BigEndian(rest)
  {
    if rest == [] {
      assert [x] + [] == [x] && [x][..0] == [];
    } else {
      var n := |rest| - 1;
      FirstIsHighest(x, rest[..n]);
      assert ([x] + rest)[..n + 1] == [x] + rest[..n];
      MulAssociates(x, Pow256(n), 256);
    }
  }

  lemma {:induction false} BigEndianInjective(a: Bytes, b: Bytes)
    requires IsBytes(a) && IsBytes(b) && |a| == |b|
    ensures BigEndian(a) == BigEndian(b) <==> a == b
  {
    if a != [] {
      var n := |a| - 1;
      BigEndianInjective(a[..n], b[..n]);
      assert a == a[..n] + [a[n]] && b == b[..n] + [b[n]];
      if BigEndian(a) == BigEndian(b) {
        assert BigEndian(a[..n]) * 256 + a[n] == BigEndian(b[..n]) * 256 + b[n];
      }
    }
  }

  /** n in w bytes. */
  function Encode(n: nat, w: nat): (b: Bytes)
    ensures |b| == w
    decreases w
  {
    if w == 0 then [] else Encode(n / 256, w - 1) + [n % 256]
  }

  /** A number that fits is read back. */
  lemma {:induction false} EncodeDecode(n: nat, w: nat)
    requires n < Pow256(w)
    ensures IsBytes(Encode(n, w)) && BigEndian(Encode(n, w)) == n
    decreases w
  {
    if w > 0 {
      Quotient(n, 256);
      EncodeDecode(n / 256, w - 1);
      assert Encode(n, w)[..w - 1] == Encode(n / 256, w - 1);
    }
  }

  lemma PowerValues()
    ensures Pow256(4) == U32
  {
    assert Pow256(1) == 256 && Pow256(2) == 0x1_0000 && Pow256(3) == 0x100_0000;
  }
}
