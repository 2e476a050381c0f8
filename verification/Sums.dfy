/** Sums over sequences, distinct elements and partitions: what the conservation laws are built from. */
module Sums {
  import opened Arithmetic

  predicate Distinct<T(==)>(s: seq<T>) {
    forall i, j :: 0 <= i < j < |s| ==> s[i] != s[j]
  }

  function Sum(xs: seq<int>): int {
    if xs == [] then 0 else xs[0] + Sum(xs[1..])
  }

  lemma {:induction false} SumAppend(xs: seq<int>, x: int)
    ensures Sum(xs + [x]) == Sum(xs) + x
  {
    if xs == [] {
      assert [] + [x] == [x];
    } else {
      SumAppend(xs[1..], x);
      assert (xs + [x])[1..] == xs[1..] + [x];
    }
  }

  /** Replacing one element moves the sum by the difference. */
  lemma {:induction false} SumUpdate(xs: seq<int>, i: nat, x: int)
    requires i < |xs|
    ensures Sum(xs[i := x]) == Sum(xs) - xs[i] + x
  {
    if i == 0 {
      assert xs[0 := x][1..] == xs[1..];
    } else {
      SumUpdate(xs[1..], i - 1, x);
      assert xs[i := x][1..] == xs[1..][i - 1 := x];
    }
  }

  lemma {:induction false} SumZero(xs: seq<int>)
    requires forall i :: 0 <= i < |xs| ==> xs[i] == 0
    ensures Sum(xs) == 0
  {
    if xs != [] {
      SumZero(xs[1..]);
    }
  }

  lemma {:induction false} SumNonNegative(xs: seq<int>)
    requires forall i :: 0 <= i < |xs| ==> xs[i] >= 0
    ensures Sum(xs) >= 0
  {
    if xs != [] {
      SumNonNegative(xs[1..]);
    }
  }

  /** Pointwise addition. */
  lemma {:induction false} SumAdd(xs: seq<int>, ys: seq<int>, zs: seq<int>)
    requires |xs| == |ys| == |zs|
    requires forall i :: 0 <= i < |xs| ==> zs[i] == xs[i] + ys[i]
    ensures Sum(zs) == Sum(xs) + Sum(ys)
  {
    if xs != [] {
      SumAdd(xs[1..], ys[1..], zs[1..]);
    }
  }

  /** Pointwise scaling. */
  lemma {:induction false} SumScale(xs: seq<int>, k: int, ys: seq<int>)
    requires |xs| == |ys|
    requires forall i :: 0 <= i < |xs| ==> ys[i] == xs[i] * k
    ensures Sum(ys) == Sum(xs) * k
  {
    if xs != [] {
      SumScale(xs[1..], k, ys[1..]);
      MulAdd(xs[0], Sum(xs[1..]), k);
    }
  }

  /** Every listed position lies inside a table of the given length. */
  predicate InTable(idxs: seq<nat>, length: nat) {
    forall j :: 0 <= j < |idxs| ==> idxs[j] < length
  }

  /** A table summed along a list of positions. */
  function SumAt(table: seq<nat>, idxs: seq<nat>): int
    requires InTable(idxs, |table|)
  {
    if idxs == [] then 0 else table[idxs[0]] + SumAt(table, idxs[1..])
  }

  function Flatten(xss: seq<seq<nat>>): seq<nat> {
    if xss == [] then [] else xss[0] + Flatten(xss[1..])
  }

  function Iota(n: nat): (r: seq<nat>)
    ensures |r| == n
  {
    seq(n, i => i)
  }

  /** The lists hold every number below n exactly once between them. */
  ghost predicate Partition(xss: seq<seq<nat>>, n: nat) {
    multiset(Flatten(xss)) == multiset(Iota(n))
  }

  lemma {:induction false} FlattenMember(xss: seq<seq<nat>>, v: nat, j: nat)
    requires v < |xss| && j < |xss[v]|
    ensures xss[v][j] in Flatten(xss)
  {
    if v > 0 {
      FlattenMember(xss[1..], v - 1, j);
    }
  }

  lemma PartitionInRange(xss: seq<seq<nat>>, n: nat, v: nat, j: nat)
    requires Partition(xss, n)
    requires v < |xss| && j < |xss[v]|
    ensures xss[v][j] < n
  {
    FlattenMember(xss, v, j);
    assert xss[v][j] in multiset(Flatten(xss));
    assert xss[v][j] in multiset(Iota(n));
    assert xss[v][j] in Iota(n);
  }

  lemma {:induction false} SumAtConcat(table: seq<nat>, a: seq<nat>, b: seq<nat>)
    requires InTable(a, |table|) && InTable(b, |table|)
    ensures SumAt(table, a + b) == SumAt(table, a) + SumAt(table, b)
  {
    if a == [] {
      assert [] + b == b;
    } else {
      SumAtConcat(table, a[1..], b);
      assert (a + b)[1..] == a[1..] + b;
    }
  }

  /** Taking one occurrence of x out of a list. */
  lemma TakeOut(b: seq<nat>, x: nat, bag: multiset<nat>) returns (pre: seq<nat>, post: seq<nat>)
    requires multiset(b) == multiset{x} + bag
    ensures b == pre + ([x] + post)
    ensures multiset(pre + post) == bag
  {
    assert x in multiset(b);
    var k :| 0 <= k < |b| && b[k] == x;
    pre, post := b[..k], b[k + 1..];
    assert b == pre + ([x] + post);
    assert multiset(b) == multiset{x} + multiset(pre + post);
    assert multiset(pre + post) == multiset(b) - multiset{x} == bag;
  }

  /** A table summed along a list depends only on the multiset of positions. */
  lemma {:induction false} SumAtPermutation(table: seq<nat>, a: seq<nat>, b: seq<nat>)
    requires multiset(a) == multiset(b)
    requires InTable(a, |table|) && InTable(b, |table|)
    ensures SumAt(table, a) == SumAt(table, b)
  {
    if a == [] {
      assert |multiset(b)| == 0;
      assert b == [];
    } else {
      assert a == [a[0]] + a[1..];
      var pre, post := TakeOut(b, a[0], multiset(a[1..]));
      assert InTable(pre, |table|) by {
        assert forall j :: 0 <= j < |pre| ==> pre[j] == b[j];
      }
      assert InTable(post, |table|) by {
        assert forall j :: 0 <= j < |post| ==> post[j] == b[|pre| + 1 + j];
      }
      SumAtPermutation(table, a[1..], pre + post);
      SumAtConcat(table, pre, post);
      SumAtConcat(table, pre, [a[0]] + post);
      assert ([a[0]] + post)[1..] == post;
    }
  }

  /** Summing list by list is summing along the flattened list. */
  lemma {:induction false} SumAtFlatten(table: seq<nat>, xss: seq<seq<nat>>, parts: seq<int>)
    requires forall v :: 0 <= v < |xss| ==> InTable(xss[v], |table|)
    requires |parts| == |xss|
    requires forall v :: 0 <= v < |xss| ==> parts[v] == SumAt(table, xss[v])
    ensures InTable(Flatten(xss), |table|)
    ensures Sum(parts) == SumAt(table, Flatten(xss))
  {
    if xss != [] {
      SumAtFlatten(table, xss[1..], parts[1..]);
      SumAtConcat(table, xss[0], Flatten(xss[1..]));
    }
  }

  /** Summing along all positions, in order, is the plain sum. */
  lemma {:induction false} SumAtIota(table: seq<nat>, n: nat)
    requires n <= |table|
    ensures SumAt(table, Iota(n)) == Sum(table[..n])
  {
    if n > 0 {
      SumAtIota(table, n - 1);
      assert Iota(n) == Iota(n - 1) + [n - 1];
      SumAtConcat(table, Iota(n - 1), [n - 1]);
      assert table[..n] == table[..n - 1] + [table[n - 1]];
      SumAppend(table[..n - 1], table[n - 1]);
    }
  }

  /** For a partition, the per-list sums add up to the sum of the whole table. */
  lemma PartitionSum(table: seq<nat>, xss: seq<seq<nat>>, parts: seq<int>)
    requires Partition(xss, |table|)
    requires forall v :: 0 <= v < |xss| ==> InTable(xss[v], |table|)
    requires |parts| == |xss|
    requires forall v :: 0 <= v < |xss| ==> parts[v] == SumAt(table, xss[v])
    ensures Sum(parts) == Sum(table)
  {
    SumAtFlatten(table, xss, parts);
    SumAtPermutation(table, Flatten(xss), Iota(|table|));
    SumAtIota(table, |table|);
    assert table[..|table|] == table;
  }
}
