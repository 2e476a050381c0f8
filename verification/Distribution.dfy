/**
 * How distribute_markers of src/host_validation.c shares the tail markers out:
 * a chunk-major, QP-interleaved order is cut into contiguous slices of one
 * array, and each slice is sorted in place.
 */
module Distribution {
  import opened Arithmetic
  import opened Sums

  /** One marker as a validator polls it. */
  datatype Entry = Entry(marker: nat, qp: nat, chunk: nat)

  // ----- the interleaved order -----

  /** The marker at a position of the chunk-major, QP-interleaved walk. */
  function MarkerAt(qps: nat, chunks: nat, pos: nat): nat
    requires qps > 0
  {
    pos % qps * chunks + pos / qps
  }

  /** The position of a marker in that walk. */
  function PositionOf(qps: nat, chunks: nat, marker: nat): nat
    requires chunks > 0
  {
    marker % chunks * qps + marker / chunks
  }

  /** Row and column of a table stay inside it. */
  lemma CellInside(row: nat, rows: nat, col: nat, cols: nat)
    requires row < rows && col < cols
    ensures row * cols + col < rows * cols
  {
    BlockBefore(row, rows, cols);
  }

  /** The walk is the marker table read column by column. */
  lemma Transposed(qps: nat, chunks: nat, qp: nat, chunk: nat)
    requires qp < qps && chunk < chunks
    ensures MarkerAt(qps, chunks, chunk * qps + qp) == qp * chunks + chunk
    ensures PositionOf(qps, chunks, qp * chunks + chunk) == chunk * qps + qp
  {
    DivModUnique(chunk * qps + qp, qps, chunk, qp);
    DivModUnique(qp * chunks + chunk, chunks, qp, chunk);
  }

  lemma PositionCell(qps: nat, chunks: nat, pos: nat) returns (qp: nat, chunk: nat)
    requires qps > 0 && pos < qps * chunks
    ensures qp == pos % qps < qps && chunk < chunks && pos == chunk * qps + qp
  {
    qp, chunk := pos % qps, pos / qps;
    Quotient(pos, qps);
    MulCommutes(qps, chunks);
    QuotientBelow(pos, qps, chunks);
  }

  lemma MarkerCell(qps: nat, chunks: nat, marker: nat) returns (qp: nat, chunk: nat)
    requires marker < qps * chunks
    ensures qp < qps && chunk < chunks && marker == qp * chunks + chunk
  {
    qp, chunk := marker / chunks, marker % chunks;
    Quotient(marker, chunks);
    QuotientBelow(marker, chunks, qps);
  }

  lemma MarkerInRange(qps: nat, chunks: nat, pos: nat)
    requires qps > 0 && pos < qps * chunks
    ensures MarkerAt(qps, chunks, pos) < qps * chunks
    ensures MarkerAt(qps, chunks, pos) / chunks == pos % qps
    ensures PositionOf(qps, chunks, MarkerAt(qps, chunks, pos)) == pos
  {
    var qp, chunk := PositionCell(qps, chunks, pos);
    Transposed(qps, chunks, qp, chunk);
    CellInside(qp, qps, chunk, chunks);
    DivModUnique(qp * chunks + chunk, chunks, qp, chunk);
  }

  lemma PositionInRange(qps: nat, chunks: nat, marker: nat)
    requires qps > 0 && marker < qps * chunks
    ensures chunks > 0
    ensures PositionOf(qps, chunks, marker) < qps * chunks
    ensures MarkerAt(qps, chunks, PositionOf(qps, chunks, marker)) == marker
  {
    var qp, chunk := MarkerCell(qps, chunks, marker);
    Transposed(qps, chunks, qp, chunk);
    CellInside(chunk, chunks, qp, qps);
    MulCommutes(qps, chunks);
  }

  ghost predicate IsWalk(qps: nat, chunks: nat, s: seq<nat>)
    requires qps > 0
  {
    |s| == qps * chunks && forall pos :: 0 <= pos < |s| ==> s[pos] == MarkerAt(qps, chunks, pos)
  }

  lemma {:induction false} DistinctOnce(s: seq<nat>, x: nat)
    requires Distinct(s)
    ensures multiset(s)[x] == if x in s then 1 else 0
  {
    if s != [] {
      DistinctOnce(s[1..], x);
      assert s == [s[0]] + s[1..];
    }
  }

  /** The walk visits every marker exactly once. */
  lemma WalkIsPermutation(qps: nat, chunks: nat, s: seq<nat>)
    requires qps > 0 && IsWalk(qps, chunks, s)
    ensures Distinct(s)
    ensures multiset(s) == multiset(Iota(qps * chunks))
  {
    var n := qps * chunks;
    forall i, j | 0 <= i < j < |s|
      ensures s[i] != s[j]
    {
      MarkerInRange(qps, chunks, i);
      MarkerInRange(qps, chunks, j);
    }
    forall x: nat
      ensures multiset(s)[x] == multiset(Iota(n))[x]
    {
      DistinctOnce(s, x);
      DistinctOnce(Iota(n), x);
      if x < n {
        PositionInRange(qps, chunks, x);
        assert s[PositionOf(qps, chunks, x)] == x;
        assert Iota(n)[x] == x;
      } else if x in s {
        var i :| 0 <= i < |s| && s[i] == x;
        MarkerInRange(qps, chunks, i);
        assert false;
      }
    }
  }

  // ----- insertion sort of one slice -----

  /** Insert a key into an ascending list, from the right. */
  function Insert(s: seq<nat>, key: nat): (r: seq<nat>)
    ensures |r| == |s| + 1
  {
    if s == [] || s[|s| - 1] <= key then s + [key]
    else Insert(s[..|s| - 1], key) + [s[|s| - 1]]
  }

  function Sorted(s: seq<nat>): (r: seq<nat>)
    ensures |r| == |s|
  {
    if s == [] then [] else Insert(Sorted(s[..|s| - 1]), s[|s| - 1])
  }

  ghost predicate Ascending(s: seq<nat>) {
    forall i, j :: 0 <= i < j < |s| ==> s[i] <= s[j]
  }

  ghost predicate StrictlyAscending(s: seq<nat>) {
    forall i, j :: 0 <= i < j < |s| ==> s[i] < s[j]
  }

  lemma {:induction false} InsertBag(s: seq<nat>, key: nat)
    ensures multiset(Insert(s, key)) == multiset(s) + multiset{key}
  {
    if s != [] && s[|s| - 1] > key {
      InsertBag(s[..|s| - 1], key);
      assert s == s[..|s| - 1] + [s[|s| - 1]];
    }
  }

  lemma {:induction false} InsertBounded(s: seq<nat>, key: nat, bound: nat)
    requires key <= bound && forall i :: 0 <= i < |s| ==> s[i] <= bound
    ensures forall i :: 0 <= i <= |s| ==> Insert(s, key)[i] <= bound
  {
    if s != [] && s[|s| - 1] > key {
      InsertBounded(s[..|s| - 1], key, bound);
    }
  }

  lemma {:induction false} InsertAscending(s: seq<nat>, key: nat)
    requires Ascending(s)
    ensures Ascending(Insert(s, key))
  {
    if s != [] && s[|s| - 1] > key {
      InsertAscending(s[..|s| - 1], key);
      InsertBounded(s[..|s| - 1], key, s[|s| - 1]);
    }
  }

  lemma BagOfLast(s: seq<nat>)
    requires s != []
    ensures multiset(s) == multiset(s[..|s| - 1]) + multiset{s[|s| - 1]}
  {
    assert s == s[..|s| - 1] + [s[|s| - 1]];
  }

  lemma {:induction false} SortedSorts(s: seq<nat>)
    ensures Ascending(Sorted(s)) && multiset(Sorted(s)) == multiset(s)
  {
    if s != [] {
      var init, last := s[..|s| - 1], s[|s| - 1];
      SortedSorts(init);
      InsertAscending(Sorted(init), last);
      InsertBag(Sorted(init), last);
      BagOfLast(s);
    }
  }

  lemma TwiceInBag(s: seq<nat>, i: nat, j: nat)
    requires i < j < |s| && s[i] == s[j]
    ensures multiset(s)[s[i]] >= 2
  {
    assert s == s[..j] + [s[j]] + s[j + 1..];
    assert s[..j][i] == s[j];
    assert s[j] in multiset(s[..j]);
  }

  lemma BagDistinct(s: seq<nat>)
    requires forall x :: multiset(s)[x] <= 1
    ensures Distinct(s)
  {
    forall i, j | 0 <= i < j < |s|
      ensures s[i] != s[j]
    {
      if s[i] == s[j] {
        TwiceInBag(s, i, j);
      }
    }
  }

  lemma SortedStrict(s: seq<nat>)
    requires Distinct(s)
    ensures StrictlyAscending(Sorted(s))
  {
    SortedSorts(s);
    forall x
      ensures multiset(Sorted(s))[x] <= 1
    {
      DistinctOnce(s, x);
    }
    BagDistinct(Sorted(s));
  }

  /** Where an insertion from the right comes to rest. */
  lemma {:induction false} InsertSplit(s: seq<nat>, key: nat, k: nat)
    requires k <= |s|
    requires k > 0 ==> s[k - 1] <= key
    requires forall j :: k <= j < |s| ==> s[j] > key
    ensures Insert(s, key) == s[..k] + [key] + s[k..]
  {
    if k == |s| {
      assert s[..k] == s && s[k..] == [];
    } else {
      var init := s[..|s| - 1];
      InsertSplit(init, key, k);
      assert init[..k] == s[..k];
      assert s[k..] == init[k..] + [s[|s| - 1]];
    }
  }

  /** The slice after the shift, on values. */
  lemma ShiftedIsInserted(before: seq<nat>, after: seq<nat>, lo: nat, n: nat, k: nat)
    requires lo + n < |before| == |after| && k <= n
    requires forall j :: lo <= j < lo + k ==> after[j] == before[j]
    requires after[lo + k] == before[lo + n]
    requires forall j :: lo + k < j <= lo + n ==> after[j] == before[j - 1]
    requires k > 0 ==> before[lo + k - 1] <= before[lo + n]
    requires forall j :: lo + k <= j < lo + n ==> before[j] > before[lo + n]
    ensures after[lo..lo + n + 1] == Insert(before[lo..lo + n], before[lo + n])
  {
    var s, key := before[lo..lo + n], before[lo + n];
    InsertSplit(s, key, k);
    var r, t := s[..k] + [key] + s[k..], after[lo..lo + n + 1];
    forall i | 0 <= i < n + 1
      ensures t[i] == r[i]
    {
      assert t[i] == after[lo + i];
      if i < k {
        assert r[i] == s[i] == before[lo + i];
      } else if i > k {
        assert r[i] == s[i - 1] == before[lo + i - 1];
      }
    }
  }

  /** The inner loop: the key at slot n of the slice moves left past larger ones. */
  method InsertKey(a: array<nat>, lo: nat, n: nat)
    requires lo + n < a.Length
    modifies a
    ensures a[lo..lo + n + 1] == Insert(old(a[lo..lo + n]), old(a[lo + n]))
    ensures forall j :: 0 <= j < lo || lo + n < j < a.Length ==> a[j] == old(a[j])
  {
    ghost var before := a[..];
    var key := a[lo + n];
    var b: int := n - 1;
    while b >= 0 && a[lo + b] > key
      invariant -1 <= b < n
      invariant forall j :: 0 <= j <= lo + b || lo + n < j < a.Length ==> a[j] == before[j]
      invariant forall j :: lo + b + 1 < j <= lo + n ==> a[j] == before[j - 1]
      invariant forall j :: lo + b < j < lo + n ==> before[j] > key
    {
      a[lo + b + 1] := a[lo + b];
      b := b - 1;
    }
    a[lo + b + 1] := key;
    ghost var after := a[..];
    ShiftedIsInserted(before, after, lo, n, b + 1);
    assert after[lo..lo + n + 1] == a[lo..lo + n + 1];
    assert before[lo..lo + n] == old(a[lo..lo + n]);
  }

  lemma SortedStep(s: seq<nat>, n: nat)
    requires n < |s|
    ensures Sorted(s[..n + 1]) == Insert(Sorted(s[..n]), s[n])
  {
    assert s[..n + 1][..n] == s[..n];
  }

  /** One turn of the outer loop: one more key of the slice is in its place. */
  method SortNext(a: array<nat>, lo: nat, n: nat, ghost s: seq<nat>)
    requires lo + n < a.Length && n < |s| && a[lo..lo + n] == Sorted(s[..n]) && a[lo + n] == s[n]
    modifies a
    ensures a[lo..lo + n + 1] == Sorted(s[..n + 1])
    ensures forall j :: 0 <= j < lo || lo + n < j < a.Length ==> a[j] == old(a[j])
  {
    SortedStep(s, n);
    InsertKey(a, lo, n);
  }

  lemma SortedOne(x: nat)
    ensures Sorted([x]) == [x]
  {
    assert [x][..0] == [];
  }

  method SortSlice(a: array<nat>, lo: nat, count: nat)
    requires lo + count <= a.Length
    modifies a
    ensures a[lo..lo + count] == Sorted(old(a[lo..lo + count]))
    ensures forall j :: 0 <= j < lo || lo + count <= j < a.Length ==> a[j] == old(a[j])
  {
    ghost var s := a[lo..lo + count];
    if count > 0 {
      SortedOne(s[0]);
      assert s[..1] == [s[0]] && a[lo..lo + 1] == [s[0]];
      for n := 1 to count
        invariant a[lo..lo + n] == Sorted(s[..n])
        invariant forall j :: 0 <= j < lo || lo + n <= j < a.Length ==> a[j] == old(a[j])
      {
        assert a[lo + n] == s[n];
        SortNext(a, lo, n, s);
      }
      assert s[..count] == s;
    }
  }

  // ----- contiguous shares -----

  /** Where validator v's slice starts when validators take these counts in turn. */
  function Before(counts: seq<nat>, v: nat): nat
    requires v <= |counts|
  {
    if v == 0 then 0 else Before(counts, v - 1) + counts[v - 1]
  }

  lemma {:induction false} BeforeMonotone(counts: seq<nat>, v: nat, w: nat)
    requires v <= w <= |counts|
    ensures Before(counts, v) <= Before(counts, w)
    decreases w
  {
    if v < w {
      BeforeMonotone(counts, v, w - 1);
    }
  }

  /** The counts use up the walk. */
  predicate Covers(counts: seq<nat>, walk: seq<nat>) {
    Before(counts, |counts|) == |walk|
  }

  /** Validator v's markers: its slice of the walk, sorted. */
  function Slice(walk: seq<nat>, counts: seq<nat>, v: nat): (r: seq<nat>)
    requires v < |counts| && Covers(counts, walk)
    ensures |r| == counts[v]
  {
    BeforeMonotone(counts, v + 1, |counts|);
    Sorted(walk[Before(counts, v)..Before(counts, v + 1)])
  }

  function Slices(walk: seq<nat>, counts: seq<nat>, k: nat): (r: seq<seq<nat>>)
    requires k <= |counts| && Covers(counts, walk)
    ensures |r| == k
    ensures forall v :: 0 <= v < k ==> r[v] == Slice(walk, counts, v)
  {
    seq(k, v requires 0 <= v < k => Slice(walk, counts, v))
  }

  lemma {:induction false} FlattenAppend(xss: seq<seq<nat>>, xs: seq<nat>)
    ensures Flatten(xss + [xs]) == Flatten(xss) + xs
  {
    if xss == [] {
      assert [] + [xs] == [xs];
      assert Flatten([xs]) == xs + Flatten([]);
    } else {
      FlattenAppend(xss[1..], xs);
      assert (xss + [xs])[1..] == xss[1..] + [xs];
      assert Flatten(xss + [xs]) == xss[0] + (Flatten(xss[1..]) + xs);
    }
  }

  lemma SlicesExtend(walk: seq<nat>, counts: seq<nat>, k: nat)
    requires k < |counts| && Covers(counts, walk)
    ensures multiset(Flatten(Slices(walk, counts, k + 1)))
         == multiset(Flatten(Slices(walk, counts, k))) + multiset(Slice(walk, counts, k))
  {
    assert Slices(walk, counts, k + 1) == Slices(walk, counts, k) + [Slice(walk, counts, k)];
    FlattenAppend(Slices(walk, counts, k), Slice(walk, counts, k));
  }

  lemma PieceBag(walk: seq<nat>, lo: nat, hi: nat)
    requires lo <= hi <= |walk|
    ensures multiset(walk[..hi]) == multiset(walk[..lo]) + multiset(Sorted(walk[lo..hi]))
  {
    SortedSorts(walk[lo..hi]);
    assert walk[..hi] == walk[..lo] + walk[lo..hi];
  }

  lemma SliceBag(walk: seq<nat>, counts: seq<nat>, k: nat)
    requires k < |counts| && Covers(counts, walk)
    ensures Before(counts, k) <= Before(counts, k + 1) <= |walk|
    ensures multiset(walk[..Before(counts, k + 1)]) == multiset(walk[..Before(counts, k)]) + multiset(Slice(walk, counts, k))
  {
    BeforeMonotone(counts, k + 1, |counts|);
    PieceBag(walk, Before(counts, k), Before(counts, k + 1));
  }

  /** Sharing out loses and repeats nothing. */
  lemma {:induction false} SlicesBag(walk: seq<nat>, counts: seq<nat>, k: nat)
    requires k <= |counts| && Covers(counts, walk)
    ensures Before(counts, k) <= |walk|
    ensures multiset(Flatten(Slices(walk, counts, k))) == multiset(walk[..Before(counts, k)])
  {
    if k == 0 {
      assert Slices(walk, counts, 0) == [];
    } else {
      var j := k - 1;
      SlicesBag(walk, counts, j);
      SliceBag(walk, counts, j);
      SlicesExtend(walk, counts, j);
      assert j + 1 == k;
    }
  }

  // ----- equal shares -----

  /** How many markers validator v gets. */
  function Share(total: nat, nv: nat, v: nat): nat
    requires nv > 0
  {
    total / nv + (if v < total % nv then 1 else 0)
  }

  /** Every validator has its share of the total. */
  predicate Fair(counts: seq<nat>, total: nat) {
    |counts| > 0 && forall v :: 0 <= v < |counts| ==> counts[v] == Share(total, |counts|, v)
  }

  lemma {:induction false} FairBefore(counts: seq<nat>, total: nat, v: nat)
    requires Fair(counts, total) && v <= |counts|
    ensures Before(counts, v) == v * (total / |counts|) + Min(v, total % |counts|)
  {
    if v > 0 {
      FairBefore(counts, total, v - 1);
      MulOneMore(v - 1, total / |counts|);
    }
  }

  /** The shares add up. */
  lemma FairCovers(counts: seq<nat>, walk: seq<nat>)
    requires Fair(counts, |walk|)
    ensures Covers(counts, walk)
  {
    FairBefore(counts, |walk|, |counts|);
    Quotient(|walk|, |counts|);
    MulCommutes(|counts|, |walk| / |counts|);
  }

  // ----- balance over the queue pairs -----

  /** Markers of the list that belong to queue pair q. */
  function CountQp(s: seq<nat>, chunks: nat, q: nat): nat
    requires chunks > 0
  {
    if s == [] then 0
    else CountQp(s[..|s| - 1], chunks, q) + (if s[|s| - 1] / chunks == q then 1 else 0)
  }

  lemma {:induction false} CountInsert(s: seq<nat>, key: nat, chunks: nat, q: nat)
    requires chunks > 0
    ensures CountQp(Insert(s, key), chunks, q) == CountQp(s, chunks, q) + (if key / chunks == q then 1 else 0)
  {
    if s == [] || s[|s| - 1] <= key {
      assert (s + [key])[..|s|] == s;
    } else {
      var init := s[..|s| - 1];
      CountInsert(init, key, chunks, q);
      var r := Insert(init, key) + [s[|s| - 1]];
      assert r[..|r| - 1] == Insert(init, key);
    }
  }

  lemma {:induction false} CountSorted(s: seq<nat>, chunks: nat, q: nat)
    requires chunks > 0
    ensures CountQp(Sorted(s), chunks, q) == CountQp(s, chunks, q)
  {
    if s != [] {
      CountSorted(s[..|s| - 1], chunks, q);
      CountInsert(Sorted(s[..|s| - 1]), s[|s| - 1], chunks, q);
    }
  }

  /** Positions below x that fall on queue pair q. */
  function Turns(x: nat, qps: nat, q: nat): nat
    requires q < qps
  {
    (x + (qps - 1 - q)) / qps
  }

  /** Row d, column r, moved on so that column q becomes the last. */
  lemma LastColumn(d: nat, r: nat, qps: nat, q: nat)
    requires r < qps && q < qps
    ensures (d * qps + r + (qps - 1 - q)) % qps == qps - 1 <==> r == q
  {
    var x := d * qps + r + (qps - 1 - q);
    if r <= q {
      DivModUnique(x, qps, d, r + (qps - 1 - q));
    } else {
      MulOneMore(d, qps);
      DivModUnique(x, qps, d + 1, r - q - 1);
    }
  }

  lemma TurnsStep(x: nat, qps: nat, q: nat)
    requires q < qps
    ensures Turns(x + 1, qps, q) == Turns(x, qps, q) + (if x % qps == q then 1 else 0)
  {
    Quotient(x, qps);
    LastColumn(x / qps, x % qps, qps, q);
    ModStep(x + (qps - 1 - q), qps);
  }

  /** In a contiguous piece of the walk each queue pair takes its turns. */
  lemma {:induction false} CountSlice(qps: nat, chunks: nat, walk: seq<nat>, q: nat, lo: nat, hi: nat)
    requires qps > 0 && IsWalk(qps, chunks, walk) && q < qps && lo <= hi <= |walk| && chunks > 0
    ensures CountQp(walk[lo..hi], chunks, q) == Turns(hi, qps, q) - Turns(lo, qps, q)
  {
    if lo < hi {
      CountSlice(qps, chunks, walk, q, lo, hi - 1);
      var s := walk[lo..hi];
      assert s[..|s| - 1] == walk[lo..hi - 1];
      MarkerInRange(qps, chunks, hi - 1);
      TurnsStep(hi - 1, qps, q);
    }
  }

  lemma TurnsApart(lo: nat, c: nat, qps: nat, q: nat)
    requires q < qps
    ensures c / qps <= Turns(lo + c, qps, q) - Turns(lo, qps, q)
    ensures Turns(lo + c, qps, q) - Turns(lo, qps, q) <= c / qps + (if c % qps == 0 then 0 else 1)
  {
    DivAdd(lo + (qps - 1 - q), c, qps);
  }

  ghost predicate FloorOrCeiling(x: nat, count: nat, parts: nat)
    requires parts > 0
  {
    count / parts <= x <= count / parts + (if count % parts == 0 then 0 else 1)
  }

  // ----- the whole distribution -----

  /** An exact, balanced partition into strictly ascending lists. */
  ghost predicate Balanced(qps: nat, chunks: nat, nv: nat, lists: seq<seq<nat>>) {
    && qps > 0 && chunks > 0 && nv > 0
    && |lists| == nv
    && Partition(lists, qps * chunks)
    && (forall v :: 0 <= v < nv ==> |lists[v]| == Share(qps * chunks, nv, v))
    && (forall v :: 0 <= v < nv ==> StrictlyAscending(lists[v]))
    && (forall v, q :: 0 <= v < nv && 0 <= q < qps ==> FloorOrCeiling(CountQp(lists[v], chunks, q), |lists[v]|, qps))
  }

  lemma SliceStrict(walk: seq<nat>, counts: seq<nat>, v: nat)
    requires v < |counts| && Covers(counts, walk) && Distinct(walk)
    ensures StrictlyAscending(Slice(walk, counts, v))
  {
    BeforeMonotone(counts, v + 1, |counts|);
    SortedStrict(walk[Before(counts, v)..Before(counts, v + 1)]);
  }

  /** A queue pair's markers in a sorted piece of the walk are its turns there. */
  lemma CountPiece(qps: nat, chunks: nat, walk: seq<nat>, lo: nat, hi: nat, q: nat)
    requires qps > 0 && chunks > 0 && IsWalk(qps, chunks, walk) && lo <= hi <= |walk| && q < qps
    ensures CountQp(Sorted(walk[lo..hi]), chunks, q) == Turns(hi, qps, q) - Turns(lo, qps, q)
  {
    CountSorted(walk[lo..hi], chunks, q);
    CountSlice(qps, chunks, walk, q, lo, hi);
  }

  lemma TurnsEven(lo: nat, c: nat, qps: nat, q: nat, x: nat)
    requires q < qps && x == Turns(lo + c, qps, q) - Turns(lo, qps, q)
    ensures FloorOrCeiling(x, c, qps)
  {
    TurnsApart(lo, c, qps, q);
  }

  lemma SliceEven(qps: nat, chunks: nat, walk: seq<nat>, counts: seq<nat>, v: nat, q: nat)
    requires qps > 0 && chunks > 0 && IsWalk(qps, chunks, walk) && v < |counts| && Covers(counts, walk) && q < qps
    ensures FloorOrCeiling(CountQp(Slice(walk, counts, v), chunks, q), counts[v], qps)
  {
    BeforeMonotone(counts, v + 1, |counts|);
    CountPiece(qps, chunks, walk, Before(counts, v), Before(counts, v + 1), q);
    TurnsEven(Before(counts, v), counts[v], qps, q, CountQp(Slice(walk, counts, v), chunks, q));
  }

  lemma SlicesPartition(qps: nat, chunks: nat, counts: seq<nat>, walk: seq<nat>)
    requires qps > 0 && IsWalk(qps, chunks, walk) && Covers(counts, walk)
    ensures Partition(Slices(walk, counts, |counts|), qps * chunks)
  {
    WalkIsPermutation(qps, chunks, walk);
    SlicesBag(walk, counts, |counts|);
    assert walk[..|walk|] == walk;
  }

  /** Fair shares of the walk, each sorted, are an exact balanced partition. */
  lemma SlicesBalanced(qps: nat, chunks: nat, counts: seq<nat>, walk: seq<nat>)
    requires qps > 0 && chunks > 0 && IsWalk(qps, chunks, walk) && Fair(counts, |walk|) && Covers(counts, walk)
    ensures Balanced(qps, chunks, |counts|, Slices(walk, counts, |counts|))
  {
    var lists := Slices(walk, counts, |counts|);
    SlicesPartition(qps, chunks, counts, walk);
    WalkIsPermutation(qps, chunks, walk);
    forall v | 0 <= v < |counts|
      ensures StrictlyAscending(lists[v])
    {
      SliceStrict(walk, counts, v);
    }
    forall v, q | 0 <= v < |counts| && 0 <= q < qps
      ensures FloorOrCeiling(CountQp(lists[v], chunks, q), |lists[v]|, qps)
    {
      SliceEven(qps, chunks, walk, counts, v, q);
    }
  }

  /** Queue pair and chunk are read off the marker index. */
  ghost predicate Decoded(entries: seq<Entry>, chunks: nat)
    requires chunks > 0
  {
    forall i :: 0 <= i < |entries| ==>
      entries[i].qp == entries[i].marker / chunks && entries[i].chunk == entries[i].marker % chunks
  }

  function MarkersOf(entries: seq<Entry>): (r: seq<nat>)
    ensures |r| == |entries|
  {
    seq(|entries|, i requires 0 <= i < |entries| => entries[i].marker)
  }

  function AllMarkers(own: seq<seq<Entry>>): (r: seq<seq<nat>>)
    ensures |r| == |own|
  {
    seq(|own|, v requires 0 <= v < |own| => MarkersOf(own[v]))
  }

  /** One chunk's row of the walk: its marker of every queue pair in turn. */
  method BuildRow(order: array<nat>, qps: nat, chunks: nat, chunk: nat)
    requires qps > 0 && chunk * qps + qps <= order.Length
    modifies order
    ensures forall p :: 0 <= p < chunk * qps ==> order[p] == old(order[p])
    ensures forall p :: chunk * qps <= p < chunk * qps + qps ==> order[p] == MarkerAt(qps, chunks, p)
  {
    var pos := chunk * qps;
    ghost var start := pos;
    for qp := 0 to qps
      invariant pos == start + qp
      invariant forall p :: 0 <= p < start ==> order[p] == old(order[p])
      invariant forall p :: start <= p < pos ==> order[p] == MarkerAt(qps, chunks, p)
    {
      DivModUnique(chunk * qps + qp, qps, chunk, qp);
      order[pos] := qp * chunks + chunk;
      pos := pos + 1;
    }
  }

  lemma RowFits(chunk: nat, chunks: nat, qps: nat)
    requires chunk < chunks
    ensures (chunk + 1) * qps == chunk * qps + qps <= qps * chunks
  {
    BlockBefore(chunk, chunks, qps);
    MulOneMore(chunk, qps);
    MulCommutes(chunks, qps);
  }

  /** Phase 1: the interleaved walk, chunk by chunk. */
  method BuildWalk(qps: nat, chunks: nat) returns (order: array<nat>)
    requires qps > 0
    ensures fresh(order) && IsWalk(qps, chunks, order[..])
  {
    order := new nat[qps * chunks];
    ghost var pos := 0;
    for chunk := 0 to chunks
      invariant pos == chunk * qps
      invariant forall p :: 0 <= p < pos && p < order.Length ==> order[p] == MarkerAt(qps, chunks, p)
    {
      RowFits(chunk, chunks, qps);
      BuildRow(order, qps, chunks, chunk);
      pos := pos + qps;
    }
  }

  /** Populating one validator's scan entries from its sorted slice. */
  method Populate(order: array<nat>, lo: nat, count: nat, chunks: nat) returns (entries: seq<Entry>)
    requires lo + count <= order.Length && chunks > 0
    ensures MarkersOf(entries) == order[lo..lo + count]
    ensures Decoded(entries, chunks)
  {
    entries := [];
    for slot := 0 to count
      invariant |entries| == slot
      invariant forall i :: 0 <= i < slot ==> entries[i].marker == order[lo..lo + count][i]
      invariant Decoded(entries, chunks)
    {
      var idx := order[lo + slot];
      entries := entries + [Entry(idx, idx / chunks, idx % chunks)];
    }
  }

  /** Phase 4 for one validator: its slice of the array is sorted in place and read off. */
  method Assign(order: array<nat>, ghost walk: seq<nat>, pos: nat, count: nat, chunks: nat)
    returns (entries: seq<Entry>)
    requires |walk| == order.Length && chunks > 0 && pos + count <= |walk|
    requires forall j :: pos <= j < |walk| ==> order[j] == walk[j]
    modifies order
    ensures MarkersOf(entries) == Sorted(walk[pos..pos + count]) && Decoded(entries, chunks)
    ensures forall j :: pos + count <= j < |walk| ==> order[j] == walk[j]
  {
    assert order[pos..pos + count] == walk[pos..pos + count];
    SortSlice(order, pos, count);
    entries := Populate(order, pos, count, chunks);
  }

  /** The first validators hold their slices of the walk. */
  ghost predicate Served(own: seq<seq<Entry>>, walk: seq<nat>, counts: seq<nat>)
    requires Covers(counts, walk)
  {
    |own| <= |counts| && forall v :: 0 <= v < |own| ==> MarkersOf(own[v]) == Slice(walk, counts, v)
  }

  ghost predicate AllDecoded(own: seq<seq<Entry>>, chunks: nat)
    requires chunks > 0
  {
    forall v :: 0 <= v < |own| ==> Decoded(own[v], chunks)
  }

  /** Phase 2: how many markers each validator gets. */
  method MarkerCounts(total: nat, nv: nat) returns (counts: seq<nat>)
    requires nv > 0
    ensures |counts| == nv && Fair(counts, total)
  {
    var base, remainder := total / nv, total % nv;
    counts := [];
    for v := 0 to nv
      invariant |counts| == v && forall u :: 0 <= u < v ==> counts[u] == Share(total, nv, u)
    {
      counts := counts + [base + (if v < remainder then 1 else 0)];
    }
  }

  lemma SliceIs(walk: seq<nat>, counts: seq<nat>, v: nat, pos: nat)
    requires Covers(counts, walk) && v < |counts| && pos == Before(counts, v)
    ensures pos + counts[v] == Before(counts, v + 1) <= |walk|
    ensures Slice(walk, counts, v) == Sorted(walk[pos..pos + counts[v]])
  {
    BeforeMonotone(counts, v + 1, |counts|);
  }

  lemma ServedNext(own: seq<seq<Entry>>, entries: seq<Entry>, walk: seq<nat>, counts: seq<nat>)
    requires Covers(counts, walk) && Served(own, walk, counts) && |own| < |counts|
    requires MarkersOf(entries) == Slice(walk, counts, |own|)
    ensures Served(own + [entries], walk, counts)
  {
  }

  lemma DecodedNext(own: seq<seq<Entry>>, entries: seq<Entry>, chunks: nat)
    requires chunks > 0 && AllDecoded(own, chunks) && Decoded(entries, chunks)
    ensures AllDecoded(own + [entries], chunks)
  {
    forall v | 0 <= v < |own| + 1
      ensures Decoded((own + [entries])[v], chunks)
    {
      assert (own + [entries])[v] == if v < |own| then own[v] else entries;
    }
  }

  /** Phase 4: each validator's slice in turn. */
  method ShareOut(order: array<nat>, counts: seq<nat>, chunks: nat) returns (own: seq<seq<Entry>>)
    requires chunks > 0 && Covers(counts, order[..])
    modifies order
    ensures |own| == |counts| && Served(own, old(order[..]), counts) && AllDecoded(own, chunks)
  {
    ghost var walk := order[..];
    var pos := 0;
    own := [];
    for v := 0 to |counts|
      invariant |own| == v && Served(own, walk, counts) && AllDecoded(own, chunks)
      invariant pos == Before(counts, v) <= |walk|
      invariant forall j :: pos <= j < |walk| ==> order[j] == walk[j]
    {
      SliceIs(walk, counts, v, pos);
      var entries := Assign(order, walk, pos, counts[v], chunks);
      ServedNext(own, entries, walk, counts);
      DecodedNext(own, entries, chunks);
      own := own + [entries];
      pos := pos + counts[v];
    }
  }

  /** distribute_markers: walk, share out, sort each slice in place, populate. */
  method DistributeMarkers(qps: nat, chunks: nat, nv: nat) returns (own: seq<seq<Entry>>)
    requires qps > 0 && chunks > 0 && nv > 0
    ensures Balanced(qps, chunks, nv, AllMarkers(own))
    ensures AllDecoded(own, chunks)
  {
    var order := BuildWalk(qps, chunks);
    ghost var walk := order[..];
    var counts := MarkerCounts(order.Length, nv);
    FairCovers(counts, walk);
    own := ShareOut(order, counts, chunks);
    SlicesBalanced(qps, chunks, counts, walk);
    assert AllMarkers(own) == Slices(walk, counts, nv);
  }

  // ----- every marker has exactly one owner -----

  function Offset(xss: seq<seq<nat>>, v: nat): nat
    requires v <= |xss|
  {
    if v == 0 then 0 else |xss[0]| + Offset(xss[1..], v - 1)
  }

  lemma {:induction false} FlattenAt(xss: seq<seq<nat>>, v: nat, j: nat)
    requires v < |xss| && j < |xss[v]|
    ensures Offset(xss, v) + j < |Flatten(xss)| && Flatten(xss)[Offset(xss, v) + j] == xss[v][j]
  {
    if v > 0 {
      FlattenAt(xss[1..], v - 1, j);
    }
  }

  lemma {:induction false} OffsetApart(xss: seq<seq<nat>>, v: nat, v': nat, j: nat)
    requires v < v' < |xss| && j < |xss[v]|
    ensures Offset(xss, v) + j < Offset(xss, v')
  {
    if v > 0 {
      OffsetApart(xss[1..], v - 1, v' - 1, j);
    }
  }

  lemma {:induction false} FlattenFind(xss: seq<seq<nat>>, x: nat) returns (v: nat, j: nat)
    requires x in Flatten(xss)
    ensures v < |xss| && j < |xss[v]| && xss[v][j] == x
  {
    if x in xss[0] {
      v := 0;
      j :| 0 <= j < |xss[0]| && xss[0][j] == x;
    } else {
      v, j := FlattenFind(xss[1..], x);
      v := v + 1;
    }
  }

  lemma SameSlot(xss: seq<seq<nat>>, n: nat, v: nat, j: nat, v': nat, j': nat)
    requires Partition(xss, n)
    requires v < |xss| && j < |xss[v]| && v' < |xss| && j' < |xss[v']| && xss[v][j] == xss[v'][j']
    ensures v == v' && j == j'
  {
    var flat, k, k' := Flatten(xss), Offset(xss, v) + j, Offset(xss, v') + j';
    FlattenAt(xss, v, j);
    FlattenAt(xss, v', j');
    forall x
      ensures multiset(flat)[x] <= 1
    {
      assert Distinct(Iota(n));
      DistinctOnce(Iota(n), x);
    }
    BagDistinct(flat);
    assert k == k';
    if v < v' {
      OffsetApart(xss, v, v', j);
    } else if v' < v {
      OffsetApart(xss, v', v, j');
    }
  }

  /** A number below n sits in one slot of one list of a partition, and in no other. */
  lemma ExactlyOneSlot(lists: seq<seq<nat>>, n: nat, x: nat) returns (v: nat, j: nat)
    requires Partition(lists, n) && x < n
    ensures v < |lists| && j < |lists[v]| && lists[v][j] == x
    ensures forall v', j' :: 0 <= v' < |lists| && 0 <= j' < |lists[v']| && lists[v'][j'] == x ==> v' == v && j' == j
  {
    assert Iota(n)[x] == x;
    assert x in multiset(Iota(n));
    assert x in multiset(Flatten(lists));
    v, j := FlattenFind(lists, x);
    forall v', j' | 0 <= v' < |lists| && 0 <= j' < |lists[v']| && lists[v'][j'] == x
      ensures v' == v && j' == j
    {
      SameSlot(lists, n, v, j, v', j');
    }
  }

  /** Each (queue pair, chunk) marker is owned by exactly one validator. */
  lemma ExactlyOneOwner(qps: nat, chunks: nat, nv: nat, lists: seq<seq<nat>>, qp: nat, chunk: nat)
    returns (v: nat, j: nat)
    requires Balanced(qps, chunks, nv, lists) && qp < qps && chunk < chunks
    ensures v < nv && j < |lists[v]| && lists[v][j] == qp * chunks + chunk
    ensures forall v', j' :: 0 <= v' < nv && 0 <= j' < |lists[v']| && lists[v'][j'] == qp * chunks + chunk ==>
              v' == v && j' == j
  {
    CellInside(qp, qps, chunk, chunks);
    v, j := ExactlyOneSlot(lists, qps * chunks, qp * chunks + chunk);
  }

  // ----- how many validators -----

  const MAX_VALIDATORS := 32
  const DEFAULT_VALIDATORS := 4

  /** Before the caps: two or three validators a queue pair, and at least four. */
  function Wanted(qps: nat, isRead: bool): (r: nat)
    ensures r >= 4 && (isRead ==> r >= qps + qps + qps) && (!isRead ==> r >= qps + qps)
    ensures r == 4 || r == if isRead then qps + qps + qps else qps + qps
  {
    var n := qps * (if isRead then 3 else 2);
    if n < DEFAULT_VALIDATORS then DEFAULT_VALIDATORS else n
  }

  /**
   * get_num_validators: as many as wanted, or as the first cap that is lower
   * allows. The core counts read from the system are parameters;
   * a count of zero or less means it could not be read.
   */
  function GetNumValidators(qps: nat, chunks: nat, isRead: bool, numaCores: int, systemCores: int): (r: nat)
    ensures 1 <= r <= 32
    ensures qps * chunks > 0 ==> r <= qps * chunks
    ensures var cores := if numaCores > 0 then numaCores else systemCores;
            && (cores >= 2 ==> r <= cores / 2)
            && (r == Wanted(qps, isRead) || r == 1 || r == cores / 2 || r == 32 || r == qps * chunks)
    ensures r <= Wanted(qps, isRead)
    ensures var cores := if numaCores > 0 then numaCores else systemCores;
            r == 1 <==> 1 <= cores <= 3 || qps * chunks <= 1
  {
    var a := Wanted(qps, isRead);
    var cores := if numaCores > 0 then numaCores else systemCores;
    var b := if cores > 0 && a > cores / 2 then cores / 2 else a;
    var c := if b > MAX_VALIDATORS then MAX_VALIDATORS else b;
    var d := if c > qps * chunks then qps * chunks else c;
    if d < 1 then 1 else d
  }

  /** With the count the pool is started with, no validator is left without a marker. */
  lemma EveryValidatorOwns(qps: nat, chunks: nat, isRead: bool, numaCores: int, systemCores: int, lists: seq<seq<nat>>, v: nat)
    requires qps > 0 && chunks > 0
    requires Balanced(qps, chunks, GetNumValidators(qps, chunks, isRead, numaCores, systemCores), lists)
    requires v < |lists|
    ensures |lists[v]| >= 1
  {
    FactorBound(qps, chunks);
    QuotientAtLeast(qps * chunks, |lists|, 1);
  }
}
