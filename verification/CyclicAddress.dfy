/**
 * Cyclic buffer addressing of src/perftest_resources.h: requests step through a
 * QP's region in cache-line multiples and return to its start.
 */
module CyclicAddress {
  import opened Arithmetic

  function RoundUp(value: nat, alignment: nat): nat
    requires alignment > 0
  {
    if value % alignment == 0 then value else alignment * (value / alignment + 1)
  }

  function Inc(size: nat, line: nat): nat
    requires line > 0
  {
    if size > line then RoundUp(size, line) else line
  }

  function BuffSize(size: nat, cycle: nat): (r: nat)
    ensures r >= size && r >= cycle && (r == size || r == cycle)
  {
    if size < cycle then cycle else size
  }

  lemma QuotientReaches(q: nat, r: nat, d: nat, m: nat)
    requires r > 0 && q * d + r <= m * d
    ensures q + 1 <= m
  {
    MulCancels(q, m, d);
  }

  /** Rounding up gives the least multiple that reaches the value. */
  lemma RoundUpLeast(value: nat, alignment: nat, m: nat)
    requires alignment > 0 && value <= m * alignment
    ensures value <= RoundUp(value, alignment) <= m * alignment
    ensures RoundUp(value, alignment) % alignment == 0
  {
    var q, r := value / alignment, value % alignment;
    Quotient(value, alignment);
    if r != 0 {
      QuotientReaches(q, r, alignment, m);
      MulMonotone(q + 1, m, alignment);
      MulOneMore(q, alignment);
      MulCommutes(alignment, q + 1);
      MultipleMod(q + 1, alignment);
    }
  }

  /** A step is the least number of whole lines, at least one, that holds the message. */
  lemma IncLeast(size: nat, line: nat, m: nat)
    requires line > 0 && m >= 1 && size <= m * line
    ensures Inc(size, line) % line == 0 && size <= Inc(size, line) && line <= Inc(size, line) <= m * line
  {
    if size > line {
      RoundUpLeast(size, line, m);
    } else {
      MulMonotone(1, m, line);
      MultipleMod(1, line);
    }
  }

  /** Under the callers' guard, with lines that tile half the cycle, at least two slots fit. */
  lemma GuardFits(size: nat, line: nat, cycle: nat)
    requires line > 0 && cycle >= 2 && size <= cycle / 2 && (cycle / 2) % line == 0
    ensures size <= Inc(size, line) <= cycle / 2 && cycle / Inc(size, line) >= 2
  {
    var half := cycle / 2;
    var m := half / line;
    Quotient(half, line);
    if size > line {
      RoundUpLeast(size, line, m);
    } else {
      MulCancels(0, m, line);
      MulMonotone(1, m, line);
    }
    QuotientAtLeast(cycle, Inc(size, line), 2);
  }

  lemma SlotsPositive(size: nat, line: nat, cycle: nat)
    requires line > 0 && Inc(size, line) <= cycle
    ensures Inc(size, line) > 0
    ensures var k := cycle / Inc(size, line);
            k >= 1 && k * Inc(size, line) <= cycle < (k + 1) * Inc(size, line)
  {
    if size > line {
      FactorBound(size, line);
      RoundUpLeast(size, line, size);
    }
    QuotientAtLeast(cycle, Inc(size, line), 1);
    DivBounds(cycle, Inc(size, line));
    MulOneMore(cycle / Inc(size, line), Inc(size, line));
  }

  /** Slots in the cycle: as many as fit. */
  function Slots(size: nat, line: nat, cycle: nat): (k: nat)
    requires line > 0 && Inc(size, line) <= cycle
    ensures k >= 1 && k * Inc(size, line) <= cycle < (k + 1) * Inc(size, line)
  {
    SlotsPositive(size, line, cycle);
    cycle / Inc(size, line)
  }

  /** The address of slot r. */
  function SlotAddress(base: nat, r: nat, inc: nat): nat {
    (base + r * inc) % U64
  }

  /** The address after n posts. */
  function Address(base: nat, size: nat, line: nat, cycle: nat, n: nat): nat
    requires line > 0 && Inc(size, line) <= cycle
  {
    SlotAddress(base, n % Slots(size, line, cycle), Inc(size, line))
  }

  lemma WrapAdd(x: nat, y: nat)
    ensures (x % U64 + y) % U64 == (x + y) % U64
  {
  }

  lemma SlotStep(base: nat, r: nat, inc: nat)
    ensures SlotAddress(base, r + 1, inc) == (SlotAddress(base, r, inc) + inc) % U64
  {
    MulOneMore(r, inc);
    WrapAdd(base + r * inc, inc);
  }

  lemma SlotZero(base: nat, inc: nat)
    requires base < U64
    ensures SlotAddress(base, 0, inc) == base
  {
  }

  lemma AddressStep(base: nat, size: nat, line: nat, cycle: nat, n: nat)
    requires line > 0 && Inc(size, line) <= cycle && base < U64
    ensures var next := Address(base, size, line, cycle, n + 1);
            if (n + 1) % Slots(size, line, cycle) == 0 then next == base
            else next == (Address(base, size, line, cycle, n) + Inc(size, line)) % U64
  {
    var k, inc := Slots(size, line, cycle), Inc(size, line);
    ModStep(n, k);
    SlotStep(base, n % k, inc);
    SlotZero(base, inc);
  }

  datatype Verb = Atomic | Rdma

  /** A send request: the remote address of its atomic or its RDMA form. */
  class SendRequest {
    var atomicAddr: nat
    var rdmaAddr: nat

    function Addr(verb: Verb): nat
      reads this
    {
      if verb.Atomic? then atomicAddr else rdmaAddr
    }

    method IncreaseRemAddr(size: nat, scnt: nat, base: nat, verb: Verb, line: nat, cycle: nat)
      requires line > 0 && Inc(size, line) <= cycle && base < U64 && scnt + 1 < U64
      requires Addr(verb) == Address(base, size, line, cycle, scnt)
      modifies this
      ensures Addr(verb) == Address(base, size, line, cycle, scnt + 1)
      ensures if verb.Atomic? then rdmaAddr == old(rdmaAddr) else atomicAddr == old(atomicAddr)
    {
      AddressStep(base, size, line, cycle, scnt);
      SlotsPositive(size, line, cycle);
      if verb.Atomic? {
        atomicAddr := (atomicAddr + Inc(size, line)) % U64;
      } else {
        rdmaAddr := (rdmaAddr + Inc(size, line)) % U64;
      }
      if (scnt + 1) % (cycle / Inc(size, line)) == 0 {
        if verb.Atomic? {
          atomicAddr := base;
        } else {
          rdmaAddr := base;
        }
      }
    }

    /** The posting loop from the start of the region: after any n posts the address is known. */
    method Post(n: nat, size: nat, base: nat, verb: Verb, line: nat, cycle: nat)
      requires line > 0 && Inc(size, line) <= cycle && base < U64 && n < U64
      modifies this
      ensures Addr(verb) == Address(base, size, line, cycle, n)
    {
      if verb.Atomic? {
        atomicAddr := base;
      } else {
        rdmaAddr := base;
      }
      SlotsPositive(size, line, cycle);
      for scnt := 0 to n
        invariant Addr(verb) == Address(base, size, line, cycle, scnt)
      {
        IncreaseRemAddr(size, scnt, base, verb, line, cycle);
      }
    }
  }

  lemma SlotInside(base: nat, r: nat, k: nat, inc: nat, cycle: nat)
    requires r < k && k * inc <= cycle && 0 < inc && base + cycle <= U64
    ensures SlotAddress(base, r, inc) == base + r * inc
    ensures base <= SlotAddress(base, r, inc) && SlotAddress(base, r, inc) + inc <= base + cycle
  {
    BlockBefore(r, k, inc);
    MulNonNegative(r, inc);
    SmallMod(base + r * inc, U64);
  }

  lemma Unwrapped(base: nat, size: nat, line: nat, cycle: nat, n: nat)
    requires line > 0 && Inc(size, line) <= cycle && base + cycle <= U64
    ensures var k, inc := Slots(size, line, cycle), Inc(size, line);
            Address(base, size, line, cycle, n) == base + (n % k) * inc
    ensures base <= Address(base, size, line, cycle, n)
    ensures Address(base, size, line, cycle, n) + Inc(size, line) <= base + cycle
  {
    SlotsPositive(size, line, cycle);
    var k, inc := Slots(size, line, cycle), Inc(size, line);
    SlotInside(base, n % k, k, inc, cycle);
  }

  /** A message posted after n posts lies inside its region, whatever n. */
  lemma StaysInside(base: nat, size: nat, line: nat, cycle: nat, n: nat)
    requires line > 0 && size <= Inc(size, line) <= cycle && base + cycle <= U64
    ensures base <= Address(base, size, line, cycle, n)
    ensures Address(base, size, line, cycle, n) + size <= base + cycle
  {
    Unwrapped(base, size, line, cycle, n);
  }

  /** Messages of different slots do not overlap, and two posts share an address exactly when they are a whole number of cycles apart. */
  lemma SlotsDisjoint(base: nat, size: nat, line: nat, cycle: nat, m: nat, n: nat)
    requires line > 0 && 0 < size <= Inc(size, line) <= cycle && base + cycle <= U64
    ensures var k, a, b := Slots(size, line, cycle), Address(base, size, line, cycle, m), Address(base, size, line, cycle, n);
            (a == b <==> m % k == n % k) && (a != b ==> a + size <= b || b + size <= a)
  {
    var k, inc := Slots(size, line, cycle), Inc(size, line);
    Unwrapped(base, size, line, cycle, m);
    Unwrapped(base, size, line, cycle, n);
    if m % k < n % k {
      BlockBefore(m % k, n % k, inc);
    } else if n % k < m % k {
      BlockBefore(n % k, m % k, inc);
    }
  }

  /** The region a receiver publishes for QP i. */
  function Published(buf: nat, qps: nat, i: nat, size: nat, cycle: nat): nat {
    buf + (qps + i) * BuffSize(size, cycle)
  }

  /** The published regions are the second half of the buffer, behind every region sent from. */
  lemma PublishedHalf(buf: nat, qps: nat, i: nat, size: nat, cycle: nat)
    requires i < qps
    ensures buf + qps * BuffSize(size, cycle) <= Published(buf, qps, i, size, cycle)
    ensures Published(buf, qps, i, size, cycle) + BuffSize(size, cycle) <= buf + 2 * qps * BuffSize(size, cycle)
  {
    MulMonotone(qps, qps + i, BuffSize(size, cycle));
    BlockBefore(qps + i, 2 * qps, BuffSize(size, cycle));
  }

  /** Messages to different QPs never overlap, at any two points of the run. */
  lemma NeighboursDisjoint(buf: nat, qps: nat, i: nat, j: nat, size: nat, line: nat, cycle: nat, m: nat, n: nat)
    requires line > 0 && 0 < size <= Inc(size, line) <= cycle && i < j < qps
    requires buf + 2 * qps * BuffSize(size, cycle) <= U64
    ensures Address(Published(buf, qps, i, size, cycle), size, line, cycle, m) + size
            <= Address(Published(buf, qps, j, size, cycle), size, line, cycle, n)
  {
    var region := BuffSize(size, cycle);
    BlockBefore(qps + i, qps + j, region);
    BlockBefore(qps + j, 2 * qps, region);
    StaysInside(Published(buf, qps, i, size, cycle), size, line, cycle, m);
    StaysInside(Published(buf, qps, j, size, cycle), size, line, cycle, n);
  }

  /** A side's page and cache-line sizes. */
  datatype Sizes = Sizes(cycle: nat, line: nat)

  /** Each size is one of the two given, and no smaller than either. */
  predicate LargerOf(r: Sizes, a: Sizes, b: Sizes) {
    && r.cycle >= a.cycle && r.cycle >= b.cycle && (r.cycle == a.cycle || r.cycle == b.cycle)
    && r.line >= a.line && r.line >= b.line && (r.line == a.line || r.line == b.line)
  }

  /**
   * check_sys_data: a side whose peer is recent enough raises its sizes to the
   * received ones; without the exchange the received sizes stay zero.
   */
  method CheckSysData(mine: Sizes, recentPeer: bool, exchange: bool, received: Sizes) returns (r: Sizes)
    ensures recentPeer && exchange ==> LargerOf(r, mine, received)
    ensures !(recentPeer && exchange) ==> r == mine
  {
    if !recentPeer {
      return mine;
    }
    var remote := Sizes(0, 0);
    if exchange {
      remote := received;
    }
    r := Sizes(if remote.cycle > mine.cycle then remote.cycle else mine.cycle,
               if remote.line > mine.line then remote.line else mine.line);
  }

  /** The peers end with the same sizes if and only if they exchanged them or had the same ones before. */
  lemma PeersAgree(a: Sizes, b: Sizes, x: Sizes, y: Sizes, exchanged: bool)
    requires if exchanged then LargerOf(x, a, b) && LargerOf(y, b, a) else x == a && y == b
    ensures x == y <==> exchanged || a == b
  {
  }

  /** After the exchange both peers are at the same offset after equally many posts. */
  lemma PeersInStep(a: Sizes, b: Sizes, x: Sizes, y: Sizes, size: nat, n: nat, baseX: nat, baseY: nat)
    requires LargerOf(x, a, b) && LargerOf(y, b, a)
    requires x.line > 0 && Inc(size, x.line) <= x.cycle && baseX + x.cycle <= U64
    requires y.line > 0 && Inc(size, y.line) <= y.cycle && baseY + y.cycle <= U64
    ensures Address(baseX, size, x.line, x.cycle, n) - baseX == Address(baseY, size, y.line, y.cycle, n) - baseY
  {
    PeersAgree(a, b, x, y, true);
    Unwrapped(baseX, size, x.line, x.cycle, n);
    Unwrapped(baseY, size, x.line, x.cycle, n);
  }
}
