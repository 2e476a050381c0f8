/**
 * The pool of validator threads of src/host_validation.c as a step system.
 *
 * A step is one access to shared memory by one thread, or one move of the
 * environment: the remote peer bumps a tail marker, the peer falls silent, the
 * main thread raises the stop flag.  The bytes of a chunk may change under a
 * scan, so the verdict of a scan is chosen by the environment.  Markers are
 * unbounded; the 64-bit counter of the source never comes close to wrapping.
 */
module ValidatorPool {
  import opened Arithmetic
  import opened Sums
  import opened ValidationCommon
  import opened Wrappers
  import Distribution
  import MarkerCheck

  /** owned[v] lists the markers validator v polls, as distribute_markers left them. */
  datatype Config = Config(owned: seq<seq<nat>>, total: nat, chunksPerQp: nat,
                           opsPerChunk: nat, payload: nat, repoll: bool)
  {
    ghost predicate Valid() {
      && Partition(owned, total)
      && chunksPerQp > 0
      && payload > 0
    }

    function ChunkBytes(): nat {
      opsPerChunk * payload
    }
  }

  /** The five fields of the first-error record. */
  datatype Mismatch = Mismatch(qp: nat, chunk: nat, offset: nat, expected: nat, actual: nat)

  datatype Outcome = Clean | Stale | Race | Real(e: Mismatch)

  /** Per-thread statistics; `clean` and `corrupt` are not kept by the source, they name what it does not count per thread. */
  datatype Tally = Tally(hits: nat, skipped: nat, clean: nat, stale: nat, race: nat, corrupt: nat,
                         slots: nat, bytes: nat, scanned: nat, cycles: nat)

  /** Where a validator thread is. `drain` tells the final drain from the main loop. */
  datatype Pc =
    | Poll(m: nat)
    | Validate(m: nat, val: nat, drain: bool)
    | Cas(m: nat, val: nat, drain: bool, e: Mismatch)
    | Record(m: nat, val: nat, drain: bool, e: Mismatch, k: nat)
    | Count(m: nat, val: nat, drain: bool, e: Mismatch)
    | Finish(m: nat, val: nat, drain: bool)
    | Repoll(m: nat)
    | Drain(m: nat)
    | Exited
  {
    predicate Pending() {
      Validate? || Cas? || Record? || Count? || Finish?
    }

    predicate InError() {
      Cas? || Record? || Count?
    }
  }

  /** `base` is the number of hits when the current scan began. */
  datatype Validator = Validator(pc: Pc, last: seq<nat>, found: bool, spin: nat, t: Tally, base: nat)

  /**
   * `reals` is the history of all mismatches classified real, in detection
   * order. `quiet` remembers whether the peer was silent when stop was raised.
   */
  datatype State = State(marks: seq<nat>, vs: seq<Validator>, hasError: bool, record: Mismatch,
                         errors: nat, stop: bool, settled: bool, quiet: bool, reals: seq<Mismatch>)

  const SPIN_CHECK_INTERVAL := 1024

  // ----- the thread -----

  /** Indices and program counters are in range, and a pending value is news. */
  predicate Shape(own: seq<nat>, marks: seq<nat>, v: Validator) {
    && InTable(own, |marks|)
    && |v.last| == |own|
    && (v.pc.Poll? || v.pc.Drain? ==> v.pc.m <= |own|)
    && (v.pc.Repoll? ==> v.pc.m < |own|)
    && (v.pc.Pending() ==> v.pc.m < |own| && v.last[v.pc.m] < v.pc.val)
    && (v.pc.Record? ==> v.pc.k < 5)
  }

  function Hit(v: Validator, m: nat, val: nat, drain: bool): Validator {
    v.(pc := Validate(m, val, drain), t := v.t.(hits := v.t.hits + 1))
  }

  /** The bottom of the main loop: spin, and every 1024 idle scans look at the stop flag. */
  function EndScan(v: Validator, stop: bool): Validator {
    var again := v.(found := false, pc := Poll(0), t := v.t.(cycles := v.t.cycles + 1), base := v.t.hits);
    if v.found then again.(spin := 0)
    else if v.spin + 1 >= SPIN_CHECK_INTERVAL then
      if stop then v.(spin := 0, pc := Drain(0)) else again.(spin := 0)
    else again.(spin := v.spin + 1)
  }

  /** On to the next marker of the scan. */
  function NextMarker(v: Validator, m: nat): Validator {
    v.(pc := Poll(m + 1), t := v.t.(scanned := v.t.scanned + 1))
  }

  /** A marker value is news when it differs from the last one seen and is not zero. */
  predicate News(marks: seq<nat>, own: seq<nat>, v: Validator, m: nat)
    requires Shape(own, marks, v) && m < |own|
  {
    marks[own[m]] != v.last[m] && marks[own[m]] != 0
  }

  /** Skipped steps are added and the scan's verdict is booked. */
  function Judge(v: Validator, o: Outcome): Validator
    requires v.pc.Validate? && v.pc.m < |v.last| && v.last[v.pc.m] < v.pc.val
  {
    var Validate(m, val, drain) := v.pc;
    var delta := val - v.last[m];
    var t := if delta > 1 then v.t.(skipped := v.t.skipped + delta - 1) else v.t;
    match o
    case Clean => v.(t := t.(clean := t.clean + 1), pc := Finish(m, val, drain))
    case Stale => v.(t := t.(stale := t.stale + 1), pc := Finish(m, val, drain))
    case Race => v.(t := t.(race := t.race + 1), pc := Finish(m, val, drain))
    case Real(e) => v.(t := t.(corrupt := t.corrupt + 1), pc := Cas(m, val, drain, e))
  }

  /** A step of the polling loops: the main scan, the re-poll, the drain. */
  function ScanStep(cfg: Config, own: seq<nat>, marks: seq<nat>, stop: bool, v: Validator): Validator
    requires Shape(own, marks, v) && !v.pc.Pending()
  {
    match v.pc
    case Poll(m) =>
      if m == |own| then EndScan(v, stop)
      else if News(marks, own, v, m) then Hit(v.(found := true), m, marks[own[m]], false)
      else NextMarker(v, m)
    case Repoll(m) =>
      if cfg.repoll && News(marks, own, v, m) then Hit(v.(found := true), m, marks[own[m]], false)
      else NextMarker(v, m)
    case Drain(m) =>
      if m == |own| then v.(pc := Exited)
      else if News(marks, own, v, m) then Hit(v, m, marks[own[m]], true)
      else v.(pc := Drain(m + 1))
    case Exited => v
  }

  /** A step of validate_one_marker. */
  function HitStep(cfg: Config, hasError: bool, v: Validator, o: Outcome): Validator
    requires v.pc.Pending() && v.pc.m < |v.last| && v.last[v.pc.m] < v.pc.val
  {
    match v.pc
    case Validate(_, _, _) => Judge(v, o)
    case Cas(m, val, drain, e) =>
      v.(pc := if hasError then Count(m, val, drain, e) else Record(m, val, drain, e, 0))
    case Record(m, val, drain, e, k) =>
      v.(pc := if k == 4 then Count(m, val, drain, e) else Record(m, val, drain, e, k + 1))
    case Count(m, val, drain, e) => v.(pc := Finish(m, val, drain))
    case Finish(m, val, drain) =>
      v.(last := v.last[m := val],
         t := v.t.(slots := v.t.slots + cfg.opsPerChunk, bytes := v.t.bytes + cfg.ChunkBytes()),
         pc := if drain then Drain(m + 1) else Repoll(m))
  }

  /** What one thread step does to the thread itself. */
  function Local(cfg: Config, own: seq<nat>, marks: seq<nat>, stop: bool, hasError: bool,
                 v: Validator, o: Outcome): Validator
    requires Shape(own, marks, v)
  {
    if v.pc.Pending() then HitStep(cfg, hasError, v, o) else ScanStep(cfg, own, marks, stop, v)
  }

  function WriteField(r: Mismatch, e: Mismatch, k: nat): Mismatch {
    if k == 0 then r.(qp := e.qp)
    else if k == 1 then r.(chunk := e.chunk)
    else if k == 2 then r.(offset := e.offset)
    else if k == 3 then r.(expected := e.expected)
    else r.(actual := e.actual)
  }

  // ----- the system -----

  datatype Step = Bump(i: nat) | Settle | Stop | Thread(v: nat, o: Outcome)

  predicate Shaped(cfg: Config, s: State) {
    && |s.marks| == cfg.total
    && |s.vs| == |cfg.owned|
    && forall i :: 0 <= i < |s.vs| ==> Shape(cfg.owned[i], s.marks, s.vs[i])
  }

  /** What validate_one_marker can report for marker idx at value val. */
  predicate Reportable(cfg: Config, idx: nat, val: nat, e: Mismatch)
    requires cfg.chunksPerQp > 0 && val > 0
  {
    && e.qp == idx / cfg.chunksPerQp
    && e.chunk == idx % cfg.chunksPerQp
    && e.offset < cfg.payload
    && e.expected == CycleToPattern(val - 1)
  }

  predicate Enabled(cfg: Config, s: State, step: Step) {
    && Shaped(cfg, s)
    && cfg.chunksPerQp > 0
    && match step
       case Bump(i) => i < |s.marks| && !s.settled
       case Settle => !s.settled
       case Stop => !s.stop
       case Thread(v, o) =>
         && v < |s.vs|
         && !s.vs[v].pc.Exited?
         && (s.vs[v].pc.Validate? && o.Real? ==>
               Reportable(cfg, cfg.owned[v][s.vs[v].pc.m], s.vs[v].pc.val, o.e))
  }

  /** A thread's one access to the shared context, by the program point it leaves. */
  function Publish(s: State, pc: Pc, o: Outcome): State {
    match pc
    case Validate(_, _, _) => if o.Real? then s.(reals := s.reals + [o.e]) else s
    case Cas(_, _, _, _) => s.(hasError := true)
    case Record(_, _, _, e, k) => s.(record := WriteField(s.record, e, k))
    case Count(_, _, _, _) => s.(errors := s.errors + 1)
    case _ => s
  }

  /** A thread step: the thread's own change and its access to the shared context. */
  function ThreadStep(cfg: Config, s: State, i: nat, o: Outcome): State
    requires Shaped(cfg, s) && i < |s.vs|
  {
    var v' := Local(cfg, cfg.owned[i], s.marks, s.stop, s.hasError, s.vs[i], o);
    Publish(s.(vs := s.vs[i := v']), s.vs[i].pc, o)
  }

  function Next(cfg: Config, s: State, step: Step): State
    requires Enabled(cfg, s, step)
  {
    match step
    case Bump(i) => s.(marks := s.marks[i := s.marks[i] + 1])
    case Settle => s.(settled := true)
    case Stop => s.(stop := true, quiet := s.settled)
    case Thread(v, o) => ThreadStep(cfg, s, v, o)
  }

  /** A thread in its first scan. */
  function Fresh(n: nat): Validator {
    Validator(Poll(0), seq(n, _ => 0), false, 0, Tally(0, 0, 0, 0, 0, 0, 0, 0, 0, 1), 0)
  }

  /** The state host_validation_start leaves, over a zeroed marker region. */
  ghost predicate Init(cfg: Config, s: State) {
    && |s.marks| == cfg.total
    && (forall i :: 0 <= i < |s.marks| ==> s.marks[i] == 0)
    && |s.vs| == |cfg.owned|
    && (forall i :: 0 <= i < |s.vs| ==> s.vs[i] == Fresh(|cfg.owned[i]|))
    && !s.hasError && s.errors == 0 && !s.stop && !s.settled && !s.quiet && s.reals == []
  }

  /** The steps are enabled one after another and lead from s to t. */
  ghost predicate Run(cfg: Config, s: State, steps: seq<Step>, t: State)
    decreases |steps|
  {
    if steps == [] then s == t
    else Enabled(cfg, s, steps[0]) && Run(cfg, Next(cfg, s, steps[0]), steps[1..], t)
  }

  // ----- the invariant -----

  /** Marker steps already booked by a hit whose last_seen is not yet written. */
  function InFlight(v: Validator): int
    requires v.pc.Pending() ==> v.pc.m < |v.last|
  {
    if v.pc.Validate? then 1
    else if v.pc.Pending() then v.pc.val - v.last[v.pc.m]
    else 0
  }

  function Unfinished(pc: Pc): nat {
    if pc.Pending() then 1 else 0
  }

  /** The accounting equations of one thread, at every program point. */
  predicate Balanced(cfg: Config, v: Validator)
    requires v.pc.Pending() ==> v.pc.m < |v.last|
  {
    && v.t.hits + v.t.skipped == Sum(v.last) + InFlight(v)
    && v.t.hits == v.t.clean + v.t.stale + v.t.race + v.t.corrupt + (if v.pc.Validate? then 1 else 0)
    && v.t.hits >= Unfinished(v.pc)
    && v.t.slots == (v.t.hits - Unfinished(v.pc)) * cfg.opsPerChunk
    && v.t.bytes == (v.t.hits - Unfinished(v.pc)) * cfg.ChunkBytes()
  }

  /** Markers this scan has still to pass. */
  function Ahead(n: nat, pc: Pc): int {
    if pc.Poll? || pc.Repoll? || (pc.Pending() && !pc.drain) then n - pc.m else 0
  }

  /** Every scan begun passes every marker once. */
  predicate ScansWhole(v: Validator) {
    v.t.scanned + Ahead(|v.last|, v.pc) == v.t.cycles * |v.last|
  }

  /** A scan has found work exactly when it has hit something. */
  predicate FoundWork(v: Validator) {
    v.base <= v.t.hits && (!Draining(v.pc) ==> (v.found <==> v.t.hits > v.base))
  }

  /** With a silent peer, what the drain has passed is fully seen. */
  predicate CaughtUp(own: seq<nat>, marks: seq<nat>, v: Validator)
    requires Shape(own, marks, v)
  {
    var upto := if v.pc.Drain? || (v.pc.Pending() && v.pc.drain) then v.pc.m
                else if v.pc.Exited? then |own| else 0;
    && (forall j :: 0 <= j < upto ==> v.last[j] == marks[own[j]])
    && (v.pc.Pending() && v.pc.drain ==> v.pc.val == marks[own[v.pc.m]])
  }

  predicate Draining(pc: Pc) {
    pc.Drain? || pc.Exited? || (pc.Pending() && pc.drain)
  }

  predicate LocalInv(cfg: Config, own: seq<nat>, marks: seq<nat>, stop: bool, quiet: bool, v: Validator) {
    && Shape(own, marks, v)
    && Tracks(own, marks, stop, v)
    && Balanced(cfg, v) && ScansWhole(v) && FoundWork(v)
    && (quiet ==> CaughtUp(own, marks, v))
  }

  /** One figure per validator. */
  function Column(vs: seq<Validator>, f: Validator -> int): (r: seq<int>)
    ensures |r| == |vs|
    ensures forall i :: 0 <= i < |vs| ==> r[i] == f(vs[i])
  {
    seq(|vs|, i requires 0 <= i < |vs| => f(vs[i]))
  }

  function Hits(v: Validator): int { v.t.hits }
  function Skipped(v: Validator): int { v.t.skipped }
  function CleanHits(v: Validator): int { v.t.clean }
  function StaleHits(v: Validator): int { v.t.stale }
  function RaceHits(v: Validator): int { v.t.race }
  function RealHits(v: Validator): int { v.t.corrupt }
  function Slots(v: Validator): int { v.t.slots }
  function Bytes(v: Validator): int { v.t.bytes }
  function Seen(v: Validator): int { Sum(v.last) }
  function Scanned(v: Validator): int { v.t.scanned }
  function Visits(v: Validator): int { v.t.cycles * |v.last| }

  /** Real mismatches a thread has added to the shared error count. */
  function Counted(v: Validator): int {
    v.t.corrupt - (if v.pc.InError() then 1 else 0)
  }

  predicate Agrees(r: Mismatch, e: Mismatch, k: nat) {
    && (k > 0 ==> r.qp == e.qp)
    && (k > 1 ==> r.chunk == e.chunk)
    && (k > 2 ==> r.offset == e.offset)
    && (k > 3 ==> r.expected == e.expected)
    && (k > 4 ==> r.actual == e.actual)
  }

  predicate Recording(s: State) {
    exists i :: 0 <= i < |s.vs| && s.vs[i].pc.Record?
  }

  /** Threads on the error path carry a recorded mismatch, and past the compare-and-swap the flag is up. */
  predicate PathInv(s: State) {
    && (forall i :: 0 <= i < |s.vs| && s.vs[i].pc.InError() ==> s.vs[i].pc.e in s.reals)
    && (forall i :: 0 <= i < |s.vs| && (s.vs[i].pc.Record? || s.vs[i].pc.Count?) ==> s.hasError)
    && (s.hasError ==> s.reals != [])
  }

  /** At most one thread ever writes the record, and what it has written agrees with its mismatch. */
  predicate WriterInv(s: State) {
    && (forall i :: 0 <= i < |s.vs| && s.vs[i].pc.Record? ==> Agrees(s.record, s.vs[i].pc.e, s.vs[i].pc.k))
    && (forall i, j :: 0 <= i < |s.vs| && 0 <= j < |s.vs| && s.vs[i].pc.Record? && s.vs[j].pc.Record? ==> i == j)
  }

  /** A finished record is one whole mismatch. */
  predicate DoneInv(s: State) {
    s.hasError && !Recording(s) ==> s.record in s.reals
  }

  /** A mismatch some marker of this configuration can give rise to. */
  predicate Genuine(cfg: Config, e: Mismatch) {
    && e.chunk < cfg.chunksPerQp
    && e.qp * cfg.chunksPerQp + e.chunk < cfg.total
    && e.offset < cfg.payload
    && IsPattern(e.expected)
  }

  predicate SharedInv(cfg: Config, s: State) {
    && |s.reals| == Sum(Column(s.vs, RealHits))
    && s.errors == Sum(Column(s.vs, Counted))
    && (!s.hasError ==> s.errors == 0)
    && PathInv(s) && WriterInv(s) && DoneInv(s)
    && (forall e :: e in s.reals ==> Genuine(cfg, e))
    && (s.quiet ==> s.settled && s.stop)
  }

  predicate LocalsInv(cfg: Config, s: State) {
    && Shaped(cfg, s)
    && forall i :: 0 <= i < |s.vs| ==> LocalInv(cfg, cfg.owned[i], s.marks, s.stop, s.quiet, s.vs[i])
  }

  ghost predicate Inv(cfg: Config, s: State) {
    cfg.Valid() && LocalsInv(cfg, s) && SharedInv(cfg, s)
  }

  // ----- every step keeps the invariant -----

  lemma InitInv(cfg: Config, s: State)
    requires cfg.Valid() && Init(cfg, s)
    ensures Inv(cfg, s)
  {
    forall i | 0 <= i < |s.vs|
      ensures LocalInv(cfg, cfg.owned[i], s.marks, s.stop, s.quiet, s.vs[i])
    {
      forall j | 0 <= j < |cfg.owned[i]|
        ensures cfg.owned[i][j] < |s.marks|
      {
        PartitionInRange(cfg.owned, cfg.total, i, j);
      }
      SumZero(s.vs[i].last);
    }
    SumZero(Column(s.vs, RealHits));
    SumZero(Column(s.vs, Counted));
  }

  /** The last write of a hit settles its account. */
  lemma FinishBalanced(cfg: Config, v: Validator, v': Validator)
    requires v.pc.Finish? && v.pc.m < |v.last| && Balanced(cfg, v)
    requires v'.last == v.last[v.pc.m := v.pc.val] && !v'.pc.Pending()
    requires v'.t == v.t.(slots := v.t.slots + cfg.opsPerChunk, bytes := v.t.bytes + cfg.ChunkBytes())
    ensures Balanced(cfg, v')
  {
    SumUpdate(v.last, v.pc.m, v.pc.val);
    MulOneMore(v.t.hits - 1, cfg.opsPerChunk);
    MulOneMore(v.t.hits - 1, cfg.ChunkBytes());
  }

  lemma JudgeBalanced(cfg: Config, v: Validator, o: Outcome)
    requires v.pc.Validate? && v.pc.m < |v.last| && v.last[v.pc.m] < v.pc.val && Balanced(cfg, v)
    ensures Balanced(cfg, Judge(v, o))
  {
  }

  // A thread step, the two kinds one after the other.

  predicate Behind(own: seq<nat>, marks: seq<nat>, v: Validator)
    requires Shape(own, marks, v)
  {
    forall j :: 0 <= j < |own| ==> v.last[j] <= marks[own[j]]
  }

  lemma ScanShape(cfg: Config, own: seq<nat>, marks: seq<nat>, stop: bool, v: Validator)
    requires Shape(own, marks, v) && !v.pc.Pending() && Behind(own, marks, v)
    ensures Shape(own, marks, ScanStep(cfg, own, marks, stop, v))
  {
  }

  lemma HitShape(cfg: Config, own: seq<nat>, marks: seq<nat>, hasError: bool, v: Validator, o: Outcome)
    requires Shape(own, marks, v) && v.pc.Pending()
    ensures Shape(own, marks, HitStep(cfg, hasError, v, o))
  {
  }

  /** The equations survive every thread step. */
  lemma ScanBalanced(cfg: Config, own: seq<nat>, marks: seq<nat>, stop: bool, v: Validator)
    requires Shape(own, marks, v) && !v.pc.Pending() && Balanced(cfg, v)
    requires Shape(own, marks, ScanStep(cfg, own, marks, stop, v))
    ensures Balanced(cfg, ScanStep(cfg, own, marks, stop, v))
  {
  }

  lemma HitBalanced(cfg: Config, own: seq<nat>, marks: seq<nat>, hasError: bool, v: Validator, o: Outcome)
    requires Shape(own, marks, v) && v.pc.Pending() && Balanced(cfg, v)
    requires Shape(own, marks, HitStep(cfg, hasError, v, o))
    ensures Balanced(cfg, HitStep(cfg, hasError, v, o))
  {
    if v.pc.Finish? {
      FinishBalanced(cfg, v, HitStep(cfg, hasError, v, o));
    } else if v.pc.Validate? {
      JudgeBalanced(cfg, v, o);
    }
  }

  lemma ScanScans(cfg: Config, own: seq<nat>, marks: seq<nat>, stop: bool, v: Validator)
    requires Shape(own, marks, v) && !v.pc.Pending() && ScansWhole(v)
    ensures ScansWhole(ScanStep(cfg, own, marks, stop, v))
  {
    MulOneMore(v.t.cycles, |v.last|);
  }

  lemma HitScans(cfg: Config, hasError: bool, v: Validator, o: Outcome)
    requires v.pc.Pending() && v.pc.m < |v.last| && v.last[v.pc.m] < v.pc.val && ScansWhole(v)
    ensures ScansWhole(HitStep(cfg, hasError, v, o))
  {
  }

  lemma ScanFound(cfg: Config, own: seq<nat>, marks: seq<nat>, stop: bool, v: Validator)
    requires Shape(own, marks, v) && !v.pc.Pending() && FoundWork(v)
    ensures FoundWork(ScanStep(cfg, own, marks, stop, v))
  {
  }

  lemma HitFound(cfg: Config, hasError: bool, v: Validator, o: Outcome)
    requires v.pc.Pending() && v.pc.m < |v.last| && v.last[v.pc.m] < v.pc.val && FoundWork(v)
    ensures FoundWork(HitStep(cfg, hasError, v, o))
  {
  }

  /** The last values seen never run ahead of the markers, and a drain needs the stop flag. */
  predicate Tracks(own: seq<nat>, marks: seq<nat>, stop: bool, v: Validator)
    requires Shape(own, marks, v)
  {
    && Behind(own, marks, v)
    && (v.pc.Pending() ==> v.pc.val <= marks[own[v.pc.m]])
    && v.spin < SPIN_CHECK_INTERVAL
    && (Draining(v.pc) ==> stop)
  }

  lemma ScanTracks(cfg: Config, own: seq<nat>, marks: seq<nat>, stop: bool, v: Validator)
    requires Shape(own, marks, v) && !v.pc.Pending() && Tracks(own, marks, stop, v)
    requires Shape(own, marks, ScanStep(cfg, own, marks, stop, v))
    ensures Tracks(own, marks, stop, ScanStep(cfg, own, marks, stop, v))
  {
  }

  lemma HitTracks(cfg: Config, own: seq<nat>, marks: seq<nat>, stop: bool, hasError: bool, v: Validator, o: Outcome)
    requires Shape(own, marks, v) && v.pc.Pending() && Tracks(own, marks, stop, v)
    requires Shape(own, marks, HitStep(cfg, hasError, v, o))
    ensures Tracks(own, marks, stop, HitStep(cfg, hasError, v, o))
  {
  }

  /** A drain under a silent peer catches up. */
  lemma ScanCatchesUp(cfg: Config, own: seq<nat>, marks: seq<nat>, stop: bool, v: Validator)
    requires Shape(own, marks, v) && !v.pc.Pending() && CaughtUp(own, marks, v) && Behind(own, marks, v)
    requires Shape(own, marks, ScanStep(cfg, own, marks, stop, v))
    ensures CaughtUp(own, marks, ScanStep(cfg, own, marks, stop, v))
  {
    assert ScanStep(cfg, own, marks, stop, v).last == v.last;
  }

  lemma HitCatchesUp(cfg: Config, own: seq<nat>, marks: seq<nat>, hasError: bool, v: Validator, o: Outcome)
    requires Shape(own, marks, v) && v.pc.Pending() && CaughtUp(own, marks, v)
    requires Shape(own, marks, HitStep(cfg, hasError, v, o))
    ensures CaughtUp(own, marks, HitStep(cfg, hasError, v, o))
  {
    var v' := HitStep(cfg, hasError, v, o);
    if v.pc.Finish? && v.pc.drain {
      assert forall j :: 0 <= j < v.pc.m ==> v'.last[j] == v.last[j];
      assert v'.last[v.pc.m] == marks[own[v.pc.m]];
    }
  }

  lemma ScanStepInv(cfg: Config, own: seq<nat>, marks: seq<nat>, stop: bool, quiet: bool, v: Validator)
    requires LocalInv(cfg, own, marks, stop, quiet, v) && !v.pc.Pending()
    ensures LocalInv(cfg, own, marks, stop, quiet, ScanStep(cfg, own, marks, stop, v))
  {
    ScanShape(cfg, own, marks, stop, v);
    ScanBalanced(cfg, own, marks, stop, v);
    ScanScans(cfg, own, marks, stop, v);
    ScanFound(cfg, own, marks, stop, v);
    ScanTracks(cfg, own, marks, stop, v);
    if quiet {
      ScanCatchesUp(cfg, own, marks, stop, v);
    }
  }

  lemma HitStepInv(cfg: Config, own: seq<nat>, marks: seq<nat>, stop: bool, quiet: bool, hasError: bool,
                   v: Validator, o: Outcome)
    requires LocalInv(cfg, own, marks, stop, quiet, v) && v.pc.Pending()
    ensures LocalInv(cfg, own, marks, stop, quiet, HitStep(cfg, hasError, v, o))
  {
    HitShape(cfg, own, marks, hasError, v, o);
    HitBalanced(cfg, own, marks, hasError, v, o);
    HitScans(cfg, hasError, v, o);
    HitFound(cfg, hasError, v, o);
    HitTracks(cfg, own, marks, stop, hasError, v, o);
    if quiet {
      HitCatchesUp(cfg, own, marks, hasError, v, o);
    }
  }

  lemma LocalStepInv(cfg: Config, own: seq<nat>, marks: seq<nat>, stop: bool, quiet: bool, hasError: bool,
                     v: Validator, o: Outcome)
    requires LocalInv(cfg, own, marks, stop, quiet, v)
    ensures LocalInv(cfg, own, marks, stop, quiet, Local(cfg, own, marks, stop, hasError, v, o))
  {
    if v.pc.Pending() {
      HitStepInv(cfg, own, marks, stop, quiet, hasError, v, o);
    } else {
      ScanStepInv(cfg, own, marks, stop, quiet, v);
    }
  }

  /** How a thread step moves through the error path, and what it books. */
  predicate ErrorMove(v: Validator, v': Validator, hasError: bool, o: Outcome) {
    var found := v.pc.Validate? && o.Real?;
    && v'.t.corrupt == v.t.corrupt + (if found then 1 else 0)
    && match v.pc
       case Validate(_, _, _) => if o.Real? then v'.pc.Cas? && v'.pc.e == o.e else !v'.pc.InError()
       case Cas(_, _, _, e) =>
         if hasError then v'.pc.Count? && v'.pc.e == e else v'.pc.Record? && v'.pc.e == e && v'.pc.k == 0
       case Record(_, _, _, e, k) =>
         if k == 4 then v'.pc.Count? && v'.pc.e == e else v'.pc.Record? && v'.pc.e == e && v'.pc.k == k + 1
       case _ => !v'.pc.InError()
  }

  lemma ScanErrorMove(cfg: Config, own: seq<nat>, marks: seq<nat>, stop: bool, hasError: bool, v: Validator, o: Outcome)
    requires Shape(own, marks, v) && !v.pc.Pending()
    ensures ErrorMove(v, ScanStep(cfg, own, marks, stop, v), hasError, o)
  {
  }

  lemma HitErrorMove(cfg: Config, own: seq<nat>, marks: seq<nat>, hasError: bool, v: Validator, o: Outcome)
    requires Shape(own, marks, v) && v.pc.Pending()
    ensures ErrorMove(v, HitStep(cfg, hasError, v, o), hasError, o)
  {
  }

  lemma LocalErrorMove(cfg: Config, own: seq<nat>, marks: seq<nat>, stop: bool, hasError: bool, v: Validator, o: Outcome)
    requires Shape(own, marks, v)
    ensures ErrorMove(v, Local(cfg, own, marks, stop, hasError, v, o), hasError, o)
  {
    if v.pc.Pending() {
      HitErrorMove(cfg, own, marks, hasError, v, o);
    } else {
      ScanErrorMove(cfg, own, marks, stop, hasError, v, o);
    }
  }

  /** The shared counts follow the per-thread ones. */
  lemma PublishSums(s: State, i: nat, v': Validator, o: Outcome)
    requires i < |s.vs| && ErrorMove(s.vs[i], v', s.hasError, o)
    requires |s.reals| == Sum(Column(s.vs, RealHits)) && s.errors == Sum(Column(s.vs, Counted))
    ensures var s' := Publish(s.(vs := s.vs[i := v']), s.vs[i].pc, o);
            && |s'.reals| == Sum(Column(s'.vs, RealHits))
            && s'.errors == Sum(Column(s'.vs, Counted))
  {
    var vs' := s.vs[i := v'];
    assert Column(vs', RealHits) == Column(s.vs, RealHits)[i := v'.t.corrupt];
    assert Column(vs', Counted) == Column(s.vs, Counted)[i := Counted(v')];
    SumUpdate(Column(s.vs, RealHits), i, v'.t.corrupt);
    SumUpdate(Column(s.vs, Counted), i, Counted(v'));
  }

  lemma PublishPath(s: State, i: nat, v': Validator, o: Outcome)
    requires i < |s.vs| && ErrorMove(s.vs[i], v', s.hasError, o)
    requires PathInv(s)
    ensures PathInv(Publish(s.(vs := s.vs[i := v']), s.vs[i].pc, o))
  {
  }

  /** The writer stores its next field; nobody else is at the record. */
  lemma PublishField(s: State, i: nat, v': Validator, o: Outcome)
    requires i < |s.vs| && ErrorMove(s.vs[i], v', s.hasError, o)
    requires s.vs[i].pc.Record? && s.vs[i].pc.k < 5 && WriterInv(s)
    ensures WriterInv(Publish(s.(vs := s.vs[i := v']), s.vs[i].pc, o))
  {
  }

  /** Who wins the compare-and-swap finds nobody at the record. */
  lemma PublishSwap(s: State, i: nat, v': Validator, o: Outcome)
    requires i < |s.vs| && ErrorMove(s.vs[i], v', s.hasError, o)
    requires s.vs[i].pc.Cas? && PathInv(s) && WriterInv(s)
    ensures WriterInv(Publish(s.(vs := s.vs[i := v']), s.vs[i].pc, o))
  {
  }

  lemma PublishOther(s: State, i: nat, v': Validator, o: Outcome)
    requires i < |s.vs| && ErrorMove(s.vs[i], v', s.hasError, o)
    requires !s.vs[i].pc.Record? && !s.vs[i].pc.Cas? && WriterInv(s)
    ensures WriterInv(Publish(s.(vs := s.vs[i := v']), s.vs[i].pc, o))
  {
    assert !v'.pc.Record?;
  }

  lemma PublishWriter(s: State, i: nat, v': Validator, o: Outcome)
    requires i < |s.vs| && ErrorMove(s.vs[i], v', s.hasError, o)
    requires s.vs[i].pc.Record? ==> s.vs[i].pc.k < 5
    requires PathInv(s) && WriterInv(s)
    ensures WriterInv(Publish(s.(vs := s.vs[i := v']), s.vs[i].pc, o))
  {
    if s.vs[i].pc.Record? {
      PublishField(s, i, v', o);
    } else if s.vs[i].pc.Cas? {
      PublishSwap(s, i, v', o);
    } else {
      PublishOther(s, i, v', o);
    }
  }

  /** When the writer has stored its fifth field the record is its mismatch. */
  lemma PublishDone(s: State, i: nat, v': Validator, o: Outcome)
    requires i < |s.vs| && ErrorMove(s.vs[i], v', s.hasError, o)
    requires s.vs[i].pc.Record? ==> s.vs[i].pc.k < 5
    requires PathInv(s) && WriterInv(s) && DoneInv(s)
    ensures DoneInv(Publish(s.(vs := s.vs[i := v']), s.vs[i].pc, o))
  {
    var s' := Publish(s.(vs := s.vs[i := v']), s.vs[i].pc, o);
    var v := s.vs[i];
    assert s'.vs[i] == v';
    if v.pc.Record? {
      if v.pc.k == 4 {
        assert s'.record == v.pc.e;
      } else {
        assert Recording(s');
      }
    } else if Recording(s) {
      var j :| 0 <= j < |s.vs| && s.vs[j].pc.Record?;
      assert s'.vs[j] == s.vs[j];
      assert Recording(s');
    } else if v'.pc.Record? {
      assert Recording(s');
    }
  }

  lemma PublishGenuine(cfg: Config, s: State, i: nat, v': Validator, o: Outcome)
    requires Enabled(cfg, s, Thread(i, o))
    requires forall e :: e in s.reals ==> Genuine(cfg, e)
    ensures forall e :: e in Publish(s.(vs := s.vs[i := v']), s.vs[i].pc, o).reals ==> Genuine(cfg, e)
  {
    if s.vs[i].pc.Validate? && o.Real? {
      var idx := cfg.owned[i][s.vs[i].pc.m];
      assert idx / cfg.chunksPerQp * cfg.chunksPerQp + idx % cfg.chunksPerQp == idx;
    }
  }

  lemma PublishShared(cfg: Config, s: State, i: nat, v': Validator, o: Outcome)
    requires Enabled(cfg, s, Thread(i, o)) && SharedInv(cfg, s)
    requires ErrorMove(s.vs[i], v', s.hasError, o)
    ensures SharedInv(cfg, Publish(s.(vs := s.vs[i := v']), s.vs[i].pc, o))
  {
    PublishSums(s, i, v', o);
    PublishPath(s, i, v', o);
    PublishWriter(s, i, v', o);
    PublishDone(s, i, v', o);
    PublishGenuine(cfg, s, i, v', o);
  }

  lemma InstallLocals(cfg: Config, s: State, i: nat, v': Validator, s': State)
    requires LocalsInv(cfg, s) && i < |s.vs|
    requires LocalInv(cfg, cfg.owned[i], s.marks, s.stop, s.quiet, v')
    requires s'.vs == s.vs[i := v'] && s'.marks == s.marks && s'.stop == s.stop && s'.quiet == s.quiet
    ensures LocalsInv(cfg, s')
  {
  }

  /** Shared accesses leave threads, markers and flags alone. */
  lemma PublishFrame(s: State, pc: Pc, o: Outcome)
    ensures var s' := Publish(s, pc, o);
            s'.vs == s.vs && s'.marks == s.marks && s'.stop == s.stop && s'.quiet == s.quiet && s'.settled == s.settled
  {
  }

  lemma ThreadLocals(cfg: Config, s: State, i: nat, o: Outcome)
    requires LocalsInv(cfg, s) && i < |s.vs|
    ensures LocalsInv(cfg, ThreadStep(cfg, s, i, o))
  {
    LocalStepInv(cfg, cfg.owned[i], s.marks, s.stop, s.quiet, s.hasError, s.vs[i], o);
    var v' := Local(cfg, cfg.owned[i], s.marks, s.stop, s.hasError, s.vs[i], o);
    PublishFrame(s.(vs := s.vs[i := v']), s.vs[i].pc, o);
    InstallLocals(cfg, s, i, v', ThreadStep(cfg, s, i, o));
  }

  lemma ThreadShared(cfg: Config, s: State, i: nat, o: Outcome)
    requires SharedInv(cfg, s) && Enabled(cfg, s, Thread(i, o))
    ensures SharedInv(cfg, ThreadStep(cfg, s, i, o))
  {
    var v' := Local(cfg, cfg.owned[i], s.marks, s.stop, s.hasError, s.vs[i], o);
    LocalErrorMove(cfg, cfg.owned[i], s.marks, s.stop, s.hasError, s.vs[i], o);
    PublishShared(cfg, s, i, v', o);
  }

  lemma ThreadStepInv(cfg: Config, s: State, i: nat, o: Outcome)
    requires Inv(cfg, s) && Enabled(cfg, s, Thread(i, o))
    ensures Inv(cfg, ThreadStep(cfg, s, i, o))
  {
    ThreadLocals(cfg, s, i, o);
    ThreadShared(cfg, s, i, o);
  }

  lemma BumpInv(cfg: Config, s: State, i: nat)
    requires Inv(cfg, s) && Enabled(cfg, s, Bump(i))
    ensures Inv(cfg, Next(cfg, s, Bump(i)))
  {
    var s' := Next(cfg, s, Bump(i));
    forall j | 0 <= j < |s.vs|
      ensures LocalInv(cfg, cfg.owned[j], s'.marks, s'.stop, s'.quiet, s'.vs[j])
    {
      assert LocalInv(cfg, cfg.owned[j], s.marks, s.stop, s.quiet, s.vs[j]);
    }
  }

  lemma StopInv(cfg: Config, s: State)
    requires Inv(cfg, s) && Enabled(cfg, s, Stop)
    ensures Inv(cfg, Next(cfg, s, Stop))
  {
    var s' := Next(cfg, s, Stop);
    forall j | 0 <= j < |s.vs|
      ensures LocalInv(cfg, cfg.owned[j], s'.marks, s'.stop, s'.quiet, s'.vs[j])
    {
      assert LocalInv(cfg, cfg.owned[j], s.marks, s.stop, s.quiet, s.vs[j]);
    }
  }

  lemma StepInv(cfg: Config, s: State, step: Step)
    requires Inv(cfg, s) && Enabled(cfg, s, step)
    ensures Inv(cfg, Next(cfg, s, step))
  {
    match step
    case Bump(i) => BumpInv(cfg, s, i);
    case Settle =>
    case Stop => StopInv(cfg, s);
    case Thread(i, o) => ThreadStepInv(cfg, s, i, o);
  }

  /** Every reachable state satisfies the invariant. */
  lemma {:induction false} RunInv(cfg: Config, s: State, steps: seq<Step>, t: State)
    requires Inv(cfg, s) && Run(cfg, s, steps, t)
    ensures Inv(cfg, t)
    decreases |steps|
  {
    if steps != [] {
      StepInv(cfg, s, steps[0]);
      RunInv(cfg, Next(cfg, s, steps[0]), steps[1..], t);
    }
  }

  // ----- what a scan does -----

  /**
   * Polling in every reachable state: a marker is passed over exactly when its
   * value is the one last seen, and a hit takes the value the marker has at that
   * moment. Without re-polling the thread moves on after one hit.
   */
  lemma PollExact(cfg: Config, s: State, i: nat, o: Outcome)
    requires Inv(cfg, s) && i < |s.vs| && !s.vs[i].pc.Pending() && !s.vs[i].pc.Exited?
    requires s.vs[i].pc.m < |cfg.owned[i]|
    ensures var v, v' := s.vs[i], ThreadStep(cfg, s, i, o).vs[i];
            var m, val := v.pc.m, s.marks[cfg.owned[i][v.pc.m]];
            var news := v.last[m] != val && (v.pc.Repoll? ==> cfg.repoll);
            && (news ==> v'.pc == Validate(m, val, v.pc.Drain?) && v'.t.hits == v.t.hits + 1)
            && (!news ==> v'.pc == (if v.pc.Drain? then Drain(m + 1) else Poll(m + 1)) && v'.t.hits == v.t.hits)
  {
    assert LocalInv(cfg, cfg.owned[i], s.marks, s.stop, s.quiet, s.vs[i]);
    PublishFrame(s.(vs := s.vs[i := Local(cfg, cfg.owned[i], s.marks, s.stop, s.hasError, s.vs[i], o)]), s.vs[i].pc, o);
  }

  /**
   * The end of a scan in every reachable state: a scan with a hit starts the idle
   * count again, and only the 1024th idle scan in a row looks at the stop flag and
   * leaves for the drain if it is up.
   */
  lemma EndOfScan(cfg: Config, s: State, i: nat, o: Outcome)
    requires Inv(cfg, s) && i < |s.vs| && s.vs[i].pc == Poll(|cfg.owned[i]|)
    ensures var v, v' := s.vs[i], ThreadStep(cfg, s, i, o).vs[i];
            && v.base <= v.t.hits && v.spin < 1024
            && (v.t.hits > v.base ==> v'.pc == Poll(0) && v'.spin == 0)
            && (v.t.hits == v.base && v.spin < 1023 ==> v'.pc == Poll(0) && v'.spin == v.spin + 1)
            && (v.t.hits == v.base && v.spin == 1023 ==> v'.spin == 0 && v'.pc == if s.stop then Drain(0) else Poll(0))
            && (v'.pc == Poll(0) ==> v'.base == v'.t.hits)
  {
    assert LocalInv(cfg, cfg.owned[i], s.marks, s.stop, s.quiet, s.vs[i]);
    PublishFrame(s.(vs := s.vs[i := Local(cfg, cfg.owned[i], s.marks, s.stop, s.hasError, s.vs[i], o)]), s.vs[i].pc, o);
  }

  // ----- every verdict is booked as its own kind -----

  datatype Kind = CleanKind | StaleKind | RaceKind | RealKind

  predicate OfKind(o: Outcome, k: Kind) {
    match k
    case CleanKind => o.Clean?
    case StaleKind => o.Stale?
    case RaceKind => o.Race?
    case RealKind => o.Real?
  }

  /** The hits a thread has booked as of this kind. */
  function BookedHits(k: Kind): Validator -> int {
    match k
    case CleanKind => CleanHits
    case StaleKind => StaleHits
    case RaceKind => RaceHits
    case RealKind => RealHits
  }

  /** The step is a scan's verdict of this kind. */
  predicate IsVerdict(s: State, step: Step, k: Kind) {
    step.Thread? && step.v < |s.vs| && s.vs[step.v].pc.Validate? && OfKind(step.o, k)
  }

  /** How many verdicts of this kind a run gives. */
  ghost function Verdicts(cfg: Config, s: State, steps: seq<Step>, t: State, k: Kind): nat
    requires Run(cfg, s, steps, t)
    decreases |steps|
  {
    if steps == [] then 0
    else (if IsVerdict(s, steps[0], k) then 1 else 0) + Verdicts(cfg, Next(cfg, s, steps[0]), steps[1..], t, k)
  }

  lemma LocalBooks(cfg: Config, own: seq<nat>, marks: seq<nat>, stop: bool, hasError: bool, v: Validator, o: Outcome, k: Kind)
    requires Shape(own, marks, v)
    ensures BookedHits(k)(Local(cfg, own, marks, stop, hasError, v, o))
         == BookedHits(k)(v) + if v.pc.Validate? && OfKind(o, k) then 1 else 0
  {
    if v.pc.Pending() {
      HitBooks(cfg, hasError, v, o, k);
    } else {
      ScanBooks(cfg, own, marks, stop, v, k);
    }
  }

  lemma ScanBooks(cfg: Config, own: seq<nat>, marks: seq<nat>, stop: bool, v: Validator, k: Kind)
    requires Shape(own, marks, v) && !v.pc.Pending()
    ensures BookedHits(k)(ScanStep(cfg, own, marks, stop, v)) == BookedHits(k)(v)
  {
  }

  lemma HitBooks(cfg: Config, hasError: bool, v: Validator, o: Outcome, k: Kind)
    requires v.pc.Pending() && v.pc.m < |v.last| && v.last[v.pc.m] < v.pc.val
    ensures BookedHits(k)(HitStep(cfg, hasError, v, o))
         == BookedHits(k)(v) + if v.pc.Validate? && OfKind(o, k) then 1 else 0
  {
  }

  lemma StepBooks(cfg: Config, s: State, step: Step, k: Kind)
    requires Enabled(cfg, s, step)
    ensures Sum(Column(Next(cfg, s, step).vs, BookedHits(k)))
         == Sum(Column(s.vs, BookedHits(k))) + if IsVerdict(s, step, k) then 1 else 0
  {
    if step.Thread? {
      var i, o, f := step.v, step.o, BookedHits(k);
      var v' := Local(cfg, cfg.owned[i], s.marks, s.stop, s.hasError, s.vs[i], o);
      PublishFrame(s.(vs := s.vs[i := v']), s.vs[i].pc, o);
      LocalBooks(cfg, cfg.owned[i], s.marks, s.stop, s.hasError, s.vs[i], o, k);
      assert Column(s.vs[i := v'], f) == Column(s.vs, f)[i := f(v')];
      SumUpdate(Column(s.vs, f), i, f(v'));
    }
  }

  lemma {:induction false} RunBooks(cfg: Config, s: State, steps: seq<Step>, t: State, k: Kind)
    requires Run(cfg, s, steps, t)
    ensures Sum(Column(t.vs, BookedHits(k))) == Sum(Column(s.vs, BookedHits(k))) + Verdicts(cfg, s, steps, t, k)
    decreases |steps|
  {
    if steps != [] {
      StepBooks(cfg, s, steps[0], k);
      RunBooks(cfg, Next(cfg, s, steps[0]), steps[1..], t, k);
    }
  }

  lemma NoneBooked(cfg: Config, s: State, k: Kind)
    requires Init(cfg, s)
    ensures Sum(Column(s.vs, BookedHits(k))) == 0
  {
    SumZero(Column(s.vs, BookedHits(k)));
  }

  /** The four totals are the numbers of verdicts of each kind the run's scans gave. */
  lemma VerdictsBooked(cfg: Config, s0: State, steps: seq<Step>, s: State)
    requires cfg.Valid() && Init(cfg, s0) && Run(cfg, s0, steps, s) && AllExited(s)
    ensures Report(s).stale == Verdicts(cfg, s0, steps, s, StaleKind)
    ensures Report(s).race == Verdicts(cfg, s0, steps, s, RaceKind)
    ensures Report(s).errors == Verdicts(cfg, s0, steps, s, RealKind)
    ensures Sum(Column(s.vs, CleanHits)) == Verdicts(cfg, s0, steps, s, CleanKind)
  {
    BookedFromStart(cfg, s0, steps, s, StaleKind);
    BookedFromStart(cfg, s0, steps, s, RaceKind);
    BookedFromStart(cfg, s0, steps, s, RealKind);
    BookedFromStart(cfg, s0, steps, s, CleanKind);
    InitInv(cfg, s0);
    RunInv(cfg, s0, steps, s);
    VerdictTotals(cfg, s);
  }

  lemma BookedFromStart(cfg: Config, s0: State, steps: seq<Step>, s: State, k: Kind)
    requires Init(cfg, s0) && Run(cfg, s0, steps, s)
    ensures Sum(Column(s.vs, BookedHits(k))) == Verdicts(cfg, s0, steps, s, k)
  {
    NoneBooked(cfg, s0, k);
    RunBooks(cfg, s0, steps, s, k);
  }

  // ----- the environment's moves -----

  /** How often the peer has bumped a marker. */
  function Bumps(steps: seq<Step>): nat {
    if steps == [] then 0 else (if steps[0].Bump? then 1 else 0) + Bumps(steps[1..])
  }

  lemma StepMarks(cfg: Config, s: State, step: Step)
    requires Enabled(cfg, s, step)
    ensures var s' := Next(cfg, s, step);
            && Sum(s'.marks) == Sum(s.marks) + (if step.Bump? then 1 else 0)
            && (s'.stop <==> s.stop || step.Stop?) && (s'.settled <==> s.settled || step.Settle?)
            && (s'.quiet == if step.Stop? then s.settled else s.quiet)
  {
    if step.Bump? {
      SumUpdate(s.marks, step.i, s.marks[step.i] + 1);
    } else if step.Thread? {
      var v' := Local(cfg, cfg.owned[step.v], s.marks, s.stop, s.hasError, s.vs[step.v], step.o);
      PublishFrame(s.(vs := s.vs[step.v := v']), s.vs[step.v].pc, step.o);
    }
  }

  /** The markers count the bumps, and the flags tell whether their moves have been made. */
  lemma {:induction false} RunMarks(cfg: Config, s: State, steps: seq<Step>, t: State)
    requires Run(cfg, s, steps, t)
    ensures Sum(t.marks) == Sum(s.marks) + Bumps(steps)
    ensures t.stop <==> s.stop || Stop in steps
    ensures t.settled <==> s.settled || Settle in steps
    decreases |steps|
  {
    if steps != [] {
      StepMarks(cfg, s, steps[0]);
      RunMarks(cfg, Next(cfg, s, steps[0]), steps[1..], t);
      assert steps == [steps[0]] + steps[1..];
    }
  }

  /** The peer was silent when stop was raised exactly when it fell silent before. */
  lemma {:induction false} QuietIs(cfg: Config, s: State, before: seq<Step>, after: seq<Step>, t: State)
    requires Run(cfg, s, before + [Stop] + after, t) && !s.settled && Stop !in after
    ensures t.quiet <==> Settle in before
    decreases |before|
  {
    var steps := before + [Stop] + after;
    StepMarks(cfg, s, steps[0]);
    var s' := Next(cfg, s, steps[0]);
    if before == [] {
      assert steps[1..] == after;
      QuietKept(cfg, s', after, t);
    } else {
      assert steps[1..] == before[1..] + [Stop] + after;
      assert before == [before[0]] + before[1..];
      if before[0] == Settle {
        QuietOnce(cfg, s', before[1..], after, t);
      } else {
        QuietIs(cfg, s', before[1..], after, t);
      }
    }
  }

  lemma {:induction false} QuietOnce(cfg: Config, s: State, before: seq<Step>, after: seq<Step>, t: State)
    requires Run(cfg, s, before + [Stop] + after, t) && s.settled && Stop !in after
    ensures t.quiet
    decreases |before|
  {
    var steps := before + [Stop] + after;
    StepMarks(cfg, s, steps[0]);
    if before == [] {
      assert steps[1..] == after;
      QuietKept(cfg, Next(cfg, s, steps[0]), after, t);
    } else {
      assert steps[1..] == before[1..] + [Stop] + after;
      QuietOnce(cfg, Next(cfg, s, steps[0]), before[1..], after, t);
    }
  }

  lemma {:induction false} QuietKept(cfg: Config, s: State, steps: seq<Step>, t: State)
    requires Run(cfg, s, steps, t) && Stop !in steps
    ensures t.quiet == s.quiet
    decreases |steps|
  {
    if steps != [] {
      StepMarks(cfg, s, steps[0]);
      assert Stop !in steps[1..];
      QuietKept(cfg, Next(cfg, s, steps[0]), steps[1..], t);
    }
  }

  // ----- what the pool reports -----

  ghost predicate AllExited(s: State) {
    forall i :: 0 <= i < |s.vs| ==> s.vs[i].pc.Exited?
  }

  /** struct data_validation_result, the fields host_validation_stop computes. */
  datatype Result = Result(slots: int, bytes: int, scanned: int, hits: int, skipped: int, race: int, stale: int,
                           errors: nat, passed: bool, first: Option<Mismatch>)

  function Report(s: State): Result {
    Result(Sum(Column(s.vs, Slots)), Sum(Column(s.vs, Bytes)), Sum(Column(s.vs, Scanned)),
           Sum(Column(s.vs, Hits)), Sum(Column(s.vs, Skipped)), Sum(Column(s.vs, RaceHits)), Sum(Column(s.vs, StaleHits)),
           s.errors, s.errors == 0, if s.errors == 0 then None else Some(s.record))
  }

  lemma ColumnExtend(vs: seq<Validator>, i: nat, f: Validator -> int)
    requires i < |vs|
    ensures Sum(Column(vs[..i + 1], f)) == Sum(Column(vs[..i], f)) + f(vs[i])
  {
    assert Column(vs[..i + 1], f) == Column(vs[..i], f) + [f(vs[i])];
    SumAppend(Column(vs[..i], f), f(vs[i]));
  }

  /** The aggregation loop of host_validation_stop, once the threads are joined. */
  method HostValidationStop(s: State) returns (r: Result)
    ensures r == Report(s)
  {
    var slots, bytes, scanned, hits, skipped, race, stale := 0, 0, 0, 0, 0, 0, 0;
    for i := 0 to |s.vs|
      invariant slots == Sum(Column(s.vs[..i], Slots))
      invariant bytes == Sum(Column(s.vs[..i], Bytes))
      invariant scanned == Sum(Column(s.vs[..i], Scanned))
      invariant hits == Sum(Column(s.vs[..i], Hits))
      invariant skipped == Sum(Column(s.vs[..i], Skipped))
      invariant race == Sum(Column(s.vs[..i], RaceHits))
      invariant stale == Sum(Column(s.vs[..i], StaleHits))
    {
      ColumnExtend(s.vs, i, Slots);
      ColumnExtend(s.vs, i, Bytes);
      ColumnExtend(s.vs, i, Scanned);
      ColumnExtend(s.vs, i, Hits);
      ColumnExtend(s.vs, i, Skipped);
      ColumnExtend(s.vs, i, RaceHits);
      ColumnExtend(s.vs, i, StaleHits);
      var t := s.vs[i].t;
      slots, bytes, scanned := slots + t.slots, bytes + t.bytes, scanned + t.scanned;
      hits, skipped := hits + t.hits, skipped + t.skipped;
      race, stale := race + t.race, stale + t.stale;
    }
    assert s.vs[..|s.vs|] == s.vs;
    var errors := s.errors;
    r := Result(slots, bytes, scanned, hits, skipped, race, stale, errors, errors == 0,
                if errors == 0 then None else Some(s.record));
  }

  /** Every hit and every skipped step is one marker increment that some validator has seen. */
  lemma SeenTotal(cfg: Config, s: State)
    requires Inv(cfg, s) && AllExited(s)
    ensures Report(s).hits + Report(s).skipped == Sum(Column(s.vs, Seen))
  {
    SumAdd(Column(s.vs, Hits), Column(s.vs, Skipped), Column(s.vs, Seen));
  }

  /** With a silent peer the seen total is the total of the markers themselves. */
  lemma SeenIsMarkers(cfg: Config, s: State)
    requires Inv(cfg, s) && AllExited(s) && s.quiet
    ensures Sum(Column(s.vs, Seen)) == Sum(s.marks)
  {
    forall v | 0 <= v < |s.vs|
      ensures Column(s.vs, Seen)[v] == SumAt(s.marks, cfg.owned[v])
    {
      assert LocalInv(cfg, cfg.owned[v], s.marks, s.stop, s.quiet, s.vs[v]);
      SumAtIsSum(s.marks, cfg.owned[v], s.vs[v].last);
    }
    PartitionSum(s.marks, cfg.owned, Column(s.vs, Seen));
  }

  lemma {:induction false} SumAtIsSum(table: seq<nat>, idxs: seq<nat>, xs: seq<nat>)
    requires InTable(idxs, |table|) && |xs| == |idxs|
    requires forall j :: 0 <= j < |xs| ==> xs[j] == table[idxs[j]]
    ensures SumAt(table, idxs) == Sum(xs)
  {
    if idxs != [] {
      SumAtIsSum(table, idxs[1..], xs[1..]);
    }
  }

  /** Every scan of every thread has passed each of its markers once. */
  lemma ScanTotals(cfg: Config, s: State)
    requires Inv(cfg, s) && AllExited(s)
    ensures Report(s).scanned == Sum(Column(s.vs, Visits))
  {
    forall i | 0 <= i < |s.vs|
      ensures Column(s.vs, Scanned)[i] == Column(s.vs, Visits)[i]
    {
      assert LocalInv(cfg, cfg.owned[i], s.marks, s.stop, s.quiet, s.vs[i]);
    }
    assert Column(s.vs, Scanned) == Column(s.vs, Visits);
  }

  /** Slots and bytes are exact multiples of the hits. */
  lemma VolumeTotals(cfg: Config, s: State)
    requires Inv(cfg, s) && AllExited(s)
    ensures Report(s).slots == Report(s).hits * cfg.opsPerChunk
    ensures Report(s).bytes == Report(s).hits * cfg.ChunkBytes()
  {
    forall i | 0 <= i < |s.vs|
      ensures Column(s.vs, Slots)[i] == Column(s.vs, Hits)[i] * cfg.opsPerChunk
      ensures Column(s.vs, Bytes)[i] == Column(s.vs, Hits)[i] * cfg.ChunkBytes()
    {
      assert LocalInv(cfg, cfg.owned[i], s.marks, s.stop, s.quiet, s.vs[i]);
    }
    SumScale(Column(s.vs, Hits), cfg.opsPerChunk, Column(s.vs, Slots));
    SumScale(Column(s.vs, Hits), cfg.ChunkBytes(), Column(s.vs, Bytes));
  }

  /** Each hit has exactly one verdict; the shared error count is the number of real ones. */
  lemma VerdictTotals(cfg: Config, s: State)
    requires Inv(cfg, s) && AllExited(s)
    ensures Report(s).hits == Sum(Column(s.vs, CleanHits)) + Report(s).stale + Report(s).race + |s.reals|
    ensures Report(s).errors == |s.reals|
  {
    var cs := seq(|s.vs|, i requires 0 <= i < |s.vs| => s.vs[i].t.clean + s.vs[i].t.stale);
    var csr := seq(|s.vs|, i requires 0 <= i < |s.vs| => cs[i] + s.vs[i].t.race);
    SumAdd(Column(s.vs, CleanHits), Column(s.vs, StaleHits), cs);
    SumAdd(cs, Column(s.vs, RaceHits), csr);
    SumAdd(csr, Column(s.vs, RealHits), Column(s.vs, Hits));
    assert Column(s.vs, Counted) == Column(s.vs, RealHits);
  }

  /**
   * The report after any run from the start, under any interleaving, once all
   * threads have exited.
   */
  lemma PoolReport(cfg: Config, s0: State, steps: seq<Step>, s: State)
    requires cfg.Valid() && Init(cfg, s0) && Run(cfg, s0, steps, s) && AllExited(s)
    ensures var r := Report(s);
            && r.hits + r.skipped == Sum(Column(s.vs, Seen))
            && (s.quiet ==> r.hits + r.skipped == Sum(s.marks) == Bumps(steps))
            && r.hits == Sum(Column(s.vs, CleanHits)) + r.stale + r.race + r.errors
            && r.slots == r.hits * cfg.opsPerChunk
            && r.bytes == r.hits * cfg.ChunkBytes()
            && r.errors == |s.reals|
            && r.scanned == Sum(Column(s.vs, Visits))
  {
    InitInv(cfg, s0);
    RunInv(cfg, s0, steps, s);
    SeenTotal(cfg, s);
    VolumeTotals(cfg, s);
    ScanTotals(cfg, s);
    VerdictTotals(cfg, s);
    if s.quiet {
      SeenIsMarkers(cfg, s);
      RunMarks(cfg, s0, steps, s);
      SumZero(s0.marks);
    }
  }

  /**
   * First-error capture is atomic as a whole: the pool passes exactly when no
   * hit was classified real, and otherwise the five reported fields are those
   * of one real mismatch.
   */
  lemma FirstError(cfg: Config, s0: State, steps: seq<Step>, s: State)
    requires cfg.Valid() && Init(cfg, s0) && Run(cfg, s0, steps, s) && AllExited(s)
    ensures Report(s).passed <==> s.reals == []
    ensures !Report(s).passed ==> Report(s).first.Some? && Report(s).first.value in s.reals
                                  && Genuine(cfg, Report(s).first.value)
  {
    InitInv(cfg, s0);
    RunInv(cfg, s0, steps, s);
    VerdictTotals(cfg, s);
  }

  // ----- the pool as it is started -----

  function FirstState(cfg: Config): (s: State)
    ensures Init(cfg, s)
  {
    State(seq(cfg.total, _ => 0), seq(|cfg.owned|, i requires 0 <= i < |cfg.owned| => Fresh(|cfg.owned[i]|)), false,
          Mismatch(0, 0, 0, 0, 0), 0, false, false, false, [])
  }

  /**
   * host_validation_init and host_validation_start over a zeroed marker region:
   * the number of validators, the distribution of the markers, the threads in
   * their first scan.
   */
  method HostValidationStart(qps: nat, chunks: nat, isRead: bool, numaCores: int, systemCores: int,
                             ops: nat, payload: nat, repoll: bool)
    returns (cfg: Config, s: State, own: seq<seq<Distribution.Entry>>)
    requires qps > 0 && chunks > 0 && payload > 0
    ensures cfg == Config(Distribution.AllMarkers(own), qps * chunks, chunks, ops, payload, repoll)
    ensures cfg.Valid() && Init(cfg, s)
    ensures |s.vs| == Distribution.GetNumValidators(qps, chunks, isRead, numaCores, systemCores)
    ensures forall v, m, val, e :: 0 <= v < |own| && 0 <= m < |own[v]| && val > 0
                                   && Reportable(cfg, cfg.owned[v][m], val, e) ==>
              e.qp == own[v][m].qp && e.chunk == own[v][m].chunk
  {
    var nv := Distribution.GetNumValidators(qps, chunks, isRead, numaCores, systemCores);
    own := Distribution.DistributeMarkers(qps, chunks, nv);
    cfg := Config(Distribution.AllMarkers(own), qps * chunks, chunks, ops, payload, repoll);
    s := FirstState(cfg);
    forall v, m, val, e | 0 <= v < |own| && 0 <= m < |own[v]| && val > 0 && Reportable(cfg, cfg.owned[v][m], val, e)
      ensures e.qp == own[v][m].qp && e.chunk == own[v][m].chunk
    {
      assert Distribution.Decoded(own[v], chunks);
    }
  }

  /** What one look at a chunk means to the thread that takes it. */
  function OutcomeOf(cfg: Config, idx: nat, v: MarkerCheck.Verdict): Outcome
    requires cfg.chunksPerQp > 0
  {
    match v
    case Skipped => Clean
    case Clean => Clean
    case Stale => Stale
    case Race => Race
    case Real(offset, expected, actual) =>
      Real(Mismatch(idx / cfg.chunksPerQp, idx % cfg.chunksPerQp, offset, expected, actual))
  }

  /** Whatever the chunk holds at its three looks, the verdict is one a thread of the pool can book. */
  lemma VerdictIsEnabled(cfg: Config, s: State, i: nat, scan: seq<nat>, again: seq<nat>, sample: seq<nat>)
    requires Inv(cfg, s) && i < |s.vs| && s.vs[i].pc.Validate? && |scan| == |again| == |sample|
    ensures s.vs[i].pc.m < |cfg.owned[i]|
    ensures var idx, val := cfg.owned[i][s.vs[i].pc.m], s.vs[i].pc.val;
            && val > 0
            && var v := MarkerCheck.Judge(scan, again, sample, cfg.payload, CycleToPattern(val - 1));
            Enabled(cfg, s, Thread(i, OutcomeOf(cfg, idx, v)))
  {
    assert Shape(cfg.owned[i], s.marks, s.vs[i]);
  }

  /** Each verdict becomes the outcome of its own kind, and a real one keeps what it reports. */
  lemma VerdictKept(cfg: Config, idx: nat, v: MarkerCheck.Verdict)
    requires cfg.chunksPerQp > 0
    ensures var o := OutcomeOf(cfg, idx, v);
            && (v.Stale? <==> o.Stale?) && (v.Race? <==> o.Race?) && (v.Real? <==> o.Real?)
            && (v.Real? ==> o.e.qp * cfg.chunksPerQp + o.e.chunk == idx && o.e.chunk < cfg.chunksPerQp
                            && o.e.offset == v.offset && o.e.expected == v.expected && o.e.actual == v.actual)
  {
    Quotient(idx, cfg.chunksPerQp);
  }

  // ----- the pool stops -----

  const RANKS := 12

  /** The last values seen, a pending one included. */
  function Taken(v: Validator): seq<nat>
    requires v.pc.Pending() ==> v.pc.m < |v.last|
  {
    if v.pc.Pending() then v.last[v.pc.m := v.pc.val] else v.last
  }

  /** Marker increments this thread has not taken up yet. */
  function Unseen(own: seq<nat>, marks: seq<nat>, v: Validator): int
    requires Shape(own, marks, v)
  {
    SumAt(marks, own) - Sum(Taken(v))
  }

  /** Idle scans left before the stop flag is looked at. */
  function Spins(v: Validator): int {
    if Draining(v.pc) then 0 else if v.found then SPIN_CHECK_INTERVAL + 1 else SPIN_CHECK_INTERVAL - v.spin
  }

  /** Program steps left in this scan. */
  function Rank(n: nat, pc: Pc): int {
    1 + match pc
        case Poll(m) => (n - m) * RANKS
        case Drain(m) => (n - m) * RANKS
        case Validate(m, _, _) => (n - m - 1) * RANKS + 11
        case Cas(m, _, _, _) => (n - m - 1) * RANKS + 10
        case Record(m, _, _, _, k) => (n - m - 1) * RANKS + 9 - k
        case Count(m, _, _, _) => (n - m - 1) * RANKS + 3
        case Finish(m, _, _) => (n - m - 1) * RANKS + 2
        case Repoll(m) => (n - m - 1) * RANKS + 1
        case Exited => 0
  }

  /** The lexicographic triple folded into one number; an exited thread counts zero. */
  function Fold(n: nat, unseen: int, spins: int, rank: int): int {
    (unseen * (SPIN_CHECK_INTERVAL + 2) + spins) * (n * RANKS + 2) + rank
  }

  function Work(own: seq<nat>, marks: seq<nat>, v: Validator): int
    requires Shape(own, marks, v)
  {
    if v.pc.Exited? then 0 else Fold(|own|, Unseen(own, marks, v), Spins(v), Rank(|own|, v.pc))
  }

  lemma FoldDecreases(n: nat, u: int, p: int, r: int, u': int, p': int, r': int)
    requires 0 <= p <= SPIN_CHECK_INTERVAL + 1 && 0 <= p' <= SPIN_CHECK_INTERVAL + 1
    requires 0 <= r < n * RANKS + 2 && 0 <= r' < n * RANKS + 2
    requires u' < u || (u' == u && (p' < p || (p' == p && r' < r)))
    ensures Fold(n, u', p', r') < Fold(n, u, p, r)
  {
    if u' < u || p' < p {
      BlockBefore(u' * (SPIN_CHECK_INTERVAL + 2) + p', u * (SPIN_CHECK_INTERVAL + 2) + p, n * RANKS + 2);
    }
  }

  lemma FoldNonNegative(n: nat, u: int, p: int, r: int)
    requires u >= 0 && p >= 0 && r >= 0
    ensures Fold(n, u, p, r) >= r
  {
    assert u * (SPIN_CHECK_INTERVAL + 2) + p >= 0;
  }

  lemma {:induction false} SumAtLeast(table: seq<nat>, idxs: seq<nat>, xs: seq<nat>)
    requires InTable(idxs, |table|) && |xs| == |idxs|
    requires forall j :: 0 <= j < |xs| ==> xs[j] <= table[idxs[j]]
    ensures Sum(xs) <= SumAt(table, idxs)
  {
    if idxs != [] {
      SumAtLeast(table, idxs[1..], xs[1..]);
    }
  }

  lemma WorkPositive(cfg: Config, own: seq<nat>, marks: seq<nat>, stop: bool, quiet: bool, v: Validator)
    requires LocalInv(cfg, own, marks, stop, quiet, v)
    ensures Work(own, marks, v) >= 0
    ensures !v.pc.Exited? ==> Work(own, marks, v) > 0
  {
    if !v.pc.Exited? {
      SumAtLeast(marks, own, Taken(v));
      assert Rank(|own|, v.pc) > 0;
      FoldNonNegative(|own|, Unseen(own, marks, v), Spins(v), Rank(|own|, v.pc));
    }
  }

  /** A step that hits takes up at least one increment. */
  lemma HitProgress(own: seq<nat>, marks: seq<nat>, v: Validator, v': Validator)
    requires Shape(own, marks, v) && Shape(own, marks, v')
    requires !v.pc.Pending() && v'.pc.Validate? && v'.last == v.last
    ensures Unseen(own, marks, v') < Unseen(own, marks, v)
  {
    SumUpdate(v.last, v'.pc.m, v'.pc.val);
  }

  /** A polling step hits, or leaves the increments alone. */
  lemma ScanTaken(cfg: Config, own: seq<nat>, marks: seq<nat>, v: Validator)
    requires Shape(own, marks, v) && !v.pc.Pending()
    ensures var v' := ScanStep(cfg, own, marks, true, v);
            v'.last == v.last && (v'.pc.Pending() ==> v'.pc.Validate?)
  {
  }

  /** A step within a hit books what the hit has taken. */
  lemma HitTaken(cfg: Config, own: seq<nat>, marks: seq<nat>, hasError: bool, v: Validator, o: Outcome)
    requires Shape(own, marks, v) && v.pc.Pending() && Shape(own, marks, HitStep(cfg, hasError, v, o))
    ensures !HitStep(cfg, hasError, v, o).pc.Validate? && Taken(HitStep(cfg, hasError, v, o)) == Taken(v)
  {
  }

  lemma OtherTaken(cfg: Config, own: seq<nat>, marks: seq<nat>, hasError: bool, v: Validator, o: Outcome)
    requires Shape(own, marks, v)
    requires Shape(own, marks, Local(cfg, own, marks, true, hasError, v, o))
    ensures var v' := Local(cfg, own, marks, true, hasError, v, o);
            if v'.pc.Validate? then !v.pc.Pending() && v'.last == v.last else Taken(v') == Taken(v)
  {
    if v.pc.Pending() {
      HitTaken(cfg, own, marks, hasError, v, o);
    } else {
      ScanTaken(cfg, own, marks, v);
    }
  }

  /** The scan is shorter, or over with one idle scan fewer to go. */
  predicate Nearer(n: nat, v': Validator, v: Validator) {
    Spins(v') < Spins(v) || (Spins(v') == Spins(v) && Rank(n, v'.pc) < Rank(n, v.pc))
  }

  lemma ScanProgress(cfg: Config, own: seq<nat>, marks: seq<nat>, v: Validator)
    requires Shape(own, marks, v) && !v.pc.Pending() && v.spin < SPIN_CHECK_INTERVAL
    requires !ScanStep(cfg, own, marks, true, v).pc.Validate? && !ScanStep(cfg, own, marks, true, v).pc.Exited?
    ensures Nearer(|own|, ScanStep(cfg, own, marks, true, v), v)
  {
  }

  lemma HitProgresses(cfg: Config, own: seq<nat>, marks: seq<nat>, hasError: bool, v: Validator, o: Outcome)
    requires Shape(own, marks, v) && v.pc.Pending() && v.spin < SPIN_CHECK_INTERVAL
    ensures Nearer(|own|, HitStep(cfg, hasError, v, o), v)
  {
  }

  lemma OtherProgress(cfg: Config, own: seq<nat>, marks: seq<nat>, hasError: bool, v: Validator, o: Outcome)
    requires Shape(own, marks, v) && v.spin < SPIN_CHECK_INTERVAL
    requires !Local(cfg, own, marks, true, hasError, v, o).pc.Validate?
    requires !Local(cfg, own, marks, true, hasError, v, o).pc.Exited?
    ensures Nearer(|own|, Local(cfg, own, marks, true, hasError, v, o), v)
  {
    if v.pc.Pending() {
      HitProgresses(cfg, own, marks, hasError, v, o);
    } else {
      ScanProgress(cfg, own, marks, v);
    }
  }

  lemma RankBound(own: seq<nat>, marks: seq<nat>, v: Validator)
    requires Shape(own, marks, v)
    ensures 0 <= Rank(|own|, v.pc) < |own| * RANKS + 2
  {
  }

  lemma LocalDecreases(cfg: Config, own: seq<nat>, marks: seq<nat>, quiet: bool, hasError: bool, v: Validator, o: Outcome)
    requires LocalInv(cfg, own, marks, true, quiet, v) && !v.pc.Exited?
    ensures var v' := Local(cfg, own, marks, true, hasError, v, o);
            Shape(own, marks, v') && 0 <= Work(own, marks, v') < Work(own, marks, v)
  {
    var v' := Local(cfg, own, marks, true, hasError, v, o);
    LocalStepInv(cfg, own, marks, true, quiet, hasError, v, o);
    WorkPositive(cfg, own, marks, true, quiet, v);
    WorkPositive(cfg, own, marks, true, quiet, v');
    if !v'.pc.Exited? {
      OtherTaken(cfg, own, marks, hasError, v, o);
      if v'.pc.Validate? {
        HitProgress(own, marks, v, v');
      } else {
        OtherProgress(cfg, own, marks, hasError, v, o);
      }
      RankBound(own, marks, v);
      RankBound(own, marks, v');
      FoldDecreases(|own|, Unseen(own, marks, v), Spins(v), Rank(|own|, v.pc),
                    Unseen(own, marks, v'), Spins(v'), Rank(|own|, v'.pc));
    }
  }

  function WorkLeft(cfg: Config, s: State): (r: seq<int>)
    requires Shaped(cfg, s)
    ensures |r| == |s.vs|
  {
    seq(|s.vs|, i requires 0 <= i < |s.vs| => Work(cfg.owned[i], s.marks, s.vs[i]))
  }

  lemma WorkUpdate(cfg: Config, s: State, i: nat, s': State)
    requires Shaped(cfg, s) && Shaped(cfg, s') && i < |s.vs|
    requires s'.marks == s.marks && s'.vs == s.vs[i := s'.vs[i]]
    ensures Sum(WorkLeft(cfg, s')) == Sum(WorkLeft(cfg, s)) - Work(cfg.owned[i], s.marks, s.vs[i])
                                    + Work(cfg.owned[i], s.marks, s'.vs[i])
  {
    assert WorkLeft(cfg, s') == WorkLeft(cfg, s)[i := WorkLeft(cfg, s')[i]];
    SumUpdate(WorkLeft(cfg, s), i, WorkLeft(cfg, s')[i]);
  }

  lemma StepDecreases(cfg: Config, s: State, step: Step)
    requires Inv(cfg, s) && s.stop && s.settled && Enabled(cfg, s, step)
    ensures var s' := Next(cfg, s, step);
            Inv(cfg, s') && s'.stop && s'.settled && Sum(WorkLeft(cfg, s')) < Sum(WorkLeft(cfg, s))
  {
    StepInv(cfg, s, step);
    var Thread(i, o) := step;
    LocalDecreases(cfg, cfg.owned[i], s.marks, s.quiet, s.hasError, s.vs[i], o);
    WorkUpdate(cfg, s, i, Next(cfg, s, step));
  }

  /** Once the stop flag is up and the markers have settled, no run is longer than the work left. */
  lemma {:induction false} PoolStops(cfg: Config, s: State, steps: seq<Step>, t: State)
    requires Inv(cfg, s) && s.stop && s.settled && Run(cfg, s, steps, t)
    ensures |steps| <= Sum(WorkLeft(cfg, s))
    decreases |steps|
  {
    if steps == [] {
      forall i | 0 <= i < |s.vs|
        ensures WorkLeft(cfg, s)[i] >= 0
      {
        WorkPositive(cfg, cfg.owned[i], s.marks, s.stop, s.quiet, s.vs[i]);
      }
      SumNonNegative(WorkLeft(cfg, s));
    } else {
      StepDecreases(cfg, s, steps[0]);
      PoolStops(cfg, Next(cfg, s, steps[0]), steps[1..], t);
    }
  }

  lemma CanStep(cfg: Config, s: State)
    requires Inv(cfg, s)
    ensures forall i :: 0 <= i < |s.vs| ==> (s.vs[i].pc.Exited? || Enabled(cfg, s, Thread(i, Clean)))
  {
  }

  /**
   * Validator termination: from any reachable state with the stop flag up and
   * the markers settled, however the threads interleave, at most the work left
   * is done, and as long as a thread has not exited it can take its next step.
   */
  lemma PoolTerminates(cfg: Config, s0: State, before: seq<Step>, s: State, after: seq<Step>, t: State)
    requires cfg.Valid() && Init(cfg, s0) && Run(cfg, s0, before, s)
    requires s.stop && s.settled && Run(cfg, s, after, t)
    ensures Shaped(cfg, s) && |after| <= Sum(WorkLeft(cfg, s))
    ensures forall i :: 0 <= i < |t.vs| ==> (t.vs[i].pc.Exited? || Enabled(cfg, t, Thread(i, Clean)))
  {
    InitInv(cfg, s0);
    RunInv(cfg, s0, before, s);
    PoolStops(cfg, s, after, t);
    RunInv(cfg, s, after, t);
    CanStep(cfg, t);
  }
}
