/**
 * The MAC forwarder loop, run_iter_fw of src/raw_ethernet_resources.c, in
 * DURATION mode with one queue pair and post_list 1.
 *
 * The loop body sends what the window and the received packets allow, polls the
 * receive queue, polls the send queue and posts receives for completed sends.
 * Packets arrive and sends complete at any time; sends complete in order and
 * only signalled ones produce a completion entry. Counters are unbounded; the
 * source's are below 2^31.
 */
module Forwarder {
  import opened Arithmetic

  /** The parameters the loop reads. */
  datatype Config = Config(rxDepth: nat, txDepth: nat, cqMod: nat)
  {
    predicate Valid() {
      rxDepth >= 1 && txDepth >= 1 && cqMod >= 1
    }
  }

  datatype Phase = Sending | PollingRecv | PollingSend | Reposting

  /**
   * scnt, ccnt, rcnt and rwqe are the source's counters and signaled its send
   * flag. posts records the flag of every send posted. arrived and done belong
   * to the adapter: packets placed in posted receives, and sends completed.
   * polled counts send completions taken off the queue.
   */
  datatype State = State(phase: Phase, scnt: nat, ccnt: nat, rcnt: nat, rwqe: nat, signaled: bool,
                         posts: seq<bool>, arrived: nat, done: nat, polled: nat)

  function Init(cfg: Config): State {
    State(Sending, 0, 0, 0, cfg.rxDepth, cfg.cqMod == 1, [], 0, 0, 0)
  }

  const CTX_POLL_BATCH := 16

  /** Subtraction of 64-bit unsigned counters. */
  function Minus(a: nat, b: nat): int {
    if a >= b then a - b else a - b + 0x1_0000_0000_0000_0000
  }

  /** The guard of the send loop: a free slot in the window and a packet to forward. */
  predicate CanSend(cfg: Config, s: State) {
    Minus(s.scnt, s.ccnt) + 1 <= cfg.txDepth && Minus(s.rcnt, s.scnt) > 0
  }

  /** One turn of the send loop: the flag is cleared at the start of a batch and set before its last send. */
  function SendOne(cfg: Config, s: State): State
    requires cfg.Valid()
  {
    var flag := if s.scnt % cfg.cqMod == 0 && cfg.cqMod > 1 then false else s.signaled;
    var scnt := s.scnt + 1;
    s.(scnt := scnt, posts := s.posts + [flag],
       signaled := if scnt % cfg.cqMod == cfg.cqMod - 1 then true else flag)
  }

  /** The guard of the repost loop. */
  predicate MustRepost(cfg: Config, s: State) {
    Minus(s.rwqe, s.ccnt) < cfg.rxDepth
  }

  /** Signalled sends among the first n. */
  function Signals(posts: seq<bool>, n: nat): nat
    requires n <= |posts|
  {
    if n == 0 then 0 else Signals(posts, n - 1) + (if posts[n - 1] then 1 else 0)
  }

  datatype Step =
    | Arrive
    | CompleteOne
    | Send
    | EndSend
    | RecvPolled(ne: nat)
    | SendPolled(ne: nat)
    | Repost
    | EndRepost

  predicate Enabled(cfg: Config, s: State, step: Step) {
    && cfg.Valid()
    && s.done <= |s.posts|
    && match step
       case Arrive => s.arrived < s.rwqe
       case CompleteOne => s.done < s.scnt
       case Send => s.phase.Sending? && CanSend(cfg, s)
       case EndSend => s.phase.Sending? && !CanSend(cfg, s)
       case RecvPolled(ne) => s.phase.PollingRecv? && ne <= CTX_POLL_BATCH && s.rcnt + ne <= s.arrived
       case SendPolled(ne) => s.phase.PollingSend? && ne <= CTX_POLL_BATCH && s.polled + ne <= Signals(s.posts, s.done)
       case Repost => s.phase.Reposting? && MustRepost(cfg, s)
       case EndRepost => s.phase.Reposting? && !MustRepost(cfg, s)
  }

  function Next(cfg: Config, s: State, step: Step): State
    requires Enabled(cfg, s, step)
  {
    match step
    case Arrive => s.(arrived := s.arrived + 1)
    case CompleteOne => s.(done := s.done + 1)
    case Send => SendOne(cfg, s)
    case EndSend => s.(phase := PollingRecv)
    case RecvPolled(ne) => s.(rcnt := s.rcnt + ne, phase := PollingSend)
    case SendPolled(ne) => s.(polled := s.polled + ne, ccnt := s.ccnt + ne * cfg.cqMod, phase := Reposting)
    case Repost => s.(rwqe := s.rwqe + 1)
    case EndRepost => s.(phase := Sending)
  }

  ghost predicate Run(cfg: Config, s: State, steps: seq<Step>, t: State)
    decreases |steps|
  {
    if steps == [] then s == t
    else Enabled(cfg, s, steps[0]) && Run(cfg, Next(cfg, s, steps[0]), steps[1..], t)
  }

  // ----- signalling -----

  /** Exactly every cq_mod-th send is signalled. */
  predicate Moderated(cfg: Config, posts: seq<bool>)
    requires cfg.Valid()
  {
    forall i :: 0 <= i < |posts| ==> posts[i] == (i % cfg.cqMod == cfg.cqMod - 1)
  }

  predicate FlagInv(cfg: Config, s: State)
    requires cfg.Valid()
  {
    && |s.posts| == s.scnt
    && Moderated(cfg, s.posts)
    && (s.scnt % cfg.cqMod != 0 || cfg.cqMod == 1 ==> s.signaled == (s.scnt % cfg.cqMod == cfg.cqMod - 1))
  }

  lemma SendOneFlag(cfg: Config, s: State)
    requires cfg.Valid() && FlagInv(cfg, s)
    ensures FlagInv(cfg, SendOne(cfg, s))
  {
    ModStep(s.scnt, cfg.cqMod);
  }

  /** Hence the completions of the first n sends are n / cq_mod. */
  lemma {:induction false} SignalsCount(cfg: Config, posts: seq<bool>, n: nat)
    requires cfg.Valid() && Moderated(cfg, posts) && n <= |posts|
    ensures Signals(posts, n) == n / cfg.cqMod
  {
    if n > 0 {
      SignalsCount(cfg, posts, n - 1);
      ModStep(n - 1, cfg.cqMod);
    }
  }

  // ----- the invariant -----

  predicate Inv(cfg: Config, s: State) {
    && cfg.Valid()
    && FlagInv(cfg, s)
    && s.ccnt == s.polled * cfg.cqMod
    && s.ccnt <= s.done <= s.scnt <= s.rcnt <= s.arrived <= s.rwqe
    && s.scnt - s.ccnt <= cfg.txDepth
    && s.rwqe - s.ccnt <= cfg.rxDepth
    && (!s.phase.Reposting? ==> s.rwqe - s.ccnt == cfg.rxDepth)
  }

  lemma SendInv(cfg: Config, s: State)
    requires Inv(cfg, s) && Enabled(cfg, s, Send)
    ensures Inv(cfg, SendOne(cfg, s))
  {
    SendOneFlag(cfg, s);
  }

  /** Booking completions that have happened keeps the invariant. */
  lemma BookInv(cfg: Config, s: State, polled: nat, ccnt: nat)
    requires Inv(cfg, s) && s.phase.PollingSend? && ccnt == polled * cfg.cqMod && s.ccnt <= ccnt <= s.done
    ensures Inv(cfg, s.(polled := polled, ccnt := ccnt, phase := Reposting))
  {
  }

  /** A reaped completion stands for cq_mod sends that have really completed. */
  lemma SendPolledInv(cfg: Config, s: State, ne: nat)
    requires Inv(cfg, s) && Enabled(cfg, s, SendPolled(ne))
    ensures Inv(cfg, Next(cfg, s, SendPolled(ne)))
  {
    SignalsCount(cfg, s.posts, s.done);
    Reap(s.polled, ne, s.done, cfg.cqMod);
    MulNonNegative(ne, cfg.cqMod);
    BookInv(cfg, s, s.polled + ne, s.ccnt + ne * cfg.cqMod);
  }

  lemma Reap(polled: nat, ne: nat, done: nat, k: nat)
    requires k >= 1 && polled + ne <= done / k
    ensures polled * k + ne * k == (polled + ne) * k <= done
  {
    MulAdd(polled, ne, k);
    MulMonotone(polled + ne, done / k, k);
    DivBounds(done, k);
  }

  lemma StepInv(cfg: Config, s: State, step: Step)
    requires Inv(cfg, s) && Enabled(cfg, s, step)
    ensures Inv(cfg, Next(cfg, s, step))
  {
    match step
    case Send => SendInv(cfg, s);
    case SendPolled(ne) => SendPolledInv(cfg, s, ne);
    case _ =>
  }

  lemma {:induction false} RunInv(cfg: Config, s: State, steps: seq<Step>, t: State)
    requires Inv(cfg, s) && Run(cfg, s, steps, t)
    ensures Inv(cfg, t)
    decreases |steps|
  {
    if steps != [] {
      StepInv(cfg, s, steps[0]);
      RunInv(cfg, Next(cfg, s, steps[0]), steps[1..], t);
    }
  }

  // ----- conservation -----

  /**
   * In every reachable state the counters are ordered and the send window is
   * kept, and outside the repost loop outstanding receives, packets waiting to
   * be forwarded and sends in flight add up to rx_depth.
   */
  lemma Conservation(cfg: Config, steps: seq<Step>, s: State)
    requires cfg.Valid() && Run(cfg, Init(cfg), steps, s)
    ensures s.ccnt <= s.scnt <= s.rcnt <= s.rwqe
    ensures s.scnt - s.ccnt <= cfg.txDepth
    ensures s.rwqe - s.ccnt <= cfg.rxDepth
    ensures !s.phase.Reposting? ==> (s.rwqe - s.rcnt) + (s.rcnt - s.scnt) + (s.scnt - s.ccnt) == cfg.rxDepth
    ensures Inv(cfg, s)
  {
    RunInv(cfg, Init(cfg), steps, s);
  }

  // ----- deadlock -----

  /** A receive is outstanding, a send is allowed, or a signalled send has not been reaped. */
  predicate Live(cfg: Config, s: State)
    requires |s.posts| == s.scnt
  {
    || s.rcnt < s.rwqe
    || CanSend(cfg, s)
    || s.polled < Signals(s.posts, s.scnt)
  }

  /** A window of cq_mod unreaped sends holds a signalled one. */
  lemma WindowSignals(cfg: Config, s: State)
    requires Inv(cfg, s) && s.scnt - s.ccnt >= cfg.cqMod
    ensures s.polled < Signals(s.posts, s.scnt)
  {
    SignalsCount(cfg, s.posts, s.scnt);
    MulOneMore(s.polled, cfg.cqMod);
    QuotientAtLeast(s.scnt, cfg.cqMod, s.polled + 1);
  }

  /** With the moderation within both depths the loop always has something to wait for or to do. */
  lemma ClampedIsLive(cfg: Config, steps: seq<Step>, s: State)
    requires cfg.Valid() && cfg.cqMod <= Min(cfg.rxDepth, cfg.txDepth)
    requires Run(cfg, Init(cfg), steps, s)
    ensures |s.posts| == s.scnt
    ensures Live(cfg, s) || (s.phase.Reposting? && MustRepost(cfg, s))
  {
    Conservation(cfg, steps, s);
    if s.scnt - s.ccnt >= cfg.cqMod {
      WindowSignals(cfg, s);
    }
  }

  /** k sends posted, none of them signalled, j packets received, nothing completed. */
  function Filled(cfg: Config, k: nat, j: nat): State {
    State(Sending, k, 0, j, cfg.rxDepth, k + 1 == cfg.cqMod, seq(k, _ => false), j, 0, 0)
  }

  /** A run carried on by another run. */
  lemma {:induction false} RunConcat(cfg: Config, s: State, first: seq<Step>, t: State, second: seq<Step>, u: State)
    requires Run(cfg, s, first, t) && Run(cfg, t, second, u)
    ensures Run(cfg, s, first + second, u)
    decreases |first|
  {
    if first == [] {
      assert [] + second == second;
    } else {
      RunConcat(cfg, Next(cfg, s, first[0]), first[1..], t, second, u);
      assert (first + second)[1..] == first[1..] + second;
    }
  }

  lemma RunOne(cfg: Config, s: State, step: Step)
    requires Enabled(cfg, s, step)
    ensures Run(cfg, s, [step], Next(cfg, s, step))
  {
    assert [step][1..] == [];
  }

  /** A run can be carried on by an enabled step, and the invariant with it. */
  lemma Extend(cfg: Config, s: State, steps: seq<Step>, t: State, step: Step)
    requires Run(cfg, s, steps, t) && Enabled(cfg, t, step)
    ensures Run(cfg, s, steps + [step], Next(cfg, t, step))
    ensures Inv(cfg, t) ==> Inv(cfg, Next(cfg, t, step))
  {
    RunOne(cfg, t, step);
    RunConcat(cfg, s, steps, t, [step], Next(cfg, t, step));
    if Inv(cfg, t) {
      StepInv(cfg, t, step);
    }
  }

  /** With nothing to send, one more packet arrives and is polled. */
  lemma ReceiveHalf(cfg: Config, k: nat, j: nat) returns (steps: seq<Step>, t: State)
    requires cfg.Valid() && k <= j < cfg.rxDepth && (k == j || k == cfg.txDepth)
    ensures t == Filled(cfg, k, j + 1).(phase := PollingSend)
    ensures Run(cfg, Filled(cfg, k, j), steps, t)
  {
    var s0 := Filled(cfg, k, j);
    var s1 := s0.(phase := PollingRecv);
    var s2 := s1.(arrived := j + 1);
    t := s2.(rcnt := j + 1, phase := PollingSend);
    RunOne(cfg, s0, EndSend);
    RunOne(cfg, s1, Arrive);
    RunConcat(cfg, s0, [EndSend], s1, [Arrive], s2);
    RunOne(cfg, s2, RecvPolled(1));
    RunConcat(cfg, s0, [EndSend] + [Arrive], s2, [RecvPolled(1)], t);
    steps := [EndSend] + [Arrive] + [RecvPolled(1)];
  }

  /** With no completion there is nothing to post. */
  lemma IdleHalf(cfg: Config, k: nat, j: nat) returns (steps: seq<Step>)
    requires cfg.Valid() && k <= j <= cfg.rxDepth
    ensures Run(cfg, Filled(cfg, k, j).(phase := PollingSend), steps, Filled(cfg, k, j))
  {
    var s3 := Filled(cfg, k, j).(phase := PollingSend);
    var s4 := s3.(phase := Reposting);
    RunOne(cfg, s3, SendPolled(0));
    RunOne(cfg, s4, EndRepost);
    RunConcat(cfg, s3, [SendPolled(0)], s4, [EndRepost], Filled(cfg, k, j));
    steps := [SendPolled(0)] + [EndRepost];
  }

  /** One turn of the loop in which one more packet arrives and nothing is sent yet. */
  lemma ReceiveTurn(cfg: Config, steps: seq<Step>, k: nat, j: nat) returns (steps': seq<Step>)
    requires cfg.Valid() && Run(cfg, Init(cfg), steps, Filled(cfg, k, j))
    requires k <= j < cfg.rxDepth && (k == j || k == cfg.txDepth)
    ensures Run(cfg, Init(cfg), steps', Filled(cfg, k, j + 1))
  {
    var first, t := ReceiveHalf(cfg, k, j);
    var second := IdleHalf(cfg, k, j + 1);
    RunConcat(cfg, Init(cfg), steps, Filled(cfg, k, j), first, t);
    RunConcat(cfg, Init(cfg), steps + first, t, second, Filled(cfg, k, j + 1));
    steps' := steps + first + second;
  }

  /** Below both depths, and below the moderation, packets are forwarded one by one without a signal. */
  lemma {:induction false} ForwardTurns(cfg: Config, k: nat) returns (steps: seq<Step>)
    requires cfg.Valid() && k <= Min(cfg.rxDepth, cfg.txDepth) < cfg.cqMod
    ensures Run(cfg, Init(cfg), steps, Filled(cfg, k, k))
  {
    if k == 0 {
      steps := [];
      assert Filled(cfg, 0, 0) == Init(cfg);
    } else {
      steps := ForwardTurns(cfg, k - 1);
      steps := ReceiveTurn(cfg, steps, k - 1, k - 1);
      var s := Filled(cfg, k - 1, k);
      Extend(cfg, Init(cfg), steps, s, Send);
      SmallMod(k - 1, cfg.cqMod);
      SmallMod(k, cfg.cqMod);
      assert SendOne(cfg, s).posts == Filled(cfg, k, k).posts;
      assert SendOne(cfg, s) == Filled(cfg, k, k);
      steps := steps + [Send];
    }
  }

  lemma {:induction false} ReceiveTurns(cfg: Config, j: nat) returns (steps: seq<Step>)
    requires cfg.Valid() && Min(cfg.rxDepth, cfg.txDepth) < cfg.cqMod
    requires Min(cfg.rxDepth, cfg.txDepth) <= j <= cfg.rxDepth
    ensures Run(cfg, Init(cfg), steps, Filled(cfg, Min(cfg.rxDepth, cfg.txDepth), j))
    decreases j
  {
    var k := Min(cfg.rxDepth, cfg.txDepth);
    if j == k {
      steps := ForwardTurns(cfg, k);
    } else {
      steps := ReceiveTurns(cfg, j - 1);
      steps := ReceiveTurn(cfg, steps, k, j - 1);
    }
  }

  lemma {:induction false} NoSignals(posts: seq<bool>, n: nat)
    requires n <= |posts| && forall i :: 0 <= i < n ==> !posts[i]
    ensures Signals(posts, n) == 0
  {
    if n > 0 {
      NoSignals(posts, n - 1);
    }
  }

  /** Above either depth the loop can run itself into a state from which no packet is ever received or forwarded again. */
  lemma UnclampedDeadlocks(cfg: Config) returns (steps: seq<Step>, s: State)
    requires cfg.Valid() && cfg.cqMod > Min(cfg.rxDepth, cfg.txDepth)
    ensures Run(cfg, Init(cfg), steps, s)
    ensures |s.posts| == s.scnt && s.phase.Sending? && !Live(cfg, s)
    ensures forall more, t :: Run(cfg, s, more, t) ==>
              t.scnt == s.scnt && t.ccnt == s.ccnt && t.rcnt == s.rcnt && t.rwqe == s.rwqe
  {
    steps := ReceiveTurns(cfg, cfg.rxDepth);
    s := Filled(cfg, Min(cfg.rxDepth, cfg.txDepth), cfg.rxDepth);
    NoSignals(s.posts, s.scnt);
    Conservation(cfg, steps, s);
    forall more, t | Run(cfg, s, more, t)
      ensures t.scnt == s.scnt && t.ccnt == s.ccnt && t.rcnt == s.rcnt && t.rwqe == s.rwqe
    {
      DeadStaysDead(cfg, s, more, t);
    }
  }

  /** Such a state is dead for good: whatever happens next, no packet is received or forwarded. */
  lemma DeadStaysDead(cfg: Config, s: State, steps: seq<Step>, t: State)
    requires Inv(cfg, s) && !s.phase.Reposting? && !Live(cfg, s) && Run(cfg, s, steps, t)
    ensures t.scnt == s.scnt && t.ccnt == s.ccnt && t.rcnt == s.rcnt && t.rwqe == s.rwqe
  {
    DeadRun(cfg, s, steps, t);
  }

  predicate Dead(cfg: Config, s: State) {
    && Inv(cfg, s)
    && !(s.phase.Reposting? && MustRepost(cfg, s))
    && !Live(cfg, s)
  }

  lemma DeadStep(cfg: Config, s: State, step: Step)
    requires Dead(cfg, s) && Enabled(cfg, s, step)
    ensures var t := Next(cfg, s, step);
            Dead(cfg, t) && t.scnt == s.scnt && t.ccnt == s.ccnt && t.rcnt == s.rcnt && t.rwqe == s.rwqe
  {
    StepInv(cfg, s, step);
    SignalsMonotone(s.posts, s.done, s.scnt);
  }

  lemma {:induction false} SignalsMonotone(posts: seq<bool>, a: nat, b: nat)
    requires a <= b <= |posts|
    ensures Signals(posts, a) <= Signals(posts, b)
  {
    if a < b {
      SignalsMonotone(posts, a, b - 1);
    }
  }

  lemma {:induction false} DeadRun(cfg: Config, s: State, steps: seq<Step>, t: State)
    requires Dead(cfg, s) && Run(cfg, s, steps, t)
    ensures t.scnt == s.scnt && t.ccnt == s.ccnt && t.rcnt == s.rcnt && t.rwqe == s.rwqe
    decreases |steps|
  {
    if steps != [] {
      DeadStep(cfg, s, steps[0]);
      DeadRun(cfg, Next(cfg, s, steps[0]), steps[1..], t);
    }
  }

  ghost predicate DeadlockFree(cfg: Config) {
    forall steps, s :: Run(cfg, Init(cfg), steps, s) && |s.posts| == s.scnt && s.phase.Sending? ==> Live(cfg, s)
  }

  /** The clamp is exact: the loop is free of deadlock if and only if cq_mod is within both depths. */
  lemma DeadlockFreeIff(cfg: Config)
    requires cfg.Valid()
    ensures DeadlockFree(cfg) <==> cfg.cqMod <= Min(cfg.rxDepth, cfg.txDepth)
  {
    if cfg.cqMod <= Min(cfg.rxDepth, cfg.txDepth) {
      forall steps, s | Run(cfg, Init(cfg), steps, s) && |s.posts| == s.scnt && s.phase.Sending?
        ensures Live(cfg, s)
      {
        ClampedIsLive(cfg, steps, s);
      }
    } else {
      var steps, s := UnclampedDeadlocks(cfg);
      assert Run(cfg, Init(cfg), steps, s) && |s.posts| == s.scnt && s.phase.Sending?;
    }
  }

  // ----- the queue pair index of a send completion -----

  /**
   * The source reads the queue pair index of the i-th send completion from entry
   * i of the receive batch. Entry 0 is cleared before the loop; a further entry
   * is written once some receive poll has returned more than i entries.
   */
  function Written(steps: seq<Step>): (r: nat)
    ensures r >= 1
  {
    if steps == [] then 1
    else
      var before, last := Written(steps[..|steps| - 1]), steps[|steps| - 1];
      if last.RecvPolled? && last.ne > before then last.ne else before
  }

  /** No run reaches a poll of sends that reads an entry never written. */
  ghost predicate IndexSafe(cfg: Config) {
    forall steps, s, ne: nat ::
      Run(cfg, Init(cfg), steps, s) && Enabled(cfg, s, SendPolled(ne)) ==> ne <= Written(steps)
  }

  predicate OneByOne(steps: seq<Step>) {
    forall i :: 0 <= i < |steps| && steps[i].RecvPolled? ==> steps[i].ne <= 1
  }

  lemma {:induction false} OneByOneWritten(steps: seq<Step>)
    requires OneByOne(steps)
    ensures Written(steps) == 1
  {
    if steps != [] {
      OneByOneWritten(steps[..|steps| - 1]);
    }
  }

  /** What one poll can return is bounded by the window and the credits, a batch of cq_mod sends each. */
  lemma PollBound(cfg: Config, s: State, ne: nat)
    requires Inv(cfg, s) && Enabled(cfg, s, SendPolled(ne))
    ensures ne * cfg.cqMod <= Min(cfg.rxDepth, cfg.txDepth)
  {
    SignalsCount(cfg, s.posts, s.done);
    Reap(s.polled, ne, s.done, cfg.cqMod);
  }

  lemma AtMostOne(cfg: Config, s: State, ne: nat)
    requires Inv(cfg, s) && Enabled(cfg, s, SendPolled(ne)) && Min(cfg.rxDepth, cfg.txDepth) < 2 * cfg.cqMod
    ensures ne <= 1
  {
    PollBound(cfg, s, ne);
    MulCancels(ne, 2, cfg.cqMod);
  }

  /** The send flag after k sends. */
  function FlagAfter(cfg: Config, k: nat): bool
    requires cfg.Valid()
  {
    k % cfg.cqMod == cfg.cqMod - 1 || (k > 0 && k % cfg.cqMod == 0)
  }

  function FlagsOf(cfg: Config, k: nat): (r: seq<bool>)
    requires cfg.Valid()
    ensures |r| == k
  {
    seq(k, i => i % cfg.cqMod == cfg.cqMod - 1)
  }

  /** k packets forwarded, j received one by one, done sends completed and none reaped. */
  function Passed(cfg: Config, phase: Phase, k: nat, j: nat, done: nat): State
    requires cfg.Valid()
  {
    State(phase, k, 0, j, cfg.rxDepth, FlagAfter(cfg, k), FlagsOf(cfg, k), j, done, 0)
  }

  lemma ReceiveOne(cfg: Config, k: nat) returns (steps: seq<Step>)
    requires cfg.Valid() && k < cfg.rxDepth
    ensures OneByOne(steps) && Run(cfg, Passed(cfg, Sending, k, k, 0), steps, Passed(cfg, PollingSend, k, k + 1, 0))
  {
    var s0, s1 := Passed(cfg, Sending, k, k, 0), Passed(cfg, PollingRecv, k, k, 0);
    var s2 := s1.(arrived := k + 1);
    RunOne(cfg, s0, EndSend);
    RunOne(cfg, s1, Arrive);
    RunConcat(cfg, s0, [EndSend], s1, [Arrive], s2);
    RunOne(cfg, s2, RecvPolled(1));
    RunConcat(cfg, s0, [EndSend] + [Arrive], s2, [RecvPolled(1)], Passed(cfg, PollingSend, k, k + 1, 0));
    steps := [EndSend] + [Arrive] + [RecvPolled(1)];
  }

  /** A send takes the flag and the posts on by one. */
  lemma SendNext(cfg: Config, k: nat)
    requires cfg.Valid()
    ensures SendOne(cfg, Passed(cfg, Sending, k, k + 1, 0)) == Passed(cfg, Sending, k + 1, k + 1, 0)
  {
    ModStep(k, cfg.cqMod);
    assert FlagsOf(cfg, k) + [k % cfg.cqMod == cfg.cqMod - 1] == FlagsOf(cfg, k + 1);
  }

  lemma ForwardOne(cfg: Config, k: nat) returns (steps: seq<Step>)
    requires cfg.Valid() && k < cfg.txDepth
    ensures OneByOne(steps) && Run(cfg, Passed(cfg, PollingSend, k, k + 1, 0), steps, Passed(cfg, Sending, k + 1, k + 1, 0))
  {
    var s3, s4, s5 := Passed(cfg, PollingSend, k, k + 1, 0), Passed(cfg, Reposting, k, k + 1, 0), Passed(cfg, Sending, k, k + 1, 0);
    RunOne(cfg, s3, SendPolled(0));
    RunOne(cfg, s4, EndRepost);
    RunConcat(cfg, s3, [SendPolled(0)], s4, [EndRepost], s5);
    RunOne(cfg, s5, Send);
    SendNext(cfg, k);
    RunConcat(cfg, s3, [SendPolled(0)] + [EndRepost], s5, [Send], Passed(cfg, Sending, k + 1, k + 1, 0));
    steps := [SendPolled(0)] + [EndRepost] + [Send];
  }

  lemma NothingPassed(cfg: Config)
    requires cfg.Valid()
    ensures Passed(cfg, Sending, 0, 0, 0) == Init(cfg)
  {
    SmallMod(0, cfg.cqMod);
  }

  lemma {:induction false} PassMany(cfg: Config, k: nat) returns (steps: seq<Step>)
    requires cfg.Valid() && k <= Min(cfg.rxDepth, cfg.txDepth)
    ensures OneByOne(steps) && Run(cfg, Init(cfg), steps, Passed(cfg, Sending, k, k, 0))
  {
    if k == 0 {
      steps := [];
      NothingPassed(cfg);
    } else {
      var s, t := Passed(cfg, Sending, k - 1, k - 1, 0), Passed(cfg, PollingSend, k - 1, k, 0);
      var before := PassMany(cfg, k - 1);
      var first := ReceiveOne(cfg, k - 1);
      var second := ForwardOne(cfg, k - 1);
      RunConcat(cfg, Init(cfg), before, s, first, t);
      RunConcat(cfg, Init(cfg), before + first, t, second, Passed(cfg, Sending, k, k, 0));
      steps := before + first + second;
    }
  }

  lemma {:induction false} CompleteMany(cfg: Config, k: nat, done: nat) returns (steps: seq<Step>)
    requires cfg.Valid() && done <= k
    ensures OneByOne(steps) && Run(cfg, Passed(cfg, PollingSend, k, k, 0), steps, Passed(cfg, PollingSend, k, k, done))
  {
    var s := Passed(cfg, PollingSend, k, k, 0);
    if done == 0 {
      steps := [];
    } else {
      var before := CompleteMany(cfg, k, done - 1);
      var t := Passed(cfg, PollingSend, k, k, done - 1);
      RunOne(cfg, t, CompleteOne);
      RunConcat(cfg, s, before, t, [CompleteOne], Passed(cfg, PollingSend, k, k, done));
      steps := before + [CompleteOne];
    }
  }

  lemma SkipPoll(cfg: Config, k: nat) returns (steps: seq<Step>)
    requires cfg.Valid()
    ensures OneByOne(steps) && Run(cfg, Passed(cfg, Sending, k, k, 0), steps, Passed(cfg, PollingSend, k, k, 0))
  {
    var s, t := Passed(cfg, Sending, k, k, 0), Passed(cfg, PollingRecv, k, k, 0);
    RunOne(cfg, s, EndSend);
    RunOne(cfg, t, RecvPolled(0));
    RunConcat(cfg, s, [EndSend], t, [RecvPolled(0)], Passed(cfg, PollingSend, k, k, 0));
    steps := [EndSend] + [RecvPolled(0)];
  }

  lemma AllCompleted(cfg: Config, k: nat, ne: nat)
    requires cfg.Valid() && ne * cfg.cqMod <= k && ne <= CTX_POLL_BATCH
    ensures Enabled(cfg, Passed(cfg, PollingSend, k, k, k), SendPolled(ne))
  {
    SignalsCount(cfg, FlagsOf(cfg, k), k);
    QuotientAtLeast(k, cfg.cqMod, ne);
  }

  /**
   * One poll can return any number of send completions the depths, the
   * moderation and the batch size allow although no receive poll has returned
   * more than one entry.
   */
  lemma IndexUnwritten(cfg: Config, ne: nat) returns (steps: seq<Step>, s: State)
    requires cfg.Valid() && ne * cfg.cqMod <= Min(cfg.rxDepth, cfg.txDepth) && ne <= CTX_POLL_BATCH
    ensures Written(steps) == 1 && Run(cfg, Init(cfg), steps, s) && Enabled(cfg, s, SendPolled(ne))
  {
    var k := Min(cfg.rxDepth, cfg.txDepth);
    var first := PassMany(cfg, k);
    var second := SkipPoll(cfg, k);
    var third := CompleteMany(cfg, k, k);
    s := Passed(cfg, PollingSend, k, k, k);
    RunConcat(cfg, Init(cfg), first, Passed(cfg, Sending, k, k, 0), second, Passed(cfg, PollingSend, k, k, 0));
    RunConcat(cfg, Init(cfg), first + second, Passed(cfg, PollingSend, k, k, 0), third, s);
    steps := first + second + third;
    OneByOneWritten(steps);
    AllCompleted(cfg, k, ne);
  }

  /**
   * The exact condition: no run reads an entry never written if and only if the
   * smaller depth holds fewer than two moderated batches.
   */
  lemma IndexSafeIff(cfg: Config)
    requires cfg.Valid()
    ensures IndexSafe(cfg) <==> Min(cfg.rxDepth, cfg.txDepth) < 2 * cfg.cqMod
  {
    if Min(cfg.rxDepth, cfg.txDepth) < 2 * cfg.cqMod {
      forall steps, s, ne: nat | Run(cfg, Init(cfg), steps, s) && Enabled(cfg, s, SendPolled(ne))
        ensures ne <= Written(steps)
      {
        Conservation(cfg, steps, s);
        AtMostOne(cfg, s, ne);
      }
    } else {
      var steps, s := IndexUnwritten(cfg, 2);
      assert Run(cfg, Init(cfg), steps, s) && Enabled(cfg, s, SendPolled(2));
    }
  }

  // ----- the clamps of force_dependecies -----

  /**
   * cq_mod is first held to tx_depth, and for MAC forwarding then to the
   * smaller depth; an odd rx_depth may still be raised by one afterwards.
   */
  method ForceDependencies(cqMod: nat, rxDepth: nat, txDepth: nat, macFwd: bool, evenRx: bool)
    returns (r: nat, rx: nat)
    requires cqMod >= 1 && rxDepth >= 1 && txDepth >= 1
    ensures r == if macFwd then Min(cqMod, Min(rxDepth, txDepth)) else Min(cqMod, txDepth)
    ensures rx == if evenRx && rxDepth % 2 == 1 then rxDepth + 1 else rxDepth
    ensures macFwd ==> DeadlockFree(Config(rx, txDepth, r))
  {
    r := cqMod;
    if r > txDepth {
      r := txDepth;
    }
    if macFwd && r >= rxDepth {
      r := if rxDepth < txDepth then rxDepth else txDepth;
    }
    rx := if evenRx && rxDepth % 2 == 1 then rxDepth + 1 else rxDepth;
    DeadlockFreeIff(Config(rx, txDepth, r));
  }

  // ----- the loop itself -----

  function Zeros(xs: seq<nat>): nat {
    if xs == [] then 0 else Zeros(xs[..|xs| - 1]) + (if xs[|xs| - 1] == 0 then 1 else 0)
  }

  lemma {:induction false} AllZeros(xs: seq<nat>)
    requires forall i :: 0 <= i < |xs| ==> xs[i] == 0
    ensures Zeros(xs) == |xs|
  {
    if xs != [] {
      AllZeros(xs[..|xs| - 1]);
    }
  }

  /** The state of run_iter_fw between the parts of its loop body. */
  class Loop {
    const cfg: Config
    var scnt: nat
    var ccnt: nat
    var rcnt: nat
    var rwqeSent: nat
    var signaled: bool
    ghost var phase: Phase
    ghost var posts: seq<bool>
    ghost var arrived: nat
    ghost var done: nat
    ghost var polled: nat
    ghost var written: nat

    ghost function View(): State
      reads this
    {
      State(phase, scnt, ccnt, rcnt, rwqeSent, signaled, posts, arrived, done, polled)
    }

    constructor (cfg: Config)
      requires cfg.Valid()
      ensures this.cfg == cfg && View() == Init(cfg) && Inv(cfg, View()) && written == 1
    {
      this.cfg := cfg;
      scnt, ccnt, rcnt, rwqeSent := 0, 0, 0, cfg.rxDepth;
      signaled := cfg.cqMod == 1;
      phase, posts, arrived, done, polled, written := Sending, [], 0, 0, 0, 1;
    }

    /** One turn of the send loop. */
    method PostOne()
      requires cfg.Valid()
      modifies this`signaled, this`posts, this`scnt
      ensures View() == SendOne(cfg, old(View()))
    {
      if scnt % cfg.cqMod == 0 && cfg.cqMod > 1 {
        signaled := false;
      }
      posts := posts + [signaled];
      scnt := scnt + 1;
      if scnt % cfg.cqMod == cfg.cqMod - 1 {
        signaled := true;
      }
    }

    /** The send loop forwards as many packets as the window and the received packets allow. */
    method SendPhase() returns (ghost steps: seq<Step>)
      requires Inv(cfg, View()) && phase.Sending?
      modifies this
      ensures Inv(cfg, View()) && Run(cfg, old(View()), steps, View())
      ensures phase.PollingRecv? && !CanSend(cfg, View())
      ensures scnt == old(scnt) + Min(cfg.txDepth - (old(scnt) - old(ccnt)), old(rcnt) - old(scnt))
      ensures ccnt == old(ccnt) && rcnt == old(rcnt) && rwqeSent == old(rwqeSent)
    {
      steps := [];
      ghost var start := View();
      while Minus(scnt, ccnt) + 1 <= cfg.txDepth && Minus(rcnt, scnt) > 0
        modifies this`signaled, this`posts, this`scnt
        invariant Inv(cfg, View()) && scnt >= old(scnt)
        invariant Run(cfg, start, steps, View())
        decreases rcnt - scnt
      {
        ghost var before := View();
        PostOne();
        Extend(cfg, start, steps, before, Send);
        steps := steps + [Send];
      }
      ghost var before := View();
      phase := PollingRecv;
      Extend(cfg, start, steps, before, EndSend);
      steps := steps + [EndSend];
    }

    /** The receive completions of one poll; their entries of the batch are written. */
    method PollRecv(ne: nat)
      requires Inv(cfg, View()) && Enabled(cfg, View(), RecvPolled(ne))
      modifies this
      ensures View() == Next(cfg, old(View()), RecvPolled(ne)) && Inv(cfg, View())
      ensures written == if ne > old(written) then ne else old(written)
    {
      StepInv(cfg, View(), RecvPolled(ne));
      for i := 0 to ne
        invariant rcnt == old(rcnt) + i
        modifies this`rcnt
      {
        rcnt := rcnt + 1;
      }
      written := if ne > written then ne else written;
      phase := PollingSend;
    }

    /**
     * The send completions of one poll, each worth cq_mod sends of the queue pair
     * whose index stands in the same entry of the receive batch: index[i] is what
     * is read there, 0 in the entries written. The step is the system's if no
     * other entry is read, which the exact condition on the depths guarantees.
     */
    method PollSend(ne: nat, index: seq<nat>)
      requires Inv(cfg, View()) && Enabled(cfg, View(), SendPolled(ne)) && written >= 1
      requires |index| == ne && forall i :: 0 <= i < ne && i < written ==> index[i] == 0
      modifies this
      ensures ccnt == old(ccnt) + Zeros(index) * cfg.cqMod
      ensures ne <= old(written) || Min(cfg.rxDepth, cfg.txDepth) < 2 * cfg.cqMod ==>
                View() == Next(cfg, old(View()), SendPolled(ne)) && Inv(cfg, View())
      ensures written == old(written)
    {
      ghost var before := View();
      if Min(cfg.rxDepth, cfg.txDepth) < 2 * cfg.cqMod {
        AtMostOne(cfg, before, ne);
      }
      StepInv(cfg, before, SendPolled(ne));
      for i := 0 to ne
        invariant ccnt == old(ccnt) + Zeros(index[..i]) * cfg.cqMod
        modifies this`ccnt
      {
        assert index[..i + 1][..i] == index[..i];
        MulOneMore(Zeros(index[..i]), cfg.cqMod);
        if index[i] == 0 {
          ccnt := ccnt + cfg.cqMod;
        }
      }
      assert index[..ne] == index;
      if ne <= written {
        AllZeros(index);
      }
      polled := polled + ne;
      phase := Reposting;
    }

    /** One receive is posted. */
    method PostRecv()
      modifies this`rwqeSent
      ensures View() == old(View()).(rwqe := old(rwqeSent) + 1)
    {
      rwqeSent := rwqeSent + 1;
    }

    /** The repost loop brings the credit back to exactly rx_depth. */
    method RepostPhase() returns (ghost steps: seq<Step>)
      requires Inv(cfg, View()) && phase.Reposting?
      modifies this
      ensures Inv(cfg, View()) && Run(cfg, old(View()), steps, View())
      ensures phase.Sending? && rwqeSent == ccnt + cfg.rxDepth
      ensures scnt == old(scnt) && ccnt == old(ccnt) && rcnt == old(rcnt)
    {
      steps := [];
      ghost var start := View();
      while Minus(rwqeSent, ccnt) < cfg.rxDepth
        modifies this`rwqeSent
        invariant Inv(cfg, View()) && phase.Reposting?
        invariant Run(cfg, start, steps, View())
        decreases ccnt + cfg.rxDepth - rwqeSent
      {
        ghost var before := View();
        PostRecv();
        Extend(cfg, start, steps, before, Repost);
        steps := steps + [Repost];
        assert View() == Next(cfg, before, Repost);
      }
      ghost var before := View();
      phase := Sending;
      Extend(cfg, start, steps, before, EndRepost);
      steps := steps + [EndRepost];
      assert View() == Next(cfg, before, EndRepost);
    }
  }
}
