/**
 * The two-party exchange over an RDMA channel, src/perftest_communication.c.
 *
 * Each side has one buffer, used both as the source of its sends and as the
 * target of its one posted receive. A write copies into the buffer, posts a
 * send and waits for its completion; a read waits for a receive completion,
 * copies out and posts the receive again. The adapter is the environment: it
 * fetches the bytes of a posted send from the sender's buffer when it likes,
 * and lands them in the receiver's buffer once a receive is posted there.
 *
 * Both sides follow the same script of directed messages, which covers
 * ctx_xchg_data_rdma as well as runs of chunks in one direction.
 */
module RdmaExchange {

  type Bytes = seq<nat>

  datatype Party = Client | Server
  {
    function Other(): Party {
      if Client? then Server else Client
    }
  }

  datatype Message = Message(from: Party, data: Bytes)

  /** Messages fit the posted receive. */
  predicate Fits(script: seq<Message>, cap: nat) {
    forall i :: 0 <= i < |script| ==> |script[i].data| <= cap
  }

  /**
   * Where a side is within its current operation. Writing goes Ready, Copied,
   * Posted, Fetched, Landed; reading goes Ready, Polled, Taken.
   */
  datatype Pc = Ready | Copied | Posted | Fetched(wire: Bytes) | Landed | Polled | Taken(got: Bytes)

  /** pos is the operation of the script the side is at; log is what its reads have returned. */
  datatype Node = Node(pos: nat, pc: Pc, buf: Bytes, posted: nat, cqes: nat, log: seq<Bytes>)

  /** landed counts the messages the adapters have delivered. */
  datatype State = State(client: Node, server: Node, landed: nat)
  {
    function At(p: Party): Node {
      if p.Client? then client else server
    }

    function With(p: Party, n: Node): State {
      if p.Client? then this.(client := n) else this.(server := n)
    }
  }

  datatype Action = Copy | Post | Fetch | Land | Complete | Poll | Take | Repost

  datatype Step = Step(who: Party, act: Action)

  predicate Writing(script: seq<Message>, me: Party, n: Node) {
    n.pos < |script| && script[n.pos].from == me
  }

  predicate Reading(script: seq<Message>, me: Party, n: Node) {
    n.pos < |script| && script[n.pos].from != me
  }

  predicate Enabled(script: seq<Message>, st: State, step: Step) {
    var me := step.who;
    var n := st.At(me);
    match step.act
    case Copy => Writing(script, me, n) && n.pc.Ready?
    case Post => Writing(script, me, n) && n.pc.Copied?
    case Fetch => Writing(script, me, n) && n.pc.Posted?
    case Land => Writing(script, me, n) && n.pc.Fetched? && st.At(me.Other()).posted > 0
    case Complete => Writing(script, me, n) && n.pc.Landed?
    case Poll => Reading(script, me, n) && n.pc.Ready? && n.cqes > 0
    case Take => Reading(script, me, n) && n.pc.Polled?
    case Repost => Reading(script, me, n) && n.pc.Taken?
  }

  /** A copy or a transfer overwrites the front of a buffer. */
  function Overwrite(buf: Bytes, data: Bytes): Bytes {
    data + (if |data| <= |buf| then buf[|data|..] else [])
  }

  function Front(buf: Bytes, size: nat): Bytes {
    if size <= |buf| then buf[..size] else buf
  }

  /** What the side itself goes through; a landing only tells it that the bytes have arrived. */
  function Local(n: Node, data: Bytes, act: Action): Node {
    match act
    case Copy => n.(buf := Overwrite(n.buf, data), pc := Copied)
    case Post => n.(pc := Posted)
    case Fetch => n.(pc := Fetched(Front(n.buf, |data|)))
    case Land => n.(pc := Landed)
    case Complete => n.(pos := n.pos + 1, pc := Ready)
    case Poll => if n.cqes > 0 then n.(cqes := n.cqes - 1, pc := Polled) else n
    case Take => n.(pc := Taken(Front(n.buf, |data|)))
    case Repost =>
      if n.pc.Taken? then n.(pos := n.pos + 1, pc := Ready, posted := n.posted + 1, log := n.log + [n.pc.got])
      else n
  }

  /** A landing consumes the receiver's posted receive and completes it. */
  function Receive(n: Node, wire: Bytes): Node
    requires n.posted > 0
  {
    n.(buf := Overwrite(n.buf, wire), posted := n.posted - 1, cqes := n.cqes + 1)
  }

  function Next(script: seq<Message>, st: State, step: Step): State
    requires Enabled(script, st, step)
  {
    var me, peer := step.who, step.who.Other();
    var n := st.At(me);
    var moved := st.With(me, Local(n, script[n.pos].data, step.act));
    if step.act.Land? then
      moved.With(peer, Receive(st.At(peer), n.pc.wire)).(landed := st.landed + 1)
    else
      moved
  }

  predicate Start(cap: nat, n: Node) {
    n.pos == 0 && n.pc.Ready? && |n.buf| == cap && n.posted == 1 && n.cqes == 0 && n.log == []
  }

  predicate Init(cap: nat, st: State) {
    Start(cap, st.client) && Start(cap, st.server) && st.landed == 0
  }

  ghost predicate Run(script: seq<Message>, st: State, steps: seq<Step>, end: State)
    decreases |steps|
  {
    if steps == [] then st == end
    else Enabled(script, st, steps[0]) && Run(script, Next(script, st, steps[0]), steps[1..], end)
  }

  /** The payloads addressed to me, in order. */
  function Inbox(script: seq<Message>, me: Party): seq<Bytes> {
    if script == [] then []
    else
      var last := script[|script| - 1];
      Inbox(script[..|script| - 1], me) + (if last.from != me then [last.data] else [])
  }

  // ----- the invariant -----

  /** The side's receive is posted and nothing waits in its buffer. */
  predicate Idle(n: Node) {
    n.posted == 1 && n.cqes == 0
  }

  predicate Holds(n: Node, data: Bytes) {
    |data| <= |n.buf| && n.buf[..|data|] == data
  }

  /** A message waits unread in the buffer. */
  predicate Waiting(n: Node, data: Bytes) {
    n.posted == 0 && n.cqes == 1 && Holds(n, data)
  }

  predicate WriterInv(script: seq<Message>, landed: nat, me: Party, n: Node)
    requires Writing(script, me, n)
  {
    var p, data := n.pos, script[n.pos].data;
    match n.pc
    case Ready => landed == p && Idle(n)
    case Copied => landed == p && Idle(n) && Holds(n, data)
    case Posted => landed == p && Idle(n) && Holds(n, data)
    case Fetched(wire) => landed == p && Idle(n) && wire == data
    case Landed =>
      || (landed == p + 1 && Idle(n))
      || (landed == p + 2 <= |script| && script[p + 1].from != me && Waiting(n, script[p + 1].data))
    case Polled => false
    case Taken(_) => false
  }

  predicate ReaderInv(script: seq<Message>, landed: nat, me: Party, n: Node)
    requires Reading(script, me, n)
  {
    var p, data := n.pos, script[n.pos].data;
    match n.pc
    case Ready => (landed == p && Idle(n)) || (landed == p + 1 && Waiting(n, data))
    case Polled => landed == p + 1 && n.posted == 0 && n.cqes == 0 && Holds(n, data)
    case Taken(got) => landed == p + 1 && n.posted == 0 && n.cqes == 0 && got == data
    case _ => false
  }

  predicate NodeInv(script: seq<Message>, cap: nat, landed: nat, me: Party, n: Node) {
    && n.pos <= |script| && |n.buf| == cap
    && n.log == Inbox(script[..n.pos], me)
    && (n.pos == |script| ==> n.pc.Ready? && landed == |script| && Idle(n))
    && (Writing(script, me, n) ==> WriterInv(script, landed, me, n))
    && (Reading(script, me, n) ==> ReaderInv(script, landed, me, n))
  }

  predicate Inv(script: seq<Message>, cap: nat, st: State) {
    && Fits(script, cap)
    && st.landed <= |script|
    && NodeInv(script, cap, st.landed, Client, st.client)
    && NodeInv(script, cap, st.landed, Server, st.server)
  }

  lemma InboxStep(script: seq<Message>, me: Party, p: nat)
    requires p < |script|
    ensures Inbox(script[..p + 1], me)
         == Inbox(script[..p], me) + (if script[p].from != me then [script[p].data] else [])
  {
    assert script[..p + 1][..p] == script[..p];
  }

  lemma WriteStepInv(script: seq<Message>, cap: nat, landed: nat, me: Party, n: Node, act: Action)
    requires Fits(script, cap) && NodeInv(script, cap, landed, me, n) && Writing(script, me, n)
    requires (act.Copy? && n.pc.Ready?) || (act.Post? && n.pc.Copied?) || (act.Fetch? && n.pc.Posted?)
    ensures NodeInv(script, cap, landed, me, Local(n, script[n.pos].data, act))
  {
  }

  lemma ReadStepInv(script: seq<Message>, cap: nat, landed: nat, me: Party, n: Node, act: Action)
    requires Fits(script, cap) && NodeInv(script, cap, landed, me, n) && Reading(script, me, n)
    requires (act.Poll? && n.pc.Ready? && n.cqes > 0) || (act.Take? && n.pc.Polled?)
    ensures NodeInv(script, cap, landed, me, Local(n, script[n.pos].data, act))
  {
  }

  lemma AdvanceInv(script: seq<Message>, cap: nat, landed: nat, me: Party, n: Node, act: Action)
    requires Fits(script, cap) && landed <= |script| && NodeInv(script, cap, landed, me, n)
    requires (act.Complete? && Writing(script, me, n) && n.pc.Landed?) || (act.Repost? && Reading(script, me, n) && n.pc.Taken?)
    ensures NodeInv(script, cap, landed, me, Local(n, script[n.pos].data, act))
  {
    InboxStep(script, me, n.pos);
  }

  /** Any step but a landing changes one side only. */
  lemma SideStepInv(script: seq<Message>, cap: nat, st: State, step: Step)
    requires Inv(script, cap, st) && Enabled(script, st, step) && !step.act.Land?
    ensures Inv(script, cap, Next(script, st, step))
  {
    var me, act := step.who, step.act;
    var n := st.At(me);
    if act.Copy? || act.Post? || act.Fetch? {
      WriteStepInv(script, cap, st.landed, me, n, act);
    } else if act.Poll? || act.Take? {
      ReadStepInv(script, cap, st.landed, me, n, act);
    } else {
      AdvanceInv(script, cap, st.landed, me, n, act);
    }
  }

  lemma LandSender(script: seq<Message>, cap: nat, landed: nat, me: Party, n: Node)
    requires NodeInv(script, cap, landed, me, n) && Writing(script, me, n) && n.pc.Fetched?
    ensures NodeInv(script, cap, landed + 1, me, n.(pc := Landed))
  {
  }

  lemma LandReceiver(script: seq<Message>, cap: nat, landed: nat, me: Party, n: Node, wire: Bytes)
    requires Fits(script, cap) && NodeInv(script, cap, landed, me, n) && n.posted > 0
    requires landed < |script| && script[landed].from != me && wire == script[landed].data
    ensures NodeInv(script, cap, landed + 1, me, Receive(n, wire))
  {
  }

  /** A landing finds the receiver idle: nothing unread, nothing about to be sent from its buffer. */
  lemma LandInv(script: seq<Message>, cap: nat, st: State, me: Party)
    requires Inv(script, cap, st) && Enabled(script, st, Step(me, Land))
    ensures Inv(script, cap, Next(script, st, Step(me, Land)))
  {
    var n := st.At(me);
    LandSender(script, cap, st.landed, me, n);
    LandReceiver(script, cap, st.landed, me.Other(), st.At(me.Other()), n.pc.wire);
  }

  lemma StepInv(script: seq<Message>, cap: nat, st: State, step: Step)
    requires Inv(script, cap, st) && Enabled(script, st, step)
    ensures Inv(script, cap, Next(script, st, step))
  {
    if step.act.Land? {
      LandInv(script, cap, st, step.who);
    } else {
      SideStepInv(script, cap, st, step);
    }
  }

  lemma {:induction false} RunInv(script: seq<Message>, cap: nat, st: State, steps: seq<Step>, end: State)
    requires Inv(script, cap, st) && Run(script, st, steps, end)
    ensures Inv(script, cap, end)
    decreases |steps|
  {
    if steps != [] {
      StepInv(script, cap, st, steps[0]);
      RunInv(script, cap, Next(script, st, steps[0]), steps[1..], end);
    }
  }

  // ----- safety -----

  /**
   * The step destroys no bytes that are still needed: a write's copy finds no
   * unread message in the buffer, and a landing finds neither an unread message
   * nor bytes the receiver is itself sending.
   */
  predicate Harmless(st: State, step: Step) {
    match step.act
    case Copy => st.At(step.who).cqes == 0
    case Land =>
      var peer := st.At(step.who.Other());
      peer.cqes == 0 && !peer.pc.Copied? && !peer.pc.Posted? && !peer.pc.Fetched? && !peer.pc.Polled?
    case _ => true
  }

  lemma StepHarmless(script: seq<Message>, cap: nat, st: State, step: Step)
    requires Inv(script, cap, st) && Enabled(script, st, step)
    ensures Harmless(st, step)
  {
  }

  /**
   * Over every run: at most one receive is posted per side, no step destroys
   * needed bytes, and what each side has read is exactly what the peer wrote.
   */
  lemma ExchangeSafe(script: seq<Message>, cap: nat, st0: State, steps: seq<Step>, st: State)
    requires Fits(script, cap) && Init(cap, st0) && Run(script, st0, steps, st)
    ensures st.client.posted <= 1 && st.server.posted <= 1
    ensures st.client.pos <= |script| && st.client.log == Inbox(script[..st.client.pos], Client)
    ensures st.server.pos <= |script| && st.server.log == Inbox(script[..st.server.pos], Server)
    ensures forall step :: Enabled(script, st, step) ==> Harmless(st, step)
  {
    RunInv(script, cap, st0, steps, st);
    forall step | Enabled(script, st, step)
      ensures Harmless(st, step)
    {
      StepHarmless(script, cap, st, step);
    }
  }

  // ----- liveness -----

  predicate Finished(script: seq<Message>, st: State) {
    st.client.pos == |script| && st.server.pos == |script|
  }

  function Weight(pc: Pc): nat {
    match pc
    case Ready => 5
    case Copied => 4
    case Posted => 3
    case Fetched(_) => 2
    case Landed => 1
    case Polled => 4
    case Taken(_) => 3
  }

  function Left(script: seq<Message>, n: Node): int {
    (|script| - n.pos) * 5 + Weight(n.pc)
  }

  function Measure(script: seq<Message>, st: State): int {
    Left(script, st.client) + Left(script, st.server)
  }

  /** A step that the script's next undelivered or unread message makes possible. */
  lemma NotStuck(script: seq<Message>, cap: nat, st: State) returns (step: Step)
    requires Inv(script, cap, st) && !Finished(script, st)
    ensures Enabled(script, st, step)
  {
    var who := if st.client.pos == |script| then Server
               else if st.server.pos == |script| then Client
               else if st.client.pos <= st.server.pos then Client else Server;
    var n, peer := st.At(who), st.At(who.Other());
    if Writing(script, who, n) {
      match n.pc
      case Ready => step := Step(who, Copy);
      case Copied => step := Step(who, Post);
      case Posted => step := Step(who, Fetch);
      case Fetched(_) => step := Step(who, Land);
      case Landed => step := Step(who, Complete);
    } else {
      match n.pc
      case Ready =>
        if n.cqes > 0 {
          step := Step(who, Poll);
        } else {
          match peer.pc
          case Ready => step := Step(who.Other(), Copy);
          case Copied => step := Step(who.Other(), Post);
          case Posted => step := Step(who.Other(), Fetch);
          case Fetched(_) => step := Step(who.Other(), Land);
        }
      case Polled => step := Step(who, Take);
      case Taken(_) => step := Step(who, Repost);
    }
  }

  lemma StepDecreases(script: seq<Message>, cap: nat, st: State, step: Step)
    requires Inv(script, cap, st) && Enabled(script, st, step)
    ensures Measure(script, Next(script, st, step)) < Measure(script, st)
  {
    var n := st.At(step.who);
    assert Left(script, Local(n, script[n.pos].data, step.act)) < Left(script, n);
  }

  lemma {:induction false} RunBound(script: seq<Message>, cap: nat, st: State, steps: seq<Step>, end: State)
    requires Inv(script, cap, st) && Run(script, st, steps, end)
    ensures |steps| <= Measure(script, st) - Measure(script, end)
    decreases |steps|
  {
    if steps != [] {
      StepInv(script, cap, st, steps[0]);
      StepDecreases(script, cap, st, steps[0]);
      RunBound(script, cap, Next(script, st, steps[0]), steps[1..], end);
    }
  }

  /** No run is longer than ten steps a message, and one that cannot go on has delivered everything. */
  lemma ExchangeCompletes(script: seq<Message>, cap: nat, st0: State, steps: seq<Step>, st: State)
    requires Fits(script, cap) && Init(cap, st0) && Run(script, st0, steps, st)
    ensures |steps| <= 10 * |script|
    ensures (forall step :: !Enabled(script, st, step)) ==>
              && Finished(script, st)
              && st.client.log == Inbox(script, Client)
              && st.server.log == Inbox(script, Server)
  {
    RunInv(script, cap, st0, steps, st);
    RunBound(script, cap, st0, steps, st);
    assert script[..|script|] == script;
    if !Finished(script, st) {
      var step := NotStuck(script, cap, st);
      assert Enabled(script, st, step);
    }
  }

  // ----- ctx_xchg_data_rdma, any number of times -----

  /** The script of a sequence of exchanges: the client's data, then the server's. */
  function Exchanges(pairs: seq<(Bytes, Bytes)>): seq<Message> {
    if pairs == [] then []
    else
      var last := pairs[|pairs| - 1];
      Exchanges(pairs[..|pairs| - 1]) + [Message(Client, last.0), Message(Server, last.1)]
  }

  function Firsts(pairs: seq<(Bytes, Bytes)>): seq<Bytes> {
    seq(|pairs|, i requires 0 <= i < |pairs| => pairs[i].0)
  }

  function Seconds(pairs: seq<(Bytes, Bytes)>): seq<Bytes> {
    seq(|pairs|, i requires 0 <= i < |pairs| => pairs[i].1)
  }

  /** After any number of exchanges each side has received the peer's data, exchange by exchange. */
  lemma {:induction false} ExchangesDeliver(pairs: seq<(Bytes, Bytes)>)
    ensures Inbox(Exchanges(pairs), Server) == Firsts(pairs)
    ensures Inbox(Exchanges(pairs), Client) == Seconds(pairs)
  {
    if pairs != [] {
      var init, last := pairs[..|pairs| - 1], pairs[|pairs| - 1];
      ExchangesDeliver(init);
      var script := Exchanges(pairs);
      var n := |script|;
      assert script[..n - 1][..n - 2] == Exchanges(init);
      assert script[..n - 1][n - 2] == Message(Client, last.0);
      assert Firsts(pairs) == Firsts(init) + [last.0];
      assert Seconds(pairs) == Seconds(init) + [last.1];
      assert forall me :: Inbox(script[..n - 1], me)
                       == Inbox(Exchanges(init), me) + (if me.Server? then [last.0] else []);
    }
  }

  /** In every exchange the client writes first. */
  lemma {:induction false} ClientFirst(pairs: seq<(Bytes, Bytes)>, k: nat)
    requires k < |pairs|
    ensures |Exchanges(pairs)| == 2 * |pairs|
    ensures Exchanges(pairs)[2 * k] == Message(Client, pairs[k].0)
    ensures Exchanges(pairs)[2 * k + 1] == Message(Server, pairs[k].1)
  {
    var n := |pairs| - 1;
    ExchangesLength(pairs[..n]);
    if k < n {
      ClientFirst(pairs[..n], k);
    }
  }

  lemma {:induction false} ExchangesLength(pairs: seq<(Bytes, Bytes)>)
    ensures |Exchanges(pairs)| == 2 * |pairs|
  {
    if pairs != [] {
      ExchangesLength(pairs[..|pairs| - 1]);
    }
  }
}
