/**
 * The RDMA-CM connection events of src/perftest_communication.c, for
 * connection types other than UD: the handlers, the dispatcher, the loop that
 * waits for connections and the cleanup between a client's attempts. Events
 * carry an Id and say which library calls fail; 0 is the null id of a node.
 */
module CmEvents {
  import opened Sums

  type Id = x: int | x > 0 witness 1

  datatype Node = Node(id: nat, connected: bool)

  /** Machine role, a non-default ToS, and whether the connection type is RC. */
  datatype Config = Config(client: bool, tos: bool, rc: bool)

  datatype Event =
    | AddrResolved(id: Id, tosFails: bool, timeoutFails: bool, routeFails: bool)
    | RouteResolved(id: Id, setupFails: bool, connectFails: bool)
    | ConnectRequest(id: Id, refused: bool)  // refused: set-up, the timeout option or the accept fails
    | Established(id: Id)
    | ErrorEvent
    | Disconnected
    | OtherEvent

  /** The value of a master: connects_left, disconnects_left, connection_index, nodes. */
  datatype View = View(left: int, toDisconnect: int, index: int, nodes: seq<Node>)

  /** What a handler leaves behind, and whether it returned SUCCESS. */
  datatype Handled = Handled(view: View, ok: bool)

  predicate Sane(v: View) {
    0 <= v.index <= |v.nodes|
  }

  /** The first node with this id, or -1. */
  function Find(nodes: seq<Node>, id: Id): (k: int)
    ensures -1 <= k < |nodes|
    ensures k >= 0 ==> nodes[k].id == id && forall i :: 0 <= i < k ==> nodes[i].id != id
    ensures k < 0 ==> forall i :: 0 <= i < |nodes| ==> nodes[i].id != id
  {
    FindFrom(nodes, id, 0)
  }

  function FindFrom(nodes: seq<Node>, id: Id, i: nat): (k: int)
    requires i <= |nodes|
    ensures k == -1 || i <= k < |nodes|
    ensures k >= 0 ==> nodes[k].id == id && forall j :: i <= j < k ==> nodes[j].id != id
    ensures k < 0 ==> forall j :: i <= j < |nodes| ==> nodes[j].id != id
    decreases |nodes| - i
  {
    if i == |nodes| then -1
    else if nodes[i].id == id then i
    else FindFrom(nodes, id, i + 1)
  }

  function Lowered(v: View): View {
    v.(left := v.left - 1)
  }

  function Marked(nodes: seq<Node>, id: Id): (r: seq<Node>)
    ensures |r| == |nodes|
  {
    var k := Find(nodes, id);
    if k < 0 then nodes else nodes[k := nodes[k].(connected := true)]
  }

  /** One event. */
  function Handle(c: Config, v: View, e: Event): Handled
    requires Sane(v)
  {
    match e
    case AddrResolved(_, tosFails, timeoutFails, routeFails) =>
      if c.tos && tosFails then Handled(v, false)
      else if (c.rc && timeoutFails) || routeFails then Handled(Lowered(v), false)
      else Handled(v, true)
    case RouteResolved(id, setupFails, connectFails) =>
      var k := Find(v.nodes, id);
      if k < 0 || setupFails then Handled(Lowered(v), false)
      else if connectFails then Handled(Lowered(v.(nodes := v.nodes[k := v.nodes[k].(id := 0)])), false)
      else Handled(v, true)
    case ConnectRequest(id, refused) =>
      if v.index == |v.nodes| then Handled(v, false)
      else if refused then Handled(Lowered(v.(nodes := v.nodes[v.index := v.nodes[v.index].(id := 0)])), false)
      else Handled(View(v.left - 1, v.toDisconnect + 1, v.index + 1, v.nodes[v.index := Node(id, true)]), true)
    case Established(id) =>
      var marked := v.(nodes := Marked(v.nodes, id));
      Handled(if c.client then Lowered(marked).(toDisconnect := v.toDisconnect + 1) else marked, true)
    case ErrorEvent => Handled(Lowered(v), false)
    case Disconnected => Handled(v.(toDisconnect := v.toDisconnect - 1), true)
    case OtherEvent => Handled(v, true)
  }

  /** One turn of the wait loop: the event call fails, or gives an event whose acknowledgement may fail. */
  datatype Input = GetFails | Got(event: Event, ackFails: bool)

  datatype Outcome = Success | Failure | Waiting

  datatype Ended = Ended(view: View, outcome: Outcome, used: nat)

  lemma HandleSane(c: Config, v: View, e: Event)
    requires Sane(v)
    ensures Sane(Handle(c, v, e).view) && |Handle(c, v, e).view.nodes| == |v.nodes|
  {
  }

  /** The wait loop over the inputs from position i on; Waiting when they run out. */
  function Drive(c: Config, v: View, ins: seq<Input>, i: nat): (r: Ended)
    requires Sane(v) && i <= |ins|
    ensures i <= r.used <= |ins|
    decreases |ins| - i
  {
    if v.left == 0 then Ended(v, Success, i)
    else if i == |ins| then Ended(v, Waiting, i)
    else if ins[i].GetFails? then Ended(v, Failure, i + 1)
    else
      HandleSane(c, v, ins[i].event);
      var h := Handle(c, v, ins[i].event);
      if !h.ok || ins[i].ackFails then Ended(h.view, Failure, i + 1)
      else Drive(c, h.view, ins, i + 1)
  }

  class Master {
    var connectsLeft: int
    var disconnectsLeft: int
    var connectionIndex: int
    const nodes: array<Node>

    ghost predicate Valid()
      reads this
    {
      0 <= connectionIndex <= nodes.Length
    }

    ghost function Value(): (v: View)
      requires Valid()
      reads this, nodes
      ensures Sane(v)
    {
      View(connectsLeft, disconnectsLeft, connectionIndex, nodes[..])
    }

    /** As create_rdma_cm_connection starts: zeroed nodes, all connections outstanding. */
    constructor (qps: nat)
      ensures Valid() && fresh(nodes) && Value() == Initial(qps)
    {
      nodes := new Node[qps](_ => Node(0, false));
      connectsLeft, disconnectsLeft, connectionIndex := qps, 0, 0;
      new;
      assert nodes[..] == seq(qps, _ => Node(0, false));
    }

    method ConnectError()
      requires Valid()
      modifies this`connectsLeft
      ensures Valid() && Value() == Lowered(old(Value()))
    {
      connectsLeft := connectsLeft - 1;
    }

    /** The node search shared by two handlers. */
    method FindNode(id: Id) returns (k: int)
      ensures k == Find(nodes[..], id)
    {
      for i := 0 to nodes.Length
        invariant FindFrom(nodes[..], id, 0) == FindFrom(nodes[..], id, i)
      {
        if nodes[i].id == id {
          return i;
        }
      }
      return -1;
    }

    method AddressHandler(c: Config, e: Event) returns (ok: bool)
      requires Valid() && e.AddrResolved?
      modifies this
      ensures Valid() && Handled(Value(), ok) == Handle(c, old(Value()), e)
    {
      if c.tos && e.tosFails {
        return false;
      }
      if c.rc && e.timeoutFails {
        ConnectError();
        return false;
      }
      if e.routeFails {
        ConnectError();
        return false;
      }
      return true;
    }

    method RouteHandler(c: Config, e: Event) returns (ok: bool)
      requires Valid() && e.RouteResolved?
      modifies this, nodes
      ensures Valid() && Handled(Value(), ok) == Handle(c, old(Value()), e)
    {
      var k := FindNode(e.id);
      ok := k >= 0 && !e.setupFails && !e.connectFails;
      if k >= 0 && !e.setupFails && e.connectFails {
        nodes[k] := nodes[k].(id := 0);
      }
      if !ok {
        ConnectError();
      }
    }

    method ConnectionRequestHandler(c: Config, e: Event) returns (ok: bool)
      requires Valid() && e.ConnectRequest?
      modifies this, nodes
      ensures Valid() && Handled(Value(), ok) == Handle(c, old(Value()), e)
    {
      var k := connectionIndex;
      if k == nodes.Length {
        return false;
      }
      nodes[k] := nodes[k].(id := e.id);
      if e.refused {
        nodes[k] := nodes[k].(id := 0);
        ConnectError();
        return false;
      }
      nodes[k] := nodes[k].(connected := true);
      connectionIndex := connectionIndex + 1;
      connectsLeft := connectsLeft - 1;
      disconnectsLeft := disconnectsLeft + 1;
      return true;
    }

    method EstablishedHandler(c: Config, e: Event) returns (ok: bool)
      requires Valid() && e.Established?
      modifies this, nodes
      ensures Valid() && Handled(Value(), ok) == Handle(c, old(Value()), e)
    {
      var k := FindNode(e.id);
      if k >= 0 {
        nodes[k] := nodes[k].(connected := true);
      }
      if c.client {
        connectsLeft := connectsLeft - 1;
        disconnectsLeft := disconnectsLeft + 1;
      }
      return true;
    }

    method Dispatch(c: Config, e: Event) returns (ok: bool)
      requires Valid()
      modifies this, nodes
      ensures Valid() && Handled(Value(), ok) == Handle(c, old(Value()), e)
    {
      ok := true;
      match e
      case AddrResolved(_, _, _, _) => ok := AddressHandler(c, e);
      case RouteResolved(_, _, _) => ok := RouteHandler(c, e);
      case ConnectRequest(_, _) => ok := ConnectionRequestHandler(c, e);
      case Established(_) => ok := EstablishedHandler(c, e);
      case ErrorEvent =>
        ConnectError();
        ok := false;
      case Disconnected => disconnectsLeft := disconnectsLeft - 1;
      case OtherEvent =>
    }

    /** rdma_cm_connect_events against the environment's inputs. */
    method ConnectEvents(c: Config, ins: seq<Input>) returns (outcome: Outcome, used: nat)
      requires Valid()
      modifies this, nodes
      ensures Valid() && Ended(Value(), outcome, used) == Drive(c, old(Value()), ins, 0)
    {
      used := 0;
      while connectsLeft != 0
        invariant Valid() && used <= |ins|
        invariant Drive(c, Value(), ins, used) == Drive(c, old(Value()), ins, 0)
        decreases |ins| - used
      {
        if used == |ins| {
          return Waiting, used;
        }
        var input := ins[used];
        used := used + 1;
        if input.GetFails? {
          return Failure, used;
        }
        var ok := Dispatch(c, input.event);
        if !ok || input.ackFails {
          return Failure, used;
        }
      }
      return Success, used;
    }

    /**
     * _rdma_cm_client_connection: the address is looked up, an address resolution
     * is started for every unconnected node, and the events are waited for. The
     * lookup may fail, and so may the start at node failAt.
     */
    method ClientAttempt(c: Config, addressFails: bool, failAt: nat, ins: seq<Input>) returns (outcome: Outcome, used: nat)
      requires Valid()
      modifies this, nodes
      ensures Valid() && Ended(Value(), outcome, used) == Attempt(c, old(Value()), addressFails, failAt, ins)
    {
      if addressFails {
        return Failure, 0;
      }
      for i := 0 to nodes.Length
        invariant Valid() && Value() == old(Value())
        invariant failAt < i ==> nodes[failAt].connected
      {
        if nodes[i].connected {
          continue;
        }
        if i == failAt {
          ConnectError();
          return Failure, 0;
        }
      }
      outcome, used := ConnectEvents(c, ins);
    }

    /**
     * rdma_cm_destroy_cma between two attempts: unconnected nodes lose their
     * id, and connects_left is recounted. Destroying the id of node failAt
     * fails.
     */
    method DestroyCma(failAt: nat) returns (ok: bool)
      requires Valid()
      modifies this`connectsLeft, nodes
      ensures Valid()
      ensures ok <==> !(failAt < nodes.Length && old(nodes[..])[failAt].id != 0 && !old(nodes[..])[failAt].connected)
      ensures ok ==> nodes[..] == Cleared(old(nodes[..])) && connectsLeft == Pending(nodes[..])
      ensures !ok ==> connectsLeft == old(connectsLeft)
      ensures !ok ==> nodes[..] == Cleared(old(nodes[..]))[..failAt] + old(nodes[..])[failAt..]
    {
      for i := 0 to nodes.Length
        invariant connectsLeft == old(connectsLeft)
        invariant forall j :: i <= j < nodes.Length ==> nodes[j] == old(nodes[j])
        invariant forall j :: 0 <= j < i ==> nodes[j] == Clear(old(nodes[j]))
        invariant failAt < i ==> old(nodes[..])[failAt].id == 0 || old(nodes[..])[failAt].connected
      {
        if nodes[i].id != 0 && !nodes[i].connected {
          if i == failAt {
            return false;
          }
          nodes[i] := nodes[i].(id := 0);
        }
      }
      var count := 0;
      for i := 0 to nodes.Length
        invariant count == i - Pending(nodes[..i])
        invariant forall j :: 0 <= j < nodes.Length ==> nodes[j] == Clear(old(nodes[j]))
      {
        assert nodes[..i + 1][..i] == nodes[..i];
        if nodes[i].connected {
          count := count + 1;
        }
      }
      assert nodes[..nodes.Length] == nodes[..];
      connectsLeft := nodes.Length - count;
      return true;
    }

    /**
     * rdma_cm_allocate_nodes on the client: ids[i] is created for node i if it
     * has none; creation at failAt fails. Then the ids of the nodes before it
     * are destroyed from the right, connected ones too, up to one that cannot be
     * (destroyFailAt, or -1), and all of them stay in the table: those of nodes
     * gone..failAt are dangling.
     */
    method AllocateNodes(ids: seq<Id>, failAt: nat, destroyFailAt: int) returns (ok: bool, gone: nat)
      requires |ids| == nodes.Length
      modifies nodes
      ensures ok <==> !(failAt < nodes.Length && old(nodes[..])[failAt].id == 0)
      ensures ok ==> nodes[..] == Renewed(old(nodes[..]), ids)
      ensures !ok ==> nodes[..] == Renewed(old(nodes[..]), ids)[..failAt] + old(nodes[..])[failAt..]
      ensures !ok ==> gone == if 0 <= destroyFailAt < failAt then destroyFailAt + 1 else 0
    {
      gone := 0;
      for i := 0 to nodes.Length
        invariant gone == 0
        invariant forall j :: i <= j < nodes.Length ==> nodes[j] == old(nodes[..])[j]
        invariant forall j :: 0 <= j < i ==> nodes[j] == Renewed(old(nodes[..]), ids)[j]
        invariant failAt < i ==> old(nodes[..])[failAt].id != 0
      {
        if nodes[i].id != 0 {
          continue;
        }
        if i == failAt {
          gone := i;
          while gone > 0 && gone - 1 != destroyFailAt
            invariant 0 <= gone <= i && (0 <= destroyFailAt < i ==> destroyFailAt < gone)
          {
            gone := gone - 1;
          }
          return false, gone;
        }
        nodes[i] := nodes[i].(id := ids[i]);
      }
      return true, gone;
    }
  }

  /** One attempt of a client to connect. */
  function Attempt(c: Config, v: View, addressFails: bool, failAt: nat, ins: seq<Input>): Ended
    requires Sane(v)
  {
    if addressFails then Ended(v, Failure, 0)
    else if failAt < |v.nodes| && !v.nodes[failAt].connected then Ended(Lowered(v), Failure, 0)
    else Drive(c, v, ins, 0)
  }

  function Initial(qps: nat): (v: View)
    ensures Sane(v)
  {
    View(qps, 0, 0, seq(qps, _ => Node(0, false)))
  }

  function Clear(n: Node): Node {
    if n.connected then n else n.(id := 0)
  }

  function Cleared(nodes: seq<Node>): seq<Node> {
    seq(|nodes|, i requires 0 <= i < |nodes| => Clear(nodes[i]))
  }

  /** The number of nodes not connected. */
  function Pending(nodes: seq<Node>): nat {
    if nodes == [] then 0
    else Pending(nodes[..|nodes| - 1]) + if nodes[|nodes| - 1].connected then 0 else 1
  }

  // ----- the counter never passes zero -----

  /** Every event lowers connects_left by at most one and raises it never. */
  lemma DropsByAtMostOne(c: Config, v: View, e: Event)
    requires Sane(v)
    ensures v.left - 1 <= Handle(c, v, e).view.left <= v.left
  {
  }

  /** So a loop started at a count it can meet never passes zero, and succeeds only at it. */
  lemma {:induction false} NeverPassesZero(c: Config, v: View, ins: seq<Input>, i: nat)
    requires Sane(v) && i <= |ins| && v.left >= 0
    ensures var r := Drive(c, v, ins, i);
            0 <= r.view.left <= v.left && v.left - r.view.left <= r.used - i &&
            (r.outcome.Success? ==> r.view.left == 0) && (r.outcome.Waiting? ==> r.view.left > 0 && r.used == |ins|)
    decreases |ins| - i
  {
    if v.left != 0 && i < |ins| && ins[i].Got? {
      var h := Handle(c, v, ins[i].event);
      HandleSane(c, v, ins[i].event);
      DropsByAtMostOne(c, v, ins[i].event);
      if h.ok && !ins[i].ackFails {
        NeverPassesZero(c, h.view, ins, i + 1);
      }
    }
  }

  // ----- which inputs end the loop -----

  /** An error event, or an event one of whose library calls fails. */
  predicate CallFails(c: Config, e: Event) {
    match e
    case AddrResolved(_, tosFails, timeoutFails, routeFails) => (c.tos && tosFails) || (c.rc && timeoutFails) || routeFails
    case RouteResolved(_, setupFails, connectFails) => setupFails || connectFails
    case ConnectRequest(_, refused) => refused
    case Established(_) => false
    case ErrorEvent => true
    case Disconnected => false
    case OtherEvent => false
  }

  /** An event that comes to nothing: a route for an id no node has, a request when all slots are taken. */
  predicate Misplaced(v: View, e: Event) {
    match e
    case RouteResolved(id, _, _) => forall i :: 0 <= i < |v.nodes| ==> v.nodes[i].id != id
    case ConnectRequest(_, _) => v.index == |v.nodes|
    case _ => false
  }

  /** The failures that do not count against connects_left: the ToS option and a full table. */
  predicate Uncounted(c: Config, v: View, e: Event) {
    (e.AddrResolved? && c.tos && e.tosFails) || (e.ConnectRequest? && v.index == |v.nodes|)
  }

  /** The event call fails, the event is a failure, or its acknowledgement fails. */
  predicate Fatal(c: Config, v: View, input: Input) {
    input.GetFails? || CallFails(c, input.event) || Misplaced(v, input.event) || input.ackFails
  }

  /** A loop that still waits after j inputs goes on from there. */
  lemma {:induction false} DriveResumes(c: Config, v: View, ins: seq<Input>, i: nat, j: nat)
    requires Sane(v) && i <= j <= |ins| && Drive(c, v, ins[..j], i).outcome.Waiting?
    ensures var w := Drive(c, v, ins[..j], i).view;
            Sane(w) && w.left != 0 && Drive(c, v, ins, i) == Drive(c, w, ins, j)
    decreases j - i
  {
    if i < j {
      assert ins[..j][i] == ins[i];
      HandleSane(c, v, ins[i].event);
      DriveResumes(c, Handle(c, v, ins[i].event).view, ins, i + 1, j);
    }
  }

  /** Nothing but connects_left and a node's id has changed. */
  predicate OnlyCounted(v: View, v': View) {
    && v'.toDisconnect == v.toDisconnect && v'.index == v.index && |v'.nodes| == |v.nodes|
    && forall i :: 0 <= i < |v.nodes| ==> v'.nodes[i].connected == v.nodes[i].connected
  }

  /** One turn of the loop at a fatal input. */
  lemma FatalTurn(c: Config, v: View, ins: seq<Input>, j: nat)
    requires Sane(v) && v.left != 0 && j < |ins| && Fatal(c, v, ins[j])
    ensures var r := Drive(c, v, ins, j);
            && r.outcome.Failure? && r.used == j + 1
            && (ins[j].GetFails? ==> r.view == v)
            && (ins[j].Got? && (CallFails(c, ins[j].event) || Misplaced(v, ins[j].event)) ==>
                  OnlyCounted(v, r.view) && r.view.left == if Uncounted(c, v, ins[j].event) then v.left else v.left - 1)
  {
  }

  /** One turn of the loop at any other. */
  lemma HarmlessTurn(c: Config, v: View, e: Event)
    requires Sane(v) && !CallFails(c, e) && !Misplaced(v, e)
    ensures Handle(c, v, e).ok
  {
  }

  /**
   * The loop ends in failure at the first fatal input and at no other: a loop
   * that waits after j inputs fails at input j if and only if it is fatal, and
   * connects_left is then one lower than before it, except for the failures
   * that do not count.
   */
  lemma FailsAtFirst(c: Config, v: View, ins: seq<Input>, j: nat)
    requires Sane(v) && j < |ins| && Drive(c, v, ins[..j], 0).outcome.Waiting?
    ensures var w, r := Drive(c, v, ins[..j], 0).view, Drive(c, v, ins, 0);
            && (r.outcome.Failure? && r.used == j + 1 <==> Fatal(c, w, ins[j]))
            && (ins[j].Got? && (CallFails(c, ins[j].event) || Misplaced(w, ins[j].event)) ==>
                  OnlyCounted(w, r.view) && r.view.left == if Uncounted(c, w, ins[j].event) then w.left else w.left - 1)
  {
    DriveResumes(c, v, ins, 0, j);
    var w := Drive(c, v, ins[..j], 0).view;
    if Fatal(c, w, ins[j]) {
      FatalTurn(c, w, ins, j);
    } else {
      HarmlessTurn(c, w, ins[j].event);
      HandleSane(c, w, ins[j].event);
      PastIt(c, Handle(c, w, ins[j].event).view, ins, j + 1);
    }
  }

  /** A loop that goes on at i does not fail before it. */
  lemma {:induction false} PastIt(c: Config, v: View, ins: seq<Input>, i: nat)
    requires Sane(v) && i <= |ins|
    ensures Drive(c, v, ins, i).outcome.Failure? ==> Drive(c, v, ins, i).used > i
    decreases |ins| - i
  {
    if v.left != 0 && i < |ins| && ins[i].Got? {
      HandleSane(c, v, ins[i].event);
      if Handle(c, v, ins[i].event).ok && !ins[i].ackFails {
        PastIt(c, Handle(c, v, ins[i].event).view, ins, i + 1);
      }
    }
  }

  /** A loop that returns SUCCESS has used events only, none of them an error and none with a failed call. */
  lemma {:induction false} SuccessIsClean(c: Config, v: View, ins: seq<Input>, i: nat)
    requires Sane(v) && i <= |ins| && Drive(c, v, ins, i).outcome.Success?
    ensures forall j :: i <= j < Drive(c, v, ins, i).used ==> ins[j].Got? && !ins[j].ackFails && !CallFails(c, ins[j].event)
    decreases |ins| - i
  {
    if v.left != 0 {
      if Fatal(c, v, ins[i]) {
        FatalTurn(c, v, ins, i);
      } else {
        HandleSane(c, v, ins[i].event);
        SuccessIsClean(c, Handle(c, v, ins[i].event).view, ins, i + 1);
      }
    }
  }

  // ----- runs without a failed handler -----

  /** Every handler in this sequence of events succeeds. */
  predicate AllOk(c: Config, v: View, evs: seq<Event>)
    requires Sane(v)
    decreases |evs|
  {
    evs == [] ||
    (AllOk(c, v, evs[..|evs| - 1]) && Handle(c, Feed(c, v, evs[..|evs| - 1]), evs[|evs| - 1]).ok)
  }

  /** The state after a sequence of events. */
  function Feed(c: Config, v: View, evs: seq<Event>): (r: View)
    requires Sane(v)
    ensures Sane(r) && |r.nodes| == |v.nodes|
    decreases |evs|
  {
    if evs == [] then v
    else
      var u := Feed(c, v, evs[..|evs| - 1]);
      HandleSane(c, u, evs[|evs| - 1]);
      Handle(c, u, evs[|evs| - 1]).view
  }

  predicate AllGot(ins: seq<Input>) {
    forall i :: 0 <= i < |ins| ==> ins[i].Got?
  }

  function Events(ins: seq<Input>): (r: seq<Event>)
    requires AllGot(ins)
    ensures |r| == |ins|
  {
    seq(|ins|, i requires 0 <= i < |ins| => ins[i].event)
  }

  lemma FeedOne(c: Config, v: View, evs: seq<Event>, e: Event)
    requires Sane(v) && AllOk(c, v, evs)
    ensures Feed(c, v, evs + [e]) == Handle(c, Feed(c, v, evs), e).view
    ensures AllOk(c, v, evs + [e]) <==> Handle(c, Feed(c, v, evs), e).ok
  {
    assert (evs + [e])[..|evs|] == evs;
  }

  /** The first i inputs were events, all handled without a failure, and have led from v0 to v. */
  predicate Reached(c: Config, v0: View, ins: seq<Input>, i: nat, v: View)
    requires Sane(v0)
  {
    i <= |ins| && AllGot(ins[..i]) && AllOk(c, v0, Events(ins[..i])) && Feed(c, v0, Events(ins[..i])) == v
  }

  lemma ReachNext(c: Config, v0: View, ins: seq<Input>, i: nat, v: View)
    requires Sane(v0) && Reached(c, v0, ins, i, v) && Sane(v)
    requires i < |ins| && ins[i].Got? && Handle(c, v, ins[i].event).ok
    ensures Reached(c, v0, ins, i + 1, Handle(c, v, ins[i].event).view)
  {
    var e := ins[i].event;
    FeedOne(c, v0, Events(ins[..i]), e);
    assert AllGot(ins[..i + 1]);
    assert Events(ins[..i + 1]) == Events(ins[..i]) + [e];
  }

  /** A loop that returns SUCCESS has handled every input it used without a failure. */
  lemma {:induction false} SuccessIsAllOk(c: Config, v0: View, v: View, ins: seq<Input>, i: nat)
    requires Sane(v0) && Sane(v) && Reached(c, v0, ins, i, v)
    requires Drive(c, v, ins, i).outcome.Success?
    ensures var r := Drive(c, v, ins, i); Reached(c, v0, ins, r.used, r.view)
    decreases |ins| - i
  {
    if v.left != 0 {
      ReachNext(c, v0, ins, i, v);
      HandleSane(c, v, ins[i].event);
      SuccessIsAllOk(c, v0, Handle(c, v, ins[i].event).view, ins, i + 1);
    }
  }

  function Requests(evs: seq<Event>): seq<Id> {
    if evs == [] then []
    else Requests(evs[..|evs| - 1]) +
         if evs[|evs| - 1].ConnectRequest? then [evs[|evs| - 1].id] else []
  }

  function Establishments(evs: seq<Event>): seq<Id> {
    if evs == [] then []
    else Establishments(evs[..|evs| - 1]) +
         if evs[|evs| - 1].Established? then [evs[|evs| - 1].id] else []
  }

  function Disconnects(evs: seq<Event>): nat {
    if evs == [] then 0
    else Disconnects(evs[..|evs| - 1]) + if evs[|evs| - 1].Disconnected? then 1 else 0
  }

  // ----- the server -----

  /** The server's state in closed form: requests fill the slots in order, once each. */
  predicate ServerAfter(qps: nat, evs: seq<Event>, v: View) {
    var ids := Requests(evs);
    && |v.nodes| == qps
    && v.index == |ids| <= qps
    && v.index + v.left == qps
    && v.toDisconnect == v.index - Disconnects(evs)
    && (forall i :: 0 <= i < |ids| ==> v.nodes[i] == Node(ids[i], true))
    && (forall i :: |ids| <= i < qps ==> v.nodes[i] == Node(0, false))
  }

  lemma ServerStep(c: Config, qps: nat, evs: seq<Event>, v: View, e: Event)
    requires !c.client && Sane(v) && ServerAfter(qps, evs, v) && Handle(c, v, e).ok
    ensures ServerAfter(qps, evs + [e], Handle(c, v, e).view)
  {
    assert (evs + [e])[..|evs|] == evs;
    assert (evs + [e])[|evs|] == e;
    var ids := Requests(evs);
    if e.ConnectRequest? {
      assert Requests(evs + [e]) == ids + [e.id];
    } else {
      assert Requests(evs + [e]) == ids;
    }
  }

  /** Until a handler fails, whatever the order of events, the server's counters and slots are these. */
  lemma {:induction false} ServerCounters(c: Config, qps: nat, evs: seq<Event>)
    requires !c.client && AllOk(c, Initial(qps), evs)
    ensures ServerAfter(qps, evs, Feed(c, Initial(qps), evs))
  {
    if evs != [] {
      var init, e := evs[..|evs| - 1], evs[|evs| - 1];
      ServerCounters(c, qps, init);
      assert evs == init + [e];
      ServerStep(c, qps, init, Feed(c, Initial(qps), init), e);
    }
  }

  /** SUCCESS on the server: exactly num_of_qps requests, one slot each, every node connected. */
  lemma ServerConnects(c: Config, qps: nat, ins: seq<Input>)
    requires !c.client && Drive(c, Initial(qps), ins, 0).outcome.Success?
    ensures var r := Drive(c, Initial(qps), ins, 0);
            && AllGot(ins[..r.used])
            && var ids := Requests(Events(ins[..r.used]));
            && |ids| == qps == |r.view.nodes|
            && forall i :: 0 <= i < qps ==> r.view.nodes[i] == Node(ids[i], true)
  {
    SuccessIsAllOk(c, Initial(qps), Initial(qps), ins, 0);
    var r := Drive(c, Initial(qps), ins, 0);
    NeverPassesZero(c, Initial(qps), ins, 0);
    ServerCounters(c, qps, Events(ins[..r.used]));
  }

  // ----- the client -----

  predicate DistinctIds(nodes: seq<Node>) {
    && (forall i :: 0 <= i < |nodes| ==> nodes[i].id > 0)
    && (forall i, j :: 0 <= i < j < |nodes| ==> nodes[i].id != nodes[j].id)
  }

  /** A client about to wait: one id per node, and connects_left counts the unconnected ones. */
  predicate ClientReady(v: View) {
    Sane(v) && DistinctIds(v.nodes) && v.left == Pending(v.nodes)
  }

  predicate NoRequests(evs: seq<Event>) {
    forall i :: 0 <= i < |evs| ==> !evs[i].ConnectRequest?
  }

  /** The client's state in closed form: nodes are marked by the ids established so far. */
  predicate ClientAfter(v0: View, evs: seq<Event>, v: View) {
    var ids := Establishments(evs);
    && |v.nodes| == |v0.nodes|
    && v.left == v0.left - |ids|
    && v.toDisconnect == v0.toDisconnect + |ids| - Disconnects(evs)
    && forall i :: 0 <= i < |v.nodes| ==> v.nodes[i] == Node(v0.nodes[i].id, v0.nodes[i].connected || v0.nodes[i].id in ids)
  }

  lemma ClientStep(c: Config, v0: View, evs: seq<Event>, v: View, e: Event)
    requires c.client && Sane(v) && DistinctIds(v0.nodes) && ClientAfter(v0, evs, v) && Handle(c, v, e).ok && !e.ConnectRequest?
    ensures ClientAfter(v0, evs + [e], Handle(c, v, e).view)
  {
    assert (evs + [e])[..|evs|] == evs;
    assert (evs + [e])[|evs|] == e;
    var ids := Establishments(evs);
    if e.Established? {
      assert Establishments(evs + [e]) == ids + [e.id];
    } else {
      assert Establishments(evs + [e]) == ids;
    }
  }

  lemma {:induction false} ClientCounters(c: Config, v0: View, evs: seq<Event>)
    requires c.client && Sane(v0) && DistinctIds(v0.nodes) && NoRequests(evs) && AllOk(c, v0, evs)
    ensures ClientAfter(v0, evs, Feed(c, v0, evs))
  {
    if evs != [] {
      var init, e := evs[..|evs| - 1], evs[|evs| - 1];
      ClientCounters(c, v0, init);
      assert evs == init + [e];
      ClientStep(c, v0, init, Feed(c, v0, init), e);
    }
  }

  function PendingIds(nodes: seq<Node>): set<int> {
    set i | 0 <= i < |nodes| && !nodes[i].connected :: nodes[i].id
  }

  lemma PendingIdsAppend(nodes: seq<Node>, n: Node)
    ensures PendingIds(nodes + [n]) == PendingIds(nodes) + if n.connected then {} else {n.id}
  {
    var all := nodes + [n];
    forall x | x in PendingIds(nodes)
      ensures x in PendingIds(all)
    {
      var i :| 0 <= i < |nodes| && !nodes[i].connected && nodes[i].id == x;
      assert all[i] == nodes[i];
    }
    assert all[|nodes|] == n;
  }

  lemma PendingGrows(nodes: seq<Node>, n: Node)
    requires forall i :: 0 <= i < |nodes| ==> nodes[i].id != n.id
    ensures |PendingIds(nodes + [n])| == |PendingIds(nodes)| + if n.connected then 0 else 1
  {
    PendingIdsAppend(nodes, n);
    assert n.id !in PendingIds(nodes);
  }

  lemma DistinctPrefix(nodes: seq<Node>, k: nat)
    requires DistinctIds(nodes) && k < |nodes|
    ensures DistinctIds(nodes[..k]) && forall i :: 0 <= i < k ==> nodes[..k][i].id != nodes[k].id
  {
  }

  lemma {:induction false} PendingCounts(nodes: seq<Node>)
    requires DistinctIds(nodes)
    ensures |PendingIds(nodes)| == Pending(nodes)
  {
    if nodes != [] {
      var k := |nodes| - 1;
      DistinctPrefix(nodes, k);
      PendingCounts(nodes[..k]);
      PendingGrows(nodes[..k], nodes[k]);
      assert nodes[..k] + [nodes[k]] == nodes;
    }
  }

  function Elements(ids: seq<Id>): set<int> {
    set i | 0 <= i < |ids| :: ids[i]
  }

  lemma {:induction false} DistinctCount(ids: seq<Id>)
    ensures |Elements(ids)| <= |ids|
    ensures |Elements(ids)| == |ids| <==> Distinct(ids)
  {
    if ids != [] {
      var init, x := ids[..|ids| - 1], ids[|ids| - 1];
      DistinctCount(init);
      assert ids == init + [x];
      assert Elements(ids) == Elements(init) + {x};
      if x in Elements(init) {
        var i :| 0 <= i < |init| && init[i] == x;
        assert ids[i] == ids[|ids| - 1];
      } else {
        assert forall i :: 0 <= i < |init| ==> init[i] in Elements(init);
      }
    }
  }

  lemma SubsetSize(a: set<int>, b: set<int>)
    requires a <= b
    ensures |a| <= |b| && (|a| == |b| ==> a == b)
  {
    assert b == a + (b - a);
  }

  /** As many ids as pending nodes cover them all exactly when they are distinct and all pending. */
  lemma CoverIff(want: set<int>, ids: seq<Id>)
    requires |ids| == |want|
    ensures want <= Elements(ids) <==> Distinct(ids) && Elements(ids) <= want
  {
    DistinctCount(ids);
    if want <= Elements(ids) {
      SubsetSize(want, Elements(ids));
    }
    if Elements(ids) <= want {
      SubsetSize(Elements(ids), want);
    }
  }

  predicate AllConnected(nodes: seq<Node>) {
    forall i :: 0 <= i < |nodes| ==> nodes[i].connected
  }

  lemma AllConnectedIff(v0: View, evs: seq<Event>, v: View)
    requires ClientAfter(v0, evs, v)
    ensures AllConnected(v.nodes) <==> PendingIds(v0.nodes) <= Elements(Establishments(evs))
  {
    var ids := Establishments(evs);
    if AllConnected(v.nodes) {
      forall x | x in PendingIds(v0.nodes)
        ensures x in Elements(ids)
      {
        var i :| 0 <= i < |v0.nodes| && !v0.nodes[i].connected && v0.nodes[i].id == x;
        assert v.nodes[i].connected;
      }
    }
    if PendingIds(v0.nodes) <= Elements(ids) {
      forall i | 0 <= i < |v.nodes|
        ensures v.nodes[i].connected
      {
        if !v0.nodes[i].connected {
          assert v0.nodes[i].id in PendingIds(v0.nodes);
        }
      }
    }
  }

  /**
   * SUCCESS on the client means that every node is connected exactly when the
   * ESTABLISHED events were one per id, each for a node that was not yet
   * connected; on the first attempt or a later one.
   */
  lemma ClientConnects(c: Config, v0: View, ins: seq<Input>)
    requires c.client && ClientReady(v0) && Drive(c, v0, ins, 0).outcome.Success?
    requires forall i :: 0 <= i < |ins| && ins[i].Got? ==> !ins[i].event.ConnectRequest?
    ensures var r := Drive(c, v0, ins, 0);
            && AllGot(ins[..r.used])
            && var ids := Establishments(Events(ins[..r.used]));
            && |ids| == Pending(v0.nodes)
            && (AllConnected(r.view.nodes) <==> Distinct(ids) && Elements(ids) <= PendingIds(v0.nodes))
  {
    SuccessIsAllOk(c, v0, v0, ins, 0);
    NeverPassesZero(c, v0, ins, 0);
    var r := Drive(c, v0, ins, 0);
    var evs := Events(ins[..r.used]);
    ClientCounters(c, v0, evs);
    PendingCounts(v0.nodes);
    AllConnectedIff(v0, evs, r.view);
    CoverIff(PendingIds(v0.nodes), Establishments(evs));
  }

  lemma DriveOn(c: Config, v: View, id: Id, ins: seq<Input>, i: nat)
    requires c.client && Sane(v) && v.left != 0 && i < |ins| && ins[i] == Got(Established(id), false)
    ensures Drive(c, v, ins, i) ==
            Drive(c, View(v.left - 1, v.toDisconnect + 1, v.index, Marked(v.nodes, id)), ins, i + 1)
  {
  }

  lemma MarkFirst(nodes: seq<Node>, id: Id)
    requires nodes != [] && nodes[0].id == id
    ensures Marked(nodes, id) == nodes[0 := Node(id, true)]
  {
  }

  lemma PendingPair(a: Node, b: Node)
    ensures Pending([a, b]) == (if a.connected then 0 else 1) + (if b.connected then 0 else 1)
  {
    assert [a, b][..1] == [a] && [a][..0] == [];
    assert Pending([a]) == if a.connected then 0 else 1;
  }

  /** A second ESTABLISHED for one id is counted: the loop returns SUCCESS with a node unconnected. */
  lemma RepeatedEstablished(c: Config, x: Id, y: Id)
    requires c.client && x != y
    ensures var twice := [Got(Established(x), false), Got(Established(x), false)];
            var v := View(2, 0, 0, [Node(x, false), Node(y, false)]);
            && ClientReady(v)
            && Drive(c, v, twice, 0) == Ended(View(0, 2, 0, [Node(x, true), Node(y, false)]), Success, 2)
  {
    var twice := [Got(Established(x), false), Got(Established(x), false)];
    var v := View(2, 0, 0, [Node(x, false), Node(y, false)]);
    PendingPair(Node(x, false), Node(y, false));
    MarkFirst(v.nodes, x);
    var marked := [Node(x, true), Node(y, false)];
    assert Marked(v.nodes, x) == marked;
    MarkFirst(marked, x);
    assert Marked(marked, x) == marked;
    DriveOn(c, v, x, twice, 0);
    DriveOn(c, View(1, 1, 0, marked), x, twice, 1);
  }

  // ----- another attempt -----

  /** rdma_cm_allocate_nodes on the client: a new id for each node without one. */
  function Renewed(nodes: seq<Node>, ids: seq<Id>): (r: seq<Node>)
    requires |ids| == |nodes|
    ensures |r| == |nodes|
    ensures forall i :: 0 <= i < |nodes| ==> r[i] == if nodes[i].id == 0 then Node(ids[i], nodes[i].connected) else nodes[i]
  {
    seq(|nodes|, i requires 0 <= i < |nodes| => if nodes[i].id == 0 then Node(ids[i], nodes[i].connected) else nodes[i])
  }

  lemma {:induction false} PendingSame(a: seq<Node>, b: seq<Node>)
    requires |a| == |b| && forall i :: 0 <= i < |a| ==> a[i].connected == b[i].connected
    ensures Pending(a) == Pending(b)
  {
    if a != [] {
      PendingSame(a[..|a| - 1], b[..|b| - 1]);
    }
  }

  /** One turn of a loop that ends in failure: it goes on, or it stops here. */
  lemma FailingTurn(c: Config, v: View, ins: seq<Input>, i: nat)
    requires Sane(v) && i <= |ins| && Drive(c, v, ins, i).outcome.Failure?
    ensures i < |ins|
    ensures if ins[i].Got? && Handle(c, v, ins[i].event).ok && !ins[i].ackFails then
              var h := Handle(c, v, ins[i].event).view;
              Sane(h) && Drive(c, v, ins, i) == Drive(c, h, ins, i + 1)
            else
              Drive(c, v, ins, i) == Ended(AfterLast(c, v, ins[i]), Failure, i + 1)
  {
    if i < |ins| && ins[i].Got? {
      HandleSane(c, v, ins[i].event);
    }
  }

  /** Where a failed loop stopped: every handler before its last input succeeded. */
  lemma {:induction false} FailureIsLast(c: Config, v0: View, v: View, ins: seq<Input>, i: nat, r: Ended) returns (u: View)
    requires Sane(v0) && Sane(v) && Reached(c, v0, ins, i, v)
    requires r == Drive(c, v, ins, i) && r.outcome.Failure?
    ensures 1 <= r.used && Sane(u) && Reached(c, v0, ins, r.used - 1, u)
    ensures r.view == AfterLast(c, u, ins[r.used - 1])
    decreases |ins| - i
  {
    FailingTurn(c, v, ins, i);
    if ins[i].Got? && Handle(c, v, ins[i].event).ok && !ins[i].ackFails {
      ReachNext(c, v0, ins, i, v);
      u := FailureIsLast(c, v0, Handle(c, v, ins[i].event).view, ins, i + 1, r);
    } else {
      u := v;
    }
  }

  function AfterLast(c: Config, v: View, input: Input): View
    requires Sane(v)
  {
    if input.GetFails? then v else Handle(c, v, input.event).view
  }

  /** A failed connect of a node that is already connected: its id is cleared all the same. */
  predicate ClearsConnected(v: View, input: Input) {
    && input.Got? && input.event.RouteResolved? && !input.event.setupFails && input.event.connectFails
    && Find(v.nodes, input.event.id) >= 0 && v.nodes[Find(v.nodes, input.event.id)].connected
  }

  /** Nodes that may have lost their ids, but have no others. */
  predicate Worn(nodes: seq<Node>, v0: View) {
    |nodes| == |v0.nodes| && forall i :: 0 <= i < |nodes| ==> nodes[i].id == v0.nodes[i].id || nodes[i].id == 0
  }

  /** Some connected node has lost its id. */
  predicate Orphaned(nodes: seq<Node>) {
    exists i :: 0 <= i < |nodes| && nodes[i].connected && nodes[i].id == 0
  }

  lemma LastWears(c: Config, v0: View, v: View, input: Input)
    requires c.client && Sane(v) && DistinctIds(v0.nodes) && |v.nodes| == |v0.nodes|
    requires forall i :: 0 <= i < |v.nodes| ==> v.nodes[i].id == v0.nodes[i].id
    requires input.Got? ==> !input.event.ConnectRequest?
    ensures Worn(AfterLast(c, v, input).nodes, v0)
    ensures Orphaned(AfterLast(c, v, input).nodes) <==> ClearsConnected(v, input)
  {
    var nodes := AfterLast(c, v, input).nodes;
    if ClearsConnected(v, input) {
      var k := Find(v.nodes, input.event.id);
      assert nodes[k].connected && nodes[k].id == 0;
    }
  }

  /** Connected nodes come through with the ids they had. */
  predicate Kept(v0: View, before: seq<Node>, after: seq<Node>) {
    |before| == |after| == |v0.nodes| &&
    forall i :: 0 <= i < |before| && before[i].connected ==> after[i] == Node(v0.nodes[i].id, true)
  }

  lemma RenewedAt(v0: View, before: seq<Node>, ids: seq<Id>, i: nat)
    requires Worn(before, v0) && DistinctIds(v0.nodes) && |ids| == |before| && i < |before|
    ensures Renewed(Cleared(before), ids)[i]
         == if before[i].connected && before[i].id != 0 then Node(v0.nodes[i].id, true) else Node(ids[i], before[i].connected)
  {
  }

  lemma RenewedReady(v0: View, v: View, ids: seq<Id>)
    requires Sane(v) && Worn(v.nodes, v0) && DistinctIds(v0.nodes) && |ids| == |v.nodes|
    requires Distinct(ids) && forall i, j :: 0 <= i < |ids| && 0 <= j < |ids| ==> ids[i] != v0.nodes[j].id
    ensures ClientReady(Retried(v, ids)) && Retried(v, ids).left == Pending(v.nodes)
    ensures Kept(v0, v.nodes, Retried(v, ids).nodes) <==> !Orphaned(v.nodes)
  {
    var after := Retried(v, ids).nodes;
    forall i | 0 <= i < |after|
      ensures after[i] == if v.nodes[i].connected && v.nodes[i].id != 0 then Node(v0.nodes[i].id, true)
                          else Node(ids[i], v.nodes[i].connected)
    {
      RenewedAt(v0, v.nodes, ids, i);
    }
    PendingSame(Cleared(v.nodes), after);
    PendingSame(Cleared(v.nodes), v.nodes);
  }

  /** The client as the cleanup and the reallocation leave it. */
  function Retried(v: View, ids: seq<Id>): View
    requires |ids| == |v.nodes|
  {
    v.(left := Pending(Cleared(v.nodes)), nodes := Renewed(Cleared(v.nodes), ids))
  }

  /**
   * An attempt gets to the events exactly when the lookup succeeds and so does
   * the start for every unconnected node; a failed start costs one connection.
   */
  lemma AttemptStarts(c: Config, v: View, addressFails: bool, failAt: nat, ins: seq<Input>)
    requires Sane(v)
    ensures var r := Attempt(c, v, addressFails, failAt, ins);
            && (r.outcome.Success? ==> !addressFails && forall i :: 0 <= i < |v.nodes| && !v.nodes[i].connected ==> i != failAt)
            && (addressFails ==> r.outcome.Failure? && r.view == v)
            && (!addressFails && failAt < |v.nodes| && !v.nodes[failAt].connected ==>
                  r.outcome.Failure? && r.view.nodes == v.nodes && r.view.left + 1 == v.left)
  {
  }

  /** The attempt ended in a failed connect of a node already connected. */
  ghost predicate LosesNode(c: Config, v0: View, ins: seq<Input>, used: nat)
    requires Sane(v0)
  {
    && 1 <= used <= |ins| && AllGot(ins[..used - 1])
    && ClearsConnected(Feed(c, v0, Events(ins[..used - 1])), ins[used - 1])
  }

  predicate NoConnectRequests(ins: seq<Input>) {
    forall i :: 0 <= i < |ins| && ins[i].Got? ==> !ins[i].event.ConnectRequest?
  }

  /** New ids: distinct, and none in use before. */
  predicate FreshIds(ids: seq<Id>, v0: View) {
    && |ids| == |v0.nodes| && Distinct(ids)
    && forall i, j :: 0 <= i < |ids| && 0 <= j < |ids| ==> ids[i] != v0.nodes[j].id
  }

  lemma DriveWears(c: Config, v0: View, ins: seq<Input>)
    requires c.client && ClientReady(v0) && Drive(c, v0, ins, 0).outcome.Failure? && NoConnectRequests(ins)
    ensures var r := Drive(c, v0, ins, 0);
            Sane(r.view) && Worn(r.view.nodes, v0) && (Orphaned(r.view.nodes) <==> LosesNode(c, v0, ins, r.used))
  {
    var r := Drive(c, v0, ins, 0);
    var v := FailureIsLast(c, v0, v0, ins, 0, r);
    var evs, last := Events(ins[..r.used - 1]), ins[r.used - 1];
    ClientCounters(c, v0, evs);
    LastWears(c, v0, v, last);
    if last.Got? {
      HandleSane(c, v, last.event);
    }
  }

  /**
   * However an attempt fails, cleanup and reallocation with fresh ids leave the
   * client ready for another, with connects_left the number of unconnected
   * nodes. The connected nodes keep their ids if and only if the attempt did not
   * end in a failed connect of a node already connected.
   */
  lemma RetryReady(c: Config, v0: View, addressFails: bool, failAt: nat, ins: seq<Input>, ids: seq<Id>)
    requires c.client && ClientReady(v0) && NoConnectRequests(ins) && FreshIds(ids, v0)
    requires Attempt(c, v0, addressFails, failAt, ins).outcome.Failure?
    ensures var r := Attempt(c, v0, addressFails, failAt, ins);
            && |r.view.nodes| == |ids|
            && ClientReady(Retried(r.view, ids)) && Retried(r.view, ids).left == Pending(r.view.nodes)
            && (Kept(v0, r.view.nodes, Retried(r.view, ids).nodes) <==> !LosesNode(c, v0, ins, r.used))
  {
    var r := Attempt(c, v0, addressFails, failAt, ins);
    if !addressFails && !(failAt < |v0.nodes| && !v0.nodes[failAt].connected) {
      DriveWears(c, v0, ins);
    }
    RenewedReady(v0, r.view, ids);
  }

  /** The library's order: no route event names a node connected before, in an earlier attempt or in this one. */
  predicate RoutesFirst(v0: View, ins: seq<Input>) {
    forall j :: 0 <= j < |ins| && ins[j].Got? && ins[j].event.RouteResolved? ==> RouteFirst(v0, ins, j)
  }

  predicate RouteFirst(v0: View, ins: seq<Input>, j: nat)
    requires j < |ins| && ins[j].Got? && ins[j].event.RouteResolved?
  {
    && (forall i :: 0 <= i < j && ins[i].Got? && ins[i].event.Established? ==> ins[i].event.id != ins[j].event.id)
    && (forall k :: 0 <= k < |v0.nodes| && v0.nodes[k].connected ==> v0.nodes[k].id != ins[j].event.id)
  }

  lemma {:induction false} EstablishedEarlier(evs: seq<Event>, x: Id) returns (i: nat)
    requires x in Establishments(evs)
    ensures i < |evs| && evs[i] == Established(x)
  {
    var n := |evs| - 1;
    if evs[n].Established? && evs[n].id == x {
      i := n;
    } else {
      i := EstablishedEarlier(evs[..n], x);
    }
  }

  lemma OrderedKeeps(c: Config, v0: View, ins: seq<Input>, used: nat)
    requires c.client && Sane(v0) && DistinctIds(v0.nodes) && NoConnectRequests(ins) && RoutesFirst(v0, ins)
    requires 1 <= used <= |ins| && AllGot(ins[..used - 1]) && AllOk(c, v0, Events(ins[..used - 1]))
    ensures !LosesNode(c, v0, ins, used)
  {
    var evs, last := Events(ins[..used - 1]), ins[used - 1];
    ClientCounters(c, v0, evs);
    var v := Feed(c, v0, evs);
    if ClearsConnected(v, last) {
      assert RouteFirst(v0, ins, used - 1);
      var k := Find(v.nodes, last.event.id);
      if !v0.nodes[k].connected {
        var i := EstablishedEarlier(evs, last.event.id);
      }
    }
  }

  /** With events in the library's order, connected nodes always keep their ids. */
  lemma RetryKeeps(c: Config, v0: View, addressFails: bool, failAt: nat, ins: seq<Input>, ids: seq<Id>)
    requires c.client && ClientReady(v0) && NoConnectRequests(ins) && FreshIds(ids, v0) && RoutesFirst(v0, ins)
    requires Attempt(c, v0, addressFails, failAt, ins).outcome.Failure?
    ensures var r := Attempt(c, v0, addressFails, failAt, ins);
            |r.view.nodes| == |ids| && Kept(v0, r.view.nodes, Retried(r.view, ids).nodes)
  {
    RetryReady(c, v0, addressFails, failAt, ins, ids);
    var r := Attempt(c, v0, addressFails, failAt, ins);
    if r.used >= 1 {
      var v := FailureIsLast(c, v0, v0, ins, 0, r);
      OrderedKeeps(c, v0, ins, r.used);
    }
  }

  /** Such an attempt: a node is established, and a route event for it then fails to connect. */
  lemma ConnectFailsLate(c: Config, x: Id, y: Id)
    requires c.client && x != y
    ensures var v := View(2, 0, 0, [Node(x, false), Node(y, false)]);
            var ins := [Got(Established(x), false), Got(RouteResolved(x, false, true), false)];
            && ClientReady(v)
            && Drive(c, v, ins, 0) == Ended(View(0, 1, 0, [Node(0, true), Node(y, false)]), Failure, 2)
  {
    var v := View(2, 0, 0, [Node(x, false), Node(y, false)]);
    var ins := [Got(Established(x), false), Got(RouteResolved(x, false, true), false)];
    PendingPair(Node(x, false), Node(y, false));
    var marked := [Node(x, true), Node(y, false)];
    MarkFirst(v.nodes, x);
    assert Marked(v.nodes, x) == marked;
    DriveOn(c, v, x, ins, 0);
    assert Find(marked, x) == 0;
    assert marked[0 := Node(0, true)] == [Node(0, true), Node(y, false)];
  }
}
