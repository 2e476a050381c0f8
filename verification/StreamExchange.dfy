/**
 * The length-prefixed chunked exchange over a byte stream:
 * ctx_xchg_data_chunked of src/perftest_negotiation.c on top of
 * ethernet_write_data and ethernet_read_data of src/perftest_communication.c.
 *
 * First the functions as they run on one side, against a socket that accepts
 * and returns any positive number of bytes, or fails. Then both sides together
 * over two bounded channels, for deadlock freedom.
 */
module StreamExchange {
  import opened Arithmetic
  import opened Sockets
  import NetworkOrder

  type Bytes = seq<byte>

  const KV_BUF_SIZE := 2048

  // ----- the 32-bit length in network byte order -----

  function EncodeLength(n: nat): (b: Bytes)
    ensures |b| == 4
  {
    var x := n % U32;
    [x / 0x100_0000, x / 0x1_0000 % 0x100, x / 0x100 % 0x100, x % 0x100]
  }

  function DecodeLength(b: Bytes): nat
    requires |b| == 4
  {
    (b[0] as int) * 0x100_0000 + (b[1] as int) * 0x1_0000 + (b[2] as int) * 0x100 + (b[3] as int)
  }

  /** Four base-256 digits make up the number again. */
  lemma Digits(x: nat)
    requires x < U32
    ensures x / 0x100_0000 * 0x100_0000 + x / 0x1_0000 % 0x100 * 0x1_0000 + x / 0x100 % 0x100 * 0x100 + x % 0x100 == x
  {
    var a := x / 0x100;
    var b := x / 0x1_0000;
    assert x == a * 0x100 + x % 0x100;
    assert b == a / 0x100 && a == b * 0x100 + a % 0x100;
    assert x / 0x100_0000 == b / 0x100 && b == b / 0x100 * 0x100 + b % 0x100;
  }

  /** The length field carries sizes below 2^32 faithfully and no others. */
  lemma LengthRoundTrip(n: nat)
    ensures DecodeLength(EncodeLength(n)) == n % U32
    ensures DecodeLength(EncodeLength(n)) == n <==> n < U32
  {
    Digits(n % U32);
  }

  /** The field is in network byte order, four bytes of the size modulo 2^32. */
  lemma LengthIsNetworkOrder(n: nat, b: Bytes)
    requires |b| == 4
    ensures DecodeLength(b) == NetworkOrder.BigEndian(b)
    ensures EncodeLength(n) == NetworkOrder.Encode(n % U32, 4)
  {
    FourBytes(b);
    var c := EncodeLength(n);
    FourBytes(c);
    LengthRoundTrip(n);
    NetworkOrder.PowerValues();
    NetworkOrder.EncodeDecode(n % U32, 4);
    NetworkOrder.BigEndianInjective(c, NetworkOrder.Encode(n % U32, 4));
  }

  lemma FourBytes(b: Bytes)
    requires |b| == 4
    ensures DecodeLength(b) == NetworkOrder.BigEndian(b)
  {
    assert b[..3][..2] == b[..2] && b[..3][..2][..1] == b[..1] && b[..1][..0] == [];
    var x0: nat, x1: nat, x2: nat := b[0], b[1], b[2];
    assert NetworkOrder.BigEndian(b[..1]) == x0;
    assert NetworkOrder.BigEndian(b[..2]) == x0 * 256 + x1 by { assert b[..2][..1] == b[..1]; }
    assert NetworkOrder.BigEndian(b[..3]) == (x0 * 256 + x1) * 256 + x2;
  }

  /** Everything a side sends in one exchange. */
  function Stream(payload: Bytes): Bytes {
    EncodeLength(|payload|) + payload
  }

  // ----- one side, step by step -----

  /**
   * The four functions below carry the side they work for as ghosts: p0 at the
   * start of the exchange and p where they are called. If the calls so far are
   * those p0 must make, and this one is next, then so are theirs.
   */
  method EthernetWriteData(sock: Socket<byte>, msg: Bytes, ghost p0: Peer, ghost p: Peer) returns (ok: bool)
    modifies sock`output, sock`calls, sock`failed, sock`short
    ensures ok ==> sock.output == old(sock.output) + msg
    ensures !ok ==> exists k :: 0 <= k < |msg| && sock.output == old(sock.output) + msg[..k]
    ensures ok && At(p0, old(sock.calls), p) && Writing(p, |msg|) ==> At(p0, sock.calls, Sent(p, |msg|))
    ensures ok ==> sock.failed == old(sock.failed)
    ensures !ok ==> sock.failed
  {
    var sent := 0;
    ghost var due := At(p0, sock.calls, p) && Writing(p, |msg|);
    while sent < |msg|
      invariant 0 <= sent <= |msg|
      invariant sock.output == old(sock.output) + msg[..sent] && sock.failed == old(sock.failed)
      invariant due ==> At(p0, sock.calls, Sent(p, sent))
    {
      ghost var before := sock.calls;
      var n := sock.Write(msg[sent..]);
      if n <= 0 {
        return false;
      }
      if due {
        WroteNext(p0, before, p, |msg|, sent, n);
      }
      assert msg[..sent] + msg[sent..][..n] == msg[..sent + n];
      sent := sent + n;
    }
    assert msg[..sent] == msg;
    return true;
  }

  method EthernetReadData(sock: Socket<byte>, size: nat, ghost p0: Peer, ghost p: Peer) returns (ok: bool, msg: Bytes)
    modifies sock`input, sock`calls, sock`failed, sock`short
    ensures old(sock.input) == msg + sock.input
    ensures if ok then |msg| == size else |msg| < size
    ensures ok && At(p0, old(sock.calls), p) && Reading(p, size) ==> At(p0, sock.calls, Read(p, msg))
    ensures ok ==> sock.failed == old(sock.failed)
    ensures !ok ==> sock.failed
  {
    msg := [];
    ghost var due := At(p0, sock.calls, p) && Reading(p, size);
    while |msg| < size
      invariant |msg| <= size
      invariant old(sock.input) == msg + sock.input && sock.failed == old(sock.failed)
      invariant due ==> At(p0, sock.calls, Read(p, msg))
    {
      ghost var before := sock.calls;
      var n, data := sock.Read(size - |msg|);
      if n <= 0 {
        return false, msg;
      }
      if due {
        GotNext(p0, before, p, size, msg, data);
      }
      msg := msg + data;
    }
    return true, msg;
  }

  /** A chunk boundary is a multiple of the chunk size, or the end. */
  predicate Boundary(pos: nat, size: nat) {
    pos <= size && (pos % KV_BUF_SIZE == 0 || pos == size)
  }

  method WriteDataChunked(sock: Socket<byte>, data: Bytes, ghost p0: Peer, ghost p: Peer) returns (ok: bool)
    modifies sock`output, sock`calls, sock`failed, sock`short
    ensures ok ==> sock.output == old(sock.output) + data
    ensures !ok ==> exists k :: 0 <= k < |data| && sock.output == old(sock.output) + data[..k]
    ensures ok && At(p0, old(sock.calls), p) && AtPayloadWrite(p, data) ==> At(p0, sock.calls, Sent(p, |data|))
    ensures ok ==> sock.failed == old(sock.failed)
    ensures !ok ==> sock.failed
  {
    var sent := 0;
    ghost var due := At(p0, sock.calls, p) && AtPayloadWrite(p, data);
    while sent < |data|
      invariant Boundary(sent, |data|)
      invariant sock.output == old(sock.output) + data[..sent] && sock.failed == old(sock.failed)
      invariant due ==> At(p0, sock.calls, Sent(p, sent))
    {
      var chunk := |data| - sent;
      if chunk > KV_BUF_SIZE {
        chunk := KV_BUF_SIZE;
      }
      ghost var before := sock.output;
      if due {
        WritesChunk(p, data, sent, chunk);
      }
      var piece := data[sent..sent + chunk];
      var r := EthernetWriteData(sock, piece, p0, Sent(p, sent));
      if !r {
        ghost var k :| 0 <= k < |piece| && sock.output == before + piece[..k];
        PieceOf(old(sock.output), data, sent, chunk, k);
        return false;
      }
      PieceOf(old(sock.output), data, sent, chunk, chunk);
      sent := sent + chunk;
    }
    assert data[..sent] == data;
    return true;
  }

  method ReadDataChunked(sock: Socket<byte>, size: nat, ghost p0: Peer, ghost p: Peer) returns (ok: bool, data: Bytes)
    modifies sock`input, sock`calls, sock`failed, sock`short
    ensures old(sock.input) == data + sock.input
    ensures if ok then |data| == size else |data| < size
    ensures ok && At(p0, old(sock.calls), p) && AtPayloadRead(p, size) ==> At(p0, sock.calls, Read(p, data))
    ensures ok ==> sock.failed == old(sock.failed)
    ensures !ok ==> sock.failed
  {
    data := [];
    ghost var due := At(p0, sock.calls, p) && AtPayloadRead(p, size);
    while |data| < size
      invariant Boundary(|data|, size)
      invariant old(sock.input) == data + sock.input && sock.failed == old(sock.failed)
      invariant due ==> At(p0, sock.calls, Read(p, data))
    {
      var chunk := size - |data|;
      if chunk > KV_BUF_SIZE {
        chunk := KV_BUF_SIZE;
      }
      if due {
        ReadsChunk(p, data, size, chunk);
      }
      var r, piece := EthernetReadData(sock, chunk, p0, Read(p, data));
      ReadTwice(p, data, piece);
      data := data + piece;
      if !r {
        return false, data;
      }
    }
    return true, data;
  }

  /** ctx_xchg_data_ethernet for the length fields. */
  method ExchangeLength(sock: Socket<byte>, isClient: bool, mine: Bytes, ghost p0: Peer) returns (ok: bool, theirs: Bytes)
    modifies sock
    ensures ok ==> |theirs| == |mine| && old(sock.input) == theirs + sock.input
    ensures ok ==> sock.output == old(sock.output) + mine
    ensures ok && old(sock.calls) == [] && |mine| == 4 && p0 == Peer(isClient, p0.mine, 0, []) ==>
              At(p0, sock.calls, p0.(sent := 4, got := theirs))
    ensures ok ==> sock.failed == old(sock.failed)
    ensures !ok ==> sock.failed
  {
    theirs := [];
    if isClient {
      ok := EthernetWriteData(sock, mine, p0, p0);
      if ok {
        ok, theirs := EthernetReadData(sock, |mine|, p0, Sent(p0, 4));
      }
    } else {
      ok, theirs := EthernetReadData(sock, |mine|, p0, p0);
      if ok {
        ok := EthernetWriteData(sock, mine, p0, Read(p0, theirs));
      }
    }
  }

  /** The payloads, once the lengths are known. */
  method ExchangePayload(sock: Socket<byte>, isClient: bool, mine: Bytes, remSize: nat, ghost p0: Peer, ghost p: Peer)
    returns (ok: bool, theirs: Bytes)
    requires At(p0, sock.calls, p) && p.isClient == isClient && p.mine == mine && p.sent == 4
    requires |p.got| == 4 && remSize == DecodeLength(p.got)
    modifies sock
    ensures ok ==> sock.output == old(sock.output) + mine
    ensures ok ==> |theirs| == remSize && old(sock.input) == theirs + sock.input
    ensures ok ==> At(p0, sock.calls, Read(Sent(p, |mine|), theirs))
    ensures ok ==> sock.failed == old(sock.failed)
    ensures !ok ==> sock.failed
  {
    theirs := [];
    if isClient {
      ok := WriteDataChunked(sock, mine, p0, p);
      if ok {
        ok, theirs := ReadDataChunked(sock, remSize, p0, Sent(p, |mine|));
      }
    } else {
      ok, theirs := ReadDataChunked(sock, remSize, p0, p);
      if ok {
        assert p.got[..4] == p.got;
        DueKept(p, theirs);
        ok := WriteDataChunked(sock, mine, p0, Read(p, theirs));
      }
    }
  }

  /** Everything sent and everything due read: no call is left. */
  lemma NothingLeft(p: Peer, len: Bytes, data: Bytes)
    requires |len| == 4 && |data| == DecodeLength(len) && p.sent == p.Total() && p.got == len + data
    ensures Doing(p) == Done && p.got[..4] == len && p.got[4..] == data
  {
  }

  /**
   * ctx_xchg_data_chunked on one side. It succeeds exactly when no call of the
   * exchange fails. On success the side has sent its stream
   * and nothing else, has taken off the input exactly a length field and as
   * many bytes as it announces, and has made the calls the two-party system
   * below prescribes, to the last.
   */
  method XchgDataChunked(sock: Socket<byte>, isClient: bool, mine: Bytes)
    returns (ok: bool, theirs: Bytes, ghost end: Peer)
    modifies sock
    ensures ok ==> sock.output == old(sock.output) + Stream(mine)
    ensures ok ==> Taken(old(sock.input), end.got, theirs, sock.input)
    ensures ok ==> At(Peer(isClient, mine, 0, []), sock.calls, end) && Doing(end) == Done
    ensures ok <==> !sock.failed
  {
    ghost var p0 := Peer(isClient, mine, 0, []);
    sock.calls, sock.failed := [], false;
    theirs, end := [], p0;
    var len: Bytes;
    ok, len := ExchangeLength(sock, isClient, EncodeLength(|mine|), p0);
    if !ok {
      return;
    }
    ghost var p := p0.(sent := 4, got := len);
    ok, theirs := ExchangePayload(sock, isClient, mine, DecodeLength(len), p0, p);
    if ok {
      end := Read(Sent(p, |mine|), theirs);
      NothingLeft(end, len, theirs);
    }
  }

  /** What was read is a length field and the payload it announces, off the front of the input. */
  predicate Taken(input: Bytes, got: Bytes, theirs: Bytes, rest: Bytes) {
    && input == got + rest
    && |got| >= 4 && got[4..] == theirs && |theirs| == DecodeLength(got[..4])
  }

  /** So if the input began with a peer's stream, exactly that payload was received. */
  lemma TakenIsPayload(input: Bytes, got: Bytes, theirs: Bytes, rest: Bytes, payload: Bytes, tail: Bytes)
    requires Taken(input, got, theirs, rest) && |payload| < U32 && input == Stream(payload) + tail
    ensures theirs == payload && rest == tail
  {
    assert got == got[..4] + got[4..];
    SplitStream(payload, tail, got[..4], theirs, rest);
  }

  /** A stream in front of other bytes can be taken apart in one way only. */
  lemma SplitStream(payload: Bytes, rest: Bytes, len: Bytes, data: Bytes, tail: Bytes)
    requires |payload| < U32 && |len| == 4 && |data| == DecodeLength(len)
    requires Stream(payload) + rest == len + data + tail
    ensures data == payload && tail == rest
  {
    var all := Stream(payload) + rest;
    assert all[..4] == EncodeLength(|payload|) && all[..4] == len;
    LengthRoundTrip(|payload|);
    assert all[4..4 + |payload|] == payload && all[4..4 + |payload|] == data;
    assert all[4 + |payload|..] == rest && all[4 + |payload|..] == tail;
  }

  // ----- the calls a side makes -----

  function Sent(p: Peer, k: nat): Peer {
    p.(sent := p.sent + k)
  }

  function Read(p: Peer, g: Bytes): Peer {
    p.(got := p.got + g)
  }

  /** The side after a call that moved something. */
  function After(p: Peer, e: Event<byte>): Peer {
    match e
    case Wrote(_, n) => Sent(p, n)
    case Got(_, data) => Read(p, data)
  }

  function Played(p0: Peer, calls: seq<Event<byte>>): Peer {
    if calls == [] then p0 else After(Played(p0, calls[..|calls| - 1]), calls[|calls| - 1])
  }

  /** The call is the one the side is to make: its direction and the size asked for. */
  predicate Prescribed(p: Peer, e: Event<byte>) {
    match Doing(p)
    case Send(limit) => e.Wrote? && e.asked == limit && 1 <= e.n <= limit
    case Receive(limit) => e.Got? && e.asked == limit && 1 <= |e.data| <= limit
    case Done => false
  }

  predicate Obeys(p0: Peer, calls: seq<Event<byte>>) {
    calls == [] ||
    (Obeys(p0, calls[..|calls| - 1]) && Prescribed(Played(p0, calls[..|calls| - 1]), calls[|calls| - 1]))
  }

  lemma Obey(p0: Peer, calls: seq<Event<byte>>, p: Peer, e: Event<byte>)
    requires At(p0, calls, p) && Prescribed(p, e)
    ensures At(p0, calls + [e], After(p, e))
  {
    assert (calls + [e])[..|calls|] == calls;
  }

  lemma ReadTwice(p: Peer, a: Bytes, b: Bytes)
    ensures Read(Read(p, a), b) == Read(p, a + b)
  {
    assert p.got + a + b == p.got + (a + b);
  }

  /** Reading on does not change a length already read. */
  lemma DueKept(p: Peer, more: Bytes)
    requires |p.got| >= 4
    ensures Read(p, more).Due() == p.Due() && Read(p, more).got[..4] == p.got[..4]
  {
    assert (p.got + more)[..4] == p.got[..4];
  }

  /** The calls so far are those the side p0 must make, and have brought it to p. */
  predicate At(p0: Peer, calls: seq<Event<byte>>, p: Peer) {
    Obeys(p0, calls) && Played(p0, calls) == p
  }

  /** The side's next calls write size bytes: the length field, or the chunk that starts here. */
  predicate Writing(p: Peer, size: nat) {
    if p.sent == 0 then
      size == 4 && (p.isClient || |p.got| >= 4)
    else
      && 4 <= p.sent < p.Total() && |p.got| >= 4 && (p.isClient || |p.got| >= p.Due())
      && (p.sent - 4) % KV_BUF_SIZE == 0 && size == Min(p.Total() - p.sent, KV_BUF_SIZE)
  }

  /** The side's next calls read size bytes. */
  predicate Reading(p: Peer, size: nat) {
    if p.got == [] then
      size == 4 && (p.isClient ==> p.sent >= 4)
    else
      && 4 <= |p.got| < p.Due() && p.sent >= 4 && (p.isClient ==> p.sent >= p.Total())
      && (|p.got| - 4) % KV_BUF_SIZE == 0 && size == Min(p.Due() - |p.got|, KV_BUF_SIZE)
  }

  predicate AtPayloadWrite(p: Peer, data: Bytes) {
    p.mine == data && p.sent == 4 && |p.got| >= 4 && (p.isClient || |p.got| >= p.Due())
  }

  predicate AtPayloadRead(p: Peer, size: nat) {
    |p.got| == 4 && size == DecodeLength(p.got) && p.sent >= 4 && (p.isClient ==> p.sent >= p.Total())
  }

  lemma WithinChunk(pos: nat, k: nat)
    requires pos % KV_BUF_SIZE == 0 && k < KV_BUF_SIZE
    ensures (pos + k) % KV_BUF_SIZE == k
  {
  }

  /** However short the writes, each asks for what is left. */
  lemma WritesRest(p: Peer, size: nat, k: nat)
    requires Writing(p, size) && k < size
    ensures Doing(Sent(p, k)) == Send(size - k)
  {
    if p.sent > 0 {
      WithinChunk(p.sent - 4, k);
      assert ChunkLeft(p.sent - 4 + k, |p.mine|) == size - k;
    }
  }

  lemma ReadsRest(p: Peer, size: nat, g: Bytes)
    requires Reading(p, size) && |g| < size
    ensures Doing(Read(p, g)) == Receive(size - |g|)
  {
    if p.got != [] {
      DueKept(p, g);
      WithinChunk(|p.got| - 4, |g|);
      assert ChunkLeft(|p.got| - 4 + |g|, DecodeLength(p.got[..4])) == size - |g|;
    }
  }

  lemma WroteNext(p0: Peer, calls: seq<Event<byte>>, p: Peer, size: nat, k: nat, n: nat)
    requires At(p0, calls, Sent(p, k)) && Writing(p, size) && k < size && 1 <= n <= size - k
    ensures At(p0, calls + [Wrote(size - k, n)], Sent(p, k + n))
  {
    WritesRest(p, size, k);
    Obey(p0, calls, Sent(p, k), Wrote(size - k, n));
  }

  lemma GotNext(p0: Peer, calls: seq<Event<byte>>, p: Peer, size: nat, g: Bytes, data: Bytes)
    requires At(p0, calls, Read(p, g)) && Reading(p, size) && |g| < size && 1 <= |data| <= size - |g|
    ensures At(p0, calls + [Got(size - |g|, data)], Read(p, g + data))
  {
    ReadsRest(p, size, g);
    Obey(p0, calls, Read(p, g), Got(size - |g|, data));
    ReadTwice(p, g, data);
  }

  /** A piece written after a prefix extends the prefix. */
  lemma PieceOf(out: Bytes, data: Bytes, pos: nat, size: nat, k: nat)
    requires pos + size <= |data| && k <= size
    ensures out + data[..pos] + data[pos..pos + size][..k] == out + data[..pos + k]
  {
    assert data[pos..pos + size][..k] == data[pos..pos + k];
    assert data[..pos] + data[pos..pos + k] == data[..pos + k];
  }

  lemma WritesChunk(p: Peer, data: Bytes, sent: nat, chunk: nat)
    requires AtPayloadWrite(p, data) && Boundary(sent, |data|) && sent < |data| && chunk == Min(|data| - sent, KV_BUF_SIZE)
    ensures Writing(Sent(p, sent), chunk)
  {
  }

  /** The payload is read chunk by chunk from the length on. */
  lemma ReadsChunk(p: Peer, data: Bytes, size: nat, chunk: nat)
    requires AtPayloadRead(p, size) && Boundary(|data|, size) && |data| < size && chunk == Min(size - |data|, KV_BUF_SIZE)
    ensures Reading(Read(p, data), chunk)
  {
    assert p.got[..4] == p.got;
    DueKept(p, data);
  }

  // ----- both sides, over bounded channels -----

  /** A side of the exchange: what it sends, how much of it, and all it has read. */
  datatype Peer = Peer(isClient: bool, mine: Bytes, sent: nat, got: Bytes)
  {
    function Total(): nat {
      4 + |mine|
    }

    /** What it must read in all, once the length is known. */
    function Due(): nat {
      if |got| < 4 then 4 else 4 + DecodeLength(got[..4])
    }
  }

  /** The system call a side is in, with the most bytes it asks for. */
  datatype Call = Send(limit: nat) | Receive(limit: nat) | Done

  /** What is left of the current chunk at a payload position. */
  function ChunkLeft(pos: nat, size: nat): (r: nat)
    requires pos < size
    ensures 1 <= r <= size - pos && r <= KV_BUF_SIZE
  {
    var room := KV_BUF_SIZE - pos % KV_BUF_SIZE;
    if size - pos < room then size - pos else room
  }

  function SendCall(p: Peer): Call
    requires 4 <= p.sent < p.Total()
  {
    Send(ChunkLeft(p.sent - 4, |p.mine|))
  }

  function ReceiveCall(p: Peer): Call
    requires 4 <= |p.got| < p.Due()
  {
    Receive(ChunkLeft(|p.got| - 4, DecodeLength(p.got[..4])))
  }

  /** The client writes then reads, first the lengths, then the payloads; the server the other way round. */
  function Doing(p: Peer): Call {
    if p.isClient then
      if p.sent < 4 then Send(4 - p.sent)
      else if |p.got| < 4 then Receive(4 - |p.got|)
      else if p.sent < p.Total() then SendCall(p)
      else if |p.got| < p.Due() then ReceiveCall(p)
      else Done
    else
      if |p.got| < 4 then Receive(4 - |p.got|)
      else if p.sent < 4 then Send(4 - p.sent)
      else if |p.got| < p.Due() then ReceiveCall(p)
      else if p.sent < p.Total() then SendCall(p)
      else Done
  }

  /** up carries the client's bytes, down the server's. */
  datatype State = State(client: Peer, server: Peer, up: Bytes, down: Bytes)

  /** A system call of one side moves n bytes. */
  datatype Step = Step(client: bool, n: nat)

  predicate CanMove(p: Peer, incoming: Bytes, outgoing: Bytes, cap: nat, n: nat) {
    match Doing(p)
    case Send(limit) => 1 <= n <= limit && p.sent + n <= p.Total() && |outgoing| + n <= cap
    case Receive(limit) => 1 <= n <= limit && n <= |incoming|
    case Done => false
  }

  predicate Enabled(cap: nat, st: State, step: Step) {
    if step.client then CanMove(st.client, st.down, st.up, cap, step.n)
    else CanMove(st.server, st.up, st.down, cap, step.n)
  }

  /** The peer, its incoming channel and its outgoing channel after the call. */
  function Move(p: Peer, incoming: Bytes, outgoing: Bytes, cap: nat, n: nat): (Peer, Bytes, Bytes)
    requires CanMove(p, incoming, outgoing, cap, n)
  {
    if Doing(p).Send? then
      (p.(sent := p.sent + n), incoming, outgoing + Stream(p.mine)[p.sent..p.sent + n])
    else
      (p.(got := p.got + incoming[..n]), incoming[n..], outgoing)
  }

  function Next(cap: nat, st: State, step: Step): State
    requires Enabled(cap, st, step)
  {
    if step.client then
      var (p, down, up) := Move(st.client, st.down, st.up, cap, step.n);
      State(p, st.server, up, down)
    else
      var (p, up, down) := Move(st.server, st.up, st.down, cap, step.n);
      State(st.client, p, up, down)
  }

  /** A prescribed call is a move of the system, with the same effect on the side. */
  lemma CallIsMove(p: Peer, e: Event<byte>, incoming: Bytes, outgoing: Bytes, cap: nat)
    requires Prescribed(p, e)
    requires e.Wrote? ==> |outgoing| + e.n <= cap
    requires e.Got? ==> e.data <= incoming
    ensures var n := if e.Wrote? then e.n else |e.data|;
            CanMove(p, incoming, outgoing, cap, n) && Move(p, incoming, outgoing, cap, n).0 == After(p, e)
  {
  }

  function Init(a: Bytes, b: Bytes): State {
    State(Peer(true, a, 0, []), Peer(false, b, 0, []), [], [])
  }

  ghost predicate Run(cap: nat, st: State, steps: seq<Step>, end: State)
    decreases |steps|
  {
    if steps == [] then st == end
    else Enabled(cap, st, steps[0]) && Run(cap, Next(cap, st, steps[0]), steps[1..], end)
  }

  /** What `to` has read, plus what is in the channel, is what `from` has sent. */
  predicate Wired(from: Peer, to: Peer, channel: Bytes, cap: nat) {
    && from.sent <= from.Total()
    && to.got + channel == Stream(from.mine)[..from.sent]
    && |channel| <= cap
  }

  /** Calls happen in program order. */
  predicate Ordered(p: Peer) {
    if p.isClient then
      (|p.got| > 0 ==> p.sent >= 4) && (p.sent > 4 ==> |p.got| >= 4) && (|p.got| > 4 ==> p.sent == p.Total())
    else
      (p.sent > 0 ==> |p.got| >= 4) && (|p.got| > 4 ==> p.sent >= 4) && (p.sent > 4 ==> |p.got| >= p.Due())
  }

  predicate Inv(a: Bytes, b: Bytes, cap: nat, st: State) {
    && st.client.isClient && st.client.mine == a
    && !st.server.isClient && st.server.mine == b
    && Wired(st.client, st.server, st.up, cap)
    && Wired(st.server, st.client, st.down, cap)
    && |st.client.got| <= st.client.Due() && |st.server.got| <= st.server.Due()
    && Ordered(st.client) && Ordered(st.server)
  }

  lemma SendWired(from: Peer, to: Peer, channel: Bytes, cap: nat, n: nat)
    requires Wired(from, to, channel, cap) && from.sent + n <= from.Total() && |channel| + n <= cap
    ensures Wired(from.(sent := from.sent + n), to, channel + Stream(from.mine)[from.sent..from.sent + n], cap)
  {
    var s := Stream(from.mine);
    assert s[..from.sent + n] == s[..from.sent] + s[from.sent..from.sent + n];
    assert to.got + (channel + s[from.sent..from.sent + n]) == (to.got + channel) + s[from.sent..from.sent + n];
  }

  lemma ReceiveWired(from: Peer, to: Peer, channel: Bytes, cap: nat, n: nat)
    requires Wired(from, to, channel, cap) && n <= |channel|
    ensures Wired(from, to.(got := to.got + channel[..n]), channel[n..], cap)
  {
    assert channel == channel[..n] + channel[n..];
    assert to.got + channel[..n] + channel[n..] == to.got + channel;
  }

  /** Reading on does not change a length already read, and stays within what is due. */
  lemma ReceiveDue(p: Peer, more: Bytes)
    requires |p.got| <= p.Due()
    requires Doing(p).Receive? && 1 <= |more| <= Doing(p).limit
    ensures var p' := p.(got := p.got + more);
            && |p'.got| <= p'.Due()
            && (|p.got| >= 4 ==> p'.Due() == p.Due())
  {
    if |p.got| >= 4 {
      assert (p.got + more)[..4] == p.got[..4];
    }
  }

  /** A side that moves keeps its own order, and both channels stay wired. */
  lemma MoveInv(p: Peer, q: Peer, incoming: Bytes, outgoing: Bytes, cap: nat, n: nat)
    requires Wired(p, q, outgoing, cap) && Wired(q, p, incoming, cap)
    requires |p.got| <= p.Due() && Ordered(p) && CanMove(p, incoming, outgoing, cap, n)
    ensures var (p', incoming', outgoing') := Move(p, incoming, outgoing, cap, n);
            && Wired(p', q, outgoing', cap) && Wired(q, p', incoming', cap)
            && p'.isClient == p.isClient && p'.mine == p.mine
            && |p'.got| <= p'.Due() && Ordered(p')
  {
    if Doing(p).Send? {
      SendWired(p, q, outgoing, cap, n);
    } else {
      ReceiveWired(q, p, incoming, cap, n);
      ReceiveDue(p, incoming[..n]);
    }
  }

  lemma StepInv(a: Bytes, b: Bytes, cap: nat, st: State, step: Step)
    requires Inv(a, b, cap, st) && Enabled(cap, st, step)
    ensures Inv(a, b, cap, Next(cap, st, step))
  {
    if step.client {
      MoveInv(st.client, st.server, st.down, st.up, cap, step.n);
    } else {
      MoveInv(st.server, st.client, st.up, st.down, cap, step.n);
    }
  }

  lemma {:induction false} RunInv(a: Bytes, b: Bytes, cap: nat, st: State, steps: seq<Step>, end: State)
    requires Inv(a, b, cap, st) && Run(cap, st, steps, end)
    ensures Inv(a, b, cap, end)
    decreases |steps|
  {
    if steps != [] {
      StepInv(a, b, cap, st, steps[0]);
      RunInv(a, b, cap, Next(cap, st, steps[0]), steps[1..], end);
    }
  }

  /** A side that has read its four bytes knows the peer's length, if the field can carry it. */
  lemma DueIsTotal(from: Peer, to: Peer, channel: Bytes, cap: nat)
    requires Wired(from, to, channel, cap) && |from.mine| < U32 && |to.got| >= 4
    ensures to.Due() == from.Total() && from.sent >= 4
  {
    var s := Stream(from.mine);
    assert |to.got| <= from.sent;
    assert to.got[..4] == s[..from.sent][..4] == s[..4] == EncodeLength(|from.mine|);
    LengthRoundTrip(|from.mine|);
  }

  /** Some side can always move a byte, whatever the channel capacity. */
  lemma NotStuck(a: Bytes, b: Bytes, cap: nat, st: State) returns (step: Step)
    requires Inv(a, b, cap, st) && cap >= 1 && |a| < U32 && |b| < U32
    requires Doing(st.client) != Done || Doing(st.server) != Done
    ensures Enabled(cap, st, step)
  {
    var c, s := st.client, st.server;
    if |c.got| >= 4 {
      DueIsTotal(s, c, st.down, cap);
    }
    if |s.got| >= 4 {
      DueIsTotal(c, s, st.up, cap);
    }
    assert |s.got| + |st.up| == c.sent && |c.got| + |st.down| == s.sent;
    var clientMoves := (Doing(c).Send? && |st.up| < cap) || (Doing(c).Receive? && |st.down| > 0);
    step := Step(clientMoves, 1);
  }

  lemma {:induction false} RunBound(a: Bytes, b: Bytes, cap: nat, st: State, steps: seq<Step>, end: State)
    requires Inv(a, b, cap, st) && Run(cap, st, steps, end)
    ensures |steps| <= (end.client.sent + end.server.sent + |end.client.got| + |end.server.got|)
                     - (st.client.sent + st.server.sent + |st.client.got| + |st.server.got|)
    decreases |steps|
  {
    if steps != [] {
      StepInv(a, b, cap, st, steps[0]);
      RunBound(a, b, cap, Next(cap, st, steps[0]), steps[1..], end);
    }
  }

  /** Whatever the sizes, what a side reads is a prefix of what the peer sends. */
  lemma ReadsPrefix(a: Bytes, b: Bytes, cap: nat, steps: seq<Step>, st: State)
    requires Run(cap, Init(a, b), steps, st)
    ensures st.server.got <= Stream(a) && st.client.got <= Stream(b)
  {
    RunInv(a, b, cap, Init(a, b), steps, st);
    assert st.server.got <= st.server.got + st.up;
    assert st.client.got <= st.client.got + st.down;
  }

  /** In every run the client writes before it reads and the server reads before it writes, first the lengths, then the payloads. */
  lemma ProgramOrder(a: Bytes, b: Bytes, cap: nat, steps: seq<Step>, st: State)
    requires Run(cap, Init(a, b), steps, st)
    ensures |st.client.got| > 0 ==> st.client.sent >= 4
    ensures st.client.sent > 4 ==> |st.client.got| >= 4
    ensures |st.client.got| > 4 ==> st.client.sent == 4 + |a|
    ensures st.server.sent > 0 ==> |st.server.got| >= 4
    ensures |st.server.got| > 4 ==> st.server.sent >= 4
    ensures st.server.sent > 4 ==> |st.server.got| >= 4 + DecodeLength(st.server.got[..4])
  {
    RunInv(a, b, cap, Init(a, b), steps, st);
  }

  /**
   * For every pattern of short reads and writes and every capacity of at least
   * one byte: a run makes at most two calls per byte, and one that cannot go on
   * has left each side with exactly the peer's payload.
   */
  lemma ExchangeCompletes(a: Bytes, b: Bytes, cap: nat, steps: seq<Step>, st: State)
    requires cap >= 1 && |a| < U32 && |b| < U32
    requires Run(cap, Init(a, b), steps, st)
    ensures |steps| <= 2 * (|Stream(a)| + |Stream(b)|)
    ensures (forall step :: !Enabled(cap, st, step)) ==>
              st.client.got == Stream(b) && st.server.got == Stream(a)
  {
    RunInv(a, b, cap, Init(a, b), steps, st);
    RunBound(a, b, cap, Init(a, b), steps, st);
    assert |st.server.got| + |st.up| == st.client.sent && |st.client.got| + |st.down| == st.server.sent;
    if Doing(st.client) != Done || Doing(st.server) != Done {
      var step := NotStuck(a, b, cap, st);
      assert Enabled(cap, st, step);
    } else {
      DueIsTotal(st.client, st.server, st.up, cap);
      DueIsTotal(st.server, st.client, st.down, cap);
      assert st.up == [] && st.down == [];
      assert Stream(a)[..st.client.sent] == Stream(a) && Stream(b)[..st.server.sent] == Stream(b);
    }
  }
}
