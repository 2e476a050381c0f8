/**
 * ctx_hand_shake of src/perftest_communication.c over a socket: the client
 * writes its keys and reads the server's, the server reads and then writes.
 * Each message goes through one write and one read call, which must move all of
 * it. Either side takes the format from its own GID index and validation flag.
 */
module HandShake {
  import opened Hex
  import opened Wrappers
  import opened KeyMessage
  import opened Sockets

  const NUL := '\0'

  /** The bytes sprintf leaves in the message buffer. */
  function Message(f: Format, d: Dest): string
    requires |d.gid| == 16
  {
    PrintKeys(f, d) + [NUL]
  }

  /** A buffer read as a C string. */
  function CString(msg: string): (s: string)
    ensures s <= msg && NUL !in s
  {
    if msg == [] || msg[0] == NUL then []
    else
      assert msg == [msg[0]] + msg[1..];
      [msg[0]] + CString(msg[1..])
  }

  lemma {:induction false} CStringOf(s: string, rest: string)
    requires NUL !in s
    ensures CString(s + [NUL] + rest) == s
  {
    var msg := s + [NUL] + rest;
    if s != [] {
      assert msg[1..] == s[1..] + [NUL] + rest;
      CStringOf(s[1..], rest);
    }
  }

  lemma {:induction false} JoinPlain(fs: seq<string>)
    requires forall i :: 0 <= i < |fs| ==> AllDigits(fs[i])
    ensures NUL !in Join(fs)
  {
    if |fs| == 1 {
      assert fs[0] == Join(fs);
    } else if |fs| > 1 {
      JoinPlain(fs[1..]);
    }
  }

  lemma MessageText(f: Format, d: Dest)
    requires Carries(f, d)
    ensures |Message(f, d)| == MsgSize(f) && CString(Message(f, d)) == PrintKeys(f, d)
  {
    SizeExact(f, d);
    JoinPlain(Fields(Values(f, d), Widths(f)));
    CStringOf(PrintKeys(f, d), []);
    assert PrintKeys(f, d) + [NUL] + [] == Message(f, d);
  }

  // ----- one side -----

  /** ethernet_write_keys: the one write call must take the whole message. */
  method EthernetWriteKeys(sock: Socket<char>, f: Format, mine: Dest) returns (ok: bool)
    requires Carries(f, mine)
    modifies sock`output, sock`calls, sock`failed, sock`short
    ensures ok ==> sock.output == old(sock.output) + Message(f, mine)
    ensures !ok ==> exists k :: 0 <= k < |Message(f, mine)| && sock.output == old(sock.output) + Message(f, mine)[..k]
    ensures sock.short == (old(sock.short) || !ok)
    ensures ok ==> sock.calls == old(sock.calls) + [Wrote(MsgSize(f), MsgSize(f))]
  {
    MessageText(f, mine);
    var msg := Message(f, mine);
    var n := sock.Write(msg);
    ok := n == |msg|;
    assert msg[..|msg|] == msg;
    assert n <= 0 ==> sock.output == old(sock.output) + msg[..0];
  }

  /** ethernet_read_keys: the one read call must return the whole message. */
  method EthernetReadKeys(sock: Socket<char>, f: Format, rem: Dest) returns (r: Option<Dest>, ghost msg: string)
    modifies sock`input, sock`calls, sock`failed, sock`short
    ensures old(sock.input) == msg + sock.input && |msg| <= MsgSize(f)
    ensures r == if |msg| == MsgSize(f) then ReadKeys(f, CString(msg), rem) else None
    ensures sock.short == (old(sock.short) || |msg| < MsgSize(f))
    ensures |msg| == MsgSize(f) ==> sock.calls == old(sock.calls) + [Got(MsgSize(f), msg)]
  {
    var n, data := sock.Read(MsgSize(f));
    msg := data;
    if n != MsgSize(f) {
      return None, msg;
    }
    r := ParseKeys(f, CString(data), rem);
  }

  /**
   * One side of the handshake, and what it took off its input. It fails exactly
   * when a call moves less than a message or the message taken does not parse;
   * the client's calls are a write and a read, the server's the other way round.
   */
  method CtxHandShake(sock: Socket<char>, isClient: bool, f: Format, mine: Dest, rem: Dest)
    returns (r: Option<Dest>, ghost took: string)
    requires Carries(f, mine)
    modifies sock
    ensures r.Some? ==> sock.output == old(sock.output) + Message(f, mine)
    ensures r.Some? ==> |took| == MsgSize(f) && old(sock.input) == took + sock.input
    ensures r.Some? ==> r == ReadKeys(f, CString(took), rem)
    ensures r.Some? ==> sock.calls == if isClient then [Wrote(MsgSize(f), MsgSize(f)), Got(MsgSize(f), took)]
                                      else [Got(MsgSize(f), took), Wrote(MsgSize(f), MsgSize(f))]
    ensures r.None? <==> sock.short || (|took| == MsgSize(f) && ReadKeys(f, CString(took), rem).None?)
  {
    sock.calls, sock.short := [], false;
    r, took := None, "";
    if isClient {
      var ok := EthernetWriteKeys(sock, f, mine);
      if ok {
        r, took := EthernetReadKeys(sock, f, rem);
      }
    } else {
      r, took := EthernetReadKeys(sock, f, rem);
      if r.Some? {
        var ok := EthernetWriteKeys(sock, f, mine);
        if !ok {
          r := None;
        }
      }
    }
  }

  // ----- both sides -----

  /** The declared sizes tell the four formats apart. */
  lemma SizesDiffer(f: Format, g: Format)
    ensures MsgSize(f) == MsgSize(g) <==> f == g
  {
  }

  /** A side with format f takes a whole message off the front of the one its peer has written. */
  predicate Takes(f: Format, took: string, message: string) {
    took <= message && |took| == MsgSize(f)
  }

  /** Two sides that both take a whole message have the same format, and each holds the peer's destination. */
  lemma HandShakeExact(f: Format, g: Format, client: Dest, server: Dest, byClient: string, byServer: string)
    requires Carries(f, client) && Carries(g, server)
    requires Takes(f, byClient, Message(g, server)) && Takes(g, byServer, Message(f, client))
    ensures f == g
    ensures forall rem :: ReadKeys(f, CString(byClient), rem) == Some(Received(f, server, rem))
    ensures forall rem :: ReadKeys(g, CString(byServer), rem) == Some(Received(g, client, rem))
  {
    MessageText(f, client);
    MessageText(g, server);
    SizesDiffer(f, g);
    assert byClient == Message(g, server) && byServer == Message(f, client);
    forall rem
      ensures ReadKeys(f, PrintKeys(f, server), rem) == Some(Received(f, server, rem))
      ensures ReadKeys(g, PrintKeys(g, client), rem) == Some(Received(g, client, rem))
    {
      KeysRoundTrip(f, server, rem);
      KeysRoundTrip(g, client, rem);
    }
  }

  /** Both sides can take a whole message if and only if their formats are the same. */
  lemma HandShakeIff(f: Format, g: Format, client: Dest, server: Dest)
    requires Carries(f, client) && Carries(g, server)
    ensures (exists byClient, byServer :: Takes(f, byClient, Message(g, server)) && Takes(g, byServer, Message(f, client)))
       <==> f == g
  {
    if byClient, byServer :| Takes(f, byClient, Message(g, server)) && Takes(g, byServer, Message(f, client)) {
      HandShakeExact(f, g, client, server, byClient, byServer);
    }
    if f == g {
      MessageText(f, client);
      MessageText(g, server);
      assert Takes(f, Message(g, server), Message(g, server)) && Takes(g, Message(f, client), Message(f, client));
    }
  }

  /** With different formats the side with the larger one never gets its message. */
  lemma LargerStarves(f: Format, g: Format, d: Dest)
    requires Carries(g, d) && MsgSize(f) > MsgSize(g)
    ensures forall took: string :: took <= Message(g, d) ==> |took| != MsgSize(f)
  {
    MessageText(g, d);
  }

  // ----- a reader given the front of a longer message -----

  lemma Regroup(a: string, b: string, c: string)
    ensures a + ":" + b + ":" + c == a + ":" + (b + ":" + c)
  {
  }

  lemma ThroughText(vs: seq<nat>, ws: seq<nat>, tail: string)
    requires |vs| == |ws| >= 2
    ensures Join(Fields(vs, ws)) + ":" + tail
         == Print(vs[0], ws[0]) + ":" + (Join(Fields(vs[1..], ws[1..])) + ":" + tail)
  {
    JoinStep(vs, ws);
    Regroup(Print(vs[0], ws[0]), Join(Fields(vs[1..], ws[1..])), tail);
  }

  lemma AheadTwice(v: nat, vs: seq<nat>, o: Option<seq<nat>>)
    requires vs != [] && vs[0] == v
    ensures Ahead([v], Ahead(vs[1..], o)) == Ahead(vs, o)
  {
    assert o.Some? ==> [v] + (vs[1..] + o.value) == vs + o.value;
  }

  /** Fields scanned off the front of a longer text. */
  lemma {:induction false} ScanThrough(vs: seq<nat>, ws: seq<nat>, tail: string, us: seq<nat>)
    requires InRange(vs, ws) && |vs| >= 1 && us != [] && forall i :: 0 <= i < |ws| ==> ws[i] >= 1
    ensures Scan(Join(Fields(vs, ws)) + ":" + tail, ws + us) == Ahead(vs, Scan(tail, us))
  {
    assert (ws + us)[1..] == ws[1..] + us && (ws + us)[0] == ws[0];
    if |vs| == 1 {
      ScanField(vs[0], tail, ws + us);
      assert ws[1..] + us == us && vs == [vs[0]];
    } else {
      InRangeRest(vs, ws);
      ScanThrough(vs[1..], ws[1..], tail, us);
      ThroughText(vs, ws, tail);
      ScanField(vs[0], Join(Fields(vs[1..], ws[1..])) + ":" + tail, ws + us);
      AheadTwice(vs[0], vs, Scan(tail, us));
    }
  }

  /** A short field is scanned up to its colon. */
  lemma ScanShort(p: string, rest: string, ws: seq<nat>)
    requires AllDigits(p) && ws != [] && 1 <= |p| < ws[0]
    ensures Scan(p + ":" + rest, ws) == if |ws| == 1 then Some([Parse(p)]) else Ahead([Parse(p)], Scan(rest, ws[1..]))
  {
    var s := p + ":" + rest;
    assert s == p + (":" + rest);
    RunStops(p, ":" + rest, ws[0]);
    assert s[..|p|] == p && s[|p| + 1..] == rest;
  }

  /** Of a long field, as many digits are scanned as the reader asks for. */
  lemma ScanLong(p: string, rest: string, w: nat)
    requires AllDigits(p) && 1 <= w <= |p|
    ensures Scan(p + rest, [w]) == Some([Parse(p[..w])])
  {
    var s := p + rest;
    assert s == p[..w] + (p[w..] + rest);
    RunStops(p[..w], p[w..] + rest, w);
    assert s[..w] == p[..w];
  }

  /** A reader without a GID on a text whose head it can scan: the rest of its values decides. */
  lemma ReadHead(f: Format, g: Format, d: Dest, tail: string, us: seq<nat>, vs: seq<nat>, rem: Dest)
    requires !f.gid && Carries(g, d) && |vs| == |us| > 0 && Scan(tail, us) == Some(vs)
    requires Widths(f) == HeadWidths(Format(g.gid, false)) + us
    ensures var all := Head(Format(g.gid, false), d) + vs;
            ReadKeys(f, HeadText(Format(g.gid, false), d) + ":" + tail, rem)
            == Some(Fill(f, rem, all[..HeadCount(f)], rem.gid, all[HeadCount(f)]))
  {
    var h := Format(g.gid, false);
    PlainHeadInRange(g, d);
    ScanThrough(Head(h, d), HeadWidths(h), tail, us);
  }

  lemma PlainHeadInRange(g: Format, d: Dest)
    requires Carries(g, d)
    ensures InRange(Head(Format(g.gid, false), d), HeadWidths(Format(g.gid, false)))
  {
    var vs, ws := Values(g, d), Widths(g);
    var h := Format(g.gid, false);
    forall i | 0 <= i < 6
      ensures Head(h, d)[i] < Pow16(HeadWidths(h)[i])
    {
      assert vs[i] == Head(h, d)[i] && ws[i] == HeadWidths(h)[i];
    }
  }

  lemma ScanMixed(dv: bool, d: Dest, rest: string, rem: Dest)
    requires Carries(Format(true, dv), d)
    ensures var f := Format(false, dv);
            ReadKeys(f, HeadText(f, d) + ":" + (Print(d.gid[0], 2) + ":" + rest), rem)
            == Some(Received(f, d, rem).(srqn := d.gid[0]))
  {
    var f, g := Format(false, dv), Format(true, dv);
    var vs, ws := Head(f, d), HeadWidths(f);
    HeadInRange(g, d);
    RoundTrip(d.gid[0], 2);
    FirstPair(dv, d);
    ScanThrough(vs, ws, Print(d.gid[0], 2) + ":" + rest, [8]);
    ScanShort(Print(d.gid[0], 2), rest, [8]);
    assert Widths(f) == ws + [8];
    FillMixed(dv, d, rem, d.gid[0]);
  }

  lemma FillMixed(dv: bool, d: Dest, rem: Dest, x: nat)
    ensures var f := Format(false, dv);
            var all := Head(f, d) + [x];
            Fill(f, rem, all[..HeadCount(f)], rem.gid, all[HeadCount(f)]) == Received(f, d, rem).(srqn := x)
  {
    var f := Format(false, dv);
    assert (Head(f, d) + [x])[..HeadCount(f)] == Head(f, d);
  }

  /** The printed fields before the GID. */
  function HeadText(f: Format, d: Dest): string {
    Join(Fields(Head(f, d), HeadWidths(f)))
  }

  lemma {:induction false} JoinConcat(fs: seq<string>, gs: seq<string>)
    requires fs != [] && gs != []
    ensures Join(fs + gs) == Join(fs) + ":" + Join(gs)
  {
    if |fs| == 1 {
      assert (fs + gs)[1..] == gs;
    } else {
      JoinConcat(fs[1..], gs);
      assert (fs + gs)[1..] == fs[1..] + gs;
      Regroup(fs[0], Join(fs[1..]), Join(gs));
    }
  }

  lemma FieldsConcat(a: seq<nat>, ws: seq<nat>, b: seq<nat>, us: seq<nat>)
    requires |a| == |ws| && |b| == |us|
    ensures Fields(a + b, ws + us) == Fields(a, ws) + Fields(b, us)
  {
  }

  lemma JoinParts(hs: seq<string>, gs: seq<string>)
    requires hs != [] && |gs| >= 2
    ensures Join(hs + gs) + ":" == Join(hs) + ":" + (gs[0] + ":" + (Join(gs[1..]) + ":"))
  {
    JoinConcat(hs, gs);
    JoinFirst(gs);
  }

  /** The values and widths of a GID message, before the GID and from it on. */
  lemma GidParts(dv: bool, d: Dest)
    requires |d.gid| == 16
    ensures var g := Format(true, dv);
            Values(g, d) == Head(g, d) + (d.gid + [d.srqn]) && Widths(g) == HeadWidths(g) + (Pairs(16) + [8])
  {
  }

  /** A GID message is the head, the first GID byte and more. */
  lemma GidText(dv: bool, d: Dest) returns (rest: string)
    requires |d.gid| == 16
    ensures PrintKeys(Format(true, dv), d)
         == HeadText(Format(true, dv), d) + ":" + (Print(d.gid[0], 2) + ":" + rest)
  {
    var g := Format(true, dv);
    var vs, ws := d.gid + [d.srqn], Pairs(16) + [8];
    GidParts(dv, d);
    FieldsConcat(Head(g, d), HeadWidths(g), vs, ws);
    var gs := Fields(vs, ws);
    assert gs[0] == Print(d.gid[0], 2);
    JoinParts(Fields(Head(g, d), HeadWidths(g)), gs);
    rest := Join(gs[1..]) + ":";
  }

  /** The first n characters of a text cut inside its last part. */
  lemma CutInside(a: string, b: string, rest: string, n: nat)
    requires |a| + 1 + |b| + 1 <= n <= |a + ":" + (b + ":" + rest)|
    ensures var k := n - (|a| + |b| + 2);
            k <= |rest| && (a + ":" + (b + ":" + rest))[..n] == a + ":" + (b + ":" + rest[..k])
  {
  }

  lemma HeadLength(f: Format, d: Dest)
    requires Carries(f, d)
    ensures |HeadText(f, d)| == if f.dv then 66 else 49
  {
    HeadInRange(f, d);
    JoinLength(Head(f, d), HeadWidths(f));
    HeadTotal(f);
  }

  lemma WithoutNul(s: string)
    requires NUL !in s
    ensures CString(s) == s
  {
    if s != [] {
      WithoutNul(s[1..]);
    }
  }

  lemma FirstPair(dv: bool, d: Dest)
    requires Carries(Format(true, dv), d)
    ensures |Print(d.gid[0], 2)| == 2
  {
    GidValues(Format(true, dv), d);
    assert Pow16(2) == 256;
    WidthExact(d.gid[0], 2);
  }

  /** The front of a GID message, as long as a message without one. */
  lemma GidFront(dv: bool, d: Dest) returns (front: string, rest: string)
    requires Carries(Format(true, dv), d)
    ensures var f, g := Format(false, dv), Format(true, dv);
            |Message(g, d)| >= MsgSize(f) && front == Message(g, d)[..MsgSize(f)]
    ensures NUL !in front && front == HeadText(Format(true, dv), d) + ":" + (Print(d.gid[0], 2) + ":" + rest)
  {
    var f, g := Format(false, dv), Format(true, dv);
    MessageText(g, d);
    var all := GidText(dv, d);
    HeadLength(g, d);
    FirstPair(dv, d);
    CutInside(HeadText(g, d), Print(d.gid[0], 2), all, MsgSize(f));
    front, rest := PrintKeys(g, d)[..MsgSize(f)], all[..MsgSize(f) - (|HeadText(g, d)| + 4)];
  }

  /**
   * A reader without a GID whose peer writes with one gets the front of a longer
   * message and accepts it: it takes the first GID byte for the SRQ number.
   */
  lemma MixedFormats(dv: bool, d: Dest, rem: Dest)
    requires Carries(Format(true, dv), d)
    ensures var f, g := Format(false, dv), Format(true, dv);
            && |Message(g, d)| >= MsgSize(f)
            && ReadKeys(f, CString(Message(g, d)[..MsgSize(f)]), rem) == Some(Received(f, d, rem).(srqn := d.gid[0]))
  {
    var front, rest := GidFront(dv, d);
    WithoutNul(front);
    ScanMixed(dv, d, rest, rem);
  }

  lemma HeadInRange(f: Format, d: Dest)
    requires Carries(f, d)
    ensures InRange(Head(f, d), HeadWidths(f))
  {
    var vs, ws := Values(f, d), Widths(f);
    forall i | 0 <= i < HeadCount(f)
      ensures Head(f, d)[i] < Pow16(HeadWidths(f)[i])
    {
      assert vs[i] == Head(f, d)[i] && ws[i] == HeadWidths(f)[i];
    }
  }

  // ----- a reader without validation and a writer with it -----

  /** What follows the plain head in a validation message: the marker address, the GID if there is one, srqn. */
  function MarkerValues(gid: bool, d: Dest): seq<nat> {
    [d.tail] + (if gid then d.gid else []) + [d.srqn]
  }

  function MarkerWidths(gid: bool): seq<nat> {
    [16] + (if gid then Pairs(16) else []) + [8]
  }

  lemma MarkerParts(gid: bool, d: Dest)
    requires |d.gid| == 16
    ensures var g, h := Format(gid, true), Format(gid, false);
            && Values(g, d) == Head(h, d) + MarkerValues(gid, d)
            && Widths(g) == HeadWidths(h) + MarkerWidths(gid)
            && |MarkerValues(gid, d)| == |MarkerWidths(gid)| >= 2
  {
  }

  lemma MarkerFields(gid: bool, d: Dest) returns (gs: seq<string>)
    requires |d.gid| == 16
    ensures |gs| >= 2 && gs[0] == Print(d.tail, 16)
    ensures Fields(Values(Format(gid, true), d), Widths(Format(gid, true)))
         == Fields(Head(Format(gid, false), d), HeadWidths(Format(gid, false))) + gs
  {
    var h := Format(gid, false);
    MarkerParts(gid, d);
    gs := Fields(MarkerValues(gid, d), MarkerWidths(gid));
    FieldsConcat(Head(h, d), HeadWidths(h), MarkerValues(gid, d), MarkerWidths(gid));
  }

  /** A validation message is the plain head, the marker address and more. */
  lemma MarkerText(gid: bool, d: Dest) returns (rest: string)
    requires |d.gid| == 16
    ensures PrintKeys(Format(gid, true), d)
         == HeadText(Format(gid, false), d) + ":" + (Print(d.tail, 16) + ":" + rest)
  {
    var gs := MarkerFields(gid, d);
    var hs := Fields(Head(Format(gid, false), d), HeadWidths(Format(gid, false)));
    if gid {
      JoinParts(hs, gs);
      rest := Join(gs[1..]) + ":";
    } else {
      JoinConcat(hs, gs);
      rest := Join(gs[1..]);
    }
  }

  lemma PlainHeadLength(g: Format, d: Dest)
    requires Carries(g, d)
    ensures |HeadText(Format(g.gid, false), d)| == 49
  {
    PlainHeadInRange(g, d);
    JoinLength(Head(Format(g.gid, false), d), HeadWidths(Format(g.gid, false)));
    HeadTotal(Format(g.gid, false));
  }

  lemma MarkerWidth(gid: bool, d: Dest)
    requires Carries(Format(gid, true), d)
    ensures |Print(d.tail, 16)| == 16
  {
    var g := Format(gid, true);
    assert Values(g, d)[6] == d.tail && Widths(g)[6] == 16;
    WidthExact(d.tail, 16);
  }

  /** The first n characters of a text cut inside its middle part. */
  lemma CutMiddle(a: string, b: string, rest: string, n: nat)
    requires |a| + 1 <= n <= |a| + 1 + |b|
    ensures (a + ":" + (b + ":" + rest))[..n] == a + ":" + b[..n - |a| - 1]
  {
  }

  /** Less than a whole message is text without a terminator. */
  lemma FrontOfMessage(g: Format, d: Dest, n: nat) returns (front: string)
    requires Carries(g, d) && n < MsgSize(g)
    ensures |Message(g, d)| == |PrintKeys(g, d)| + 1 == MsgSize(g)
    ensures front == Message(g, d)[..n] == PrintKeys(g, d)[..n] && NUL !in front
  {
    MessageText(g, d);
    front := PrintKeys(g, d)[..n];
    forall c | c in front
      ensures c != NUL
    {
      assert c in PrintKeys(g, d);
    }
  }

  /** The front of a validation message, as long as a plain one. */
  lemma MarkerFront(gid: bool, d: Dest) returns (front: string)
    requires Carries(Format(gid, true), d)
    ensures |Message(Format(gid, true), d)| >= MsgSize(Format(false, false))
    ensures front == Message(Format(gid, true), d)[..MsgSize(Format(false, false))]
    ensures |Print(d.tail, 16)| == 16
    ensures NUL !in front && front == HeadText(Format(gid, false), d) + ":" + Print(d.tail, 16)[..9]
  {
    PlainHeadLength(Format(gid, true), d);
    MarkerWidth(gid, d);
    var rest := MarkerText(gid, d);
    CutMiddle(HeadText(Format(gid, false), d), Print(d.tail, 16), rest, MsgSize(Format(false, false)));
    front := FrontOfMessage(Format(gid, true), d, MsgSize(Format(false, false)));
  }

  lemma FillPlain(gid: bool, d: Dest, rem: Dest, x: nat)
    ensures var f, all := Format(false, false), Head(Format(gid, false), d) + [x];
            Fill(f, rem, all[..HeadCount(f)], rem.gid, all[HeadCount(f)]) == Received(f, d, rem).(srqn := x)
  {
    var all := Head(Format(gid, false), d) + [x];
    assert all[..6] == Head(Format(gid, false), d);
  }

  lemma ScanMarker(gid: bool, d: Dest, p: string, rem: Dest)
    requires Carries(Format(gid, true), d) && AllDigits(p) && |p| == 9
    ensures ReadKeys(Format(false, false), HeadText(Format(gid, false), d) + ":" + p, rem)
         == Some(Received(Format(false, false), d, rem).(srqn := Parse(p[..8])))
  {
    var f := Format(false, false);
    assert p + [] == p;
    ScanLong(p, [], 8);
    assert Widths(f) == HeadWidths(Format(gid, false)) + [8];
    ReadHead(f, Format(gid, true), d, p, [8], [Parse(p[..8])], rem);
    FillPlain(gid, d, rem, Parse(p[..8]));
  }

  /**
   * A reader with neither GID nor validation whose peer writes with validation
   * accepts the front of that message: it takes the first eight digits of the
   * marker address for the SRQ number.
   */
  lemma MixedValidation(gid: bool, d: Dest, rem: Dest)
    requires Carries(Format(gid, true), d)
    ensures var f, g := Format(false, false), Format(gid, true);
            && |Message(g, d)| >= MsgSize(f) && |Print(d.tail, 16)| == 16
            && ReadKeys(f, CString(Message(g, d)[..MsgSize(f)]), rem)
               == Some(Received(f, d, rem).(srqn := Parse(Print(d.tail, 16)[..8])))
  {
    var p := Print(d.tail, 16);
    var front := MarkerFront(gid, d);
    WithoutNul(front);
    assert p[..9][..8] == p[..8];
    ScanMarker(gid, d, p[..9], rem);
  }

  /** A GID message without validation: the head, two GID bytes and more. */
  lemma GidTextTwo(d: Dest) returns (rest: string)
    requires |d.gid| == 16
    ensures PrintKeys(Format(true, false), d)
         == HeadText(Format(true, false), d) + ":" + (Print(d.gid[0], 2) + ":" + (Print(d.gid[1], 2) + ":" + rest))
  {
    var g := Format(true, false);
    var vs, ws := d.gid + [d.srqn], Pairs(16) + [8];
    GidParts(false, d);
    FieldsConcat(Head(g, d), HeadWidths(g), vs, ws);
    var gs := Fields(vs, ws);
    assert gs[0] == Print(d.gid[0], 2) && gs[1..][0] == Print(d.gid[1], 2);
    JoinParts(Fields(Head(g, d), HeadWidths(g)), gs);
    JoinFirst(gs[1..]);
    rest := Join(gs[1..][1..]) + ":";
  }

  lemma PairWidth(d: Dest, i: nat)
    requires Carries(Format(true, false), d) && i < 16
    ensures |Print(d.gid[i], 2)| == 2 && Parse(Print(d.gid[i], 2)) == d.gid[i]
  {
    GidValues(Format(true, false), d);
    assert Pow16(2) == 256;
    WidthExact(d.gid[i], 2);
    RoundTrip(d.gid[i], 2);
  }

  lemma CutAfterTwo(a: string, b: string, c: string, rest: string, n: nat)
    requires |a| + |b| + |c| + 3 <= n <= |a + ":" + (b + ":" + (c + ":" + rest))|
    ensures var k := n - (|a| + |b| + |c| + 3);
            k <= |rest| && (a + ":" + (b + ":" + (c + ":" + rest)))[..n] == a + ":" + (b + ":" + (c + ":" + rest[..k]))
  {
    CutInside(a, b, c + ":" + rest, n);
    var m := n - (|a| + |b| + 2);
    assert (c + ":" + rest)[..m] == c + ":" + rest[..m - |c| - 1];
  }

  lemma PairsFront(d: Dest) returns (front: string, rest: string)
    requires Carries(Format(true, false), d)
    ensures |Message(Format(true, false), d)| >= MsgSize(Format(false, true))
    ensures front == Message(Format(true, false), d)[..MsgSize(Format(false, true))] && NUL !in front
    ensures front == HeadText(Format(true, false), d) + ":" + (Print(d.gid[0], 2) + ":" + (Print(d.gid[1], 2) + ":" + rest))
  {
    var g, n := Format(true, false), MsgSize(Format(false, true));
    front := FrontOfMessage(g, d, n);
    HeadLength(g, d);
    PairWidth(d, 0);
    PairWidth(d, 1);
    var all := GidTextTwo(d);
    CutAfterTwo(HeadText(g, d), Print(d.gid[0], 2), Print(d.gid[1], 2), all, n);
    rest := all[..n - (|HeadText(g, d)| + 7)];
  }

  lemma FillBoth(d: Dest, rem: Dest, x: nat, y: nat)
    ensures var f, all := Format(false, true), Head(Format(true, false), d) + [x, y];
            Fill(f, rem, all[..HeadCount(f)], rem.gid, all[HeadCount(f)]) == Received(f, d, rem).(tail := x, srqn := y)
  {
    var all := Head(Format(true, false), d) + [x, y];
    assert all[..7] == Head(Format(true, false), d) + [x];
  }

  lemma ScanTwo(p: string, q: string, rest: string)
    requires AllDigits(p) && AllDigits(q) && |p| == |q| == 2
    ensures Scan(p + ":" + (q + ":" + rest), [16, 8]) == Some([Parse(p), Parse(q)])
  {
    ScanShort(q, rest, [8]);
    ScanShort(p, q + ":" + rest, [16, 8]);
    assert [16, 8][1..] == [8] && [Parse(p)] + [Parse(q)] == [Parse(p), Parse(q)];
  }

  lemma ScanPairs(d: Dest, rest: string, rem: Dest)
    requires Carries(Format(true, false), d)
    ensures ReadKeys(Format(false, true),
                     HeadText(Format(true, false), d) + ":" + (Print(d.gid[0], 2) + ":" + (Print(d.gid[1], 2) + ":" + rest)), rem)
         == Some(Received(Format(false, true), d, rem).(tail := d.gid[0], srqn := d.gid[1]))
  {
    var f, g := Format(false, true), Format(true, false);
    PairWidth(d, 0);
    PairWidth(d, 1);
    ScanTwo(Print(d.gid[0], 2), Print(d.gid[1], 2), rest);
    assert Widths(f) == HeadWidths(g) + [16, 8];
    ReadHead(f, g, d, Print(d.gid[0], 2) + ":" + (Print(d.gid[1], 2) + ":" + rest), [16, 8], [d.gid[0], d.gid[1]], rem);
    FillBoth(d, rem, d.gid[0], d.gid[1]);
  }

  /**
   * A reader with validation and no GID whose peer writes the other way round
   * accepts the front of that message: it takes the first two GID bytes for the
   * marker address and the SRQ number.
   */
  lemma MixedBoth(d: Dest, rem: Dest)
    requires Carries(Format(true, false), d)
    ensures var f, g := Format(false, true), Format(true, false);
            && |Message(g, d)| >= MsgSize(f)
            && ReadKeys(f, CString(Message(g, d)[..MsgSize(f)]), rem)
               == Some(Received(f, d, rem).(tail := d.gid[0], srqn := d.gid[1]))
  {
    var front, rest := PairsFront(d);
    WithoutNul(front);
    ScanPairs(d, rest, rem);
  }
}
