/**
 * The fixed-width key message of src/perftest_communication.c: printed by
 * ethernet_write_keys, read by ethernet_read_keys with sscanf, or, when a GID
 * is used, by cutting at colons.
 */
module KeyMessage {
  import opened Hex
  import opened Wrappers

  /** struct pingpong_dest; signed fields are taken as the unsigned values %x prints. */
  datatype Dest = Dest(lid: nat, outReads: nat, qpn: nat, psn: nat, rkey: nat, vaddr: nat, tail: nat,
                       gid: seq<nat>, srqn: nat)

  /** The four formats: with or without GID, with or without data validation. */
  datatype Format = Format(gid: bool, dv: bool)

  const KEY_MSG_SIZE := 59
  const KEY_MSG_SIZE_GID := 108
  const KEY_MSG_SIZE_DV := 76
  const KEY_MSG_SIZE_GID_DV := 125

  function MsgSize(f: Format): nat {
    if f.gid then (if f.dv then KEY_MSG_SIZE_GID_DV else KEY_MSG_SIZE_GID)
    else (if f.dv then KEY_MSG_SIZE_DV else KEY_MSG_SIZE)
  }

  function HeadWidths(f: Format): seq<nat> {
    if f.dv then [4, 4, 6, 6, 8, 16, 16] else [4, 4, 6, 6, 8, 16]
  }

  /** k two-digit fields. */
  function Pairs(k: nat): (ws: seq<nat>)
    ensures |ws| == k
  {
    seq(k, _ => 2)
  }

  /** The field widths of the print format. */
  function Widths(f: Format): (ws: seq<nat>)
    ensures |ws| == (if f.dv then 8 else 7) + (if f.gid then 16 else 0)
    ensures forall i :: 0 <= i < |ws| ==> ws[i] >= 1
  {
    HeadWidths(f) + (if f.gid then Pairs(16) else []) + [8]
  }

  /** The printed values, in order. */
  function Values(f: Format, d: Dest): (vs: seq<nat>)
    requires |d.gid| == 16
    ensures |vs| == |Widths(f)|
  {
    [d.lid, d.outReads, d.qpn, d.psn, d.rkey, d.vaddr] + (if f.dv then [d.tail] else [])
    + (if f.gid then d.gid else []) + [d.srqn]
  }

  /** The order and the widths of the fields, format by format. */
  lemma FieldOrder(f: Format, d: Dest, i: nat)
    requires |d.gid| == 16 && i < 16
    ensures var vs, ws, h := Values(f, d), Widths(f), if f.dv then 7 else 6;
            && vs[0] == d.lid && vs[1] == d.outReads && vs[2] == d.qpn && vs[3] == d.psn && vs[4] == d.rkey && vs[5] == d.vaddr
            && ws[0] == 4 && ws[1] == 4 && ws[2] == 6 && ws[3] == 6 && ws[4] == 8 && ws[5] == 16
            && (f.dv ==> vs[6] == d.tail && ws[6] == 16)
            && (f.gid ==> vs[h + i] == d.gid[i] && ws[h + i] == 2)
            && |vs| == |ws| == h + (if f.gid then 17 else 1)
            && vs[|vs| - 1] == d.srqn && ws[|ws| - 1] == 8
  {
  }

  /** Every value printed to its width. */
  function Fields(vs: seq<nat>, ws: seq<nat>): (fs: seq<string>)
    requires |vs| == |ws|
    ensures |fs| == |vs|
    ensures forall i :: 0 <= i < |fs| ==> fs[i] == Print(vs[i], ws[i])
  {
    seq(|vs|, i requires 0 <= i < |vs| => Print(vs[i], ws[i]))
  }

  /** Fields joined by colons. */
  function Join(fs: seq<string>): string {
    if fs == [] then []
    else if |fs| == 1 then fs[0]
    else fs[0] + ":" + Join(fs[1..])
  }

  /** sprintf's output without the terminator; the GID formats end in a colon. */
  function PrintKeys(f: Format, d: Dest): string
    requires |d.gid| == 16
  {
    Join(Fields(Values(f, d), Widths(f))) + (if f.gid then ":" else "")
  }

  // ----- the declared size -----

  predicate InRange(vs: seq<nat>, ws: seq<nat>) {
    |vs| == |ws| && forall i :: 0 <= i < |vs| ==> vs[i] < Pow16(ws[i])
  }

  function SumWidths(ws: seq<nat>): nat {
    if ws == [] then 0 else ws[0] + SumWidths(ws[1..])
  }

  lemma InRangeRest(vs: seq<nat>, ws: seq<nat>)
    requires |vs| == |ws| >= 1
    ensures InRange(vs, ws) <==> vs[0] < Pow16(ws[0]) && InRange(vs[1..], ws[1..])
  {
    if InRange(vs[1..], ws[1..]) && vs[0] < Pow16(ws[0]) {
      forall i | 0 <= i < |vs|
        ensures vs[i] < Pow16(ws[i])
      {
        if i > 0 {
          assert vs[1..][i - 1] < Pow16(ws[1..][i - 1]);
        }
      }
    }
  }

  /** A joined text is never shorter than its widths ask for, and as short only when every value fits. */
  lemma {:induction false} JoinLength(vs: seq<nat>, ws: seq<nat>)
    requires |vs| == |ws| >= 1 && forall i :: 0 <= i < |ws| ==> ws[i] >= 1
    ensures |Join(Fields(vs, ws))| >= SumWidths(ws) + |ws| - 1
    ensures |Join(Fields(vs, ws))| == SumWidths(ws) + |ws| - 1 <==> InRange(vs, ws)
  {
    WidthExact(vs[0], ws[0]);
    InRangeRest(vs, ws);
    if |vs| >= 2 {
      JoinLength(vs[1..], ws[1..]);
      JoinStep(vs, ws);
    }
  }

  lemma {:induction false} SumConcat(a: seq<nat>, b: seq<nat>)
    ensures SumWidths(a + b) == SumWidths(a) + SumWidths(b)
  {
    if a == [] {
      assert a + b == b;
    } else {
      SumConcat(a[1..], b);
      assert (a + b)[1..] == a[1..] + b;
    }
  }

  lemma {:induction false} PairsTotal(k: nat)
    ensures SumWidths(Pairs(k)) == 2 * k
  {
    if k > 0 {
      PairsTotal(k - 1);
      assert Pairs(k)[1..] == Pairs(k - 1);
    }
  }

  lemma HeadTotal(f: Format)
    ensures SumWidths(HeadWidths(f)) == if f.dv then 60 else 44
  {
    assert SumWidths([8, 16]) == 24;
    assert SumWidths([6, 6, 8, 16]) == 36;
    assert SumWidths([8, 16, 16]) == 40;
    assert SumWidths([6, 6, 8, 16, 16]) == 52;
  }

  lemma WidthsTotal(f: Format)
    ensures SumWidths(Widths(f)) == 52 + (if f.dv then 16 else 0) + (if f.gid then 32 else 0)
  {
    var g := if f.gid then Pairs(16) else [];
    SumConcat(HeadWidths(f) + g, [8]);
    SumConcat(HeadWidths(f), g);
    PairsTotal(16);
    HeadTotal(f);
    assert SumWidths([8]) == 8;
  }

  /** With its terminator the message fills the declared size exactly when every field is in range. */
  lemma SizeExact(f: Format, d: Dest)
    requires |d.gid| == 16
    ensures |PrintKeys(f, d)| + 1 == MsgSize(f) <==> InRange(Values(f, d), Widths(f))
    ensures |PrintKeys(f, d)| + 1 >= MsgSize(f)
  {
    JoinLength(Values(f, d), Widths(f));
    WidthsTotal(f);
  }

  // ----- reading without a GID: sscanf -----

  /** sscanf of the print format: up to width digits a field, a colon between fields. */
  function Scan(s: string, ws: seq<nat>): Option<seq<nat>> {
    if ws == [] then Some([])
    else
      var k := Run(s, ws[0]);
      if k == 0 then None
      else if |ws| == 1 then Some([Parse(s[..k])])
      else if k == |s| || s[k] != ':' then None
      else
        match Scan(s[k + 1..], ws[1..])
        case None => None
        case Some(vs) => Some([Parse(s[..k])] + vs)
  }

  /** Values read ahead of others. */
  function Ahead(vs: seq<nat>, o: Option<seq<nat>>): Option<seq<nat>> {
    match o
    case None => None
    case Some(xs) => Some(vs + xs)
  }

  /** One field and its colon are scanned off the front. */
  lemma ScanField(v: nat, tail: string, ws: seq<nat>)
    requires |ws| >= 2 && ws[0] >= 1 && v < Pow16(ws[0])
    ensures Scan(Print(v, ws[0]) + ":" + tail, ws) == Ahead([v], Scan(tail, ws[1..]))
  {
    var p := Print(v, ws[0]);
    var s := p + ":" + tail;
    WidthExact(v, ws[0]);
    RoundTrip(v, ws[0]);
    assert s == p + (":" + tail);
    RunStops(p, ":" + tail, ws[0]);
    assert s[..|p|] == p && s[|p|] == ':' && s[|p| + 1..] == tail;
  }

  lemma ScanLast(v: nat, w: nat)
    requires w >= 1 && v < Pow16(w)
    ensures Scan(Print(v, w), [w]) == Some([v])
  {
    var p := Print(v, w);
    WidthExact(v, w);
    RoundTrip(v, w);
    assert p + [] == p;
    RunStops(p, [], w);
    assert p[..|p|] == p;
  }

  lemma JoinStep(vs: seq<nat>, ws: seq<nat>)
    requires |vs| == |ws| >= 2
    ensures Join(Fields(vs, ws)) == Print(vs[0], ws[0]) + ":" + Join(Fields(vs[1..], ws[1..]))
  {
    assert Fields(vs, ws)[1..] == Fields(vs[1..], ws[1..]);
  }

  lemma {:induction false} ScanJoin(vs: seq<nat>, ws: seq<nat>)
    requires InRange(vs, ws) && forall i :: 0 <= i < |ws| ==> ws[i] >= 1
    ensures Scan(Join(Fields(vs, ws)), ws) == Some(vs)
  {
    if |vs| == 1 {
      ScanLast(vs[0], ws[0]);
      assert vs == [vs[0]] && ws == [ws[0]];
    } else if |vs| >= 2 {
      InRangeRest(vs, ws);
      ScanJoin(vs[1..], ws[1..]);
      JoinStep(vs, ws);
      ScanField(vs[0], Join(Fields(vs[1..], ws[1..])), ws);
      assert vs == [vs[0]] + vs[1..];
    }
  }

  // ----- reading with a GID: cutting at colons -----

  /** The text before the first colon and the text after it. */
  function Cut(s: string): Option<(string, string)> {
    if s == [] then None
    else if s[0] == ':' then Some(([], s[1..]))
    else
      match Cut(s[1..])
      case None => None
      case Some(p) => Some(([s[0]] + p.0, p.1))
  }

  lemma {:induction false} CutAt(a: string, b: string)
    requires AllDigits(a)
    ensures Cut(a + ":" + b) == Some((a, b))
  {
    var s := a + ":" + b;
    if a == [] {
      assert s[1..] == b;
    } else {
      assert s[1..] == a[1..] + ":" + b;
      CutAt(a[1..], b);
      assert [a[0]] + a[1..] == a;
    }
  }

  type Parts = Option<(seq<string>, string)>

  function Prepend(fs: seq<string>, o: Parts): Parts {
    match o
    case None => None
    case Some(q) => Some((fs + q.0, q.1))
  }

  /** n fields cut off one after another, and what follows the last colon. */
  function CutFields(s: string, n: nat): Parts
    decreases n
  {
    if n == 0 then Some(([], s))
    else
      match Cut(s)
      case None => None
      case Some(p) => Prepend([p.0], CutFields(p.1, n - 1))
  }

  lemma JoinFirst(fs: seq<string>)
    requires |fs| >= 2
    ensures Join(fs) + ":" == fs[0] + ":" + (Join(fs[1..]) + ":")
  {
  }

  lemma {:induction false} CutJoin(fs: seq<string>, n: nat)
    requires n < |fs| && forall i :: 0 <= i < |fs| ==> AllDigits(fs[i])
    ensures CutFields(Join(fs) + ":", n) == Some((fs[..n], Join(fs[n..]) + ":"))
    decreases n
  {
    if n == 0 {
      assert fs[0..] == fs && fs[..0] == [];
    } else {
      JoinFirst(fs);
      CutAt(fs[0], Join(fs[1..]) + ":");
      CutJoin(fs[1..], n - 1);
      assert [fs[0]] + fs[1..][..n - 1] == fs[..n];
      assert fs[1..][n - 1..] == fs[n..];
    }
  }

  // ----- ethernet_read_keys -----

  /** The fields before the GID, or before srqn without one. */
  function HeadCount(f: Format): nat {
    if f.dv then 7 else 6
  }

  /** strtol on every field. */
  function Numbers(fs: seq<string>): (vs: seq<nat>)
    ensures |vs| == |fs|
  {
    seq(|fs|, i requires 0 <= i < |fs| => Leading(fs[i]))
  }

  /** Values read, put into the destination; what a format does not carry keeps its old value. */
  function Fill(f: Format, rem: Dest, head: seq<nat>, gid: seq<nat>, srqn: nat): Dest
    requires |head| == HeadCount(f)
  {
    Dest(head[0], head[1], head[2], head[3], head[4], head[5], if f.dv then head[6] else rem.tail, gid, srqn)
  }

  /** What an unsigned char keeps of each value. */
  function Bytes(vs: seq<nat>): (r: seq<nat>)
    ensures |r| == |vs|
    ensures forall i :: 0 <= i < |r| ==> r[i] < 256 && (vs[i] + 256 - r[i]) % 256 == 0
  {
    seq(|vs|, i requires 0 <= i < |vs| => vs[i] % 256)
  }

  lemma {:induction false} ScanCount(s: string, ws: seq<nat>)
    ensures Scan(s, ws).Some? ==> |Scan(s, ws).value| == |ws|
  {
    if ws != [] {
      var k := Run(s, ws[0]);
      if 0 < k < |s| {
        ScanCount(s[k + 1..], ws[1..]);
      }
    }
  }

  lemma {:induction false} CutCount(s: string, n: nat)
    ensures CutFields(s, n).Some? ==> |CutFields(s, n).value.0| == n
    decreases n
  {
    if n > 0 && Cut(s).Some? {
      CutCount(Cut(s).value.1, n - 1);
    }
  }

  function ReadKeys(f: Format, msg: string, rem: Dest): Option<Dest> {
    var h := HeadCount(f);
    if f.gid then
      CutCount(msg, h + 15);
      match CutFields(msg, h + 15)
      case None => None
      case Some(p) =>
        var (fs, rest) := p;
        var vs := Numbers(fs);
        if |rest| < 3 then None
        else
          match Cut(rest[3..])
          case None => None
          case Some(q) =>
            Some(Fill(f, rem, vs[..h], Bytes(vs[h..]) + [Leading(rest) % 256], Leading(q.0)))
    else
      ScanCount(msg, Widths(f));
      match Scan(msg, Widths(f))
      case None => None
      case Some(vs) => Some(Fill(f, rem, vs[..h], rem.gid, vs[h]))
  }

  /** The colon loop of the GID reader. */
  method CutLoop(msg: string, n: nat) returns (r: Parts)
    ensures r == CutFields(msg, n)
  {
    var pstr := msg;
    var fs: seq<string> := [];
    PrependTwice([], [], CutFields(msg, n));
    for i := 0 to n
      invariant CutFields(msg, n) == Prepend(fs, CutFields(pstr, n - i))
    {
      var cut := Cut(pstr);
      if cut.None? {
        return None;
      }
      PrependTwice(fs, [cut.value.0], CutFields(cut.value.1, n - i - 1));
      fs := fs + [cut.value.0];
      pstr := cut.value.1;
    }
    assert fs + [] == fs;
    return Some((fs, pstr));
  }

  lemma PrependTwice(a: seq<string>, b: seq<string>, o: Parts)
    ensures Prepend(a, Prepend(b, o)) == Prepend(a + b, o)
    ensures Prepend([], o) == o
  {
    if o.Some? {
      assert a + (b + o.value.0) == (a + b) + o.value.0;
      assert [] + o.value.0 == o.value.0;
    }
  }

  /** What ethernet_read_keys does with a message once it is read. */
  method ParseKeys(f: Format, msg: string, rem: Dest) returns (r: Option<Dest>)
    ensures r == ReadKeys(f, msg, rem)
  {
    var h := HeadCount(f);
    if !f.gid {
      ScanCount(msg, Widths(f));
      var parsed := Scan(msg, Widths(f));
      if parsed.None? {
        return None;
      }
      return Some(Fill(f, rem, parsed.value[..h], rem.gid, parsed.value[h]));
    }
    CutCount(msg, h + 15);
    var parts := CutLoop(msg, h + 15);
    if parts.None? {
      return None;
    }
    var (fs, pstr) := parts.value;
    var vs := Numbers(fs);
    var last := Leading(pstr) % 256;
    if |pstr| < 3 {
      return None;
    }
    var cut := Cut(pstr[3..]);
    if cut.None? {
      return None;
    }
    return Some(Fill(f, rem, vs[..h], Bytes(vs[h..]) + [last], Leading(cut.value.0)));
  }

  // ----- the round trip -----

  /** The last GID byte is followed by one colon, so a fixed skip of three reaches srqn. */
  lemma SkipToSrqn(p: string, q: string)
    requires |p| == 2 && AllDigits(p) && AllDigits(q)
    ensures var rest := Join([p, q]) + ":";
            |rest| >= 3 && Leading(rest) == Parse(p) && Cut(rest[3..]) == Some((q, ""))
  {
    var rest := Join([p, q]) + ":";
    assert [p, q][1..] == [q];
    assert Join([q]) == q;
    assert rest == p + ":" + q + ":";
    assert rest == p + (":" + q + ":");
    LeadingIs(p, ":" + q + ":");
    assert rest[3..] == q + ":" + "";
    CutAt(q, "");
  }

  lemma LeadingPrint(n: nat, w: nat)
    ensures Leading(Print(n, w)) == n
  {
    LeadingIs(Print(n, w), []);
    assert Print(n, w) + [] == Print(n, w);
    RoundTrip(n, w);
  }

  lemma NumbersOfFields(vs: seq<nat>, ws: seq<nat>)
    requires |vs| == |ws|
    ensures Numbers(Fields(vs, ws)) == vs
  {
    forall i | 0 <= i < |vs|
      ensures Numbers(Fields(vs, ws))[i] == vs[i]
    {
      LeadingPrint(vs[i], ws[i]);
    }
  }

  /** The cuts of a printed GID message. */
  lemma GidCuts(f: Format, vs: seq<nat>, ws: seq<nat>, n: nat)
    requires |vs| == |ws| == n + 2
    requires vs[n] < 256 && ws[n] == 2
    ensures var msg, rest := Join(Fields(vs, ws)) + ":", Join([Print(vs[n], 2), Print(vs[n + 1], ws[n + 1])]) + ":";
            && CutFields(msg, n) == Some((Fields(vs[..n], ws[..n]), rest))
            && |rest| >= 3 && Leading(rest) == vs[n] && Cut(rest[3..]) == Some((Print(vs[n + 1], ws[n + 1]), ""))
  {
    var fs := Fields(vs, ws);
    CutJoin(fs, n);
    assert fs[..n] == Fields(vs[..n], ws[..n]);
    assert fs[n..] == [Print(vs[n], 2), Print(vs[n + 1], ws[n + 1])];
    assert Pow16(2) == 256;
    WidthExact(vs[n], 2);
    RoundTrip(vs[n], 2);
    SkipToSrqn(Print(vs[n], 2), Print(vs[n + 1], ws[n + 1]));
  }

  /** What the GID reader returns once its cuts are known. */
  lemma ReadGid(f: Format, msg: string, rem: Dest, fs: seq<string>, rest: string, text: string)
    requires f.gid && |fs| == HeadCount(f) + 15 && CutFields(msg, |fs|) == Some((fs, rest))
    requires |rest| >= 3 && Cut(rest[3..]) == Some((text, ""))
    ensures var h, vs := HeadCount(f), Numbers(fs);
            ReadKeys(f, msg, rem) == Some(Fill(f, rem, vs[..h], Bytes(vs[h..]) + [Leading(rest) % 256], Leading(text)))
  {
  }

  /** The values before srqn. */
  function Head(f: Format, d: Dest): (r: seq<nat>)
    ensures |r| == HeadCount(f)
  {
    [d.lid, d.outReads, d.qpn, d.psn, d.rkey, d.vaddr] + (if f.dv then [d.tail] else [])
  }

  lemma GidValues(f: Format, d: Dest)
    requires f.gid && |d.gid| == 16 && InRange(Values(f, d), Widths(f))
    ensures var vs, ws, n := Values(f, d), Widths(f), HeadCount(f) + 15;
            && vs[..n] == Head(f, d) + d.gid[..15] && vs[n] == d.gid[15] && vs[n + 1] == d.srqn
            && ws[n] == 2 && ws[n + 1] == 8
    ensures forall i :: 0 <= i < 16 ==> d.gid[i] < 256
  {
    var vs, ws, h := Values(f, d), Widths(f), HeadCount(f);
    assert Pow16(2) == 256;
    forall i | 0 <= i < 16
      ensures d.gid[i] < 256
    {
      assert vs[h + i] == d.gid[i] && ws[h + i] == 2;
    }
  }

  lemma BytesSmall(vs: seq<nat>)
    requires forall i :: 0 <= i < |vs| ==> vs[i] < 256
    ensures Bytes(vs) == vs
  {
  }

  /** Numbers in the order the GID reader meets them, put into the destination. */
  lemma FillGid(f: Format, d: Dest, rem: Dest, vs: seq<nat>)
    requires |d.gid| == 16 && vs == Head(f, d) + d.gid[..15]
    requires forall i :: 0 <= i < 16 ==> d.gid[i] < 256
    ensures var h := HeadCount(f);
            Fill(f, rem, vs[..h], Bytes(vs[h..]) + [d.gid[15] % 256], d.srqn)
            == d.(tail := if f.dv then d.tail else rem.tail)
  {
    var h := HeadCount(f);
    assert vs[h..] == d.gid[..15] && vs[..h] == Head(f, d);
    BytesSmall(d.gid[..15]);
    assert d.gid[..15] + [d.gid[15]] == d.gid;
  }

  lemma GidRoundTrip(f: Format, d: Dest, rem: Dest)
    requires f.gid && |d.gid| == 16 && InRange(Values(f, d), Widths(f))
    ensures ReadKeys(f, PrintKeys(f, d), rem) == Some(d.(tail := if f.dv then d.tail else rem.tail))
  {
    var vs, ws, n := Values(f, d), Widths(f), HeadCount(f) + 15;
    GidValues(f, d);
    GidCuts(f, vs, ws, n);
    var fs, rest := Fields(vs[..n], ws[..n]), Join([Print(vs[n], 2), Print(vs[n + 1], ws[n + 1])]) + ":";
    NumbersOfFields(vs[..n], ws[..n]);
    LeadingPrint(d.srqn, 8);
    FillGid(f, d, rem, vs[..n]);
    ReadGid(f, PrintKeys(f, d), rem, fs, rest, Print(d.srqn, 8));
  }

  lemma PlainRoundTrip(f: Format, d: Dest, rem: Dest)
    requires !f.gid && |d.gid| == 16 && InRange(Values(f, d), Widths(f))
    ensures ReadKeys(f, PrintKeys(f, d), rem)
         == Some(d.(tail := if f.dv then d.tail else rem.tail, gid := rem.gid))
  {
    var vs := Values(f, d);
    ScanJoin(vs, Widths(f));
    assert PrintKeys(f, d) == Join(Fields(vs, Widths(f)));
    assert vs[..HeadCount(f)] == Head(f, d) && vs[HeadCount(f)] == d.srqn;
  }

  /** A destination the format can carry. */
  predicate Carries(f: Format, d: Dest) {
    |d.gid| == 16 && InRange(Values(f, d), Widths(f))
  }

  /** The peer's destination as the format carries it; the other fields keep their old values. */
  function Received(f: Format, d: Dest, rem: Dest): Dest {
    d.(tail := if f.dv then d.tail else rem.tail, gid := if f.gid then d.gid else rem.gid)
  }

  /** For all four formats and all in-range fields the reader recovers every field the format carries. */
  lemma KeysRoundTrip(f: Format, d: Dest, rem: Dest)
    requires Carries(f, d)
    ensures ReadKeys(f, PrintKeys(f, d), rem) == Some(Received(f, d, rem))
  {
    if f.gid {
      GidRoundTrip(f, d, rem);
    } else {
      PlainRoundTrip(f, d, rem);
    }
  }
}
