/**
 * The key-value negotiation of src/perftest_negotiation.c: the parameter table
 * is written as "name=hexbytes;..." into a buffer sized beforehand, the peer's
 * text is cut into tokens and stored by name, and the comparison loop decides.
 */
module KvNegotiation {
  import opened Arithmetic
  import opened Hex
  import opened NetworkOrder

  /**
   * How an entry is compared: as an int, as a uint64, with an unexpected type, or
   * by one of the two functions that never fail and adjust a parameter instead.
   */
  datatype Kind = CompareInt | CompareUint64 | CompareNone | MaxReads | Reorder
  {
    predicate Adjusts() {
      MaxReads? || Reorder?
    }
  }

  /** One row of the table; remote and received are filled in by the exchange. */
  datatype Entry = Entry(name: string, local: Bytes, kind: Kind, cond: bool, remote: Bytes, received: bool)

  // ----- the text -----

  function HexBytes(b: Bytes): string {
    if b == [] then [] else HexBytes(b[..|b| - 1]) + Print(b[|b| - 1], 2)
  }

  /** An entry without its pair separator. */
  function Body(e: Entry): string {
    e.name + "=" + HexBytes(e.local)
  }

  function Text(table: seq<Entry>): string {
    if table == [] then [] else Text(table[..|table| - 1]) + Body(table[|table| - 1]) + ";"
  }

  lemma {:induction false} HexBytesLength(b: Bytes)
    requires IsBytes(b)
    ensures |HexBytes(b)| == 2 * |b| && AllDigits(HexBytes(b))
  {
    if b != [] {
      HexBytesLength(b[..|b| - 1]);
      WidthExact(b[|b| - 1], 2);
      assert Pow16(2) == 256;
    }
  }

  /** The size computed up front for one entry. */
  function EntrySize(e: Entry): nat {
    |e.name| + 1 + |e.local| * 2 + 1
  }

  function TableSize(table: seq<Entry>): nat {
    if table == [] then 0 else TableSize(table[..|table| - 1]) + EntrySize(table[|table| - 1])
  }

  predicate AllBytes(table: seq<Entry>) {
    forall i :: 0 <= i < |table| ==> IsBytes(table[i].local)
  }

  lemma {:induction false} TextLength(table: seq<Entry>)
    requires AllBytes(table)
    ensures |Text(table)| == TableSize(table)
  {
    if table != [] {
      TextLength(table[..|table| - 1]);
      HexBytesLength(table[|table| - 1].local);
    }
  }

  // ----- writing the buffer -----

  /** snprintf: as much of s as fits before a terminator; the result is the length it wanted to write. */
  method Snprintf(buf: array<char>, off: nat, s: string) returns (n: nat)
    requires off < buf.Length
    modifies buf
    ensures n == |s|
    ensures forall i :: 0 <= i < off ==> buf[i] == old(buf[i])
    ensures off + |s| < buf.Length ==> buf[off..off + |s|] == s && buf[off + |s|] == '\0'
  {
    var fit := if off + |s| < buf.Length then |s| else buf.Length - off - 1;
    for k := 0 to fit
      invariant forall i :: 0 <= i < off ==> buf[i] == old(buf[i])
      invariant forall i :: off <= i < off + k ==> buf[i] == s[i - off]
    {
      buf[off + k] := s[k];
    }
    buf[off + fit] := '\0';
    n := |s|;
  }

  /** The text so far, terminated, in a buffer with room for it. */
  predicate Holds(buf: array<char>, off: nat, text: string)
    reads buf
  {
    off == |text| && off < buf.Length && buf[..off] == text && buf[off] == '\0'
  }

  method Append(buf: array<char>, off: nat, s: string, ghost text: string) returns (off': nat)
    requires off == |text| && off < buf.Length && buf[..off] == text
    requires off + |s| < buf.Length
    modifies buf
    ensures Holds(buf, off', text + s)
  {
    ghost var before := buf[..off];
    var n := Snprintf(buf, off, s);
    off' := off + n;
    assert buf[..off'] == buf[..off] + buf[off..off'];
    assert buf[..off] == before;
  }

  lemma HexBytesAppend(text: string, b: Bytes, j: nat)
    requires j < |b|
    ensures text + HexBytes(b[..j]) + Print(b[j], 2) == text + HexBytes(b[..j + 1])
  {
    assert b[..j + 1][..j] == b[..j];
    assert text + HexBytes(b[..j]) + Print(b[j], 2) == text + (HexBytes(b[..j]) + Print(b[j], 2));
  }

  lemma TwoDigits(x: nat)
    requires x < 256
    ensures |Print(x, 2)| == 2
  {
    WidthExact(x, 2);
    assert Pow16(2) == 256;
  }

  /** The inner loop: two digits a byte. */
  method AppendHex(buf: array<char>, off: nat, b: Bytes, ghost text: string) returns (off': nat)
    requires Holds(buf, off, text) && IsBytes(b) && off + 2 * |b| < buf.Length
    modifies buf
    ensures Holds(buf, off', text + HexBytes(b))
  {
    off' := off;
    assert b[..0] == [] && text + HexBytes([]) == text;
    for j := 0 to |b|
      invariant Holds(buf, off', text + HexBytes(b[..j])) && off' == off + 2 * j
    {
      TwoDigits(b[j]);
      HexBytesAppend(text, b, j);
      off' := Append(buf, off', Print(b[j], 2), text + HexBytes(b[..j]));
    }
    assert b[..|b|] == b;
  }

  lemma {:induction false} SizePrefix(table: seq<Entry>, i: nat)
    requires i < |table|
    ensures TableSize(table[..i]) + EntrySize(table[i]) == TableSize(table[..i + 1]) <= TableSize(table)
    decreases |table| - i
  {
    assert table[..i + 1][..i] == table[..i];
    if i + 1 < |table| {
      SizePrefix(table, i + 1);
    } else {
      assert table[..i + 1] == table;
    }
  }

  method AppendEntry(buf: array<char>, off: nat, e: Entry, ghost text: string) returns (off': nat)
    requires off == |text| && off < buf.Length && buf[..off] == text
    requires IsBytes(e.local) && off + EntrySize(e) < buf.Length
    modifies buf
    ensures Holds(buf, off', text + Body(e) + ";") && off' == off + EntrySize(e)
  {
    HexBytesLength(e.local);
    ghost var t1 := text + (e.name + "=");
    ghost var t2 := t1 + HexBytes(e.local);
    off' := Append(buf, off, e.name + "=", text);
    off' := AppendHex(buf, off', e.local, t1);
    off' := Append(buf, off', ";", t2);
    assert t2 == text + Body(e);
  }

  /** The exact buffer size, computed up front. */
  method BufferSize(table: seq<Entry>) returns (size: nat)
    ensures size == TableSize(table) + 1
  {
    size := 0;
    for i := 0 to |table|
      invariant size == TableSize(table[..i])
    {
      SizePrefix(table, i);
      size := size + |table[i].name| + 1 + |table[i].local| * 2 + 1;
    }
    assert table[..|table|] == table;
    size := size + 1;
  }

  /** Serialization fills the precomputed buffer exactly, terminator included. */
  method Serialize(table: seq<Entry>) returns (buf: array<char>, off: nat)
    requires AllBytes(table)
    ensures fresh(buf) && buf.Length == |Text(table)| + 1
    ensures off == |Text(table)| && buf[..off] == Text(table)
    ensures table != [] ==> buf[off] == '\0'
  {
    var size := BufferSize(table);
    TextLength(table);
    buf := new char[size];
    off := 0;
    for i := 0 to |table|
      invariant off == TableSize(table[..i]) == |Text(table[..i])| && off < buf.Length
      invariant buf[..off] == Text(table[..i])
      invariant i > 0 ==> buf[off] == '\0'
    {
      SizePrefix(table, i);
      off := AppendEntry(buf, off, table[i], Text(table[..i]));
      assert table[..i + 1][..i] == table[..i];
    }
    assert table[..|table|] == table;
  }

  // ----- cutting the peer's text -----

  function DropSeparators(s: string): (r: string)
    ensures |r| <= |s| && (r == [] || r[0] != ';')
  {
    if s != [] && s[0] == ';' then DropSeparators(s[1..]) else s
  }

  function UntilSeparator(s: string): (r: string)
    ensures r <= s
    ensures s != [] && s[0] != ';' ==> |r| > 0
  {
    if s == [] || s[0] == ';' then []
    else
      var r := UntilSeparator(s[1..]);
      assert s == [s[0]] + s[1..];
      [s[0]] + r
  }

  /** strtok_r with ";": the non-empty pieces between separators. */
  function Tokens(s: string): seq<string>
    decreases |s|
  {
    var t := DropSeparators(s);
    if t == [] then []
    else
      var token := UntilSeparator(t);
      [token] + Tokens(t[|token|..])
  }

  lemma {:induction false} UntilIs(a: string, b: string)
    requires ';' !in a
    ensures UntilSeparator(a + ";" + b) == a
  {
    var s := a + ";" + b;
    if a != [] {
      assert s[1..] == a[1..] + ";" + b;
      UntilIs(a[1..], b);
    }
  }

  lemma TokensSkip(rest: string)
    ensures Tokens(";" + rest) == Tokens(rest)
  {
    assert (";" + rest)[1..] == rest;
  }

  lemma TokensFirst(a: string, rest: string)
    requires a != [] && ';' !in a
    ensures Tokens(a + ";" + rest) == [a] + Tokens(rest)
  {
    var s := a + ";" + rest;
    assert s[0] == a[0];
    UntilIs(a, rest);
    assert s[|a|..] == ";" + rest;
    TokensSkip(rest);
  }

  function Bodies(table: seq<Entry>): (r: seq<string>)
    ensures |r| == |table|
  {
    seq(|table|, i requires 0 <= i < |table| => Body(table[i]))
  }

  /** Values are bytes and names hold no pair separator. */
  predicate Printable(table: seq<Entry>) {
    forall i :: 0 <= i < |table| ==> IsBytes(table[i].local) && ';' !in table[i].name
  }

  lemma BodyPlain(e: Entry)
    requires IsBytes(e.local) && ';' !in e.name
    ensures Body(e) != [] && ';' !in Body(e)
  {
    HexBytesLength(e.local);
  }

  /** Pieces with a separator after each. */
  function Terminated(fs: seq<string>): string {
    if fs == [] then [] else fs[0] + ";" + Terminated(fs[1..])
  }

  lemma {:induction false} TokensOfTerminated(fs: seq<string>)
    requires forall i :: 0 <= i < |fs| ==> fs[i] != [] && ';' !in fs[i]
    ensures Tokens(Terminated(fs)) == fs
  {
    if fs != [] {
      TokensOfTerminated(fs[1..]);
      TokensFirst(fs[0], Terminated(fs[1..]));
    }
  }

  lemma {:induction false} TerminatedAppend(fs: seq<string>, f: string)
    ensures Terminated(fs + [f]) == Terminated(fs) + f + ";"
  {
    if fs == [] {
      assert [] + [f] == [f];
      assert [f][1..] == [];
    } else {
      TerminatedAppend(fs[1..], f);
      assert (fs + [f])[1..] == fs[1..] + [f];
    }
  }

  /** Terminated, built from the other end as the serializer does. */
  function Concat(fs: seq<string>): string {
    if fs == [] then [] else Concat(fs[..|fs| - 1]) + fs[|fs| - 1] + ";"
  }

  lemma {:induction false} ConcatIsTerminated(fs: seq<string>)
    ensures Concat(fs) == Terminated(fs)
  {
    if fs != [] {
      var init, last := fs[..|fs| - 1], fs[|fs| - 1];
      ConcatIsTerminated(init);
      assert fs == init + [last];
      TerminatedAppend(init, last);
    }
  }

  lemma {:induction false} TextIsConcat(table: seq<Entry>)
    ensures Text(table) == Concat(Bodies(table))
  {
    if table != [] {
      var n := |table| - 1;
      TextIsConcat(table[..n]);
      assert Bodies(table)[..n] == Bodies(table[..n]);
    }
  }

  /** The tokens of a serialized table are its entries. */
  lemma TokensOfText(table: seq<Entry>)
    requires Printable(table)
    ensures Tokens(Text(table)) == Bodies(table)
  {
    TextIsConcat(table);
    ConcatIsTerminated(Bodies(table));
    forall i | 0 <= i < |table|
      ensures Bodies(table)[i] != [] && ';' !in Bodies(table)[i]
    {
      BodyPlain(table[i]);
    }
    TokensOfTerminated(Bodies(table));
  }

  // ----- storing one token -----

  /** The text before the first '=' and the text after it, if there is one. */
  function FindEquals(s: string): (k: int)
    ensures -1 <= k < |s|
    ensures k >= 0 ==> s[k] == '='
  {
    if s == [] then -1
    else if s[0] == '=' then 0
    else
      var k := FindEquals(s[1..]);
      if k < 0 then -1 else k + 1
  }

  lemma {:induction false} EqualsAt(a: string, b: string)
    requires '=' !in a
    ensures FindEquals(a + "=" + b) == |a|
  {
    if a != [] {
      assert (a + "=" + b)[1..] == a[1..] + "=" + b;
      EqualsAt(a[1..], b);
    }
  }

  /** The first entry of that name, or -1. */
  function Lookup(table: seq<Entry>, name: string): (k: int)
    ensures -1 <= k < |table|
    ensures k >= 0 ==> table[k].name == name
    ensures k < 0 ==> forall i :: 0 <= i < |table| ==> table[i].name != name
  {
    if table == [] then -1
    else if table[0].name == name then 0
    else
      var k := Lookup(table[1..], name);
      assert forall i :: 0 < i < |table| ==> table[i] == table[1..][i - 1];
      if k < 0 then -1 else k + 1
  }

  /** sscanf "%2hhx" at byte j of the text: one or two hexadecimal digits. */
  function ScanByte(hex: string, j: nat): int {
    if 2 * j > |hex| then -1
    else
      var k := Run(hex[2 * j..], 2);
      if k == 0 then -1 else Parse(hex[2 * j..2 * j + k])
  }

  /** Bytes from j on are stored until one cannot be read; a complete value is marked received. */
  function StoreFrom(e: Entry, hex: string, j: nat): Entry
    requires j <= |e.local| == |e.remote|
    decreases |e.local| - j
  {
    if j == |e.local| then e.(received := true)
    else if ScanByte(hex, j) < 0 then e
    else StoreFrom(e.(remote := e.remote[j := ScanByte(hex, j)]), hex, j + 1)
  }

  predicate Sized(table: seq<Entry>) {
    forall i :: 0 <= i < |table| ==> |table[i].remote| == |table[i].local|
  }

  function Apply(table: seq<Entry>, token: string): seq<Entry>
    requires Sized(table)
  {
    var eq := FindEquals(token);
    if eq < 0 then table
    else
      var k := Lookup(table, token[..eq]);
      if k < 0 then table else table[k := StoreFrom(table[k], token[eq + 1..], 0)]
  }

  lemma {:induction false} StoreSized(e: Entry, hex: string, j: nat)
    requires j <= |e.local| == |e.remote|
    ensures var r := StoreFrom(e, hex, j);
            r.local == e.local && |r.remote| == |e.remote| && r.name == e.name && r.kind == e.kind && r.cond == e.cond
    decreases |e.local| - j
  {
    if j < |e.local| && ScanByte(hex, j) >= 0 {
      StoreSized(e.(remote := e.remote[j := ScanByte(hex, j)]), hex, j + 1);
    }
  }

  /** How many bytes of a text can be read, up to n, from byte j on. */
  function Readable(hex: string, j: nat, n: nat): (r: nat)
    requires j <= n
    ensures j <= r <= n && (r < n ==> ScanByte(hex, r) < 0)
    ensures forall i :: j <= i < r ==> ScanByte(hex, i) >= 0
    decreases n - j
  {
    if j == n || ScanByte(hex, j) < 0 then j else Readable(hex, j + 1, n)
  }

  /** Whatever the text: the bytes that can be read are stored, and only a complete value is marked received. */
  lemma {:induction false} StoreExact(e: Entry, hex: string, j: nat)
    requires j <= |e.local| == |e.remote|
    ensures var r, n := StoreFrom(e, hex, j), Readable(hex, j, |e.local|);
            && |r.remote| == |e.remote|
            && (forall i :: 0 <= i < |e.remote| ==> r.remote[i] == if j <= i < n then ScanByte(hex, i) else e.remote[i])
            && (r.received <==> e.received || n == |e.local|)
    decreases |e.local| - j
  {
    if j < |e.local| && ScanByte(hex, j) >= 0 {
      StoreExact(e.(remote := e.remote[j := ScanByte(hex, j)]), hex, j + 1);
    }
  }

  /** A token without '=' or with a name the table does not have changes nothing; any other changes the first row of its name. */
  lemma ApplyWhere(table: seq<Entry>, token: string, i: nat)
    requires Sized(table) && i < |table|
    ensures |Apply(table, token)| == |table|
    ensures '=' !in token ==> Apply(table, token) == table
    ensures Apply(table, token)[i] != table[i] ==>
              (table[i].name + "=") <= token && forall k :: 0 <= k < i ==> table[k].name != table[i].name
  {
    var eq := FindEquals(token);
    if eq >= 0 {
      var k := Lookup(table, token[..eq]);
      if k == i {
        assert token[..eq + 1] == token[..eq] + "=";
        LookupFirst(table, token[..eq], k);
      }
    } else {
      NoEquals(token);
    }
  }

  lemma {:induction false} NoEquals(token: string)
    ensures FindEquals(token) < 0 <==> '=' !in token
  {
    if token != [] {
      NoEquals(token[1..]);
      assert token == [token[0]] + token[1..];
    }
  }

  lemma {:induction false} LookupFirst(table: seq<Entry>, name: string, k: int)
    requires k == Lookup(table, name) >= 0
    ensures forall i :: 0 <= i < k ==> table[i].name != name
  {
    if k > 0 {
      LookupFirst(table[1..], name, k - 1);
      assert forall i :: 0 < i < k ==> table[i] == table[1..][i - 1];
    }
  }

  lemma ApplySized(table: seq<Entry>, token: string)
    requires Sized(table)
    ensures Sized(Apply(table, token)) && |Apply(table, token)| == |table|
  {
    var eq := FindEquals(token);
    if eq >= 0 {
      var k := Lookup(table, token[..eq]);
      if k >= 0 {
        StoreSized(table[k], token[eq + 1..], 0);
      }
    }
  }

  function ApplyAll(table: seq<Entry>, tokens: seq<string>): (r: seq<Entry>)
    requires Sized(table)
    ensures Sized(r) && |r| == |table|
    decreases |tokens|
  {
    if tokens == [] then table
    else
      ApplySized(table, tokens[0]);
      ApplyAll(Apply(table, tokens[0]), tokens[1..])
  }

  /** The byte loop of the receiver. */
  method StoreBytes(e: Entry, hex: string) returns (r: Entry)
    requires |e.remote| == |e.local|
    ensures r == StoreFrom(e, hex, 0)
  {
    var j := 0;
    r := e;
    while j < |e.local|
      invariant 0 <= j <= |e.local| == |r.local| == |r.remote|
      invariant StoreFrom(r, hex, j) == StoreFrom(e, hex, 0)
    {
      var b := ScanByte(hex, j);
      if b < 0 {
        break;
      }
      r := r.(remote := r.remote[j := b]);
      j := j + 1;
    }
    if j == |e.local| {
      r := r.(received := true);
    }
  }

  /** The name loop of the receiver: the first entry of that name. */
  method FindEntry(table: array<Entry>, key: string) returns (k: int)
    ensures k == Lookup(table[..], key)
  {
    for i := 0 to table.Length
      invariant forall j :: 0 <= j < i ==> table[j].name != key
    {
      if table[i].name == key {
        LookupIs(table[..], key, i);
        return i;
      }
    }
    LookupNone(table[..], key);
    return -1;
  }

  lemma {:induction false} LookupIs(table: seq<Entry>, key: string, i: nat)
    requires i < |table| && table[i].name == key && forall j :: 0 <= j < i ==> table[j].name != key
    ensures Lookup(table, key) == i
  {
    if i > 0 {
      LookupIs(table[1..], key, i - 1);
    }
  }

  lemma LookupNone(table: seq<Entry>, key: string)
    requires forall j :: 0 <= j < |table| ==> table[j].name != key
    ensures Lookup(table, key) == -1
  {
  }

  /** The token loop: the table is updated in place, token by token. */
  method Receive(table: array<Entry>, text: string)
    requires Sized(table[..])
    modifies table
    ensures table[..] == ApplyAll(old(table[..]), Tokens(text))
  {
    var rest := text;
    while DropSeparators(rest) != []
      invariant Sized(table[..])
      invariant ApplyAll(table[..], Tokens(rest)) == ApplyAll(old(table[..]), Tokens(text))
      decreases |rest|
    {
      var t := DropSeparators(rest);
      var token := UntilSeparator(t);
      ghost var before := table[..];
      ApplySized(before, token);
      assert Tokens(rest)[0] == token && Tokens(rest)[1..] == Tokens(t[|token|..]);
      var eq := FindEquals(token);
      if eq >= 0 {
        var k := FindEntry(table, token[..eq]);
        if k >= 0 {
          var e := StoreBytes(table[k], token[eq + 1..]);
          table[k] := e;
        }
      }
      assert table[..] == Apply(before, token);
      rest := t[|token|..];
    }
  }

  // ----- the round trip -----

  /** What a negotiation needs of a table: separator-free distinct names, byte values, room for the peer's. */
  predicate WellFormed(table: seq<Entry>) {
    && Printable(table)
    && Sized(table)
    && (forall i :: 0 <= i < |table| ==> '=' !in table[i].name)
    && (forall i, j :: 0 <= i < j < |table| ==> table[i].name != table[j].name)
  }

  /** Shared names have values of one size. */
  predicate SameSizes(a: seq<Entry>, b: seq<Entry>) {
    forall i, j :: 0 <= i < |a| && 0 <= j < |b| && a[i].name == b[j].name ==> |a[i].local| == |b[j].local|
  }

  /** Pair j of a text that ends in another pair. */
  lemma PairBefore(h: string, init: string, last: string, j: nat, p: string)
    requires h == init + last && 2 * j + 2 <= |init| && init[2 * j..2 * j + 2] == p
    ensures h[2 * j..2 * j + 2] == p
  {
  }

  lemma PairLast(h: string, init: string, last: string, n: nat)
    requires h == init + last && |init| == 2 * n && |last| == 2
    ensures h[2 * n..2 * n + 2] == last
  {
  }

  lemma HexSplit(b: Bytes) returns (init: string, last: string)
    requires IsBytes(b) && b != []
    ensures init == HexBytes(b[..|b| - 1]) && last == Print(b[|b| - 1], 2)
    ensures HexBytes(b) == init + last && |init| == 2 * (|b| - 1) && |last| == 2
  {
    init, last := HexBytes(b[..|b| - 1]), Print(b[|b| - 1], 2);
    HexBytesLength(b[..|b| - 1]);
    TwoDigits(b[|b| - 1]);
  }

  /** Pair j of a text, taken from the pairs before the last or the last itself. */
  lemma PairOf(h: string, init: string, last: string, n: nat, j: nat, p: string)
    requires h == init + last && |init| == 2 * n && |last| == 2 && j <= n
    requires if j < n then init[2 * j..2 * j + 2] == p else last == p
    ensures |h| == 2 * (n + 1) && h[2 * j..2 * j + 2] == p
  {
    if j < n {
      PairBefore(h, init, last, j, p);
    } else {
      PairLast(h, init, last, n);
    }
  }

  lemma {:induction false} HexAt(b: Bytes, j: nat)
    requires IsBytes(b) && j < |b|
    ensures |HexBytes(b)| == 2 * |b| && HexBytes(b)[2 * j..2 * j + 2] == Print(b[j], 2)
  {
    var n := |b| - 1;
    var init, last := HexSplit(b);
    if j < n {
      assert b[..n][j] == b[j];
      HexAt(b[..n], j);
    }
    PairOf(HexBytes(b), init, last, n, j, Print(b[j], 2));
  }

  lemma ScanAt(hex: string, j: nat, p: string)
    requires 2 * j + 2 <= |hex| && hex[2 * j..2 * j + 2] == p && AllDigits(p)
    ensures ScanByte(hex, j) == Parse(p)
  {
    var tail := hex[2 * j + 2..];
    assert hex[2 * j..] == p + tail;
    RunStops(p, tail, 2);
  }

  lemma ScanHex(b: Bytes, j: nat)
    requires IsBytes(b) && j < |b|
    ensures ScanByte(HexBytes(b), j) == b[j]
  {
    HexAt(b, j);
    RoundTrip(b[j], 2);
    ScanAt(HexBytes(b), j, Print(b[j], 2));
  }

  lemma PrefixGrows(remote: Bytes, b: Bytes, j: nat)
    requires j < |b| && j < |remote| && remote[..j] == b[..j]
    ensures remote[j := b[j]][..j + 1] == b[..j + 1]
  {
    var r := remote[j := b[j]];
    forall i | 0 <= i < j
      ensures r[i] == b[i]
    {
      assert remote[..j][i] == b[..j][i];
    }
  }

  lemma StoreOne(e: Entry, hex: string, j: nat, x: nat)
    requires j < |e.local| == |e.remote| && ScanByte(hex, j) == x
    ensures StoreFrom(e, hex, j) == StoreFrom(e.(remote := e.remote[j := x]), hex, j + 1)
  {
  }

  /** Reading a printed value succeeds exactly at its own bytes; the read that fails is at its terminator, never past it. */
  lemma ScanExact(b: Bytes, j: nat)
    requires IsBytes(b) && j <= |b|
    ensures ScanByte(HexBytes(b), j) == if j < |b| then b[j] else -1
    ensures 2 * j <= |HexBytes(b)|
  {
    HexBytesLength(b);
    if j < |b| {
      ScanHex(b, j);
    } else {
      assert HexBytes(b)[2 * j..] == [];
    }
  }

  /**
   * An entry after the peer's value b was read into it: a value long enough fills
   * it and marks it received, a shorter one leaves it unreceived with its front
   * overwritten.
   */
  function Stored(e: Entry, b: Bytes): Entry
    requires |e.remote| == |e.local|
  {
    if |b| >= |e.local| then e.(remote := b[..|e.local|], received := true)
    else e.(remote := b + e.remote[|b|..])
  }

  lemma StoredFull(e: Entry, b: Bytes)
    requires |e.remote| == |e.local| <= |b| && e.remote[..|e.local|] == b[..|e.local|]
    ensures Stored(e, b) == e.(received := true)
  {
    assert e.remote[..|e.local|] == e.remote;
  }

  lemma StoredShort(e: Entry, b: Bytes)
    requires |b| < |e.local| == |e.remote| && e.remote[..|b|] == b
    ensures Stored(e, b) == e
  {
    assert e.remote[..|b|] + e.remote[|b|..] == e.remote;
  }

  lemma StoredNext(e: Entry, b: Bytes, j: nat)
    requires |e.remote| == |e.local| && j < |b| && j < |e.local|
    ensures Stored(e.(remote := e.remote[j := b[j]]), b) == Stored(e, b)
  {
    if |b| < |e.local| {
      assert e.remote[j := b[j]][|b|..] == e.remote[|b|..];
    }
  }

  lemma {:induction false} StoreHex(e: Entry, b: Bytes, j: nat)
    requires IsBytes(b) && j <= |b| && j <= |e.local| == |e.remote| && e.remote[..j] == b[..j]
    ensures StoreFrom(e, HexBytes(b), j) == Stored(e, b)
    decreases |e.local| - j
  {
    ScanExact(b, j);
    if j == |e.local| {
      StoredFull(e, b);
    } else if j == |b| {
      assert b[..j] == b;
      StoredShort(e, b);
    } else {
      StoreOne(e, HexBytes(b), j, b[j]);
      PrefixGrows(e.remote, b, j);
      StoreHex(e.(remote := e.remote[j := b[j]]), b, j + 1);
      StoredNext(e, b, j);
    }
  }

  lemma StoredSame(e: Entry, b: Bytes)
    requires |e.remote| == |e.local| == |b|
    ensures Stored(e, b) == e.(remote := b, received := true)
  {
    assert b[..|b|] == b;
  }

  /** A received entry is stored under its name, or nowhere. */
  lemma ApplyBody(b: seq<Entry>, e: Entry)
    requires Sized(b) && IsBytes(e.local) && '=' !in e.name
    ensures Apply(b, Body(e)) == StoreFirst(b, e)
  {
    EqualsAt(e.name, HexBytes(e.local));
    var token := Body(e);
    assert token[..|e.name|] == e.name && token[|e.name| + 1..] == HexBytes(e.local);
    var k := Lookup(b, e.name);
    if k >= 0 {
      StoreHex(b[k], e.local, 0);
    }
  }

  /** A row after the exchange: the peer's value if the peer has the name. */
  function MergeOne(e: Entry, peer: seq<Entry>): Entry
    requires |e.remote| == |e.local|
  {
    var k := Lookup(peer, e.name);
    if k < 0 then e else Stored(e, peer[k].local)
  }

  function Merge(b: seq<Entry>, peer: seq<Entry>): (r: seq<Entry>)
    requires Sized(b)
    ensures |r| == |b|
    ensures forall i :: 0 <= i < |b| ==> r[i] == MergeOne(b[i], peer)
  {
    seq(|b|, i requires 0 <= i < |b| => MergeOne(b[i], peer))
  }

  predicate DistinctNames(t: seq<Entry>) {
    forall i, j :: 0 <= i < j < |t| ==> t[i].name != t[j].name
  }

  /** A later entry of another name is found behind the first as in the whole. */
  lemma LookupRest(a: seq<Entry>, name: string)
    requires a != [] && a[0].name != name
    ensures var k, k' := Lookup(a, name), Lookup(a[1..], name);
            if k' < 0 then k < 0 else k == k' + 1
  {
  }

  lemma LookupOnce(a: seq<Entry>)
    requires a != [] && DistinctNames(a)
    ensures Lookup(a, a[0].name) == 0 && Lookup(a[1..], a[0].name) < 0
  {
    assert forall j :: 0 <= j < |a[1..]| ==> a[1..][j] == a[j + 1];
    LookupNone(a[1..], a[0].name);
  }

  /** The table after the first entry has been stored. */
  function StoreFirst(b: seq<Entry>, e: Entry): (r: seq<Entry>)
    requires Sized(b)
    ensures |r| == |b| && Sized(r)
  {
    var k := Lookup(b, e.name);
    if k < 0 then b else b[k := Stored(b[k], e.local)]
  }

  lemma MergeFirstAt(b: seq<Entry>, a: seq<Entry>, i: nat)
    requires Sized(b) && a != [] && DistinctNames(a) && DistinctNames(b) && i < |b|
    ensures MergeOne(StoreFirst(b, a[0])[i], a[1..]) == MergeOne(b[i], a)
  {
    if b[i].name == a[0].name {
      LookupIs(b, a[0].name, i);
      LookupOnce(a);
    } else {
      LookupRest(a, b[i].name);
    }
  }

  /** Storing the first entry and merging the rest is merging all. */
  lemma MergeFirst(b: seq<Entry>, a: seq<Entry>)
    requires Sized(b) && a != [] && DistinctNames(a) && DistinctNames(b)
    ensures Merge(StoreFirst(b, a[0]), a[1..]) == Merge(b, a)
  {
    forall i | 0 <= i < |b|
      ensures Merge(StoreFirst(b, a[0]), a[1..])[i] == Merge(b, a)[i]
    {
      MergeFirstAt(b, a, i);
    }
  }

  /** Storing a value keeps names. */
  lemma SameShape(b: seq<Entry>, b1: seq<Entry>, a: seq<Entry>)
    requires |b1| == |b| && forall i :: 0 <= i < |b| ==> b1[i].name == b[i].name
    requires a != [] && DistinctNames(a) && DistinctNames(b)
    ensures DistinctNames(b1) && DistinctNames(a[1..])
  {
  }

  lemma {:induction false} MergeAll(b: seq<Entry>, a: seq<Entry>)
    requires Sized(b) && DistinctNames(a) && DistinctNames(b)
    requires forall i :: 0 <= i < |a| ==> IsBytes(a[i].local) && '=' !in a[i].name
    ensures ApplyAll(b, Bodies(a)) == Merge(b, a)
    decreases |a|
  {
    if a == [] {
      assert Merge(b, a) == b;
    } else {
      ApplyBody(b, a[0]);
      ApplySized(b, Body(a[0]));
      var b1 := Apply(b, Body(a[0]));
      assert Bodies(a)[1..] == Bodies(a[1..]);
      SameShape(b, b1, a);
      MergeAll(b1, a[1..]);
      MergeFirst(b, a);
    }
  }

  /**
   * The round trip, whatever the sizes: receiving the peer's serialized table
   * stores the value of every shared name in its row and changes no other row.
   */
  lemma NegotiationRoundTrip(b: seq<Entry>, a: seq<Entry>)
    requires WellFormed(a) && WellFormed(b)
    ensures ApplyAll(b, Tokens(Text(a))) == Merge(b, a)
  {
    TokensOfText(a);
    MergeAll(b, a);
  }

  /** With equal sizes exactly the shared names are marked received, with the peer's exact bytes. */
  lemma RoundTripExact(b: seq<Entry>, a: seq<Entry>, i: nat)
    requires WellFormed(a) && WellFormed(b) && SameSizes(a, b) && i < |b|
    ensures var k := Lookup(a, b[i].name);
            ApplyAll(b, Tokens(Text(a)))[i] == if k < 0 then b[i] else b[i].(remote := a[k].local, received := true)
  {
    NegotiationRoundTrip(b, a);
    var k := Lookup(a, b[i].name);
    if k >= 0 {
      StoredSame(b[i], a[k].local);
    }
  }

  // ----- the verdict -----

  /** An entry's compare function reports a failure. */
  predicate Fails(e: Entry) {
    match e.kind
    case CompareInt => BigEndian(e.local) != BigEndian(e.remote)
    case CompareUint64 => BigEndian(e.local) != BigEndian(e.remote)
    case CompareNone => true
    case MaxReads => false
    case Reorder => false
  }

  predicate Accepted(table: seq<Entry>) {
    forall i :: 0 <= i < |table| && table[i].received && table[i].cond ==> !Fails(table[i])
  }

  /** The parameters the comparison may change: out_reads and no_enhanced_reorder. */
  datatype Params = Params(outReads: int, noReorder: bool)

  /** One bit of a mask in network byte order; weight is the bit's value. */
  function Bit(b: Bytes, weight: nat): nat
    requires weight > 0
  {
    BigEndian(b) / weight % 2
  }

  /** It is the digit of that weight in the number. */
  lemma BitIs(b: Bytes, weight: nat, high: nat, bit: nat, low: nat)
    requires BigEndian(b) == (high * 2 + bit) * weight + low && bit < 2 && low < weight
    ensures Bit(b, weight) == bit
  {
    DivModUnique(BigEndian(b), weight, high * 2 + bit, low);
  }

  predicate Active(e: Entry) {
    e.received && e.cond
  }

  /** What comparing an entry does to the parameters. */
  function Adjusted(p: Params, e: Entry, weight: nat): Params
    requires weight > 0
  {
    if e.kind.MaxReads? && p.outReads > BigEndian(e.remote) then p.(outReads := BigEndian(e.remote))
    else if e.kind.Reorder? && !p.noReorder && Bit(e.local, weight) != Bit(e.remote, weight) then p.(noReorder := true)
    else p
  }

  function AdjustedAll(p: Params, table: seq<Entry>, weight: nat): Params
    requires weight > 0
  {
    if table == [] then p
    else
      var q, e := AdjustedAll(p, table[..|table| - 1], weight), table[|table| - 1];
      if Active(e) then Adjusted(q, e, weight) else q
  }

  /** The compare loop of negotiate_params; true is SUCCESS. */
  method CompareAll(table: array<Entry>, p: Params, weight: nat) returns (success: bool, q: Params)
    requires weight > 0
    ensures success <==> Accepted(table[..])
    ensures success ==> q == AdjustedAll(p, table[..], weight)
  {
    q := p;
    for i := 0 to table.Length
      invariant Accepted(table[..i])
      invariant q == AdjustedAll(p, table[..i], weight)
    {
      var e := table[i];
      assert table[..][i] == e;
      assert table[..i + 1][..i] == table[..i];
      if !e.received || !e.cond {
        continue;
      }
      if Fails(e) {
        return false, q;
      }
      q := Adjusted(q, e, weight);
    }
    assert table[..table.Length] == table[..];
    return true, q;
  }

  predicate Caps(e: Entry) {
    Active(e) && e.kind.MaxReads?
  }

  predicate Differs(e: Entry, weight: nat)
    requires weight > 0
  {
    Active(e) && e.kind.Reorder? && Bit(e.local, weight) != Bit(e.remote, weight)
  }

  /**
   * What the comparison leaves: out_reads is the least of its old value and the
   * peer's limits, and reordering is off if and only if it was or a mask differs.
   */
  lemma {:induction false} AdjustedExact(p: Params, table: seq<Entry>, weight: nat)
    requires weight > 0
    ensures var q := AdjustedAll(p, table, weight);
            && q.outReads <= p.outReads
            && (forall i :: 0 <= i < |table| && Caps(table[i]) ==> q.outReads <= BigEndian(table[i].remote))
            && (q.outReads == p.outReads ||
                exists i :: 0 <= i < |table| && Caps(table[i]) && q.outReads == BigEndian(table[i].remote))
            && (q.noReorder <==> p.noReorder || exists i :: 0 <= i < |table| && Differs(table[i], weight))
  {
    if table != [] {
      var n := |table| - 1;
      var init, e := table[..n], table[n];
      AdjustedExact(p, init, weight);
      var r := AdjustedAll(p, init, weight);
      if r.outReads != p.outReads {
        var i :| 0 <= i < |init| && Caps(init[i]) && r.outReads == BigEndian(init[i].remote);
        assert Caps(table[i]);
      }
      if r.noReorder && !p.noReorder {
        var i :| 0 <= i < |init| && Differs(init[i], weight);
        assert Differs(table[i], weight);
      }
      assert forall i :: 0 <= i < n ==> table[i] == init[i];
    }
  }

  /** Shared names are compared alike on both sides. */
  predicate SameKinds(a: seq<Entry>, b: seq<Entry>) {
    forall i, j :: 0 <= i < |a| && 0 <= j < |b| && a[i].name == b[j].name ==>
      a[i].kind == b[j].kind && (a[i].kind.Adjusts() || a[i].cond == b[j].cond)
  }

  predicate Fresh(table: seq<Entry>) {
    forall i :: 0 <= i < |table| ==> !table[i].received
  }

  /** Every shared, compared field has equal values. */
  predicate SharedEqual(a: seq<Entry>, b: seq<Entry>) {
    forall i, j :: 0 <= i < |a| && 0 <= j < |b| && a[i].name == b[j].name && a[i].cond && !a[i].kind.Adjusts() ==>
      !a[i].kind.CompareNone? && a[i].local == b[j].local
  }

  lemma MergeVerdict(e: Entry, peer: seq<Entry>)
    requires !e.received && IsBytes(e.local) && |e.remote| == |e.local|
    requires forall j :: 0 <= j < |peer| ==> IsBytes(peer[j].local)
    requires forall j :: 0 <= j < |peer| && peer[j].name == e.name ==> |peer[j].local| == |e.local|
    ensures var r, k := MergeOne(e, peer), Lookup(peer, e.name);
            (r.received && r.cond ==> !Fails(r)) <==>
            (k >= 0 && e.cond && !e.kind.Adjusts() ==> !e.kind.CompareNone? && e.local == peer[k].local)
  {
    var k := Lookup(peer, e.name);
    if k >= 0 {
      StoredSame(e, peer[k].local);
      BigEndianInjective(e.local, peer[k].local);
    }
  }

  /** One side's verdict in terms of the two tables. */
  lemma VerdictIs(b: seq<Entry>, a: seq<Entry>)
    requires WellFormed(a) && WellFormed(b) && SameSizes(a, b) && Fresh(b)
    ensures Accepted(Merge(b, a)) <==> SharedEqual(b, a)
  {
    forall i | 0 <= i < |b|
      ensures var r, k := Merge(b, a)[i], Lookup(a, b[i].name);
              (r.received && r.cond ==> !Fails(r)) <==>
              (k >= 0 && b[i].cond && !b[i].kind.Adjusts() ==> !b[i].kind.CompareNone? && b[i].local == a[k].local)
    {
      MergeVerdict(b[i], a);
    }
    if Accepted(Merge(b, a)) {
      forall i, j | 0 <= i < |b| && 0 <= j < |a| && b[i].name == a[j].name && b[i].cond && !b[i].kind.Adjusts()
        ensures !b[i].kind.CompareNone? && b[i].local == a[j].local
      {
        LookupIs(a, b[i].name, j);
        assert Merge(b, a)[i] == MergeOne(b[i], a);
      }
    }
  }

  /**
   * Agreement: after both sides have received the other's table they reach the
   * same verdict, and it is success exactly when all shared compared fields are
   * equal.
   */
  lemma NegotiationAgrees(a: seq<Entry>, b: seq<Entry>)
    requires WellFormed(a) && WellFormed(b) && SameSizes(a, b) && SameKinds(a, b) && Fresh(a) && Fresh(b)
    ensures Accepted(ApplyAll(a, Tokens(Text(b)))) <==> Accepted(ApplyAll(b, Tokens(Text(a))))
    ensures Accepted(ApplyAll(a, Tokens(Text(b)))) <==> SharedEqual(a, b)
  {
    NegotiationRoundTrip(a, b);
    NegotiationRoundTrip(b, a);
    VerdictIs(a, b);
    VerdictIs(b, a);
  }

  // ----- the adjustments -----

  /** The side with table a turns reordering off: it compares a shared mask and finds a difference. */
  ghost predicate TurnsOff(a: seq<Entry>, b: seq<Entry>, weight: nat)
    requires weight > 0
  {
    exists i, j :: 0 <= i < |a| && 0 <= j < |b| && MaskDiffers(a[i], b[j], weight)
  }

  predicate MaskDiffers(x: Entry, y: Entry, weight: nat)
    requires weight > 0
  {
    x.name == y.name && x.kind.Reorder? && x.cond && Bit(x.local, weight) != Bit(y.local, weight)
  }

  lemma DiffersIff(a: seq<Entry>, b: seq<Entry>, weight: nat)
    requires weight > 0 && WellFormed(a) && WellFormed(b) && SameSizes(b, a) && Fresh(a)
    ensures (exists i :: 0 <= i < |a| && Differs(Merge(a, b)[i], weight)) <==> TurnsOff(a, b, weight)
  {
    if i :| 0 <= i < |a| && Differs(Merge(a, b)[i], weight) {
      var j := Lookup(b, a[i].name);
      StoredSame(a[i], b[j].local);
      assert MaskDiffers(a[i], b[j], weight);
    }
    if i, j :| 0 <= i < |a| && 0 <= j < |b| && MaskDiffers(a[i], b[j], weight) {
      LookupIs(b, a[i].name, j);
      StoredSame(a[i], b[j].local);
      assert Differs(Merge(a, b)[i], weight);
    }
  }

  lemma SameSizesBack(a: seq<Entry>, b: seq<Entry>)
    requires SameSizes(a, b)
    ensures SameSizes(b, a)
  {
  }

  /** The side with table a takes over a limit of the peer's: a shared, compared entry. */
  predicate CapsBy(x: Entry, y: Entry) {
    x.name == y.name && x.kind.MaxReads? && x.cond
  }

  /** The entry carries n as hton_int writes it. */
  predicate Carries(e: Entry, n: nat) {
    n < U32 && e.local == Encode(n, 4)
  }

  lemma CarriesValue(e: Entry, n: nat)
    requires Carries(e, n)
    ensures BigEndian(e.local) == n
  {
    PowerValues();
    EncodeDecode(n, 4);
  }

  /** out_reads comes out as the lesser of its value and the number the peer declared as its limit. */
  lemma LimitTaken(a: seq<Entry>, b: seq<Entry>, p: Params, weight: nat, i: nat, j: nat, n: nat)
    requires weight > 0 && WellFormed(a) && WellFormed(b) && SameSizes(b, a) && Fresh(a)
    requires i < |a| && j < |b| && CapsBy(a[i], b[j]) && Carries(b[j], n)
    requires forall k, l :: 0 <= k < |a| && 0 <= l < |b| && CapsBy(a[k], b[l]) ==> k == i && l == j
    ensures AdjustedAll(p, ApplyAll(a, Tokens(Text(b))), weight).outReads == if p.outReads > n then n else p.outReads
  {
    OneSideAdjusted(a, b, p, weight);
    CarriesValue(b[j], n);
  }

  /** One side after the comparison: its reads are within the peer's limit, and reordering is off exactly then. */
  lemma OneSideAdjusted(a: seq<Entry>, b: seq<Entry>, p: Params, weight: nat)
    requires weight > 0 && WellFormed(a) && WellFormed(b) && SameSizes(b, a) && Fresh(a)
    ensures var x := AdjustedAll(p, ApplyAll(a, Tokens(Text(b))), weight);
            && (x.noReorder <==> p.noReorder || TurnsOff(a, b, weight))
            && x.outReads <= p.outReads
            && (forall i, j :: 0 <= i < |a| && 0 <= j < |b| && CapsBy(a[i], b[j]) ==> x.outReads <= BigEndian(b[j].local))
            && (x.outReads == p.outReads ||
                exists i, j :: 0 <= i < |a| && 0 <= j < |b| && CapsBy(a[i], b[j]) && x.outReads == BigEndian(b[j].local))
  {
    NegotiationRoundTrip(a, b);
    AdjustedExact(p, Merge(a, b), weight);
    DiffersIff(a, b, weight);
    ReadsExact(a, b, p, weight);
  }

  lemma ReadsExact(a: seq<Entry>, b: seq<Entry>, p: Params, weight: nat)
    requires weight > 0 && WellFormed(a) && WellFormed(b) && SameSizes(b, a) && Fresh(a)
    ensures var x := AdjustedAll(p, Merge(a, b), weight);
            && (forall i, j :: 0 <= i < |a| && 0 <= j < |b| && CapsBy(a[i], b[j]) ==> x.outReads <= BigEndian(b[j].local))
            && (x.outReads == p.outReads ||
                exists i, j :: 0 <= i < |a| && 0 <= j < |b| && CapsBy(a[i], b[j]) && x.outReads == BigEndian(b[j].local))
  {
    AdjustedExact(p, Merge(a, b), weight);
    var x := AdjustedAll(p, Merge(a, b), weight);
    forall i, j | 0 <= i < |a| && 0 <= j < |b| && CapsBy(a[i], b[j])
      ensures x.outReads <= BigEndian(b[j].local)
    {
      CappedRow(a, b, i, j);
    }
    if x.outReads != p.outReads {
      var i :| 0 <= i < |a| && Caps(Merge(a, b)[i]) && x.outReads == BigEndian(Merge(a, b)[i].remote);
      var j := Lookup(b, a[i].name);
      StoredSame(a[i], b[j].local);
      assert CapsBy(a[i], b[j]);
    }
  }

  lemma CappedRow(a: seq<Entry>, b: seq<Entry>, i: nat, j: nat)
    requires WellFormed(a) && WellFormed(b) && SameSizes(b, a) && i < |a| && j < |b| && CapsBy(a[i], b[j])
    ensures Caps(Merge(a, b)[i]) && Merge(a, b)[i].remote == b[j].local
  {
    LookupIs(b, a[i].name, j);
    StoredSame(a[i], b[j].local);
  }

  const REORDER_NAME := "no_enhanced_reorder"

  /** The flag as the table carries it: an int, OFF or ON. */
  function FlagBytes(on: bool): (b: Bytes)
    ensures |b| == 4 && IsBytes(b) && BigEndian(b) == if on then 1 else 0
  {
    var b := [0, 0, 0, if on then 1 else 0];
    FirstIsHighest(0, b[1..]);
    FirstIsHighest(0, b[2..]);
    FirstIsHighest(0, b[3..]);
    assert b == [0] + b[1..] && b[1..] == [0] + b[2..] && b[2..] == [0] + b[3..] && b[3..][..0] == [];
    b
  }

  /** The table declares the side's own reorder flag, which is compared. */
  ghost predicate Declares(t: seq<Entry>, p: Params) {
    exists i :: 0 <= i < |t| && IsFlag(t[i], p)
  }

  predicate IsFlag(e: Entry, p: Params) {
    e.name == REORDER_NAME && e.kind.CompareInt? && e.cond && e.local == FlagBytes(p.noReorder)
  }

  /** SUCCESS means that both sides started with the same flag. */
  lemma FlagsEqual(a: seq<Entry>, b: seq<Entry>, p: Params, q: Params)
    requires SharedEqual(a, b) && Declares(a, p) && Declares(b, q)
    ensures p.noReorder == q.noReorder
  {
    var i :| 0 <= i < |a| && IsFlag(a[i], p);
    var j :| 0 <= j < |b| && IsFlag(b[j], q);
    assert a[i].local == b[j].local;
    assert FlagBytes(p.noReorder)[3] == FlagBytes(q.noReorder)[3];
  }

  /**
   * The adjustments after SUCCESS: no side asks for more outstanding reads than
   * the peer's limit, and the two agree on reordering if and only if it was off
   * already or neither side turns it off without the other.
   */
  lemma AdjustmentsAgree(a: seq<Entry>, b: seq<Entry>, p: Params, q: Params, weight: nat)
    requires weight > 0 && WellFormed(a) && WellFormed(b) && SameSizes(a, b) && SameKinds(a, b) && Fresh(a) && Fresh(b)
    requires Declares(a, p) && Declares(b, q) && Accepted(ApplyAll(a, Tokens(Text(b))))
    ensures var x, y := AdjustedAll(p, ApplyAll(a, Tokens(Text(b))), weight), AdjustedAll(q, ApplyAll(b, Tokens(Text(a))), weight);
            && (x.noReorder == y.noReorder <==>
                p.noReorder || (TurnsOff(a, b, weight) <==> TurnsOff(b, a, weight)))
            && (forall i, j :: 0 <= i < |a| && 0 <= j < |b| && CapsBy(a[i], b[j]) ==> x.outReads <= BigEndian(b[j].local))
  {
    NegotiationAgrees(a, b);
    FlagsEqual(a, b, p, q);
    SameSizesBack(a, b);
    OneSideAdjusted(a, b, p, weight);
    OneSideAdjusted(b, a, q, weight);
  }

  /** Masks that both sides compare, or neither, are turned off by both or by neither. */
  lemma SameConditions(a: seq<Entry>, b: seq<Entry>, weight: nat)
    requires weight > 0 && SameKinds(a, b)
    requires forall i, j :: 0 <= i < |a| && 0 <= j < |b| && a[i].name == b[j].name && a[i].kind.Reorder? ==>
               a[i].cond == b[j].cond
    ensures TurnsOff(a, b, weight) <==> TurnsOff(b, a, weight)
  {
    if i, j :| 0 <= i < |a| && 0 <= j < |b| && MaskDiffers(a[i], b[j], weight) {
      assert MaskDiffers(b[j], a[i], weight);
    }
    if j, i :| 0 <= j < |b| && 0 <= i < |a| && MaskDiffers(b[j], a[i], weight) {
      assert MaskDiffers(a[i], b[j], weight);
    }
  }

  /** A side's table with its flag and a mask; the mask is compared only on one vendor's devices. */
  function VendorTable(mask: nat, cond: bool): (t: seq<Entry>)
    requires mask < 256
    ensures |t| == 2
  {
    [Entry(REORDER_NAME, FlagBytes(false), CompareInt, true, [0, 0, 0, 0], false),
     Entry("mask", [mask], Reorder, cond, [0], false)]
  }

  lemma VendorTableFine(mask: nat, cond: bool)
    requires mask < 256
    ensures WellFormed(VendorTable(mask, cond)) && Fresh(VendorTable(mask, cond))
    ensures Declares(VendorTable(mask, cond), Params(0, false))
  {
    var t := VendorTable(mask, cond);
    assert IsFlag(t[0], Params(0, false));
    assert t[0].name[0] == 'n' && t[1].name[0] == 'm';
    assert forall c :: c in REORDER_NAME ==> c != ';' && c != '=';
    assert forall c :: c in "mask" ==> c != ';' && c != '=';
  }

  lemma VendorTablesAlike(m: nat, n: nat, c: bool, d: bool)
    requires m < 256 && n < 256
    ensures var a, b := VendorTable(m, c), VendorTable(n, d);
            SameSizes(a, b) && SameKinds(a, b) && SharedEqual(a, b)
  {
    var a, b := VendorTable(m, c), VendorTable(n, d);
    assert a[0].name[0] == b[0].name[0] == 'n' && a[1].name[0] == b[1].name[0] == 'm';
  }

  lemma MaskTurnsOff(m: nat, n: nat, c: bool, d: bool)
    requires m < 256 && n < 256
    ensures TurnsOff(VendorTable(m, c), VendorTable(n, d), 1) <==> c && m % 2 != n % 2
  {
    var a, b := VendorTable(m, c), VendorTable(n, d);
    assert BigEndian([m]) == m by { assert [m][..0] == []; }
    assert BigEndian([n]) == n by { assert [n][..0] == []; }
    if c && m % 2 != n % 2 {
      assert MaskDiffers(a[1], b[1], 1);
    }
  }

  /**
   * Such a disagreement: a device of the vendor facing one of another. Both sides
   * report SUCCESS, and only the first turns reordering off.
   */
  lemma VendorsDisagree()
    ensures var a, b, p := VendorTable(1, true), VendorTable(0, false), Params(0, false);
            && WellFormed(a) && WellFormed(b)
            && Accepted(ApplyAll(a, Tokens(Text(b)))) && Accepted(ApplyAll(b, Tokens(Text(a))))
            && AdjustedAll(p, ApplyAll(a, Tokens(Text(b))), 1).noReorder
            && !AdjustedAll(p, ApplyAll(b, Tokens(Text(a))), 1).noReorder
  {
    var a, b, p := VendorTable(1, true), VendorTable(0, false), Params(0, false);
    VendorTableFine(1, true);
    VendorTableFine(0, false);
    VendorTablesAlike(1, 0, true, false);
    SameSizesBack(a, b);
    NegotiationAgrees(a, b);
    MaskTurnsOff(1, 0, true, false);
    MaskTurnsOff(0, 1, false, true);
    OneSideAdjusted(a, b, p, 1);
    OneSideAdjusted(b, a, p, 1);
  }
}
