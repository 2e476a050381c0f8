/** Hexadecimal text as printf's %0Nx writes it and strtoul and sscanf read it. */
module Hex {
  import opened Arithmetic

  const DIGITS := "0123456789abcdef"

  predicate IsDigit(c: char) {
    '0' <= c <= '9' || 'a' <= c <= 'f' || 'A' <= c <= 'F'
  }

  function Digit(d: nat): (c: char)
    requires d < 16
    ensures IsDigit(c) && Value(c) == d
  {
    DIGITS[d]
  }

  function Value(c: char): (d: nat)
    requires IsDigit(c)
    ensures d < 16
  {
    if '0' <= c <= '9' then c as int - '0' as int
    else if 'a' <= c <= 'f' then c as int - 'a' as int + 10
    else c as int - 'A' as int + 10
  }

  predicate AllDigits(s: string) {
    forall i :: 0 <= i < |s| ==> IsDigit(s[i])
  }

  /** The shortest hexadecimal form of n. */
  function Shortest(n: nat): (s: string)
    ensures |s| >= 1 && AllDigits(s)
  {
    if n < 16 then [Digit(n)] else Shortest(n / 16) + [Digit(n % 16)]
  }

  function Zeros(k: nat): (s: string)
    ensures |s| == k && AllDigits(s)
  {
    seq(k, _ => '0')
  }

  /** %0Nx: at least width digits. */
  function Print(n: nat, width: nat): (s: string)
    ensures |s| >= width && |s| >= 1 && AllDigits(s)
  {
    var s := Shortest(n);
    if |s| >= width then s else Zeros(width - |s|) + s
  }

  function Parse(s: string): nat
    requires AllDigits(s)
  {
    if s == [] then 0 else Parse(s[..|s| - 1]) * 16 + Value(s[|s| - 1])
  }

  function Pow16(w: nat): (r: nat)
    ensures r >= 1
  {
    if w == 0 then 1 else 16 * Pow16(w - 1)
  }

  /** The digits, in lower case as %x prints them; upper case is read as well. */
  lemma DigitTable(d: nat)
    requires d < 16
    ensures d < 10 ==> Digit(d) as int == '0' as int + d
    ensures d >= 10 ==> Digit(d) as int == 'a' as int + (d - 10)
    ensures d >= 10 ==> var upper := ('A' as int + (d - 10)) as char; IsDigit(upper) && Value(upper) == d
  {
  }

  lemma Weigh(v: nat, p: nat, q: nat, d: nat)
    ensures (v * p + q) * 16 + d == v * (16 * p) + (q * 16 + d)
  {
    MulAdd(v * p, q, 16);
    MulAssociates(v, p, 16);
    MulCommutes(p, 16);
  }

  lemma ParseLast(s: string, c: char)
    requires AllDigits(s) && IsDigit(c)
    ensures AllDigits(s + [c]) && Parse(s + [c]) == Parse(s) * 16 + Value(c)
  {
    assert (s + [c])[..|s|] == s;
  }

  /** The first digit has the highest weight. */
  lemma {:induction false} FirstDigitHighest(c: char, s: string)
    requires IsDigit(c) && AllDigits(s)
    ensures AllDigits([c] + s) && Parse([c] + s) == Value(c) * Pow16(|s|) + Parse(s)
  {
    if s == [] {
      assert [c] + [] == [] + [c];
      ParseLast([], c);
    } else {
      var init, d := s[..|s| - 1], s[|s| - 1];
      FirstDigitHighest(c, init);
      assert [c] + s == ([c] + init) + [d];
      ParseLast([c] + init, d);
      Weigh(Value(c), Pow16(|init|), Parse(init), Value(d));
    }
  }

  lemma {:induction false} ParseShortest(n: nat)
    ensures Parse(Shortest(n)) == n
  {
    if n >= 16 {
      ParseShortest(n / 16);
      var s := Shortest(n);
      assert s[..|s| - 1] == Shortest(n / 16);
    }
  }

  lemma {:induction false} ParseZeros(k: nat, s: string)
    requires AllDigits(s)
    ensures Parse(Zeros(k) + s) == Parse(s)
  {
    if s == [] {
      if k > 0 {
        ParseZeros(k - 1, []);
        assert Zeros(k) + [] == Zeros(k) && Zeros(k - 1) + [] == Zeros(k - 1);
        assert Zeros(k)[..k - 1] == Zeros(k - 1);
      }
    } else {
      var init := s[..|s| - 1];
      ParseZeros(k, init);
      assert (Zeros(k) + s)[..k + |s| - 1] == Zeros(k) + init;
    }
  }

  /** What is printed is read back. */
  lemma RoundTrip(n: nat, width: nat)
    ensures Parse(Print(n, width)) == n
  {
    ParseShortest(n);
    if |Shortest(n)| < width {
      ParseZeros(width - |Shortest(n)|, Shortest(n));
    }
  }

  lemma {:induction false} ShortestFits(n: nat, w: nat)
    requires w >= 1
    ensures |Shortest(n)| <= w <==> n < Pow16(w)
  {
    if n < 16 {
      assert Pow16(w) >= 16;
    } else if w == 1 {
      assert Pow16(1) == 16;
    } else {
      ShortestFits(n / 16, w - 1);
    }
  }

  /** A field keeps its width exactly when the value fits it. */
  lemma WidthExact(n: nat, w: nat)
    requires w >= 1
    ensures |Print(n, w)| == w <==> n < Pow16(w)
  {
    ShortestFits(n, w);
  }

  /** The number of leading hexadecimal digits, up to a limit. */
  function Run(s: string, limit: nat): (k: nat)
    ensures k <= |s| && k <= limit
    ensures forall i :: 0 <= i < k ==> IsDigit(s[i])
  {
    if limit == 0 || s == [] || !IsDigit(s[0]) then 0 else 1 + Run(s[1..], limit - 1)
  }

  lemma {:induction false} RunStops(s: string, rest: string, limit: nat)
    requires AllDigits(s)
    requires |s| == limit || (|s| < limit && (rest == [] || !IsDigit(rest[0])))
    ensures Run(s + rest, limit) == |s|
  {
    if s == [] {
      assert s + rest == rest;
    } else {
      assert (s + rest)[1..] == s[1..] + rest;
      RunStops(s[1..], rest, limit - 1);
    }
  }

  /** strtoul and friends in base 16, on text that starts with its digits: the value of the leading run. */
  function Leading(s: string): nat {
    Parse(s[..Run(s, |s|)])
  }

  lemma LeadingIs(s: string, rest: string)
    requires AllDigits(s) && (rest == [] || !IsDigit(rest[0]))
    ensures Leading(s + rest) == Parse(s)
  {
    if rest == [] {
      assert s + rest == s + [];
      RunStops(s, [], |s|);
    } else {
      RunStops(s, rest, |s + rest|);
    }
    assert (s + rest)[..|s|] == s;
  }
}
