/** The string operations the generator relies on: str(n) for a non-negative
    integer, str.ljust, the zero-padded fields of an ISO date, and the first
    field of str.split(' '). */
module Text {

  predicate IsDigit(c: char) { '0' <= c <= '9' }

  predicate AllDigits(s: string) { forall i :: 0 <= i < |s| ==> IsDigit(s[i]) }

  function DigitChar(d: nat): (c: char)
    requires d < 10
    ensures IsDigit(c)
  {
    ('0' as int + d) as char
  }

  function DigitValue(c: char): (r: nat)
    requires IsDigit(c)
  {
    c as int - '0' as int
  }

  /** The decimal numeral of n without leading zeros, as str(n) writes it. */
  function Decimal(n: nat): (s: string)
    ensures |s| >= 1 && AllDigits(s)
    decreases n
  {
    if n < 10 then [DigitChar(n)] else Decimal(n / 10) + [DigitChar(n % 10)]
  }

  /** The number a string of decimal digits denotes, most significant digit first. */
  function DecimalValue(s: string): (r: nat)
    requires AllDigits(s)
  {
    if s == [] then 0 else DecimalValue(s[..|s| - 1]) * 10 + DigitValue(s[|s| - 1])
  }

  lemma {:induction false} DecimalRoundTrip(n: nat)
    ensures DecimalValue(Decimal(n)) == n
    decreases n
  {
    if n >= 10 {
      var s := Decimal(n);
      assert s[..|s| - 1] == Decimal(n / 10);
      DecimalRoundTrip(n / 10);
    }
  }

  lemma {:induction false} DecimalInjective(m: nat, n: nat)
    ensures Decimal(m) == Decimal(n) ==> m == n
  {
    DecimalRoundTrip(m);
    DecimalRoundTrip(n);
  }

  /** A larger number never has a shorter numeral. */
  lemma {:induction false} DecimalLengthMonotone(m: nat, n: nat)
    requires m <= n
    ensures |Decimal(m)| <= |Decimal(n)|
    decreases n
  {
    if m >= 10 {
      DecimalLengthMonotone(m / 10, n / 10);
    }
  }

  /** The number of decimal digits s starts with. */
  function DigitRun(s: string): (r: nat)
  {
    if s == [] || !IsDigit(s[0]) then 0 else 1 + DigitRun(s[1..])
  }

  lemma {:induction false} DigitRunOf(d: string, u: string)
    requires AllDigits(d) && (u == [] || !IsDigit(u[0]))
    ensures DigitRun(d + u) == |d|
    decreases |d|
  {
    if d == [] {
      assert d + u == u;
    } else {
      assert (d + u)[1..] == d[1..] + u;
      DigitRunOf(d[1..], u);
    }
  }

  function Repeat(c: char, k: nat): (s: string)
    ensures |s| == k && forall i :: 0 <= i < k ==> s[i] == c
  {
    seq(k, _ => c)
  }

  /** s.ljust(width, fill): s, followed by fill up to width characters; it never truncates. */
  function PadRight(s: string, width: nat, fill: char): (r: string)
    ensures |r| == if |s| < width then width else |s|
    ensures r[..|s|] == s
    ensures forall i :: |s| <= i < |r| ==> r[i] == fill
  {
    if |s| < width then s + Repeat(fill, width - |s|) else s
  }

  /** n in decimal, left-padded with '0' to at least width characters. */
  function ZeroPad(n: nat, width: nat): (r: string)
    ensures AllDigits(r)
    ensures |r| == if |Decimal(n)| < width then width else |Decimal(n)|
  {
    var s := Decimal(n);
    if |s| < width then Repeat('0', width - |s|) + s else s
  }

  lemma {:induction false} LeadingZerosValue(k: nat, s: string)
    requires AllDigits(s)
    ensures AllDigits(Repeat('0', k) + s) && DecimalValue(Repeat('0', k) + s) == DecimalValue(s)
    decreases |s|, k
  {
    var z := Repeat('0', k);
    if s == [] {
      assert z + s == z;
      if k > 0 {
        assert z[..k - 1] == Repeat('0', k - 1);
        LeadingZerosValue(k - 1, s);
        assert Repeat('0', k - 1) + s == Repeat('0', k - 1);
      }
    } else {
      var t := z + s;
      assert t[..|t| - 1] == z + s[..|s| - 1];
      assert t[|t| - 1] == s[|s| - 1];
      LeadingZerosValue(k, s[..|s| - 1]);
    }
  }

  /** Zero padding keeps the value, so differently padded numbers stay apart. */
  lemma ZeroPadValue(n: nat, width: nat)
    ensures DecimalValue(ZeroPad(n, width)) == n
  {
    var s := Decimal(n);
    DecimalRoundTrip(n);
    if |s| < width {
      LeadingZerosValue(width - |s|, s);
    }
  }

  /** A date as yyyy-mm-dd, the date part of str() of a timestamp. */
  function IsoDate(y: nat, m: nat, d: nat): (r: string)
  {
    ZeroPad(y, 4) + "-" + ZeroPad(m, 2) + "-" + ZeroPad(d, 2)
  }

  lemma TwoDigits(n: nat)
    requires n < 100
    ensures |ZeroPad(n, 2)| == 2
  {
    if n >= 10 {
      assert Decimal(n) == Decimal(n / 10) + [DigitChar(n % 10)];
    }
  }

  /** a-b-c with b and c two characters long comes apart into its three fields. */
  lemma DashedFields(a: string, b: string, c: string, a': string, b': string, c': string)
    requires |b| == |b'| == 2 && |c| == |c'| == 2
    requires a + "-" + b + "-" + c == a' + "-" + b' + "-" + c'
    ensures a == a' && b == b' && c == c'
  {
    var s, t := a + "-" + b + "-" + c, a' + "-" + b' + "-" + c';
    assert |a| == |a'|;
    assert s[..|a|] == a && t[..|a'|] == a';
    assert s[|s| - 5..|s| - 3] == b && t[|t| - 5..|t| - 3] == b';
    assert s[|s| - 2..] == c && t[|t| - 2..] == c';
  }

  /** Distinct dates (with month and day below 100) are written differently. */
  lemma IsoDateInjective(y1: nat, m1: nat, d1: nat, y2: nat, m2: nat, d2: nat)
    requires m1 < 100 && d1 < 100 && m2 < 100 && d2 < 100
    requires IsoDate(y1, m1, d1) == IsoDate(y2, m2, d2)
    ensures y1 == y2 && m1 == m2 && d1 == d2
  {
    TwoDigits(m1); TwoDigits(d1); TwoDigits(m2); TwoDigits(d2);
    DashedFields(ZeroPad(y1, 4), ZeroPad(m1, 2), ZeroPad(d1, 2), ZeroPad(y2, 4), ZeroPad(m2, 2), ZeroPad(d2, 2));
    ZeroPadValue(y1, 4); ZeroPadValue(y2, 4);
    ZeroPadValue(m1, 2); ZeroPadValue(m2, 2);
    ZeroPadValue(d1, 2); ZeroPadValue(d2, 2);
  }

  /** s.split(' ')[0]: the characters of s before its first space. */
  function FirstField(s: string): (r: string)
    ensures r <= s && ' ' !in r
    ensures |r| < |s| ==> s[|r|] == ' '
  {
    if s == [] || s[0] == ' ' then [] else [s[0]] + FirstField(s[1..])
  }

  lemma {:induction false} FirstFieldOf(d: string, rest: string)
    requires ' ' !in d
    ensures FirstField(d + " " + rest) == d
    decreases |d|
  {
    if d != [] {
      assert (d + " " + rest)[1..] == d[1..] + " " + rest;
      FirstFieldOf(d[1..], rest);
    }
  }
}
