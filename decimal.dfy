/** Base-10 formatting of integers, as `format!("{}", n)` renders a `usize`
    length or an `i64`, together with the digit parsing that inverts it. */
module Decimal {
  import opened Bytes

  predicate AllDigits(s: seq<Byte>) {
    forall i :: 0 <= i < |s| ==> IsDigit(s[i])
  }

  /** The shape `{}` gives a non-negative number: at least one digit and no
      leading zero, except for the single digit "0". */
  predicate Canonical(s: seq<Byte>) {
    |s| >= 1 && AllDigits(s) && (s[0] == ZERO ==> |s| == 1)
  }

  function Digit(d: nat): (b: Byte)
    requires d < 10
    ensures IsDigit(b)
  {
    ZERO + d
  }

  function DigitValue(b: Byte): (d: nat)
    requires IsDigit(b)
    ensures d < 10 && Digit(d) == b
  {
    b - ZERO
  }

  /** Decimal rendering of a natural number, most significant digit first. */
  function NatToDecimal(n: nat): (r: seq<Byte>)
    ensures Canonical(r)
    ensures r[0] == ZERO <==> n == 0
    decreases n
  {
    if n < 10 then [Digit(n)] else NatToDecimal(n / 10) + [Digit(n % 10)]
  }

  /** Decimal rendering of a signed number: a '-' for negative values, then the
      magnitude. The magnitude is taken in unbounded arithmetic, so the most
      negative 64-bit value needs no special case. */
  function IntToDecimal(n: int): (r: seq<Byte>)
    ensures |r| >= 1
    ensures r[0] == MINUS <==> n < 0
    ensures r[0] == MINUS ==> Canonical(r[1..]) && r[1] != ZERO
    ensures r[0] != MINUS ==> Canonical(r)
  {
    if n < 0 then [MINUS] + NatToDecimal(-n) else NatToDecimal(n)
  }

  /** The value of a run of digits, read most significant first. */
  function ParseNat(s: seq<Byte>): nat
    requires AllDigits(s)
  {
    if s == [] then 0 else ParseNat(s[..|s| - 1]) * 10 + DigitValue(s[|s| - 1])
  }

  /** The signed value of a sign-and-magnitude rendering. */
  function ParseInt(s: seq<Byte>): int
    requires |s| >= 1
    requires if s[0] == MINUS then AllDigits(s[1..]) else AllDigits(s)
  {
    if s[0] == MINUS then 0 - ParseNat(s[1..]) else ParseNat(s)
  }

  /** The length of the longest prefix of `s` made of digits. */
  function DigitRun(s: seq<Byte>): (k: nat)
    ensures k <= |s| && AllDigits(s[..k])
    ensures k < |s| ==> !IsDigit(s[k])
  {
    if s == [] || !IsDigit(s[0]) then 0
    else
      var k := 1 + DigitRun(s[1..]);
      assert s[..k] == [s[0]] + s[1..][..k - 1];
      k
  }

  /** Reading back a rendering gives the number rendered. */
  lemma {:induction false} ParseNatToDecimal(n: nat)
    ensures ParseNat(NatToDecimal(n)) == n
    decreases n
  {
    if n >= 10 {
      var r := NatToDecimal(n);
      var p := NatToDecimal(n / 10);
      assert r[..|r| - 1] == p;
      ParseNatToDecimal(n / 10);
    }
  }

  /** Every canonical digit string is the rendering of its value, so
      NatToDecimal is a bijection onto the canonical strings. */
  lemma {:induction false} NatToDecimalParse(s: seq<Byte>)
    requires Canonical(s)
    ensures NatToDecimal(ParseNat(s)) == s
    decreases |s|
  {
    if |s| > 1 {
      var p := s[..|s| - 1];
      var d := DigitValue(s[|s| - 1]);
      assert Canonical(p);
      NatToDecimalParse(p);
      var n := ParseNat(s);
      assert n == ParseNat(p) * 10 + d;
      assert ParseNat(p) != 0;
      assert n / 10 == ParseNat(p) && n % 10 == d;
      assert s == p + [s[|s| - 1]];
    } else {
      assert s == [Digit(DigitValue(s[0]))];
    }
  }

  /** Signed rendering reads back as the number rendered. */
  lemma IntToDecimalParse(n: int)
    ensures var r := IntToDecimal(n); ParseInt(r) == n
  {
    var r := IntToDecimal(n);
    if n < 0 {
      assert r[1..] == NatToDecimal(-n);
      ParseNatToDecimal(-n);
    } else {
      ParseNatToDecimal(n);
    }
  }

  /** A digit run followed by a non-digit is measured exactly by DigitRun. */
  lemma {:induction false} DigitRunOf(ds: seq<Byte>, rest: seq<Byte>)
    requires AllDigits(ds)
    requires rest == [] || !IsDigit(rest[0])
    ensures DigitRun(ds + rest) == |ds|
  {
    if ds != [] {
      assert (ds + rest)[1..] == ds[1..] + rest;
      DigitRunOf(ds[1..], rest);
    }
  }
}
