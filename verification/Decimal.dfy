/** Decimal integers as text, and texts joined by a delimiter. */
module Decimal {
  import opened Ceremonies
  import opened Dates
  import opened Encoding

  function NatText(n: nat): (s: string)
    ensures |s| >= 1 && forall i :: 0 <= i < |s| ==> IsDigit(s[i])
  {
    if n < 10 then [DigitChar(n)] else NatText(n / 10) + [DigitChar(n % 10)]
  }

  function IntText(n: int): string {
    if n < 0 then "-" + NatText(-n) else NatText(n)
  }

  function ReadNat(s: string): Option<nat> {
    if s == "" || !IsDigit(s[|s| - 1]) then None
    else if |s| == 1 then Some(DigitValue(s[0]))
    else
      match ReadNat(s[..|s| - 1])
      case None => None
      case Some(n) => Some(10 * n + DigitValue(s[|s| - 1]))
  }

  predicate FitsInt64(n: int) {
    -0x8000_0000_0000_0000 <= n < 0x8000_0000_0000_0000
  }

  /** An optional sign and digits, in the range of a 64-bit integer. */
  function ParseInt(s: string): (r: Option<int>)
    ensures r.Some? ==> FitsInt64(r.value)
  {
    var signed := s != "" && (s[0] == '-' || s[0] == '+');
    match ReadNat(if signed then s[1..] else s)
    case None => None
    case Some(n) =>
      var magnitude: int := n;
      var value := if signed && s[0] == '-' then -magnitude else magnitude;
      if FitsInt64(value) then Some(value) else None
  }

  lemma {:induction false} NatTextReads(n: nat)
    ensures ReadNat(NatText(n)) == Some(n)
  {
    if n >= 10 {
      NatTextReads(n / 10);
      assert NatText(n)[..|NatText(n)| - 1] == NatText(n / 10);
    }
  }

  lemma IntTextReads(n: int)
    requires FitsInt64(n)
    ensures ParseInt(IntText(n)) == Some(n)
  {
    NatTextReads(if n < 0 then -n else n);
    if n < 0 {
      assert IntText(n)[1..] == NatText(-n);
    } else {
      assert IsDigit(NatText(n)[0]);
    }
  }

  lemma {:induction false} NatTextLength(n: nat, digits: nat, bound: nat)
    requires digits >= 1 && n < bound && bound == Power10(digits)
    ensures |NatText(n)| <= digits
    decreases digits
  {
    if n >= 10 {
      assert digits >= 2;
      NatTextLength(n / 10, digits - 1, Power10(digits - 1));
    }
  }

  lemma Int64TextLength(n: int)
    requires FitsInt64(n)
    ensures |IntText(n)| <= 20
  {
    assert Power10(4) == 10000;
    assert Power10(8) == 10000 * 10000;
    assert Power10(12) == 10000 * 10000 * 10000;
    assert Power10(16) == 10000 * 10000 * 10000 * 10000;
    assert Power10(19) == 10000 * 10000 * 10000 * 10000 * 1000;
    NatTextLength(if n < 0 then -n else n, 19, Power10(19));
  }

  lemma IntTextCharacters(n: int, c: char)
    requires !IsDigit(c) && c != '-'
    ensures c !in IntText(n)
  {
  }

  /** A delimiter that the first part does not contain marks where it ends. */
  lemma {:induction false} DelimitedTwoWays(a: string, b: string, c: char, x: string, y: string)
    requires c !in a && c !in b
    requires a + [c] + x == b + [c] + y
    ensures a == b && x == y
  {
    var s := a + [c] + x;
    assert s[|a|] == c && forall i :: 0 <= i < |a| ==> s[i] == a[i];
    assert s == b + [c] + y;
    assert s[|b|] == c && forall i :: 0 <= i < |b| ==> s[i] == b[i];
    assert |a| == |b|;
    assert a == s[..|a|] == s[..|b|] == b;
    assert x == s[|a| + 1..] == s[|b| + 1..] == y;
  }
}
