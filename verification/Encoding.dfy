/** Text encodings: unpadded base64url, joined fields, RFC 3339 timestamps. */
module Encoding {
  import opened Ceremonies
  import opened Dates

  // ------------------------------------------------------------- base64url

  /** The alphabet of section 5 of RFC 4648. */
  function SextetChar(n: nat): char
    requires n < 64
  {
    if n < 26 then ('A' as int + n) as char
    else if n < 52 then ('a' as int + n - 26) as char
    else if n < 62 then ('0' as int + n - 52) as char
    else if n == 62 then '-'
    else '_'
  }

  function CharSextet(c: char): Option<nat> {
    if 'A' <= c <= 'Z' then Some(c as int - 'A' as int)
    else if 'a' <= c <= 'z' then Some(c as int - 'a' as int + 26)
    else if '0' <= c <= '9' then Some(c as int - '0' as int + 52)
    else if c == '-' then Some(62)
    else if c == '_' then Some(63)
    else None
  }

  lemma SextetRoundTrip(n: nat)
    requires n < 64
    ensures CharSextet(SextetChar(n)) == Some(n)
  {
  }

  /** The alphabet runs through the letters and digits and ends in '-' and '_'. */
  lemma AlphabetIsUrlSafe(n: nat)
    requires n < 64
    ensures n in {0, 26, 52, 62, 63} ==> SextetChar(n) == if n == 0 then 'A' else if n == 26 then 'a' else if n == 52 then '0' else if n == 62 then '-' else '_'
    ensures n !in {25, 51, 61, 62, 63} ==> SextetChar(n + 1) as int == SextetChar(n) as int + 1
  {
  }

  /** Octets, as characters below 256. */
  predicate Octets(s: string) {
    forall i :: 0 <= i < |s| ==> s[i] as int < 256
  }

  /** The sextets of three octets. */
  function Sextet1(a: nat): (n: nat)
    requires a < 256
    ensures n < 64
  {
    a / 4
  }

  function Sextet2(a: nat, b: nat): (n: nat)
    requires a < 256 && b < 256
    ensures n < 64
  {
    a % 4 * 16 + b / 16
  }

  function Sextet3(b: nat, c: nat): (n: nat)
    requires b < 256 && c < 256
    ensures n < 64
  {
    b % 16 * 4 + c / 64
  }

  function Sextet4(c: nat): (n: nat)
    requires c < 256
    ensures n < 64
  {
    c % 64
  }

  /** The sextets of an octet string, the last group padded with zero bits. */
  function Pack(s: string): (d: seq<nat>)
    requires Octets(s)
    ensures forall i :: 0 <= i < |d| ==> d[i] < 64
    decreases |s|
  {
    if s == [] then []
    else
      var a := s[0] as int;
      if |s| == 1 then [Sextet1(a), Sextet2(a, 0)]
      else
        var b := s[1] as int;
        if |s| == 2 then [Sextet1(a), Sextet2(a, b), Sextet3(b, 0)]
        else
          var c := s[2] as int;
          [Sextet1(a), Sextet2(a, b), Sextet3(b, c), Sextet4(c)] + Pack(s[3..])
  }

  function Letters(d: seq<nat>): (s: string)
    requires forall i :: 0 <= i < |d| ==> d[i] < 64
    ensures |s| == |d| && forall i :: 0 <= i < |d| ==> s[i] == SextetChar(d[i])
  {
    seq(|d|, i requires 0 <= i < |d| => SextetChar(d[i]))
  }

  /** Unpadded base64url. */
  function Encode(s: string): string
    requires Octets(s)
  {
    Letters(Pack(s))
  }

  /** Test vectors of section 10 of RFC 4648. */
  lemma Vectors()
    ensures Encode("f") == "Zg" && Encode("fo") == "Zm8" && Encode("foo") == "Zm9v" && Encode("foob") == "Zm9vYg"
  {
    assert "foob"[3..] == "b" && "foo"[3..] == "";
  }

  function Sextets(s: string): Option<seq<nat>>
    ensures Sextets(s).Some? ==> |Sextets(s).value| == |s| && forall i :: 0 <= i < |s| ==> Sextets(s).value[i] < 64
  {
    if s == [] then Some([])
    else
      match (CharSextet(s[0]), Sextets(s[1..]))
      case (Some(n), Some(rest)) => Some([n] + rest)
      case _ => None
  }

  /** The decoder skips line breaks. */
  function SkipBreaks(s: string): string {
    if s == [] then []
    else if s[0] == '\n' || s[0] == '\r' then SkipBreaks(s[1..])
    else [s[0]] + SkipBreaks(s[1..])
  }

  /** The octets that four sextets hold. */
  function Octet1(p: nat, q: nat): char
    requires p < 64 && q < 64
  {
    (p * 4 + q / 16) as char
  }

  function Octet2(q: nat, r: nat): char
    requires q < 64 && r < 64
  {
    (q % 16 * 16 + r / 4) as char
  }

  function Octet3(r: nat, t: nat): char
    requires r < 64 && t < 64
  {
    (r % 4 * 64 + t) as char
  }

  /** Strict decoding: unused trailing bits must be zero. */
  function Unpack(d: seq<nat>): Option<string>
    requires forall i :: 0 <= i < |d| ==> d[i] < 64
    decreases |d|
  {
    if d == [] then Some([])
    else if |d| == 1 then None
    else if |d| == 2 then
      if d[1] % 16 == 0 then Some([Octet1(d[0], d[1])]) else None
    else if |d| == 3 then
      if d[2] % 4 == 0 then Some([Octet1(d[0], d[1]), Octet2(d[1], d[2])]) else None
    else
      match Unpack(d[4..])
      case None => None
      case Some(rest) => Some([Octet1(d[0], d[1]), Octet2(d[1], d[2]), Octet3(d[2], d[3])] + rest)
  }

  function Decode(s: string): Option<string> {
    match Sextets(SkipBreaks(s))
    case None => None
    case Some(d) => Unpack(d)
  }

  /** Sextets p, q, r, t hold the octets a, b, c. */
  predicate HoldOctets(p: nat, q: nat, r: nat, t: nat, a: nat, b: nat, c: nat) {
    && p < 64 && q < 64 && r < 64 && t < 64 && a < 256 && b < 256 && c < 256
    && p * 4 + q / 16 == a && q % 16 * 16 + r / 4 == b && r % 4 * 64 + t == c
  }

  lemma OctetsOfSextets(a: nat, b: nat, c: nat)
    requires a < 256 && b < 256 && c < 256
    ensures HoldOctets(Sextet1(a), Sextet2(a, b), Sextet3(b, c), Sextet4(c), a, b, c)
    ensures Sextet2(a, 0) % 16 == 0 && Sextet3(b, 0) % 4 == 0 && Sextet4(0) == 0
  {
    assert (a % 4 * 16 + b / 16) / 16 == a % 4 && (a % 4 * 16 + b / 16) % 16 == b / 16;
    assert (b % 16 * 4 + c / 64) / 4 == b % 16 && (b % 16 * 4 + c / 64) % 4 == c / 64;
  }

  lemma SameOctets(p: nat, q: nat, r: nat, t: nat, a: char, b: char, c: char)
    requires HoldOctets(p, q, r, t, a as int, b as int, c as int)
    ensures Octet1(p, q) == a && Octet2(q, r) == b && Octet3(r, t) == c
  {
  }

  lemma UnpackFour(p: nat, q: nat, r: nat, t: nat, rest: seq<nat>)
    requires p < 64 && q < 64 && r < 64 && t < 64
    requires (forall i :: 0 <= i < |rest| ==> rest[i] < 64) && Unpack(rest).Some?
    ensures Unpack([p, q, r, t] + rest) == Some([Octet1(p, q), Octet2(q, r), Octet3(r, t)] + Unpack(rest).value)
  {
    assert ([p, q, r, t] + rest)[4..] == rest;
  }

  lemma UnpackThree(p: nat, q: nat, r: nat)
    requires p < 64 && q < 64 && r < 64 && r % 4 == 0
    ensures Unpack([p, q, r]) == Some([Octet1(p, q), Octet2(q, r)])
  {
  }

  lemma UnpackTwo(p: nat, q: nat)
    requires p < 64 && q < 64 && q % 16 == 0
    ensures Unpack([p, q]) == Some([Octet1(p, q)])
  {
  }

  lemma OctetsBack(a: char, b: char, c: char)
    requires a as int < 256 && b as int < 256 && c as int < 256
    ensures var x, y, z := a as int, b as int, c as int;
            && Octet1(Sextet1(x), Sextet2(x, y)) == a && Octet2(Sextet2(x, y), Sextet3(y, z)) == b
            && Octet3(Sextet3(y, z), Sextet4(z)) == c
            && Sextet2(x, 0) % 16 == 0 && Sextet3(y, 0) % 4 == 0
  {
    var x, y, z := a as int, b as int, c as int;
    OctetsOfSextets(x, y, z);
    SameOctets(Sextet1(x), Sextet2(x, y), Sextet3(y, z), Sextet4(z), a, b, c);
  }

  lemma UnpackShort(s: string)
    requires Octets(s) && |s| < 3
    ensures Unpack(Pack(s)) == Some(s)
  {
    if |s| == 2 {
      OctetsBack(s[0], s[1], 0 as char);
      UnpackThree(Sextet1(s[0] as int), Sextet2(s[0] as int, s[1] as int), Sextet3(s[1] as int, 0));
      assert s == [s[0], s[1]];
    } else if |s| == 1 {
      OctetsBack(s[0], 0 as char, 0 as char);
      UnpackTwo(Sextet1(s[0] as int), Sextet2(s[0] as int, 0));
      assert s == [s[0]];
    }
  }

  lemma {:induction false} UnpackPack(s: string)
    requires Octets(s)
    ensures Unpack(Pack(s)) == Some(s)
    decreases |s|
  {
    if |s| < 3 {
      UnpackShort(s);
    } else {
      UnpackPack(s[3..]);
      var a, b, c := s[0] as int, s[1] as int, s[2] as int;
      OctetsBack(s[0], s[1], s[2]);
      UnpackFour(Sextet1(a), Sextet2(a, b), Sextet3(b, c), Sextet4(c), Pack(s[3..]));
      assert s == [s[0], s[1], s[2]] + s[3..];
    }
  }

  lemma {:induction false} SextetsOf(n: seq<nat>, s: string)
    requires |s| == |n| && forall i :: 0 <= i < |n| ==> n[i] < 64 && s[i] == SextetChar(n[i])
    ensures Sextets(s) == Some(n)
  {
    if s != [] {
      SextetRoundTrip(n[0]);
      SextetsOf(n[1..], s[1..]);
      assert [n[0]] + n[1..] == n;
    }
  }

  lemma {:induction false} NoBreaks(s: string)
    requires Sextets(s).Some?
    ensures SkipBreaks(s) == s
  {
    if s != [] {
      NoBreaks(s[1..]);
    }
  }

  /** Decoding what was encoded gives it back, for every octet string. */
  lemma Base64RoundTrip(s: string)
    requires Octets(s)
    ensures Decode(Encode(s)) == Some(s)
  {
    SextetsOf(Pack(s), Encode(s));
    NoBreaks(Encode(s));
    UnpackPack(s);
  }

  lemma {:induction false} EncodedLength(s: string)
    requires Octets(s)
    ensures 3 * |Encode(s)| <= 4 * |s| + 4
    decreases |s|
  {
    if |s| >= 3 {
      EncodedLength(s[3..]);
    }
  }

  // ---------------------------------------------------------- joined fields

  /** The parts between separators. */
  function Split(s: string, sep: char): (parts: seq<string>)
    ensures |parts| >= 1
  {
    if s == [] then [[]]
    else
      var rest := Split(s[1..], sep);
      if s[0] == sep then [[]] + rest else [[s[0]] + rest[0]] + rest[1..]
  }

  lemma {:induction false} SplitFirst(a: string, sep: char, rest: string)
    requires sep !in a
    ensures Split(a + [sep] + rest, sep) == [a] + Split(rest, sep)
  {
    var whole := a + [sep] + rest;
    if a == [] {
      assert whole[1..] == rest;
    } else {
      assert whole[1..] == a[1..] + [sep] + rest;
      SplitFirst(a[1..], sep, rest);
      assert [a[0]] + a[1..] == a;
    }
  }

  lemma {:induction false} SplitLast(a: string, sep: char)
    requires sep !in a
    ensures Split(a, sep) == [a]
  {
    if a != [] {
      SplitLast(a[1..], sep);
      assert [a[0]] + a[1..] == a;
    }
  }

  /** Three fields without the separator are read back as they were joined. */
  lemma SplitThree(a: string, b: string, c: string, sep: char)
    requires sep !in a && sep !in b && sep !in c
    ensures Split(a + [sep] + b + [sep] + c, sep) == [a, b, c]
  {
    assert a + [sep] + b + [sep] + c == a + [sep] + (b + [sep] + c);
    SplitFirst(a, sep, b + [sep] + c);
    SplitFirst(b, sep, c);
    SplitLast(c, sep);
  }

  function Join(parts: seq<string>, sep: char): string
    requires |parts| >= 1
  {
    if |parts| == 1 then parts[0] else parts[0] + [sep] + Join(parts[1..], sep)
  }

  lemma {:induction false} JoinSplit(s: string, sep: char)
    ensures Join(Split(s, sep), sep) == s
  {
    if s != [] {
      JoinSplit(s[1..], sep);
      var rest := Split(s[1..], sep);
      if s[0] == sep {
        assert Split(s, sep)[1..] == rest;
        assert [] + [sep] + s[1..] == s;
      } else {
        assert Split(s, sep)[1..] == rest[1..];
        assert [s[0]] + s[1..] == s;
        if |rest| > 1 {
          assert [s[0]] + rest[0] + [sep] + Join(rest[1..], sep) == [s[0]] + (rest[0] + [sep] + Join(rest[1..], sep));
        }
      }
    }
  }

  lemma {:induction false} SplitHasNoSeparator(s: string, sep: char)
    ensures forall i :: 0 <= i < |Split(s, sep)| ==> sep !in Split(s, sep)[i]
  {
    if s != [] {
      SplitHasNoSeparator(s[1..], sep);
    }
  }

  // ------------------------------------------------------------- timestamps

  const SECOND: nat := 1000000000

  /** The zero time.Time: 0001-01-01T00:00:00Z. */
  const ZERO_TIME: nat := 31622400000000000

  predicate IsZero(t: nat) {
    t == ZERO_TIME
  }

  lemma ZeroTimeIsYearOne()
    ensures ZERO_TIME == Midnight(Date(1, 1, 1))
  {
    assert DaysBeforeYear(1) == DaysBeforeYear(0) + YearLength(0);
  }

  /** The digits of a fraction with trailing zeros removed; `digits` are left. */
  function FractionDigits(n: nat, digits: nat): string
    requires n < Power10(digits)
    decreases digits
  {
    if n == 0 || digits == 0 then []
    else
      var unit := Power10(digits - 1);
      FractionStep(n, digits);
      [DigitChar(n / unit)] + FractionDigits(n % unit, digits - 1)
  }

  function Power10(n: nat): nat {
    if n == 0 then 1 else 10 * Power10(n - 1)
  }

  lemma PowerPositive(n: nat)
    ensures Power10(n) > 0
  {
  }

  lemma QuotientIsDigit(n: nat, unit: nat)
    requires 0 < unit && n < 10 * unit
    ensures n / unit < 10 && n % unit < unit && n == (n / unit) * unit + n % unit
  {
    var q := n / unit;
    assert n == unit * q + n % unit;
    if q >= 10 {
      ProductGrows(unit, 10, q);
    }
  }

  lemma ProductGrows(unit: nat, a: nat, b: nat)
    requires a <= b
    ensures unit * a <= unit * b
  {
  }

  lemma FractionStep(n: nat, digits: nat)
    requires 0 < digits && n < Power10(digits)
    ensures var unit := Power10(digits - 1);
            0 < unit && n / unit < 10 && n % unit < unit && n == (n / unit) * unit + n % unit
  {
    PowerPositive(digits - 1);
    QuotientIsDigit(n, Power10(digits - 1));
  }

  /** A fraction of at most `digits` digits, in units of the last of them. */
  function ReadFraction(s: string, digits: nat): Option<nat>
    decreases digits
  {
    if s == [] then Some(0)
    else if digits == 0 || !IsDigit(s[0]) then None
    else
      match ReadFraction(s[1..], digits - 1)
      case None => None
      case Some(rest) => Some(DigitValue(s[0]) * Power10(digits - 1) + rest)
  }

  lemma {:induction false} FractionIsDigits(n: nat, digits: nat)
    requires n < Power10(digits)
    ensures |FractionDigits(n, digits)| <= digits
    ensures n > 0 ==> FractionDigits(n, digits) != []
    ensures forall i :: 0 <= i < |FractionDigits(n, digits)| ==> IsDigit(FractionDigits(n, digits)[i])
    decreases digits
  {
    if n > 0 && digits > 0 {
      FractionStep(n, digits);
      FractionIsDigits(n % Power10(digits - 1), digits - 1);
    }
  }

  lemma {:induction false} FractionRoundTrip(n: nat, digits: nat)
    requires n < Power10(digits)
    ensures ReadFraction(FractionDigits(n, digits), digits) == Some(n)
    decreases digits
  {
    if n > 0 && digits > 0 {
      FractionStep(n, digits);
      var rest := FractionDigits(n % Power10(digits - 1), digits - 1);
      FractionRoundTrip(n % Power10(digits - 1), digits - 1);
      assert FractionDigits(n, digits)[1..] == rest;
    }
  }

  /** A fraction of a second as RFC3339Nano writes it. */
  function FractionText(n: nat): string
    requires n < SECOND
  {
    assert Power10(9) == SECOND by {
      NineZeros();
    }
    if n == 0 then [] else "." + FractionDigits(n, 9)
  }

  lemma NineZeros()
    ensures Power10(9) == SECOND
  {
    assert Power10(3) == 1000;
    assert Power10(6) == 1000000;
  }

  function ReadFractionText(s: string): Option<nat> {
    if s == [] then Some(0)
    else if s[0] != '.' || |s| == 1 then None
    else ReadFraction(s[1..], 9)
  }

  function Seconds(t: nat): nat {
    t % DAY / SECOND
  }

  predicate ClockShape(s: string) {
    && |s| == 8 && s[2] == ':' && s[5] == ':'
    && IsDigit(s[0]) && IsDigit(s[1]) && IsDigit(s[3]) && IsDigit(s[4]) && IsDigit(s[6]) && IsDigit(s[7])
  }

  function ClockText(n: nat): (s: string)
    requires n < 86400
    ensures ClockShape(s) && ReadClock(s) == Some(n)
  {
    var s := TwoText(n / 3600) + ":" + TwoText(n % 3600 / 60) + ":" + TwoText(n % 60);
    assert s[0..2] == TwoText(n / 3600) && s[3..5] == TwoText(n % 3600 / 60) && s[6..8] == TwoText(n % 60);
    s
  }

  function ReadClock(s: string): Option<nat>
    requires ClockShape(s)
  {
    var h, m, sec := Two(s[0..2]), Two(s[3..5]), Two(s[6..8]);
    if h < 24 && m < 60 && sec < 60 then Some(3600 * h + 60 * m + sec) else None
  }

  /** Section 5.6 of RFC 3339, in UTC. */
  function Stamp(t: nat): string
    requires UtcDate(t).year < 10000
  {
    DateText(UtcDate(t)) + "T" + ClockText(Seconds(t)) + FractionText(t % SECOND) + "Z"
  }

  function ReadStamp(s: string): Option<nat> {
    if |s| < 20 || !DateAccepted(s[..10]) || s[10] != 'T' || !ClockShape(s[11..19]) || s[|s| - 1] != 'Z' then None
    else Assemble(Fields(s[..10]), ReadClock(s[11..19]), ReadFractionText(s[19..|s| - 1]))
  }

  function Assemble(d: Date, seconds: Option<nat>, nanos: Option<nat>): Option<nat>
    requires Valid(d)
  {
    if seconds.None? || nanos.None? then None else Some(Midnight(d) + seconds.value * SECOND + nanos.value)
  }

  lemma AssembleParts(t: nat)
    ensures Assemble(UtcDate(t), Some(Seconds(t)), Some(t % SECOND)) == Some(t)
  {
    TimeParts(t);
  }

  lemma TimeParts(t: nat)
    ensures Seconds(t) < 86400
    ensures t == t / DAY * DAY + Seconds(t) * SECOND + t % SECOND
  {
    var inDay := t % DAY;
    assert inDay == inDay / SECOND * SECOND + inDay % SECOND;
    assert DAY == 86400 * SECOND;
    assert inDay % SECOND == t % SECOND by {
      SecondOfDay(t / DAY, inDay);
      assert t == t / DAY * DAY + inDay;
    }
  }

  lemma SecondOfDay(days: nat, inDay: nat)
    ensures (days * DAY + inDay) % SECOND == inDay % SECOND
  {
    assert inDay == inDay / SECOND * SECOND + inDay % SECOND;
    SecondRemainder(days * DAY + inDay, 86400 * days + inDay / SECOND, inDay % SECOND);
  }

  lemma SecondRemainder(t: nat, k: nat, rest: nat)
    requires t == k * 1000000000 + rest && rest < 1000000000
    ensures t % 1000000000 == rest
  {
  }

  /** The parts of a written timestamp. */
  lemma StampParts(t: nat)
    requires UtcDate(t).year < 10000
    ensures var s, f := Stamp(t), FractionText(t % SECOND);
            && |s| == 20 + |f| && s[..10] == DateText(UtcDate(t)) && s[10] == 'T'
            && s[11..19] == ClockText(Seconds(t)) && s[19..|s| - 1] == f && s[|s| - 1] == 'Z'
  {
  }

  lemma FractionTextRoundTrip(n: nat)
    requires n < SECOND
    ensures ReadFractionText(FractionText(n)) == Some(n)
    ensures |FractionText(n)| <= 10
    ensures forall i :: 0 <= i < |FractionText(n)| ==> IsDigit(FractionText(n)[i]) || FractionText(n)[i] == '.'
  {
    NineZeros();
    FractionRoundTrip(n, 9);
    FractionIsDigits(n, 9);
    var digits := FractionDigits(n, 9);
    assert n > 0 ==> FractionText(n) == "." + digits && FractionText(n)[1..] == digits;
  }

  /** A written timestamp reads back as the same instant, for every instant of a
      four-digit year. */
  lemma StampRoundTrip(t: nat)
    requires UtcDate(t).year < 10000
    ensures ReadStamp(Stamp(t)) == Some(t)
  {
    StampParts(t);
    AssembleParts(t);
    FractionTextRoundTrip(t % SECOND);
    var s := Stamp(t);
    assert ReadClock(s[11..19]) == Some(Seconds(t));
    assert Fields(s[..10]) == UtcDate(t);
  }
}
