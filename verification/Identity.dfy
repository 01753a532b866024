/** Identities written as text: the hash input of a user handle, the message an
    admin session signs, and the session cookie. */
module Identity {
  import opened Ceremonies
  import opened Dates
  import opened Encoding
  import opened Decimal

  // ------------------------------------------------------------ user handle

  /** Limits on what a request may carry. A Go string is a sequence of bytes, here
      one char each; which byte sequences are UTF-8 is a parameter. */
  predicate ValidApplicationCode(s: string) {
    1 <= |s| <= 64 &&
    forall i :: 0 <= i < |s| ==> 'A' <= s[i] <= 'Z' || 'a' <= s[i] <= 'z' || IsDigit(s[i]) || s[i] in {'.', '_', '-'}
  }

  predicate ValidSubject(utf8: string -> bool, s: string) {
    0 < |s| <= 256 && utf8(s) && '\0' !in s
  }

  /** What UserHandle hashes. */
  function HandleInput(application: string, subject: string): string {
    application + "\0" + subject
  }

  /** The hash input determines the application and the subject. */
  lemma HandleInputIsUnambiguous(a: string, s: string, b: string, t: string)
    requires ValidApplicationCode(a) && ValidApplicationCode(b)
    ensures HandleInput(a, s) == HandleInput(b, t) <==> a == b && s == t
  {
    if HandleInput(a, s) == HandleInput(b, t) {
      DelimitedTwoWays(a, b, '\0', s, t);
    }
  }

  // --------------------------------------------------------- signed message

  /** The message a session signature covers; the name is preceded by its length. */
  function SignedMessage(username: string, expires: string): string {
    "shellty-passkey-server:admin:v1:" + NatText(|username|) + ":" + username + ":" + expires
  }

  lemma TailsAgree(prefix: string, x: string, y: string)
    requires prefix + x == prefix + y
    ensures x == y
  {
    assert x == (prefix + x)[|prefix|..] == (prefix + y)[|prefix|..] == y;
  }

  /** The message determines name and expiry, whatever characters the name holds. */
  lemma SignedMessageIsUnambiguous(u: string, e: string, v: string, f: string)
    ensures SignedMessage(u, e) == SignedMessage(v, f) <==> u == v && e == f
  {
    if SignedMessage(u, e) == SignedMessage(v, f) {
      var head := "shellty-passkey-server:admin:v1:";
      var x, y := u + ":" + e, v + ":" + f;
      assert SignedMessage(u, e) == head + (NatText(|u|) + ":" + x);
      assert SignedMessage(v, f) == head + (NatText(|v|) + ":" + y);
      TailsAgree(head, NatText(|u|) + ":" + x, NatText(|v|) + ":" + y);
      DelimitedTwoWays(NatText(|u|), NatText(|v|), ':', x, y);
      NatTextReads(|u|);
      NatTextReads(|v|);
      assert u == x[..|u|] == y[..|v|] == v;
      assert e == x[|u| + 1..] == y[|v| + 1..] == f;
    }
  }

  // ------------------------------------------------------------------ cookie

  const COOKIE_AGE: nat := 30 * 24 * 3600

  function HexChar(n: nat): char
    requires n < 16
  {
    if n < 10 then DigitChar(n) else ('a' as int + n - 10) as char
  }

  lemma HexIsLowerCase(n: nat)
    requires n < 16
    ensures HexChar(n) == "0123456789abcdef"[n]
  {
  }

  function HexValue(c: char): Option<nat> {
    if IsDigit(c) then Some(DigitValue(c))
    else if 'a' <= c <= 'f' then Some(c as int - 'a' as int + 10)
    else if 'A' <= c <= 'F' then Some(c as int - 'A' as int + 10)
    else None
  }

  function HexText(b: Bytes): (s: string)
    ensures |s| == 2 * |b|
  {
    if b == [] then []
    else [HexChar(b[0] as int / 16), HexChar(b[0] as int % 16)] + HexText(b[1..])
  }

  function ReadHex(s: string): Option<Bytes> {
    if s == [] then Some([])
    else if |s| == 1 then None
    else
      match (HexValue(s[0]), HexValue(s[1]), ReadHex(s[2..]))
      case (Some(high), Some(low), Some(rest)) => Some([(16 * high + low) as byte] + rest)
      case _ => None
  }

  lemma {:induction false} HexRoundTrip(b: Bytes)
    ensures ReadHex(HexText(b)) == Some(b)
    ensures '.' !in HexText(b)
  {
    if b != [] {
      HexRoundTrip(b[1..]);
      assert HexText(b)[2..] == HexText(b[1..]);
      assert b == [b[0]] + b[1..];
    }
  }

  /** The keyed hash of a message: 32 octets. */
  type Mac = string -> Bytes

  ghost predicate MacFits(mac: Mac) {
    forall message :: |mac(message)| == 32
  }

  function CookieText(mac: Mac, username: string, expires: int): string {
    "v1." + IntText(expires) + "." + HexText(mac(SignedMessage(username, IntText(expires))))
  }

  /** A cookie issued at a second of the clock. */
  function CookieValue(mac: Mac, username: string, now: int): string {
    CookieText(mac, username, now + COOKIE_AGE)
  }

  predicate ValidCookie(mac: Mac, username: string, value: string, now: int) {
    |value| <= 128 &&
    var parts := Split(value, '.');
    && |parts| == 3 && parts[0] == "v1" && |parts[2]| == 64
    && ParseInt(parts[1]).Some?
    && var expires := ParseInt(parts[1]).value;
       && IntText(expires) == parts[1] && now < expires
       && ReadHex(parts[2]) == Some(mac(SignedMessage(username, parts[1])))
  }

  /** The signature parts that stand for a MAC: its hex text, in either case. */
  predicate Signs(h: string, tag: Bytes) {
    |h| == 64 && '.' !in h && ReadHex(h) == Some(tag)
  }

  ghost predicate Signed(mac: Mac, username: string, value: string, expires: int, h: string) {
    && FitsInt64(expires)
    && value == "v1." + IntText(expires) + "." + h
    && Signs(h, mac(SignedMessage(username, IntText(expires))))
  }

  lemma CookieParts(expires: int, h: string)
    requires FitsInt64(expires) && '.' !in h
    ensures Split("v1." + IntText(expires) + "." + h, '.') == ["v1", IntText(expires), h]
  {
    IntTextCharacters(expires, '.');
    assert "v1." + IntText(expires) + "." + h == "v1" + "." + IntText(expires) + "." + h;
    SplitThree("v1", IntText(expires), h, '.');
  }

  lemma SignedIsValid(mac: Mac, username: string, value: string, expires: int, h: string, now: int)
    requires Signed(mac, username, value, expires, h)
    ensures ValidCookie(mac, username, value, now) <==> now < expires
  {
    CookieParts(expires, h);
    IntTextReads(expires);
    Int64TextLength(expires);
  }

  lemma ValidIsSigned(mac: Mac, username: string, value: string, now: int) returns (expires: int, h: string)
    requires ValidCookie(mac, username, value, now)
    ensures now < expires && Signed(mac, username, value, expires, h)
  {
    var parts := Split(value, '.');
    expires, h := ParseInt(parts[1]).value, parts[2];
    SplitHasNoSeparator(value, '.');
    JoinSplit(value, '.');
    assert parts[1..][1..] == [parts[2]] && parts[1..][0] == parts[1];
    assert Join(parts[1..], '.') == parts[1] + "." + parts[2];
    assert value == "v1" + "." + (IntText(expires) + "." + h);
    assert value == "v1." + IntText(expires) + "." + h;
  }

  /** A value is accepted exactly when it carries, canonically written, an expiry
      still to come and the signature of that expiry for this name. */
  lemma CookieIsExact(mac: Mac, username: string, value: string, now: int)
    ensures ValidCookie(mac, username, value, now) <==>
            exists expires, h :: now < expires && Signed(mac, username, value, expires, h)
  {
    if ValidCookie(mac, username, value, now) {
      var expires, h := ValidIsSigned(mac, username, value, now);
    } else {
      forall expires, h | Signed(mac, username, value, expires, h) ensures expires <= now {
        SignedIsValid(mac, username, value, expires, h, now);
      }
    }
  }

  /** A fresh cookie validates until its expiry second, for its own name only,
      unless the two names' messages happen to have the same MAC. */
  lemma FreshCookie(mac: Mac, username: string, other: string, issued: int, now: int)
    requires MacFits(mac) && FitsInt64(issued + COOKIE_AGE)
    requires var e := IntText(issued + COOKIE_AGE);
             mac(SignedMessage(username, e)) == mac(SignedMessage(other, e)) ==> SignedMessage(username, e) == SignedMessage(other, e)
    ensures ValidCookie(mac, other, CookieValue(mac, username, issued), now) <==>
            username == other && now < issued + 2592000
  {
    var expires := issued + COOKIE_AGE;
    var e, value := IntText(expires), CookieValue(mac, username, issued);
    var tag := mac(SignedMessage(username, e));
    HexRoundTrip(tag);
    if username == other {
      SignedIsValid(mac, username, value, expires, HexText(tag), now);
    } else {
      CookieParts(expires, HexText(tag));
      SignedMessageIsUnambiguous(username, e, other, e);
    }
  }
}
