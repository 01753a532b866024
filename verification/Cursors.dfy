/** The cursor a page link carries, written as text and read back. */
module Cursors {
  import opened Ceremonies
  import opened Dates
  import opened Encoding

  /** A cursor as the query uses it; the empty id means no cursor. */
  datatype AdminCursor = AdminCursor(id: string, time: nat, previous: bool)

  const NO_CURSOR := AdminCursor("", ZERO_TIME, false)

  // ------------------------------------------------------------ cursor text

  predicate IsHex(c: char) {
    '0' <= c <= '9' || 'a' <= c <= 'f'
  }

  /** A UUID in canonical text form. */
  predicate ValidUuid(s: string) {
    && |s| == 36
    && forall i :: 0 <= i < 36 ==> if i in {8, 13, 18, 23} then s[i] == '-' else IsHex(s[i])
  }

  function Direction(previous: bool): string {
    if previous then "previous" else "next"
  }

  function StampOrNone(t: nat): string
    requires UtcDate(t).year < 10000
  {
    if IsZero(t) then "" else Stamp(t)
  }

  function CursorText(id: string, t: nat, previous: bool): string
    requires UtcDate(t).year < 10000
  {
    Direction(previous) + "|" + StampOrNone(t) + "|" + id
  }

  function CursorValue(id: string, t: nat, previous: bool): string
    requires UtcDate(t).year < 10000 && ValidUuid(id)
  {
    CursorTextIsPlain(id, t, previous);
    Encode(CursorText(id, t, previous))
  }

  /** The characters of a timestamp. */
  predicate StampChar(c: char) {
    IsDigit(c) || c in {'-', ':', '.', 'T', 'Z'}
  }

  predicate Plain(s: string) {
    forall i :: 0 <= i < |s| ==> StampChar(s[i])
  }

  lemma DateIsPlain(s: string)
    requires DateShape(s)
    ensures Plain(s)
  {
    assert forall i :: 0 <= i < 10 ==> StampChar(s[i]);
  }

  lemma ClockIsPlain(s: string)
    requires ClockShape(s)
    ensures Plain(s)
  {
    assert forall i :: 0 <= i < 8 ==> StampChar(s[i]);
  }

  lemma PlainJoined(date: string, clock: string, fraction: string)
    requires Plain(date) && Plain(clock) && Plain(fraction)
    ensures Plain(date + "T" + clock + fraction + "Z")
  {
  }

  lemma StampIsPlain(t: nat)
    requires UtcDate(t).year < 10000
    ensures |Stamp(t)| <= 30 && Plain(Stamp(t))
  {
    FractionTextRoundTrip(t % SECOND);
    DateIsPlain(DateText(UtcDate(t)));
    ClockIsPlain(ClockText(Seconds(t)));
    PlainJoined(DateText(UtcDate(t)), ClockText(Seconds(t)), FractionText(t % SECOND));
  }

  lemma PlainText(s: string)
    requires Plain(s)
    ensures Octets(s) && '|' !in s
  {
  }

  lemma UuidText(s: string)
    requires ValidUuid(s)
    ensures Octets(s) && '|' !in s
  {
    assert forall i :: 0 <= i < 36 ==> s[i] == '-' || IsHex(s[i]);
  }

  lemma StampOrNoneIsPlain(t: nat)
    requires UtcDate(t).year < 10000
    ensures |StampOrNone(t)| <= 30 && Plain(StampOrNone(t))
  {
    if !IsZero(t) {
      StampIsPlain(t);
    }
  }

  lemma OctetsJoined(a: string, b: string, c: string)
    requires Octets(a) && Octets(b) && Octets(c)
    ensures Octets(a + "|" + b + "|" + c)
    ensures |a + "|" + b + "|" + c| == |a| + |b| + |c| + 2
  {
  }

  lemma DirectionIsPlain(previous: bool)
    ensures Octets(Direction(previous)) && |Direction(previous)| <= 8 && '|' !in Direction(previous)
  {
  }

  lemma CursorTextIsPlain(id: string, t: nat, previous: bool)
    requires UtcDate(t).year < 10000 && ValidUuid(id)
    ensures Octets(CursorText(id, t, previous)) && |CursorText(id, t, previous)| <= 76
    ensures '|' !in Direction(previous) && '|' !in StampOrNone(t) && '|' !in id
  {
    StampOrNoneIsPlain(t);
    PlainText(StampOrNone(t));
    UuidText(id);
    DirectionIsPlain(previous);
    OctetsJoined(Direction(previous), StampOrNone(t), id);
  }

  /** Reading a cursor parameter; `history` lists need a timestamp in it. */
  function ReadCursor(raw: string, history: bool): Option<AdminCursor> {
    if |raw| > 256 then None
    else
      match Decode(raw)
      case None => None
      case Some(text) => ReadParts(Split(text, '|'), history)
  }

  function ReadParts(parts: seq<string>, history: bool): Option<AdminCursor> {
    if |parts| != 3 || (parts[0] != "next" && parts[0] != "previous") || !ValidUuid(parts[2]) then None
    else if history then
      match ReadStamp(parts[1])
      case None => None
      case Some(t) => Some(AdminCursor(parts[2], t, parts[0] == "previous"))
    else if parts[1] != "" then None
    else Some(AdminCursor(parts[2], ZERO_TIME, parts[0] == "previous"))
  }

  /** A cursor text: direction, timestamp, id. */
  function JoinedText(previous: bool, stamp: string, id: string): string {
    Direction(previous) + "|" + stamp + "|" + id
  }

  /** What a cursor stands for in a list: history cursors carry a timestamp, the
      others an empty one. */
  ghost predicate Denotes(text: string, stamp: string, c: AdminCursor, history: bool) {
    && ValidUuid(c.id) && '|' !in stamp && text == JoinedText(c.previous, stamp, c.id)
    && if history then ReadStamp(stamp) == Some(c.time) else stamp == "" && c.time == ZERO_TIME
  }

  lemma PartsDenote(text: string, c: AdminCursor, history: bool)
    requires ReadParts(Split(text, '|'), history) == Some(c)
    ensures Denotes(text, Split(text, '|')[1], c, history)
  {
    var parts := Split(text, '|');
    SplitHasNoSeparator(text, '|');
    JoinSplit(text, '|');
    assert parts[1..][1..] == [parts[2]] && parts[1..][0] == parts[1];
    assert Join(parts[1..], '|') == parts[1] + "|" + parts[2];
    assert Direction(c.previous) == parts[0] && c.id == parts[2];
    assert text == parts[0] + "|" + (parts[1] + "|" + parts[2]);
    assert text == parts[0] + "|" + parts[1] + "|" + parts[2];
  }

  lemma DenotedIsRead(text: string, stamp: string, c: AdminCursor, history: bool)
    requires Denotes(text, stamp, c, history)
    ensures ReadParts(Split(text, '|'), history) == Some(c)
  {
    DirectionIsPlain(c.previous);
    UuidText(c.id);
    SplitThree(Direction(c.previous), stamp, c.id, '|');
  }

  /** A cursor is read exactly when it is not too long and decodes to a text that
      denotes it, and it is that cursor. */
  lemma ReadCursorIsExact(raw: string, c: AdminCursor, history: bool)
    ensures ReadCursor(raw, history) == Some(c) <==>
            |raw| <= 256 && Decode(raw).Some? && exists stamp :: Denotes(Decode(raw).value, stamp, c, history)
  {
    if ReadCursor(raw, history) == Some(c) {
      PartsDenote(Decode(raw).value, c, history);
    }
    if |raw| <= 256 && Decode(raw).Some? {
      forall stamp | Denotes(Decode(raw).value, stamp, c, history) ensures ReadCursor(raw, history) == Some(c) {
        DenotedIsRead(Decode(raw).value, stamp, c, history);
      }
    }
  }

  lemma CursorDecodes(id: string, t: nat, previous: bool)
    requires ValidUuid(id) && UtcDate(t).year < 10000
    ensures var value := CursorValue(id, t, previous);
            && |value| <= 256 && value != "" && Decode(value).Some?
            && Split(Decode(value).value, '|') == [Direction(previous), StampOrNone(t), id]
  {
    CursorTextIsPlain(id, t, previous);
    EncodedLength(CursorText(id, t, previous));
    Base64RoundTrip(CursorText(id, t, previous));
    SplitThree(Direction(previous), StampOrNone(t), id, '|');
  }

  lemma StampOrNoneReads(t: nat)
    requires UtcDate(t).year < 10000
    ensures ReadStamp(StampOrNone(t)) == if IsZero(t) then None else Some(t)
    ensures StampOrNone(t) == "" <==> IsZero(t)
  {
    if !IsZero(t) {
      StampRoundTrip(t);
      StampParts(t);
    }
  }

  /** The zero time has no timestamp to write, so only a history cursor loses it. */
  lemma CursorRoundTrip(id: string, t: nat, previous: bool, history: bool)
    requires ValidUuid(id) && UtcDate(t).year < 10000
    ensures |CursorValue(id, t, previous)| <= 256 && CursorValue(id, t, previous) != ""
    ensures history && !IsZero(t) ==> ReadCursor(CursorValue(id, t, previous), true) == Some(AdminCursor(id, t, previous))
    ensures history && IsZero(t) ==> ReadCursor(CursorValue(id, t, previous), true) == None
    ensures !history && IsZero(t) ==> ReadCursor(CursorValue(id, t, previous), false) == Some(AdminCursor(id, ZERO_TIME, previous))
    ensures !history && !IsZero(t) ==> ReadCursor(CursorValue(id, t, previous), false) == None
  {
    CursorDecodes(id, t, previous);
    StampOrNoneReads(t);
    var parts := [Direction(previous), StampOrNone(t), id];
    assert ReadCursor(CursorValue(id, t, previous), history) == ReadParts(parts, history);
  }
}
