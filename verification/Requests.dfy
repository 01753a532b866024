/** Admin list requests: reading the filter, and the links between pages. */
module Requests {
  import opened Ceremonies
  import opened Dates
  import opened Encoding
  import opened Identity
  import opened Cursors
  import Paging
  import QueryBuilder

  datatype AdminFilter = AdminFilter(
    application: string, subject: string, credential: string, from: string, to: string, cursor: AdminCursor)

  /** Decoded query parameters, each name with its values. */
  type Query = map<string, seq<string>>

  function Get(q: Query, name: string): string {
    if name in q && |q[name]| > 0 then q[name][0] else ""
  }

  predicate KnownName(name: string, history: bool) {
    name in {"application", "subject", "cursor"} || (history && name in {"credential", "from", "to"})
  }

  /** parseAdminFilter, up to the cursor. `utf8` says which subjects are UTF-8. */
  ghost predicate FieldsAccepted(utf8: string -> bool, q: Query, history: bool) {
    && (forall name :: name in q ==> |q[name]| == 1 && KnownName(name, history))
    && (Get(q, "application") != "" ==> ValidApplicationCode(Get(q, "application")))
    && |Get(q, "subject")| <= 256 && utf8(Get(q, "subject")) && '\0' !in Get(q, "subject")
    && (Get(q, "credential") != "" ==> ValidUuid(Get(q, "credential")))
    && (Get(q, "from") != "" ==> DateAccepted(Get(q, "from")))
    && (Get(q, "to") != "" ==> DateAccepted(Get(q, "to")))
    && (Get(q, "from") != "" && Get(q, "to") != "" ==> !TextBefore(Get(q, "to"), Get(q, "from")))
  }

  ghost function ParseFilter(utf8: string -> bool, q: Query, history: bool): Option<AdminFilter> {
    if !FieldsAccepted(utf8, q, history) then None
    else
      var f := AdminFilter(Get(q, "application"), Get(q, "subject"), Get(q, "credential"), Get(q, "from"), Get(q, "to"), NO_CURSOR);
      if Get(q, "cursor") == "" then Some(f)
      else
        match ReadCursor(Get(q, "cursor"), history)
        case None => None
        case Some(c) => Some(f.(cursor := c))
  }

  /** A request's fields are refused exactly for an unknown or repeated parameter, a
      field out of form, or dates out of order. */
  lemma FieldsAreExact(utf8: string -> bool, q: Query, history: bool)
    ensures var known := if history then {"application", "subject", "cursor", "credential", "from", "to"}
                         else {"application", "subject", "cursor"};
            FieldsAccepted(utf8, q, history) <==>
              && (forall name :: name in q ==> name in known && |q[name]| == 1)
              && (Get(q, "application") == "" || ValidApplicationCode(Get(q, "application")))
              && (if Get(q, "subject") == "" then utf8("") else ValidSubject(utf8, Get(q, "subject")))
              && (Get(q, "credential") == "" || ValidUuid(Get(q, "credential")))
              && (Get(q, "from") == "" || DateAccepted(Get(q, "from")))
              && (Get(q, "to") == "" || DateAccepted(Get(q, "to")))
              && (Get(q, "from") == "" || Get(q, "to") == "" || !TextBefore(Get(q, "to"), Get(q, "from")))
  {
  }

  /** A request with acceptable fields is refused exactly for a cursor that cannot be
      read; otherwise every field of the filter is its own parameter. */
  lemma FilterIsItsParameters(utf8: string -> bool, q: Query, history: bool)
    ensures var parsed, raw := ParseFilter(utf8, q, history), Get(q, "cursor");
            if !FieldsAccepted(utf8, q, history) || (raw != "" && ReadCursor(raw, history).None?) then parsed == None
            else
              parsed == Some(AdminFilter(Get(q, "application"), Get(q, "subject"), Get(q, "credential"), Get(q, "from"), Get(q, "to"),
                                         if raw == "" then NO_CURSOR else ReadCursor(raw, history).value))
  {
  }

  /** pageURL: the request's own parameters with the cursor set. */
  function PageQuery(q: Query, cursor: string): Query {
    q["cursor" := [cursor]]
  }

  lemma FiltersOfPageQuery(q: Query, cursor: string)
    ensures var p := PageQuery(q, cursor);
            && Get(p, "application") == Get(q, "application") && Get(p, "subject") == Get(q, "subject")
            && Get(p, "credential") == Get(q, "credential") && Get(p, "from") == Get(q, "from") && Get(p, "to") == Get(q, "to")
  {
    assert "application" != "cursor" && "subject" != "cursor" && "credential" != "cursor" && "from" != "cursor" && "to" != "cursor";
  }

  lemma PageQueryKeepsFields(utf8: string -> bool, q: Query, cursor: string, history: bool)
    ensures FieldsAccepted(utf8, q, history) ==> FieldsAccepted(utf8, PageQuery(q, cursor), history)
    ensures Get(PageQuery(q, cursor), "cursor") == cursor
  {
    FiltersOfPageQuery(q, cursor);
  }

  /** Following a link keeps every filter and lands on the cursor it was made
      from. A history link works exactly when its row's time is not the zero time;
      a credential link carries no time. */
  lemma LinkRoundTrip(utf8: string -> bool, q: Query, history: bool, id: string, t: nat, previous: bool)
    requires ParseFilter(utf8, q, history).Some? && ValidUuid(id) && UtcDate(t).year < 10000
    requires !history ==> IsZero(t)
    ensures var next := ParseFilter(utf8, PageQuery(q, CursorValue(id, t, previous)), history);
            && (next.Some? <==> !history || !IsZero(t))
            && (next.Some? ==> next.value == ParseFilter(utf8, q, history).value.(cursor := AdminCursor(id, t, previous)))
  {
    var cursor := CursorValue(id, t, previous);
    PageQueryKeepsFields(utf8, q, cursor, history);
    CursorRoundTrip(id, t, previous, history);
    FiltersOfPageQuery(q, cursor);
  }

  // ------------------------------------------------------------ typed filters

  /** The 128-bit value a UUID text stands for. */
  function UuidNumber(s: string): nat {
    if s == "" then 0
    else
      var front, last := s[..|s| - 1], s[|s| - 1];
      if IsHex(last) then 16 * UuidNumber(front) + HexValue(last).value else UuidNumber(front)
  }

  ghost predicate SameShape(a: string, b: string) {
    |a| == |b| && forall i :: 0 <= i < |a| ==> (IsHex(a[i]) && IsHex(b[i])) || (a[i] == b[i] == '-')
  }

  lemma {:induction false} SameNumberSameText(a: string, b: string)
    requires SameShape(a, b)
    ensures UuidNumber(a) == UuidNumber(b) <==> a == b
  {
    if a != "" {
      var n := |a| - 1;
      SameNumberSameText(a[..n], b[..n]);
      assert a == a[..n] + [a[n]] && b == b[..n] + [b[n]];
      assert IsHex(a[n]) && IsHex(b[n]) && HexValue(a[n]) == HexValue(b[n]) ==> a[n] == b[n];
    }
  }

  /** Two canonical texts are the same UUID exactly when they are the same text. */
  lemma UuidTextIsUnique(a: string, b: string)
    requires ValidUuid(a) && ValidUuid(b)
    ensures UuidNumber(a) == UuidNumber(b) <==> a == b
  {
    SameNumberSameText(a, b);
  }

  /** The filter as the query builder takes it. */
  function Typed(f: AdminFilter): QueryBuilder.Filter {
    QueryBuilder.Filter(
      f.application, f.subject,
      if f.credential == "" then None else Some(UuidNumber(f.credential)),
      f.from, f.to,
      if f.cursor.id == "" then Paging.NoCursor
      else Paging.At(Paging.Key(f.cursor.time, UuidNumber(f.cursor.id)), f.cursor.previous))
  }

  /** Every accepted request can be compiled. */
  lemma AcceptedIsUsable(utf8: string -> bool, q: Query, history: bool)
    requires ParseFilter(utf8, q, history).Some?
    ensures QueryBuilder.Usable(Typed(ParseFilter(utf8, q, history).value))
  {
  }

  /** A history link made from a listed row asks for what the page asked for, past
      that row's key. */
  lemma LinkAsksPastRow(utf8: string -> bool, q: Query, id: string, t: nat, previous: bool, row: QueryBuilder.Row)
    requires ParseFilter(utf8, q, true).Some? && ValidUuid(id) && UtcDate(t).year < 10000 && !IsZero(t)
    requires row.key.time >= 0
    ensures var f := Typed(ParseFilter(utf8, q, true).value);
            var linked := ParseFilter(utf8, PageQuery(q, CursorValue(id, t, previous)), true);
            && linked.Some? && QueryBuilder.Usable(f) && QueryBuilder.Usable(Typed(linked.value))
            && Typed(linked.value).cursor == Paging.At(Paging.Key(t, UuidNumber(id)), previous)
            && (QueryBuilder.Wanted(Typed(linked.value), row) <==> QueryBuilder.Wanted(f, row))
  {
    AcceptedIsUsable(utf8, q, true);
    LinkRoundTrip(utf8, q, true, id, t, previous);
  }
}
