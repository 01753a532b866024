/** Compiling an admin filter to SQL clauses with numbered placeholders. */
module QueryBuilder {
  import opened Ceremonies
  import opened Dates
  import opened Paging

  datatype Column = ApplicationColumn | SubjectColumn | CredentialColumn | TimeColumn | IdColumn

  datatype Operator = Equal | LessThan | GreaterThan | AtLeast

  datatype Value = Text(text: string) | Id(id: Uuid) | Instant(time: Time)

  /** `column op $n`, or `(time, id) op ($m, $n)`; placeholders count from 1. */
  datatype Clause =
    | Compare(column: Column, op: Operator, placeholder: nat)
    | ComparePair(op: Operator, timePlaceholder: nat, idPlaceholder: nat)

  /** A listed row; a NULL credential is None. */
  datatype Row = Row(application: string, subject: string, credential: Option<Uuid>, key: Key)

  // ------------------------------------------------------------- semantics

  function Field(row: Row, column: Column): Option<Value> {
    match column
    case ApplicationColumn => Some(Text(row.application))
    case SubjectColumn => Some(Text(row.subject))
    case CredentialColumn => (match row.credential case Some(id) => Some(Id(id)) case None => None)
    case TimeColumn => Some(Instant(row.key.time))
    case IdColumn => Some(Id(row.key.id))
  }

  /** A comparison with NULL, or of values of different types, is not true. */
  predicate Holds(field: Option<Value>, op: Operator, value: Value) {
    match field
    case None => false
    case Some(v) =>
      match op
      case Equal => v == value
      case LessThan => (v.Id? && value.Id? && v.id < value.id) || (v.Instant? && value.Instant? && v.time < value.time)
      case GreaterThan => (v.Id? && value.Id? && v.id > value.id) || (v.Instant? && value.Instant? && v.time > value.time)
      case AtLeast => (v.Id? && value.Id? && v.id >= value.id) || (v.Instant? && value.Instant? && v.time >= value.time)
  }

  predicate PairHolds(key: Key, op: Operator, time: Value, id: Value) {
    && time.Instant? && id.Id?
    && var other := Key(time.time, id.id);
       match op
       case Equal => key == other
       case LessThan => Less(key, other)
       case GreaterThan => Less(other, key)
       case AtLeast => key == other || Less(other, key)
  }

  predicate Bound(n: nat, args: seq<Value>) {
    1 <= n <= |args|
  }

  predicate ClauseBound(clause: Clause, args: seq<Value>) {
    match clause
    case Compare(_, _, n) => Bound(n, args)
    case ComparePair(_, m, n) => Bound(m, args) && Bound(n, args)
  }

  predicate Satisfies(row: Row, clause: Clause, args: seq<Value>)
    requires ClauseBound(clause, args)
  {
    match clause
    case Compare(column, op, n) => Holds(Field(row, column), op, args[n - 1])
    case ComparePair(op, m, n) => PairHolds(row.key, op, args[m - 1], args[n - 1])
  }

  ghost predicate AllBound(clauses: seq<Clause>, args: seq<Value>) {
    forall i :: 0 <= i < |clauses| ==> ClauseBound(clauses[i], args)
  }

  /** The conjunction WHERE joins with AND. */
  ghost predicate Where(row: Row, clauses: seq<Clause>, args: seq<Value>)
    requires AllBound(clauses, args)
  {
    forall i :: 0 <= i < |clauses| ==> Satisfies(row, clauses[i], args)
  }

  /** Appending arguments never changes what an earlier placeholder refers to. */
  lemma EarlierPlaceholdersStand(row: Row, clauses: seq<Clause>, args: seq<Value>, more: seq<Value>)
    requires AllBound(clauses, args)
    ensures AllBound(clauses, args + more)
    ensures Where(row, clauses, args + more) <==> Where(row, clauses, args)
  {
    forall i | 0 <= i < |clauses|
      ensures ClauseBound(clauses[i], args + more) && (Satisfies(row, clauses[i], args + more) <==> Satisfies(row, clauses[i], args))
    {
      assert ClauseBound(clauses[i], args);
    }
  }

  lemma WhereAppend(row: Row, clauses: seq<Clause>, args: seq<Value>, clause: Clause, more: seq<Value>)
    requires AllBound(clauses, args) && ClauseBound(clause, args + more)
    ensures AllBound(clauses + [clause], args + more)
    ensures Where(row, clauses + [clause], args + more) <==> Where(row, clauses, args) && Satisfies(row, clause, args + more)
  {
    EarlierPlaceholdersStand(row, clauses, args, more);
    var all := clauses + [clause];
    assert forall i :: 0 <= i < |clauses| ==> all[i] == clauses[i];
    assert all[|clauses|] == clause;
    if Where(row, all, args + more) {
      forall i | 0 <= i < |clauses| ensures Satisfies(row, clauses[i], args + more) {
        assert Satisfies(row, all[i], args + more);
      }
      assert Satisfies(row, all[|clauses|], args + more);
    }
  }

  // ---------------------------------------------------------------- filters

  /** An admin filter; empty strings and None filter nothing. */
  datatype Filter = Filter(
    application: string,
    subject: string,
    credential: Option<Uuid>,
    from: string,
    to: string,
    cursor: Cursor)

  predicate Usable(f: Filter) {
    (f.from != "" ==> DateAccepted(f.from)) && (f.to != "" ==> DateAccepted(f.to))
  }

  predicate InScope(f: Filter, row: Row) {
    (f.application != "" ==> row.application == f.application) && (f.subject != "" ==> row.subject == f.subject)
  }

  /** The row's UTC date lies in the closed interval of the filter's dates. */
  predicate InDates(f: Filter, row: Row)
    requires Usable(f) && row.key.time >= 0
  {
    && (f.from != "" ==> !Before(UtcDate(row.key.time), Fields(f.from)))
    && (f.to != "" ==> !Before(Fields(f.to), UtcDate(row.key.time)))
  }

  predicate PastCursor(c: Cursor, key: Key) {
    match c
    case NoCursor => true
    case At(k, previous) => if previous then Less(k, key) else Less(key, k)
  }

  /** What a history filter means. */
  predicate Wanted(f: Filter, row: Row)
    requires Usable(f) && row.key.time >= 0
  {
    InScope(f, row) && (f.credential.Some? ==> row.credential == f.credential) && InDates(f, row)
  }

  /** Column by column, what a filter wants of a row. */
  lemma WantedIsExact(f: Filter, row: Row)
    requires Usable(f) && row.key.time >= 0
    ensures Wanted(f, row) <==>
            && (f.application == "" || f.application == row.application)
            && (f.subject == "" || f.subject == row.subject)
            && (f.credential == None || f.credential == row.credential)
            && (f.from == "" || Midnight(Fields(f.from)) <= row.key.time)
            && (f.to == "" || row.key.time < Midnight(NextDay(Fields(f.to))))
    ensures PastCursor(f.cursor, row.key) <==>
            (f.cursor.At? ==>
               var a, b := if f.cursor.previous then f.cursor.key else row.key, if f.cursor.previous then row.key else f.cursor.key;
               a.time < b.time || (a.time == b.time && a.id < b.id))
  {
    if f.from != "" {
      FromBoundIsExact(f.from, row.key.time);
    }
    if f.to != "" {
      ToBoundIsExact(f.to, row.key.time);
    }
  }

  function CursorOp(c: Cursor): Operator {
    if c.At? && c.previous then GreaterThan else LessThan
  }

  /** The builder: clauses and arguments grow together. */
  class AdminSql {
    var clauses: seq<Clause>
    var args: seq<Value>

    ghost predicate Valid()
      reads this
    {
      AllBound(clauses, args)
    }

    ghost predicate Means(row: Row)
      requires Valid()
      reads this
    {
      Where(row, clauses, args)
    }

    constructor ()
      ensures Valid() && clauses == [] && args == []
      ensures forall row :: Means(row)
    {
      clauses, args := [], [];
    }

    method Add(column: Column, op: Operator, value: Value)
      requires Valid()
      modifies this
      ensures Valid()
      ensures args == old(args) + [value] && clauses == old(clauses) + [Compare(column, op, |old(args)| + 1)]
      ensures forall row :: Means(row) <==> old(Means(row)) && Holds(Field(row, column), op, value)
    {
      ghost var oldClauses, oldArgs := clauses, args;
      args := args + [value];
      clauses := clauses + [Compare(column, op, |args|)];
      forall row ensures Where(row, clauses, args) <==> Where(row, oldClauses, oldArgs) && Holds(Field(row, column), op, value) {
        WhereAppend(row, oldClauses, oldArgs, Compare(column, op, |args|), [value]);
      }
    }

    method AddCursor(key: Key, op: Operator)
      requires Valid()
      modifies this
      ensures Valid()
      ensures args == old(args) + [Instant(key.time), Id(key.id)]
      ensures clauses == old(clauses) + [ComparePair(op, |old(args)| + 1, |old(args)| + 2)]
      ensures forall row :: Means(row) <==> old(Means(row)) && PairHolds(row.key, op, Instant(key.time), Id(key.id))
    {
      ghost var oldClauses, oldArgs := clauses, args;
      args := args + [Instant(key.time), Id(key.id)];
      clauses := clauses + [ComparePair(op, |args| - 1, |args|)];
      forall row
        ensures Where(row, clauses, args) <==> Where(row, oldClauses, oldArgs) && PairHolds(row.key, op, Instant(key.time), Id(key.id))
      {
        WhereAppend(row, oldClauses, oldArgs, ComparePair(op, |args| - 1, |args|), [Instant(key.time), Id(key.id)]);
      }
    }

    method Scope(f: Filter)
      requires Valid()
      modifies this
      ensures Valid()
      ensures forall row :: Means(row) <==> old(Means(row)) && InScope(f, row)
      ensures old(clauses) == [] && old(args) == [] ==>
                clauses == ScopeClauses(f.application != "", f.subject != "") && |args| == |clauses|
    {
      if f.application != "" {
        Add(ApplicationColumn, Equal, Text(f.application));
      }
      if f.subject != "" {
        Add(SubjectColumn, Equal, Text(f.subject));
      }
    }
  }

  /** Which parts of a filter are present. */
  datatype Presence = Presence(
    application: bool, subject: bool, credential: bool, from: bool, to: bool, cursor: bool, previous: bool)

  function PresenceOf(f: Filter): Presence {
    Presence(f.application != "", f.subject != "", f.credential.Some?, f.from != "", f.to != "",
             f.cursor.At?, f.cursor.At? && f.cursor.previous)
  }

  function AddClause(clauses: seq<Clause>, present: bool, column: Column, op: Operator): seq<Clause> {
    if present then clauses + [Compare(column, op, |clauses| + 1)] else clauses
  }

  function ScopeClauses(application: bool, subject: bool): seq<Clause> {
    AddClause(AddClause([], application, ApplicationColumn, Equal), subject, SubjectColumn, Equal)
  }

  /** The clauses of a history query: a function of which filters are present. */
  function HistoryClauses(p: Presence): seq<Clause> {
    var c1 := AddClause(ScopeClauses(p.application, p.subject), p.credential, CredentialColumn, Equal);
    var c2 := AddClause(AddClause(c1, p.from, TimeColumn, AtLeast), p.to, TimeColumn, LessThan);
    if p.cursor then c2 + [ComparePair(if p.previous then GreaterThan else LessThan, |c2| + 1, |c2| + 2)] else c2
  }

  /** The query of the credential list: its rows carry no timestamp. */
  method BuildCredentials(f: Filter) returns (sql: AdminSql)
    ensures fresh(sql) && sql.Valid()
    ensures forall row :: sql.Means(row) <==>
              InScope(f, row) && (f.cursor.At? ==> if f.cursor.previous then f.cursor.key.id < row.key.id else row.key.id < f.cursor.key.id)
  {
    sql := new AdminSql();
    sql.Scope(f);
    if f.cursor.At? {
      sql.Add(IdColumn, CursorOp(f.cursor), Id(f.cursor.key.id));
    }
  }

  /** The query of the history list: it selects exactly the wanted rows beyond the
      cursor, and its text is a function of which filters are present. */
  method BuildHistory(f: Filter) returns (sql: AdminSql)
    requires Usable(f)
    ensures fresh(sql) && sql.Valid()
    ensures forall row: Row :: row.key.time >= 0 ==> (sql.Means(row) <==> Wanted(f, row) && PastCursor(f.cursor, row.key))
    ensures sql.clauses == HistoryClauses(PresenceOf(f))
  {
    sql := new AdminSql();
    sql.Scope(f);
    AddCredential(sql, f);
    AddDates(sql, f);
    AddCursor(sql, f);
  }

  method AddCredential(sql: AdminSql, f: Filter)
    requires sql.Valid() && |sql.args| == |sql.clauses|
    modifies sql
    ensures sql.Valid() && |sql.args| == |sql.clauses|
    ensures forall row :: sql.Means(row) <==> old(sql.Means(row)) && (f.credential.Some? ==> row.credential == f.credential)
    ensures sql.clauses == AddClause(old(sql.clauses), f.credential.Some?, CredentialColumn, Equal)
  {
    if f.credential.Some? {
      sql.Add(CredentialColumn, Equal, Id(f.credential.value));
    }
  }

  method AddCursor(sql: AdminSql, f: Filter)
    requires sql.Valid() && |sql.args| == |sql.clauses|
    modifies sql
    ensures sql.Valid()
    ensures forall row :: sql.Means(row) <==> old(sql.Means(row)) && PastCursor(f.cursor, row.key)
    ensures sql.clauses == old(sql.clauses) +
              (if f.cursor.At? then [ComparePair(CursorOp(f.cursor), |old(sql.clauses)| + 1, |old(sql.clauses)| + 2)] else [])
  {
    if f.cursor.At? {
      sql.AddCursor(f.cursor.key, CursorOp(f.cursor));
    }
  }

  lemma FromIsExact(f: Filter, row: Row)
    requires Usable(f) && f.from != "" && row.key.time >= 0
    ensures Holds(Field(row, TimeColumn), AtLeast, Instant(FromBound(f.from))) <==>
            !Before(UtcDate(row.key.time), Fields(f.from))
  {
    FromBoundIsExact(f.from, row.key.time);
  }

  lemma ToIsExact(f: Filter, row: Row)
    requires Usable(f) && f.to != "" && row.key.time >= 0
    ensures Holds(Field(row, TimeColumn), LessThan, Instant(ToBound(f.to))) <==>
            !Before(Fields(f.to), UtcDate(row.key.time))
  {
    ToBoundIsExact(f.to, row.key.time);
  }

  method AddFrom(sql: AdminSql, f: Filter)
    requires Usable(f) && sql.Valid() && |sql.args| == |sql.clauses|
    modifies sql
    ensures sql.Valid() && |sql.args| == |sql.clauses|
    ensures forall row: Row :: row.key.time >= 0 ==>
              (sql.Means(row) <==> old(sql.Means(row)) && (f.from != "" ==> !Before(UtcDate(row.key.time), Fields(f.from))))
    ensures sql.clauses == AddClause(old(sql.clauses), f.from != "", TimeColumn, AtLeast)
  {
    if f.from != "" {
      sql.Add(TimeColumn, AtLeast, Instant(FromBound(f.from)));
      forall row: Row | row.key.time >= 0
        ensures Holds(Field(row, TimeColumn), AtLeast, Instant(FromBound(f.from))) <==>
                !Before(UtcDate(row.key.time), Fields(f.from))
      {
        FromIsExact(f, row);
      }
    }
  }

  method AddTo(sql: AdminSql, f: Filter)
    requires Usable(f) && sql.Valid() && |sql.args| == |sql.clauses|
    modifies sql
    ensures sql.Valid() && |sql.args| == |sql.clauses|
    ensures forall row: Row :: row.key.time >= 0 ==>
              (sql.Means(row) <==> old(sql.Means(row)) && (f.to != "" ==> !Before(Fields(f.to), UtcDate(row.key.time))))
    ensures sql.clauses == AddClause(old(sql.clauses), f.to != "", TimeColumn, LessThan)
  {
    if f.to != "" {
      sql.Add(TimeColumn, LessThan, Instant(ToBound(f.to)));
      forall row: Row | row.key.time >= 0
        ensures Holds(Field(row, TimeColumn), LessThan, Instant(ToBound(f.to))) <==>
                !Before(Fields(f.to), UtcDate(row.key.time))
      {
        ToIsExact(f, row);
      }
    }
  }

  /** The date clauses: from midnight of From, to before midnight after To. */
  method AddDates(sql: AdminSql, f: Filter)
    requires Usable(f) && sql.Valid() && |sql.args| == |sql.clauses|
    modifies sql
    ensures sql.Valid() && |sql.args| == |sql.clauses|
    ensures forall row: Row :: row.key.time >= 0 ==> (sql.Means(row) <==> old(sql.Means(row)) && InDates(f, row))
    ensures sql.clauses ==
            AddClause(AddClause(old(sql.clauses), f.from != "", TimeColumn, AtLeast), f.to != "", TimeColumn, LessThan)
  {
    AddFrom(sql, f);
    AddTo(sql, f);
  }

  /** The keys of the wanted rows of a table. */
  function Matching(table: set<Row>, f: Filter): set<Key>
    requires Usable(f) && forall row :: row in table ==> row.key.time >= 0
  {
    set row | row in table && Wanted(f, row) :: row.key
  }

  /** What the query returns before ordering is the wanted keys beyond the cursor:
      the set the page theorems are about. */
  lemma QueryIsFetch(table: set<Row>, f: Filter)
    requires Usable(f) && forall row :: row in table ==> row.key.time >= 0
    ensures (set row | row in table && Wanted(f, row) && PastCursor(f.cursor, row.key) :: row.key) ==
            match f.cursor
            case NoCursor => Matching(table, f)
            case At(k, previous) => if previous then Above(Matching(table, f), k) else Below(Matching(table, f), k)
  {
    var selected := set row | row in table && Wanted(f, row) && PastCursor(f.cursor, row.key) :: row.key;
    forall k ensures k in selected <==> k in Matching(table, f) && PastCursor(f.cursor, k) {
    }
  }

  /** The credential list compares ids alone, which is key order for rows that
      carry no time of their own: the page theorems are about it as well. */
  lemma CredentialQueryIsFetch(table: set<Row>, f: Filter, time: Time)
    requires forall row :: row in table ==> row.key.time == time
    requires f.cursor.At? ==> f.cursor.key.time == time
    ensures var listed := set row | row in table && InScope(f, row) :: row.key;
            (set row | row in table && InScope(f, row)
                       && (f.cursor.At? ==> if f.cursor.previous then f.cursor.key.id < row.key.id else row.key.id < f.cursor.key.id) :: row.key) ==
            match f.cursor
            case NoCursor => listed
            case At(k, previous) => if previous then Above(listed, k) else Below(listed, k)
  {
    var listed := set row | row in table && InScope(f, row) :: row.key;
    forall row | row in table && f.cursor.At?
      ensures Less(row.key, f.cursor.key) <==> row.key.id < f.cursor.key.id
      ensures Less(f.cursor.key, row.key) <==> f.cursor.key.id < row.key.id
    {
    }
  }
}
