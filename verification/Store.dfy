/** What one database call means on its own: the tables, the rows a call writes,
    and the answer it gives, as functions of the tables it finds. */
module Store {
  import opened Ceremonies

  /** The tables. Ceremony rows are keyed by their unique token hash, the others
      by their primary key. */
  datatype Db = Db(
    registration: map<Bytes, Ceremony>,
    authentication: map<Bytes, Ceremony>,
    credential: map<Uuid, Credential>,
    history: map<Uuid, Event>)

  const EMPTY := Db(map[], map[], map[], map[])

  function Table(db: Db, k: Kind): map<Bytes, Ceremony> {
    match k
    case Registration => db.registration
    case Authentication => db.authentication
  }

  function PutCeremony(db: Db, k: Kind, hash: Bytes, row: Ceremony): Db {
    match k
    case Registration => db.(registration := db.registration[hash := row])
    case Authentication => db.(authentication := db.authentication[hash := row])
  }

  /** The credentials of one subject of one application. */
  function Scope(t: map<Uuid, Credential>, application: string, subject: string): map<Uuid, Credential> {
    map id | id in t && t[id].application == application && t[id].subject == subject :: t[id]
  }

  /** Whether a row holds the unique key (rp_id, webauthn_id). */
  predicate Taken(t: map<Uuid, Credential>, rpId: string, webauthnId: Bytes) {
    exists id :: id in t && t[id].rpId == rpId && t[id].webauthnId == webauthnId
  }

  ghost predicate IsLeast(m: map<Uuid, Credential>, id: Uuid) {
    id in m && forall other :: other in m ==> id <= other
  }

  lemma LeastExists(m: map<Uuid, Credential>)
    requires m != map[]
    ensures exists id :: IsLeast(m, id)
  {
    var some :| some in m;
    LeastAtMost(m, some);
  }

  lemma LeastAtMost(m: map<Uuid, Credential>, bound: Uuid)
    requires bound in m
    ensures exists id :: IsLeast(m, id)
    decreases bound
  {
    if !IsLeast(m, bound) {
      var smaller :| smaller in m && smaller < bound;
      LeastAtMost(m, smaller);
    }
  }

  /** The rows of `m` in ascending order of id. */
  ghost function SortedRows(m: map<Uuid, Credential>): seq<Credential>
    decreases |m|
  {
    if m == map[] then []
    else
      LeastExists(m);
      var id: Uuid :| IsLeast(m, id);
      [m[id]] + SortedRows(m - {id})
  }

  lemma SortedRowsFirst(m: map<Uuid, Credential>, id: Uuid)
    requires IsLeast(m, id)
    ensures SortedRows(m) == [m[id]] + SortedRows(m - {id})
  {
    assert forall other: Uuid :: IsLeast(m, other) ==> other == id;
  }

  /** Every row of the result is a row of `m`, ... */
  lemma {:induction false} SortedRowsBelong(m: map<Uuid, Credential>, i: nat)
    requires (forall id :: id in m ==> m[id].id == id) && i < |SortedRows(m)|
    ensures SortedRows(m)[i].id in m && m[SortedRows(m)[i].id] == SortedRows(m)[i]
    decreases |m|
  {
    LeastExists(m);
    var id: Uuid :| IsLeast(m, id);
    SortedRowsFirst(m, id);
    if i > 0 {
      SortedRowsBelong(m - {id}, i - 1);
    }
  }

  /** ... every row of `m` is in the result, ... */
  lemma {:induction false} SortedRowsComplete(m: map<Uuid, Credential>, id: Uuid)
    requires id in m
    ensures m[id] in SortedRows(m)
    decreases |m|
  {
    LeastExists(m);
    var first: Uuid :| IsLeast(m, first);
    SortedRowsFirst(m, first);
    if id != first {
      SortedRowsComplete(m - {first}, id);
    }
  }

  /** ... and the ids ascend strictly. */
  lemma {:induction false} SortedRowsAscend(m: map<Uuid, Credential>, i: nat, j: nat)
    requires (forall id :: id in m ==> m[id].id == id) && i < j < |SortedRows(m)|
    ensures SortedRows(m)[i].id < SortedRows(m)[j].id
    decreases |m|
  {
    LeastExists(m);
    var id: Uuid :| IsLeast(m, id);
    SortedRowsFirst(m, id);
    if i > 0 {
      SortedRowsAscend(m - {id}, i - 1, j - 1);
    } else {
      SortedRowsBelong(m - {id}, j - 1);
    }
  }

  ghost function SubjectCredentials(t: map<Uuid, Credential>, application: string, subject: string): seq<Credential> {
    SortedRows(Scope(t, application, subject))
  }

  /** The list read for a subject holds exactly the rows of its scope, by id. */
  lemma SubjectListIsExact(t: map<Uuid, Credential>, application: string, subject: string)
    requires forall id :: id in t ==> t[id].id == id
    ensures var rows := SubjectCredentials(t, application, subject);
            && (forall row :: row in rows <==> row.id in t && t[row.id] == row && row.application == application && row.subject == subject)
            && (forall i, j :: 0 <= i < j < |rows| ==> rows[i].id < rows[j].id)
  {
    var mine, rows := Scope(t, application, subject), SubjectCredentials(t, application, subject);
    forall i | 0 <= i < |rows| ensures rows[i].id in mine && mine[rows[i].id] == rows[i] {
      SortedRowsBelong(mine, i);
    }
    forall row: Credential | row.id in t && t[row.id] == row && row.application == application && row.subject == subject ensures row in rows {
      assert mine[row.id] == row;
      SortedRowsComplete(mine, row.id);
    }
    forall row | row in rows ensures row.id in mine && mine[row.id] == row {
      var i :| 0 <= i < |rows| && rows[i] == row;
      assert rows[i].id in mine;
    }
    forall i, j | 0 <= i < j < |rows| ensures rows[i].id < rows[j].id {
      SortedRowsAscend(mine, i, j);
    }
  }

  /** The CHECK constraints of a credential row. */
  predicate RowAllowed(row: Credential) {
    && row.algorithm in {-8, -7, -257}
    && row.signCount <= 4294967295
    && (row.backupState ==> row.backupEligible)
  }

  /** A write to the credential table, with the row it leaves (or removes). */
  datatype CredentialWrite = NoWrite | Insert(row: Credential) | Update(row: Credential) | Drop(row: Credential)

  datatype CeremonyWrite = CeremonyWrite(kind: Kind, hash: Bytes, row: Ceremony)

  datatype EventWrite = EventWrite(id: Uuid, event: Event)

  /** Everything one transaction writes: at most one row of each table. */
  datatype Writes = Writes(ceremony: Option<CeremonyWrite>, credential: CredentialWrite, event: Option<EventWrite>)

  const NOTHING := Writes(None, NoWrite, None)

  function ApplyCredential(t: map<Uuid, Credential>, w: CredentialWrite): map<Uuid, Credential> {
    match w
    case NoWrite => t
    case Insert(row) => t[row.id := row]
    case Update(row) => t[row.id := row]
    case Drop(row) => t - {row.id}
  }

  /** No two rows share (rp_id, webauthn_id), and rows sit at their own id. */
  ghost predicate UniqueIndex(t: map<Uuid, Credential>) {
    && (forall id :: id in t ==> t[id].id == id)
    && (forall a, b :: a in t && b in t && t[a].rpId == t[b].rpId && t[a].webauthnId == t[b].webauthnId ==> a == b)
  }

  /** A write the credential table accepts: a new id and a new unique key, or an
      existing row whose unique key stays. */
  ghost predicate Fits(t: map<Uuid, Credential>, w: CredentialWrite) {
    match w
    case NoWrite => true
    case Insert(row) => row.id !in t && !Taken(t, row.rpId, row.webauthnId)
    case Update(row) => row.id in t && t[row.id].rpId == row.rpId && t[row.id].webauthnId == row.webauthnId
    case Drop(row) => row.id in t
  }

  lemma FitsKeepsIndex(t: map<Uuid, Credential>, w: CredentialWrite)
    requires UniqueIndex(t) && Fits(t, w)
    ensures UniqueIndex(ApplyCredential(t, w))
  {
  }

  /** Writing one row does not take another row's unique key. */
  lemma FitsKeepsFree(t: map<Uuid, Credential>, w: CredentialWrite, rpId: string, webauthnId: Bytes)
    requires Fits(t, w) && !Taken(t, rpId, webauthnId)
    requires w.Insert? ==> w.row.rpId != rpId || w.row.webauthnId != webauthnId
    ensures !Taken(ApplyCredential(t, w), rpId, webauthnId)
  {
  }

  function Apply(db: Db, w: Writes): Db {
    var d1 := if w.ceremony.None? then db
              else PutCeremony(db, w.ceremony.value.kind, w.ceremony.value.hash, w.ceremony.value.row);
    var d2 := d1.(credential := ApplyCredential(d1.credential, w.credential));
    if w.event.None? then d2 else d2.(history := d2.history[w.event.value.id := w.event.value.event])
  }

  /** The callbacks a finish receives: who may finish this ceremony, and what the
      response proves given the subject's credentials. A fresh credential id is
      passed to the verifier, which uses it when it registers. */
  type Authorize = Ceremony -> Option<Fault>
  type Verify = (Ceremony, seq<Credential>, Uuid) -> Verdict

  datatype Call =
    | Start(kind: Kind, ceremony: Ceremony)
    | Finish(kind: Kind, hash: Bytes, authorize: Authorize, verify: Verify)
    | Delete(application: string, subject: string, id: Uuid)

  /** What a call draws from its surroundings: clock readings and fresh ids. */
  datatype Env = Env(now: Time, credentialId: Uuid, eventId: Uuid, occurredAt: Time)

  datatype Result =
    | Started
    | Finished(credential: Credential)
    | Deleted
    | Failure(fault: Fault)

  datatype Planned = Planned(writes: Writes, result: Result)

  const DATABASE_ERROR := Other("database")

  function Refuse(fault: Fault): Planned {
    Planned(NOTHING, Failure(fault))
  }

  /** The history row id is a primary key: a duplicate fails the transaction. */
  function Guard(history: map<Uuid, Event>, p: Planned): Planned {
    if p.writes.event.Some? && p.writes.event.value.id in history then Refuse(DATABASE_ERROR) else p
  }

  /** What a finish decides once it holds the ceremony and has read the clock. */
  datatype Decision = Reject(fault: Fault) | Close(fault: Fault) | Write(credential: Credential)

  ghost function Decide(k: Kind, c: Ceremony, verify: Verify, credentials: seq<Credential>, env: Env): Decision {
    match c.Check(k, env.now)
    case Some(fault) => Close(fault)
    case None =>
      match verify(c, credentials, env.credentialId)
      case Accepted(credential) => Write(credential)
      case Refused(fault) => if fault.Is(k.Invalid()) then Close(fault) else Reject(fault)
  }

  /** The outcome of a finish after its credential write. */
  datatype Settlement =
    | Abandon(fault: Fault)
    | Settled(outcome: Option<Fault>, credential: Credential, write: CredentialWrite)

  function InsertedRow(c: Ceremony, verified: Credential, now: Time): Credential {
    verified.(application := c.application, subject := c.subject, rpId := c.rpId, createdAt := now, usedAt := None)
  }

  function UpdatedRow(stored: Credential, verified: Credential, now: Time): Credential {
    stored.(signCount := verified.signCount, backupState := verified.backupState,
            webauthn := verified.webauthn, usedAt := Some(now))
  }

  function Registered(t: map<Uuid, Credential>, c: Ceremony, verified: Credential, now: Time): Settlement {
    var row := InsertedRow(c, verified, now);
    if !RowAllowed(row) then Abandon(DATABASE_ERROR)
    else if Taken(t, c.rpId, verified.webauthnId) then Settled(Some(Plain(Conflict)), verified, NoWrite)
    else if row.id in t then Abandon(DATABASE_ERROR)
    else Settled(None, verified.(createdAt := now), Insert(row))
  }

  function Authenticated(mine: map<Uuid, Credential>, c: Ceremony, verified: Credential, now: Time): Settlement {
    if verified.id in mine && mine[verified.id].rpId == c.rpId then
      var row := UpdatedRow(mine[verified.id], verified, now);
      if !RowAllowed(row) then Abandon(DATABASE_ERROR)
      else Settled(None, verified.(usedAt := Some(now)), Update(row))
    else
      Settled(Some(Plain(Authentication.Invalid())), verified, NoWrite)
  }

  function WriteOutcome(t: map<Uuid, Credential>, k: Kind, c: Ceremony, verified: Credential, now: Time): Settlement {
    match k
    case Registration => Registered(t, c, verified, now)
    case Authentication => Authenticated(Scope(t, c.application, c.subject), c, verified, now)
  }

  ghost function Settle(t: map<Uuid, Credential>, k: Kind, c: Ceremony, verify: Verify, env: Env): Settlement {
    match Decide(k, c, verify, SubjectCredentials(t, c.application, c.subject), env)
    case Reject(fault) => Abandon(fault)
    case Close(fault) => Settled(Some(fault), ZERO_CREDENTIAL, NoWrite)
    case Write(verified) => WriteOutcome(t, k, c, verified, env.now)
  }

  lemma SettleFits(t: map<Uuid, Credential>, k: Kind, c: Ceremony, verify: Verify, env: Env)
    requires UniqueIndex(t) && Settle(t, k, c, verify, env).Settled?
    ensures Fits(t, Settle(t, k, c, verify, env).write)
  {
  }

  lemma SettleKeepsIndex(t: map<Uuid, Credential>, k: Kind, c: Ceremony, verify: Verify, env: Env)
    requires UniqueIndex(t) && Settle(t, k, c, verify, env).Settled?
    ensures UniqueIndex(ApplyCredential(t, Settle(t, k, c, verify, env).write))
  {
    SettleFits(t, k, c, verify, env);
    FitsKeepsIndex(t, Settle(t, k, c, verify, env).write);
  }

  function EventOf(application: string, subject: string, credential: Option<Uuid>, kind: EventKind,
                   result: State, outcome: Option<Fault>, occurredAt: Time): Event
  {
    Event(application, subject, credential, kind, result,
          if outcome.Some? && !outcome.value.Other? then Some(outcome.value.code) else None,
          if outcome.Some? && outcome.value.Diagnostic? then Some(outcome.value.cause) else None,
          occurredAt)
  }

  /** The ceremony row a settled finish leaves. */
  function ClosedRow(k: Kind, c: Ceremony, outcome: Option<Fault>, credential: Credential): Ceremony {
    var row := c.(state := Terminal(k, outcome));
    if k.Authentication? && outcome.None? then row.(credential := Some(credential.id)) else row
  }

  function FinishEvent(k: Kind, c: Ceremony, outcome: Option<Fault>, credential: Credential, at: Time): Event {
    EventOf(c.application, c.subject, if outcome.None? then Some(credential.id) else None,
            FinishOf(k), Terminal(k, outcome), outcome, at)
  }

  function Answer(outcome: Option<Fault>, credential: Credential): Result {
    match outcome
    case None => Finished(credential)
    case Some(fault) => Failure(fault)
  }

  function Closing(k: Kind, hash: Bytes, c: Ceremony, outcome: Option<Fault>, credential: Credential,
                   write: CredentialWrite, env: Env): Planned
  {
    Planned(
      Writes(Some(CeremonyWrite(k, hash, ClosedRow(k, c, outcome, credential))), write,
             Some(EventWrite(env.eventId, FinishEvent(k, c, outcome, credential, env.occurredAt)))),
      Answer(outcome, credential))
  }

  ghost function PlanStart(db: Db, k: Kind, c: Ceremony, env: Env): Planned {
    if c.tokenHash in Table(db, k) || c.expiresAt <= c.createdAt then Refuse(DATABASE_ERROR)
    else
      Guard(db.history,
            Planned(Writes(Some(CeremonyWrite(k, c.tokenHash, c)), NoWrite,
                           Some(EventWrite(env.eventId,
                                           EventOf(c.application, c.subject, None, StartOf(k), Succeeded, None, env.occurredAt)))),
                    Started))
  }

  ghost function PlanFinish(db: Db, k: Kind, hash: Bytes, authorize: Authorize, verify: Verify, env: Env): Planned {
    if hash !in Table(db, k) then Refuse(Plain(k.NotFound()))
    else
      var c := Table(db, k)[hash];
      match authorize(c)
      case Some(fault) => Refuse(fault)
      case None =>
        if c.state != Pending then Refuse(Plain(Conflict))
        else
          match Settle(db.credential, k, c, verify, env)
          case Abandon(fault) => Refuse(fault)
          case Settled(outcome, credential, write) =>
            Guard(db.history, Closing(k, hash, c, outcome, credential, write, env))
  }

  function PlanDelete(db: Db, application: string, subject: string, id: Uuid, env: Env): Planned {
    var mine := Scope(db.credential, application, subject);
    if id !in mine then Refuse(Plain(CredentialNotFound))
    else
      Guard(db.history,
            Planned(Writes(None, Drop(mine[id]),
                           Some(EventWrite(env.eventId,
                                           EventOf(application, subject, Some(id), CredentialDelete, Succeeded, None, env.occurredAt)))),
                    Deleted))
  }

  /** What a call would write and answer if it ran alone on `db`. */
  ghost function Plan(db: Db, call: Call, env: Env): Planned {
    match call
    case Start(k, c) => PlanStart(db, k, c, env)
    case Finish(k, hash, authorize, verify) => PlanFinish(db, k, hash, authorize, verify, env)
    case Delete(application, subject, id) => PlanDelete(db, application, subject, id, env)
  }

  ghost function Run(db: Db, call: Call, env: Env): Db {
    Apply(db, Plan(db, call, env).writes)
  }
}
