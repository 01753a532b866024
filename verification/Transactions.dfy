/** Any number of Start, Finish and Delete transactions against shared tables,
    one step per SQL statement. A statement reads the committed tables (READ
    COMMITTED) and the transaction's own writes; writes reach the tables at
    COMMIT. Locks are not stored: who holds what follows from how far each
    transaction has come. */
module Transactions {
  import opened Ceremonies
  import opened Store

  type Tid = nat

  /** The advisory lock key of a subject. Nothing is known about it: different
      subjects may share a key. */
  type SubjectKey = (string, string) -> int

  /** The statement a transaction executes next. */
  datatype Pc =
    | InsertCeremony
    | LockCeremony
    | LockSubject
    | ReadClock
    | ReadCredentials
    | WriteCredential
    | SetState
    | LinkCredential
    | DeleteRow
    | AppendEvent
    | Commit

  /** A transaction in flight with its local variables. `mark` is the instant of
      an INSERT that met a duplicate credential. */
  datatype Tx = Tx(
    call: Call,
    pc: Pc,
    c: Ceremony,
    credential: Credential,
    outcome: Option<Fault>,
    writes: Writes,
    env: Env,
    began: nat,
    mark: Option<nat>)

  /** A call that has returned a definite answer, with what it wrote. */
  datatype Done = Done(
    tid: Tid,
    call: Call,
    env: Env,
    writes: Writes,
    result: Result,
    began: nat,
    stamp: nat,
    ended: nat)

  datatype System = System(
    db: Db,
    txs: map<Tid, Tx>,
    log: seq<Done>,
    begun: set<Tid>,
    used: set<Uuid>,
    clock: Time,
    instant: nat)

  const INITIAL := System(EMPTY, map[], [], {}, {0}, 0, 0)

  /** One step of the system: a call begins a transaction, a transaction executes
      its next statement (drawing a clock reading and a fresh id), or it rolls
      back for any reason (timeout, lost connection, failed statement). */
  datatype Label =
    | Begin(tid: Tid, call: Call, instant: nat)
    | Step(tid: Tid, now: Time, newId: Uuid, instant: nat)
    | Rollback(tid: Tid)

  // ---------------------------------------------------------------- locks

  /** An uncommitted row with this token hash. */
  predicate HoldsToken(tx: Tx, k: Kind, hash: Bytes) {
    tx.call.Start? && tx.pc != InsertCeremony && tx.call.kind == k && tx.call.ceremony.tokenHash == hash
  }

  /** The row lock of SELECT ... FOR UPDATE. */
  predicate HoldsRow(tx: Tx, k: Kind, hash: Bytes) {
    tx.call.Finish? && tx.pc != LockCeremony && tx.call.kind == k && tx.call.hash == hash
  }

  /** The application and subject whose advisory lock the transaction takes. */
  function SubjectOf(tx: Tx): (string, string) {
    if tx.call.Delete? then (tx.call.application, tx.call.subject) else (tx.c.application, tx.c.subject)
  }

  function LockKey(key: SubjectKey, tx: Tx): int {
    key(SubjectOf(tx).0, SubjectOf(tx).1)
  }

  predicate OwnsSubject(tx: Tx) {
    match tx.call
    case Start(_, _) => false
    case Finish(_, _, _, _) => tx.pc != LockCeremony && tx.pc != LockSubject
    case Delete(_, _, _) => tx.pc != LockSubject
  }

  /** An uncommitted write of a row with this unique key. */
  predicate HoldsUnique(tx: Tx, rpId: string, webauthnId: Bytes) {
    var w := tx.writes.credential;
    !w.NoWrite? && w.row.rpId == rpId && w.row.webauthnId == webauthnId
  }

  /** An uncommitted write of the row with this id. */
  predicate HoldsCredential(tx: Tx, id: Uuid) {
    !tx.writes.credential.NoWrite? && tx.writes.credential.row.id == id
  }

  /** Transaction `t` cannot execute its next statement because of `u`. */
  ghost predicate WaitsFor(key: SubjectKey, s: System, t: Tid, u: Tid) {
    && t in s.txs && u in s.txs && t != u
    && var tx, other := s.txs[t], s.txs[u];
       match tx.pc
       case InsertCeremony => tx.call.Start? && HoldsToken(other, tx.call.kind, tx.call.ceremony.tokenHash)
       case LockCeremony =>
         tx.call.Finish? && tx.call.hash in Table(s.db, tx.call.kind) && HoldsRow(other, tx.call.kind, tx.call.hash)
       case LockSubject => OwnsSubject(other) && LockKey(key, other) == LockKey(key, tx)
       case WriteCredential =>
         tx.call.Finish? &&
         if tx.call.kind.Registration? then HoldsUnique(other, tx.c.rpId, tx.credential.webauthnId)
         else
           var mine := Scope(s.db.credential, tx.c.application, tx.c.subject);
           tx.credential.id in mine && mine[tx.credential.id].rpId == tx.c.rpId && HoldsCredential(other, tx.credential.id)
       case DeleteRow =>
         tx.call.Delete? &&
         tx.call.id in Scope(s.db.credential, tx.call.application, tx.call.subject) && HoldsCredential(other, tx.call.id)
       case _ => false
  }

  ghost predicate Blocked(key: SubjectKey, s: System, t: Tid) {
    exists u :: WaitsFor(key, s, t, u)
  }

  // ----------------------------------------------------------- statements

  /** A statement leaves the transaction running, or the call returns. */
  datatype Turn = Continue(tx: Tx) | Return(done: Done)

  function FirstPc(call: Call): Pc {
    match call
    case Start(_, _) => InsertCeremony
    case Finish(_, _, _, _) => LockCeremony
    case Delete(_, _, _) => LockSubject
  }

  function NewTx(call: Call, instant: nat): Tx {
    Tx(call, FirstPc(call), ZERO_CEREMONY, ZERO_CREDENTIAL, None, NOTHING, Env(0, 0, 0, 0), instant, None)
  }

  /** The call returns an error and its transaction rolls back. */
  function Refused(t: Tid, tx: Tx, fault: Fault, instant: nat): Turn {
    Return(Done(t, tx.call, tx.env, NOTHING, Failure(fault), tx.began, instant, instant))
  }

  function ResultOf(tx: Tx): Result {
    match tx.call
    case Start(_, _) => Started
    case Finish(_, _, _, _) => Answer(tx.outcome, tx.credential)
    case Delete(_, _, _) => Deleted
  }

  /** COMMIT. A call takes effect here, except that a duplicate credential was
      decided at its INSERT. */
  function Committed(t: Tid, tx: Tx, instant: nat): Turn {
    Return(Done(t, tx.call, tx.env, tx.writes, ResultOf(tx), tx.began,
                if tx.mark.Some? then tx.mark.value else instant, instant))
  }

  function Appended(tx: Tx, event: Event, newId: Uuid): Tx {
    tx.(writes := tx.writes.(event := Some(EventWrite(newId, event))),
        env := tx.env.(eventId := newId, occurredAt := event.occurredAt),
        pc := Commit)
  }

  function StartStatement(db: Db, t: Tid, tx: Tx, now: Time, newId: Uuid, instant: nat): Turn
    requires tx.call.Start?
  {
    var k, c := tx.call.kind, tx.call.ceremony;
    match tx.pc
    case InsertCeremony =>
      if c.tokenHash in Table(db, k) || c.expiresAt <= c.createdAt then Refused(t, tx, DATABASE_ERROR, instant)
      else Continue(tx.(writes := tx.writes.(ceremony := Some(CeremonyWrite(k, c.tokenHash, c))), pc := AppendEvent))
    case AppendEvent =>
      Continue(Appended(tx, EventOf(c.application, c.subject, None, StartOf(k), Succeeded, None, now), newId))
    case _ => Committed(t, tx, instant)
  }

  /** SELECT ... FOR UPDATE, then authorization and the state check. */
  function LockedCeremony(db: Db, t: Tid, tx: Tx, instant: nat): Turn
    requires tx.call.Finish?
  {
    var k, hash := tx.call.kind, tx.call.hash;
    if hash !in Table(db, k) then Refused(t, tx, Plain(k.NotFound()), instant)
    else
      var c := Table(db, k)[hash];
      match tx.call.authorize(c)
      case Some(fault) => Refused(t, tx, fault, instant)
      case None =>
        if c.state != Pending then Refused(t, tx, Plain(Conflict), instant)
        else Continue(tx.(c := c, pc := LockSubject))
  }

  ghost function FinishStatement(db: Db, t: Tid, tx: Tx, now: Time, newId: Uuid, instant: nat): Turn
    requires tx.call.Finish?
  {
    var k, hash, c := tx.call.kind, tx.call.hash, tx.c;
    match tx.pc
    case LockCeremony => LockedCeremony(db, t, tx, instant)
    case LockSubject => Continue(tx.(pc := ReadClock))
    case ReadClock =>
      var read := tx.(env := tx.env.(now := now));
      (match c.Check(k, now)
       case Some(fault) => Continue(read.(outcome := Some(fault), pc := SetState))
       case None => Continue(read.(pc := ReadCredentials)))
    case ReadCredentials =>
      var read := tx.(env := tx.env.(credentialId := newId));
      (match tx.call.verify(c, SubjectCredentials(db.credential, c.application, c.subject), newId)
       case Accepted(credential) => Continue(read.(credential := credential, pc := WriteCredential))
       case Refused(fault) =>
         if fault.Is(k.Invalid()) then Continue(read.(outcome := Some(fault), pc := SetState))
         else Refused(t, read, fault, instant))
    case WriteCredential =>
      (match WriteOutcome(db.credential, k, c, tx.credential, tx.env.now)
       case Abandon(fault) => Refused(t, tx, fault, instant)
       case Settled(outcome, credential, write) =>
         Continue(tx.(outcome := outcome, credential := credential,
                      writes := tx.writes.(credential := write), pc := SetState,
                      mark := if k.Registration? && outcome.Some? then Some(instant) else None)))
    case SetState =>
      Continue(tx.(writes := tx.writes.(ceremony := Some(CeremonyWrite(k, hash, c.(state := Terminal(k, tx.outcome))))),
                   pc := if k.Authentication? && tx.outcome.None? then LinkCredential else AppendEvent))
    case LinkCredential =>
      var own := if tx.writes.ceremony.Some? then tx.writes.ceremony.value.row else c;
      Continue(tx.(writes := tx.writes.(ceremony := Some(CeremonyWrite(k, hash, own.(credential := Some(tx.credential.id))))),
                   pc := AppendEvent))
    case AppendEvent => Continue(Appended(tx, FinishEvent(k, c, tx.outcome, tx.credential, now), newId))
    case _ => Committed(t, tx, instant)
  }

  function DeleteStatement(db: Db, t: Tid, tx: Tx, now: Time, newId: Uuid, instant: nat): Turn
    requires tx.call.Delete?
  {
    var application, subject, id := tx.call.application, tx.call.subject, tx.call.id;
    match tx.pc
    case LockSubject => Continue(tx.(pc := DeleteRow))
    case DeleteRow =>
      var mine := Scope(db.credential, application, subject);
      if id !in mine then Refused(t, tx, Plain(CredentialNotFound), instant)
      else Continue(tx.(writes := tx.writes.(credential := Drop(mine[id])), pc := AppendEvent))
    case AppendEvent =>
      Continue(Appended(tx, EventOf(application, subject, Some(id), CredentialDelete, Succeeded, None, now), newId))
    case _ => Committed(t, tx, instant)
  }

  ghost function Statement(db: Db, t: Tid, tx: Tx, now: Time, newId: Uuid, instant: nat): Turn {
    match tx.call
    case Start(_, _) => StartStatement(db, t, tx, now, newId, instant)
    case Finish(_, _, _, _) => FinishStatement(db, t, tx, now, newId, instant)
    case Delete(_, _, _) => DeleteStatement(db, t, tx, now, newId, instant)
  }

  // ----------------------------------------------------------------- runs

  /** A registration's verifier gives the credential the fresh id it was passed. */
  ghost predicate UsesNewId(k: Kind, verify: Verify) {
    k.Registration? ==>
      forall c, rows, id :: verify(c, rows, id).Accepted? ==> verify(c, rows, id).credential.id == id
  }

  /** What the service passes in: rows to insert are pending and name no
      credential, and new credentials take the fresh id. */
  ghost predicate Issued(call: Call) {
    match call
    case Start(_, c) => c.state == Pending && c.credential == None
    case Finish(k, _, _, verify) => UsesNewId(k, verify)
    case Delete(_, _, _) => true
  }

  ghost predicate Enabled(key: SubjectKey, s: System, l: Label) {
    match l
    case Begin(t, call, instant) => t !in s.begun && Issued(call) && s.instant < instant
    case Step(t, now, newId, instant) =>
      && t in s.txs && !Blocked(key, s, t)
      && s.clock <= now && newId !in s.used && s.instant < instant
    case Rollback(t) => t in s.txs
  }

  ghost function Do(s: System, l: Label): System
    requires !l.Begin? ==> l.tid in s.txs
  {
    match l
    case Begin(t, call, instant) =>
      s.(txs := s.txs[t := NewTx(call, instant)], begun := s.begun + {t}, instant := instant)
    case Rollback(t) => s.(txs := s.txs - {t})
    case Step(t, now, newId, instant) =>
      var after := s.(used := s.used + {newId}, clock := now, instant := instant);
      match Statement(s.db, t, s.txs[t], now, newId, instant)
      case Continue(tx) => after.(txs := s.txs[t := tx])
      case Return(done) => after.(db := Apply(s.db, done.writes), txs := s.txs - {t}, log := s.log + [done])
  }

  /** `ls` is a possible run from `s`. */
  ghost predicate ValidRun(key: SubjectKey, s: System, ls: seq<Label>)
    decreases |ls|
  {
    ls == [] || (Enabled(key, s, ls[0]) && ValidRun(key, Do(s, ls[0]), ls[1..]))
  }

  ghost function After(key: SubjectKey, s: System, ls: seq<Label>): System
    requires ValidRun(key, s, ls)
    decreases |ls|
  {
    if ls == [] then s else After(key, Do(s, ls[0]), ls[1..])
  }
}
