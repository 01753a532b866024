/** What a call that committed has changed, row by row, and what undoes it. */
module Outcomes {
  import opened Ceremonies
  import opened Store
  import opened NoTrace

  /** Every other row is as before. */
  ghost predicate OnlyChanges<K, V>(before: map<K, V>, after: map<K, V>, id: K) {
    && (forall other :: other in before && other != id ==> other in after && after[other] == before[other])
    && (forall other :: other in after && other != id ==> other in before)
  }

  /** The ceremony and its event after a finish; everything else of those tables,
      and the other kind's table, is as before. */
  ghost predicate Closes(db: Db, after: Db, k: Kind, hash: Bytes, state: State, credential: Option<Uuid>, event: Event, env: Env)
    requires hash in Table(db, k)
  {
    && hash in Table(after, k) && OnlyChanges(Table(db, k), Table(after, k), hash)
    && Table(after, k)[hash] == Table(db, k)[hash].(state := state, credential := credential)
    && (k.Registration? ==> after.authentication == db.authentication)
    && (k.Authentication? ==> after.registration == db.registration)
    && env.eventId in after.history && OnlyChanges(db.history, after.history, env.eventId)
    && after.history[env.eventId] == event
  }

  /** A finish that answers success found the ceremony pending, unexpired and
      authorized and the response verified, and answers with the verified credential
      and the time of the finish. A registration stores that credential in the
      ceremony's scope under a new id; an authentication changes the counter, backup
      flag, record and time of use of the row it names, and no other column; both
      leave every other credential alone. */
  lemma SuccessIsStored(db: Db, k: Kind, hash: Bytes, authorize: Authorize, verify: Verify, env: Env)
    requires UniqueIndex(db.credential)
    requires Plan(db, Finish(k, hash, authorize, verify), env).result.Finished?
    ensures var r, after := Plan(db, Finish(k, hash, authorize, verify), env).result.credential, Run(db, Finish(k, hash, authorize, verify), env);
            && hash in Table(db, k)
            && var c := Table(db, k)[hash];
               && c.state == Pending && env.now < c.expiresAt && authorize(c) == None
               && VerdictOn(db, c, verify, env).Accepted?
               && var v := VerdictOn(db, c, verify, env).credential;
                  && r.id == v.id && r.id in after.credential && OnlyChanges(db.credential, after.credential, r.id)
                  && match k
                     case Registration =>
                       && r == v.(createdAt := env.now) && r.id !in db.credential
                       && after.credential[r.id] ==
                          v.(application := c.application, subject := c.subject, rpId := c.rpId, createdAt := env.now, usedAt := None)
                     case Authentication =>
                       && r == v.(usedAt := Some(env.now)) && r.id in db.credential
                       && var row := db.credential[r.id];
                          && row.application == c.application && row.subject == c.subject && row.rpId == c.rpId
                          && after.credential[r.id] ==
                             row.(signCount := v.signCount, backupState := v.backupState, webauthn := v.webauthn, usedAt := Some(env.now))
  {
  }

  /** The ceremony and the event of a finish that answers success. */
  lemma SuccessIsRecorded(db: Db, k: Kind, hash: Bytes, authorize: Authorize, verify: Verify, env: Env)
    requires Plan(db, Finish(k, hash, authorize, verify), env).result.Finished?
    ensures var r := Plan(db, Finish(k, hash, authorize, verify), env).result.credential;
            && hash in Table(db, k)
            && var c := Table(db, k)[hash];
               Closes(db, Run(db, Finish(k, hash, authorize, verify), env), k, hash, Succeeded,
                      if k.Authentication? then Some(r.id) else c.credential,
                      Event(c.application, c.subject, Some(r.id), FinishOf(k), Succeeded, None, None, env.occurredAt), env)
  {
  }

  /** Such a finish writes no credential and answers with the fault it closes with. */
  lemma RefusalIsClosing(db: Db, k: Kind, hash: Bytes, authorize: Authorize, verify: Verify, env: Env)
    requires hash in Table(db, k) && Table(db, k)[hash].state == Pending && env.eventId !in db.history
    requires Consumes(db, k, Table(db, k)[hash], authorize, verify, env)
    requires Plan(db, Finish(k, hash, authorize, verify), env).result.Failure?
    ensures var c, p := Table(db, k)[hash], Plan(db, Finish(k, hash, authorize, verify), env);
            && p.writes == Closing(k, hash, c, Some(p.result.fault), ZERO_CREDENTIAL, NoWrite, env).writes
            && !p.result.fault.Other?
            && p.result.fault.code == (if c.expiresAt <= env.now then k.Expired()
                                       else if VerdictOn(db, c, verify, env).Accepted? && k.Registration? then Conflict
                                       else k.Invalid())
  {
  }

  lemma ClosingCloses(db: Db, k: Kind, hash: Bytes, fault: Fault, env: Env)
    requires hash in Table(db, k) && !fault.Other?
    ensures var c, state := Table(db, k)[hash], if fault.code == k.Expired() then Expired else Failed;
            Closes(db, Apply(db, Closing(k, hash, c, Some(fault), ZERO_CREDENTIAL, NoWrite, env).writes), k, hash, state, c.credential,
                   Event(c.application, c.subject, None, FinishOf(k), state,
                         Some(fault.code), if fault.Diagnostic? then Some(fault.cause) else None, env.occurredAt), env)
  {
  }

  /** A finish that consumes the ceremony and does not succeed touches no
      credential, and records the public code it answers with and its cause: expired,
      a duplicate registration, or a failed verification. */
  lemma RefusalIsRecorded(db: Db, k: Kind, hash: Bytes, authorize: Authorize, verify: Verify, env: Env)
    requires hash in Table(db, k) && Table(db, k)[hash].state == Pending && env.eventId !in db.history
    requires Consumes(db, k, Table(db, k)[hash], authorize, verify, env)
    requires Plan(db, Finish(k, hash, authorize, verify), env).result.Failure?
    ensures var c, after := Table(db, k)[hash], Run(db, Finish(k, hash, authorize, verify), env);
            var fault := Plan(db, Finish(k, hash, authorize, verify), env).result.fault;
            var state := if c.expiresAt <= env.now then Expired else Failed;
            && after.credential == db.credential && !fault.Other?
            && fault.code == (if c.expiresAt <= env.now then k.Expired()
                              else if VerdictOn(db, c, verify, env).Accepted? && k.Registration? then Conflict
                              else k.Invalid())
            && Closes(db, after, k, hash, state, c.credential,
                      Event(c.application, c.subject, None, FinishOf(k), state,
                            Some(fault.code), if fault.Diagnostic? then Some(fault.cause) else None, env.occurredAt), env)
  {
    RefusalIsClosing(db, k, hash, authorize, verify, env);
    ClosingCloses(db, k, hash, Plan(db, Finish(k, hash, authorize, verify), env).result.fault, env);
  }

  /** A finish that consumes nothing answers with the refusal of its caller, the
      verifier's own error, or a database error. */
  lemma RollbackAnswer(db: Db, k: Kind, hash: Bytes, authorize: Authorize, verify: Verify, env: Env)
    requires hash in Table(db, k) && Table(db, k)[hash].state == Pending && env.eventId !in db.history
    requires !Consumes(db, k, Table(db, k)[hash], authorize, verify, env)
    ensures var c, result := Table(db, k)[hash], Plan(db, Finish(k, hash, authorize, verify), env).result;
            if authorize(c).Some? then result == Failure(authorize(c).value)
            else
              match VerdictOn(db, c, verify, env)
              case Refused(fault) => result == Failure(fault)
              case Accepted(_) => result == Failure(Other("database"))
  {
  }

  /** The columns of a credential as the table's CHECK constraints allow them. */
  predicate Storable(algorithm: int, signCount: nat, backupEligible: bool, backupState: bool) {
    algorithm in {-8, -7, -257} && signCount < 0x1_0000_0000 && (backupState ==> backupEligible)
  }

  /** A finish succeeds exactly when it is authorized and in time, the response
      verified, and the verified credential can be written: a registration needs a
      new id and an authenticator id free at the relying party, an authentication a
      row of the subject and relying party to update. */
  lemma SucceedsExactly(db: Db, k: Kind, hash: Bytes, authorize: Authorize, verify: Verify, env: Env)
    requires hash in Table(db, k) && Table(db, k)[hash].state == Pending && env.eventId !in db.history
    ensures var c := Table(db, k)[hash];
            Plan(db, Finish(k, hash, authorize, verify), env).result.Finished? <==>
            && authorize(c) == None && env.now < c.expiresAt && VerdictOn(db, c, verify, env).Accepted?
            && var v := VerdictOn(db, c, verify, env).credential;
               match k
               case Registration =>
                 && Storable(v.algorithm, v.signCount, v.backupEligible, v.backupState) && v.id !in db.credential
                 && forall id :: id in db.credential ==> db.credential[id].rpId != c.rpId || db.credential[id].webauthnId != v.webauthnId
               case Authentication =>
                 && v.id in db.credential
                 && var row := db.credential[v.id];
                    && row.application == c.application && row.subject == c.subject && row.rpId == c.rpId
                    && Storable(row.algorithm, v.signCount, row.backupEligible, v.backupState)
  {
  }

  /** A started ceremony can be found by its token, and is the only row added. */
  lemma StartIsStored(db: Db, k: Kind, c: Ceremony, env: Env)
    requires Plan(db, Start(k, c), env).result.Started?
    ensures var after := Run(db, Start(k, c), env);
            && c.tokenHash !in Table(db, k) && env.eventId !in db.history
            && after == PutCeremony(db, k, c.tokenHash, c).(
                          history := db.history[env.eventId := Event(c.application, c.subject, None, StartOf(k), Succeeded, None, None, env.occurredAt)])
  {
  }

  /** A start is refused exactly when its token hash or event id is taken or it
      would expire before it begins. */
  lemma StartsExactly(db: Db, k: Kind, c: Ceremony, env: Env)
    ensures Plan(db, Start(k, c), env).result ==
            if c.tokenHash !in Table(db, k) && c.createdAt < c.expiresAt && env.eventId !in db.history then Started
            else Failure(Other("database"))
  {
  }

  /** A deletion answers Deleted exactly when the id is in the subject's scope and
      the event id is fresh; then that row is gone, its event says so, and nothing
      else has changed. */
  lemma DeleteIsStored(db: Db, application: string, subject: string, id: Uuid, env: Env)
    requires UniqueIndex(db.credential)
    ensures var result, after := Plan(db, Delete(application, subject, id), env).result, Run(db, Delete(application, subject, id), env);
            if id !in db.credential || db.credential[id].application != application || db.credential[id].subject != subject then
              result == Failure(Plain(CredentialNotFound)) && after == db
            else if env.eventId in db.history then
              result == Failure(Other("database")) && after == db
            else
              && result == Deleted
              && after == Db(
                   db.registration,
                   db.authentication,
                   db.credential - {id},
                   db.history[env.eventId := Event(application, subject, Some(id), CredentialDelete, Succeeded, None, None, env.occurredAt)])
  {
  }

  /** A registered credential is in the next list read for its subject. */
  lemma RegisteredIsRead(db: Db, hash: Bytes, authorize: Authorize, verify: Verify, env: Env)
    requires UniqueIndex(db.credential)
    requires Plan(db, Finish(Registration, hash, authorize, verify), env).result.Finished?
    ensures var r := Plan(db, Finish(Registration, hash, authorize, verify), env).result.credential;
            var after := Run(db, Finish(Registration, hash, authorize, verify), env);
            var c := Table(db, Registration)[hash];
            && r.id in after.credential
            && after.credential[r.id] in SubjectCredentials(after.credential, c.application, c.subject)
  {
    SuccessIsStored(db, Registration, hash, authorize, verify, env);
    var r := Plan(db, Finish(Registration, hash, authorize, verify), env).result.credential;
    var after := Run(db, Finish(Registration, hash, authorize, verify), env);
    var c := Table(db, Registration)[hash];
    SortedRowsComplete(Scope(after.credential, c.application, c.subject), r.id);
  }

  /** Deleting a credential right after its registration gives back the credential
      table of before; deleting it again finds nothing; and nobody but its own
      subject can delete it. */
  lemma DeletionUndoesRegistration(db: Db, hash: Bytes, authorize: Authorize, verify: Verify, env: Env,
                                   application: string, subject: string, next: Env)
    requires UniqueIndex(db.credential)
    requires Plan(db, Finish(Registration, hash, authorize, verify), env).result.Finished?
    ensures var r := Plan(db, Finish(Registration, hash, authorize, verify), env).result.credential;
            var after := Run(db, Finish(Registration, hash, authorize, verify), env);
            var c := Table(db, Registration)[hash];
            var deletion := Delete(application, subject, r.id);
            if (application, subject) != (c.application, c.subject) then
              Plan(after, deletion, next) == Refuse(Plain(CredentialNotFound))
            else if next.eventId in after.history then
              Plan(after, deletion, next) == Refuse(DATABASE_ERROR)
            else
              && Plan(after, deletion, next).result == Deleted
              && Run(after, deletion, next).credential == db.credential
              && forall later :: Plan(Run(after, deletion, next), deletion, later) == Refuse(Plain(CredentialNotFound))
  {
    SuccessIsStored(db, Registration, hash, authorize, verify, env);
    var r := Plan(db, Finish(Registration, hash, authorize, verify), env).result.credential;
    var after := Run(db, Finish(Registration, hash, authorize, verify), env);
    assert after.credential - {r.id} == db.credential;
  }
}
