/** The repository on its own: each call runs its statements against the tables
    in place and rolls back when one fails. */
module Repository {
  import opened Ceremonies
  import opened Store

  /** Which statements of a call the database refuses, counted from 0. */
  type Failures = nat -> bool

  class Postgres {
    var registration: map<Bytes, Ceremony>
    var authentication: map<Bytes, Ceremony>
    var credential: map<Uuid, Credential>
    var history: map<Uuid, Event>

    function Tables(): Db
      reads this
    {
      Db(registration, authentication, credential, history)
    }

    /** The primary key and the unique index of the credential table. */
    ghost predicate Valid()
      reads this
    {
      UniqueIndex(credential)
    }

    constructor ()
      ensures Valid() && Tables() == EMPTY
    {
      registration, authentication, credential, history := map[], map[], map[], map[];
    }

    /** Row by row, in the order of the query. */
    method ReadCredentials(application: string, subject: string) returns (result: seq<Credential>)
      ensures result == SubjectCredentials(credential, application, subject)
    {
      result := [];
      var pending := Scope(credential, application, subject);
      while pending != map[]
        invariant result + SortedRows(pending) == SubjectCredentials(credential, application, subject)
        decreases |pending|
      {
        LeastExists(pending);
        var id :| id in pending && forall other :: other in pending ==> id <= other;
        SortedRowsFirst(pending, id);
        assert result + ([pending[id]] + SortedRows(pending - {id})) == (result + [pending[id]]) + SortedRows(pending - {id});
        result := result + [pending[id]];
        pending := pending - {id};
      }
    }

    method PutRow(k: Kind, hash: Bytes, row: Ceremony)
      modifies this`registration, this`authentication
      ensures Tables() == PutCeremony(old(Tables()), k, hash, row)
    {
      match k
      case Registration => registration := registration[hash := row];
      case Authentication => authentication := authentication[hash := row];
    }

    method RollbackTo(saved: Db)
      modifies this
      ensures Tables() == saved
    {
      registration, authentication := saved.registration, saved.authentication;
      credential, history := saved.credential, saved.history;
    }

    /** INSERT INTO history; the id is its primary key. */
    method AppendEvent(id: Uuid, event: Event, refused: bool) returns (ok: bool)
      modifies this`history
      ensures ok <==> !refused && id !in old(history)
      ensures history == if ok then old(history)[id := event] else old(history)
    {
      ok := !refused && id !in history;
      if ok {
        history := history[id := event];
      }
    }

    /** Either the call did what it does alone, or a statement failed and nothing
        happened; without failures it is the former. */
    ghost predicate Atomic(before: Db, call: Call, env: Env, fails: Failures, result: Result)
      reads this
    {
      || (Tables() == Run(before, call, env) && result == Plan(before, call, env).result)
      || (Tables() == before && result == Failure(DATABASE_ERROR) && exists i: nat :: fails(i))
    }

    method Start(k: Kind, c: Ceremony, env: Env, fails: Failures) returns (result: Result)
      requires Valid()
      modifies this
      ensures Valid()
      ensures Atomic(old(Tables()), Call.Start(k, c), env, fails, result)
    {
      var saved := Tables();
      if fails(0) || c.tokenHash in Table(saved, k) || c.expiresAt <= c.createdAt {
        return Failure(DATABASE_ERROR);
      }
      PutRow(k, c.tokenHash, c);
      var ok := AppendEvent(env.eventId, EventOf(c.application, c.subject, None, StartOf(k), Succeeded, None, env.occurredAt), fails(1));
      if !ok || fails(2) {
        RollbackTo(saved);
        return Failure(DATABASE_ERROR);
      }
      return Started;
    }

    /** Insert the new credential or update the used one. */
    method WriteCredential(k: Kind, c: Ceremony, verified: Credential, now: Time)
      returns (outcome: Option<Fault>, written: Credential, ok: bool)
      modifies this`credential
      ensures var s := WriteOutcome(old(credential), k, c, verified, now);
              && (ok <==> s.Settled?)
              && (!ok ==> s == Abandon(DATABASE_ERROR) && credential == old(credential))
              && (ok ==> outcome == s.outcome && written == s.credential && credential == ApplyCredential(old(credential), s.write))
    {
      outcome, written, ok := None, verified, true;
      match k
      case Registration =>
        var row := InsertedRow(c, verified, now);
        if !RowAllowed(row) {
          ok := false;
        } else if exists id :: id in credential && credential[id].rpId == c.rpId && credential[id].webauthnId == verified.webauthnId {
          outcome := Some(Plain(Conflict));
        } else if row.id in credential {
          ok := false;
        } else {
          credential := credential[row.id := row];
          written := verified.(createdAt := now);
        }
      case Authentication =>
        var mine := Scope(credential, c.application, c.subject);
        if verified.id !in mine || mine[verified.id].rpId != c.rpId {
          outcome := Some(Plain(k.Invalid()));
        } else {
          var row := UpdatedRow(mine[verified.id], verified, now);
          if !RowAllowed(row) {
            ok := false;
          } else {
            credential := credential[row.id := row];
            written := verified.(usedAt := Some(now));
          }
        }
    }

    /** The statements after the credential write: the ceremony row, the link to
        the credential, the event, and COMMIT. */
    method Close(k: Kind, hash: Bytes, c: Ceremony, outcome: Option<Fault>, written: Credential, env: Env, saved: Db, failing: bool)
      returns (result: Result)
      modifies this
      ensures var p := Guard(old(history), Closing(k, hash, c, outcome, written, NoWrite, env));
              if failing || p.writes == NOTHING then Tables() == saved && result == Failure(DATABASE_ERROR)
              else Tables() == Apply(old(Tables()), p.writes) && result == p.result
    {
      var row := c.(state := Terminal(k, outcome));
      PutRow(k, hash, row);
      if k.Authentication? && outcome.None? {
        row := row.(credential := Some(written.id));
        PutRow(k, hash, row);
      }
      var ok := AppendEvent(env.eventId, FinishEvent(k, c, outcome, written, env.occurredAt), failing);
      if !ok {
        RollbackTo(saved);
        return Failure(DATABASE_ERROR);
      }
      return Answer(outcome, written);
    }

    /** The expiry check, the read of the subject's credentials, and the verifier. */
    method Consider(k: Kind, c: Ceremony, verify: Verify, env: Env) returns (d: Decision)
      ensures d == Decide(k, c, verify, SubjectCredentials(credential, c.application, c.subject), env)
    {
      var outcome := c.Check(k, env.now);
      if outcome.Some? {
        return Decision.Close(outcome.value);
      }
      var rows := ReadCredentials(c.application, c.subject);
      match verify(c, rows, env.credentialId)
      case Accepted(verified) =>
        d := Write(verified);
      case Refused(fault) =>
        d := if fault.Is(k.Invalid()) then Decision.Close(fault) else Reject(fault);
    }

    /** Everything after the ceremony row is locked and found pending. */
    method Conclude(k: Kind, hash: Bytes, c: Ceremony, verify: Verify, env: Env, fails: Failures) returns (result: Result)
      requires Valid()
      modifies this
      ensures Valid()
      ensures var s := Settle(old(credential), k, c, verify, env);
              var p := if s.Abandon? then Refuse(s.fault)
                       else Guard(old(history), Closing(k, hash, c, s.outcome, s.credential, s.write, env));
              || (Tables() == Apply(old(Tables()), p.writes) && result == p.result)
              || (Tables() == old(Tables()) && result == Failure(DATABASE_ERROR) && exists i: nat :: fails(i))
    {
      var saved := Tables();
      if fails(1) || fails(2) || fails(3) {
        return Failure(DATABASE_ERROR);
      }
      var d := Consider(k, c, verify, env);
      var outcome: Option<Fault> := None;
      var written := ZERO_CREDENTIAL;
      match d {
      case Reject(fault) =>
        return Failure(fault);
      case Close(fault) =>
        outcome := Some(fault);
      case Write(verified) =>
        if fails(4) {
          return Failure(DATABASE_ERROR);
        }
        var ok: bool;
        outcome, written, ok := WriteCredential(k, c, verified, env.now);
        if !ok {
          return Failure(DATABASE_ERROR);
        }
      }
      SettleKeepsIndex(saved.credential, k, c, verify, env);
      result := Close(k, hash, c, outcome, written, env, saved, fails(5));
    }

    method Finish(k: Kind, hash: Bytes, authorize: Authorize, verify: Verify, env: Env, fails: Failures) returns (result: Result)
      requires Valid()
      modifies this
      ensures Valid()
      ensures Atomic(old(Tables()), Call.Finish(k, hash, authorize, verify), env, fails, result)
    {
      if fails(0) {
        return Failure(DATABASE_ERROR);
      }
      var table := Table(Tables(), k);
      if hash !in table {
        return Failure(Plain(k.NotFound()));
      }
      var c := table[hash];
      var refusal := authorize(c);
      if refusal.Some? {
        return Failure(refusal.value);
      }
      if c.state != Pending {
        return Failure(Plain(Conflict));
      }
      result := Conclude(k, hash, c, verify, env, fails);
    }

    method Delete(application: string, subject: string, id: Uuid, env: Env, fails: Failures) returns (result: Result)
      requires Valid()
      modifies this
      ensures Valid()
      ensures Atomic(old(Tables()), Call.Delete(application, subject, id), env, fails, result)
    {
      var saved := Tables();
      if fails(0) || fails(1) {
        return Failure(DATABASE_ERROR);
      }
      if id !in credential || credential[id].application != application || credential[id].subject != subject {
        return Failure(Plain(CredentialNotFound));
      }
      credential := credential - {id};
      var ok := AppendEvent(env.eventId, EventOf(application, subject, Some(id), CredentialDelete, Succeeded, None, env.occurredAt), fails(2));
      if !ok || fails(3) {
        RollbackTo(saved);
        return Failure(DATABASE_ERROR);
      }
      return Deleted;
    }
  }
}
