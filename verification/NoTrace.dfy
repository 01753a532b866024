/** A call that commits nothing might as well never have been made. */
module NoTrace {
  import opened Ceremonies
  import opened Store
  import opened Transactions

  /** The run without one transaction. */
  function Erase(ls: seq<Label>, t: Tid): seq<Label> {
    if ls == [] then []
    else if ls[0].tid == t then Erase(ls[1..], t)
    else [ls[0]] + Erase(ls[1..], t)
  }

  function Without(log: seq<Done>, t: Tid): seq<Done> {
    if log == [] then []
    else
      var init, last := Without(log[..|log| - 1], t), log[|log| - 1];
      if last.tid == t then init else init + [last]
  }

  /** `z` is `s` in which transaction `t` never took place. */
  ghost predicate Shadow(s: System, z: System, t: Tid) {
    && z.db == s.db
    && z.txs == s.txs - {t}
    && z.log == Without(s.log, t)
    && z.begun <= s.begun
    && z.used <= s.used
    && z.clock <= s.clock
    && z.instant <= s.instant
  }

  lemma {:induction false} LogGrows(key: SubjectKey, s: System, ls: seq<Label>)
    requires ValidRun(key, s, ls)
    ensures s.log <= After(key, s, ls).log
    decreases |ls|
  {
    if ls != [] {
      LogGrows(key, Do(s, ls[0]), ls[1..]);
    }
  }

  lemma DoneTid(db: Db, t: Tid, tx: Tx, now: Time, newId: Uuid, instant: nat)
    requires Statement(db, t, tx, now, newId, instant).Return?
    ensures Statement(db, t, tx, now, newId, instant).done.tid == t
  {
  }

  /** With one transaction fewer, nobody waits who did not wait before. */
  lemma ShadowUnblocked(key: SubjectKey, s: System, z: System, t: Tid, u: Tid)
    requires Shadow(s, z, t) && u in z.txs && !Blocked(key, s, u)
    ensures !Blocked(key, z, u)
  {
    forall v ensures !WaitsFor(key, z, u, v) {
      assert !WaitsFor(key, s, u, v);
    }
  }

  lemma OthersShadow(key: SubjectKey, s: System, z: System, t: Tid, l: Label)
    requires Shadow(s, z, t) && Enabled(key, s, l) && l.tid != t
    ensures Enabled(key, z, l) && Shadow(Do(s, l), Do(z, l), t)
  {
    if l.Step? {
      ShadowUnblocked(key, s, z, t, l.tid);
      var turn := Statement(s.db, l.tid, s.txs[l.tid], l.now, l.newId, l.instant);
      match turn
      case Continue(tx) =>
        assert Do(z, l).txs == Do(s, l).txs - {t};
      case Return(d) =>
        DoneTid(s.db, l.tid, s.txs[l.tid], l.now, l.newId, l.instant);
        assert (s.log + [d])[..|s.log|] == s.log;
        assert Do(z, l).txs == Do(s, l).txs - {t};
    }
  }

  lemma WithoutOwn(log: seq<Done>, d: Done, t: Tid)
    requires d.tid == t
    ensures Without(log + [d], t) == Without(log, t)
  {
    assert (log + [d])[..|log|] == log;
  }

  lemma NothingApplied(db: Db)
    ensures Apply(db, NOTHING) == db
  {
  }

  lemma OwnShadow(key: SubjectKey, s: System, z: System, t: Tid, l: Label)
    requires Shadow(s, z, t) && Enabled(key, s, l) && l.tid == t
    requires forall d :: d in Do(s, l).log && d.tid == t ==> d.writes == NOTHING
    ensures Shadow(Do(s, l), z, t)
  {
    if l.Step? {
      var turn := Statement(s.db, t, s.txs[t], l.now, l.newId, l.instant);
      if turn.Return? {
        var d := turn.done;
        DoneTid(s.db, t, s.txs[t], l.now, l.newId, l.instant);
        assert Do(s, l).log == s.log + [d] && d in Do(s, l).log;
        NothingApplied(s.db);
        WithoutOwn(s.log, d, t);
      }
    }
  }

  lemma {:induction false} ErasedRun(key: SubjectKey, s: System, z: System, ls: seq<Label>, t: Tid)
    requires Shadow(s, z, t) && ValidRun(key, s, ls)
    requires forall d :: d in After(key, s, ls).log && d.tid == t ==> d.writes == NOTHING
    ensures ValidRun(key, z, Erase(ls, t))
    ensures Shadow(After(key, s, ls), After(key, z, Erase(ls, t)), t)
    decreases |ls|
  {
    if ls != [] {
      var l := ls[0];
      if l.tid == t {
        LogGrows(key, Do(s, l), ls[1..]);
        assert forall d :: d in Do(s, l).log ==> d in After(key, s, ls).log;
        OwnShadow(key, s, z, t, l);
        ErasedRun(key, Do(s, l), z, ls[1..], t);
      } else {
        OthersShadow(key, s, z, t, l);
        ErasedRun(key, Do(s, l), Do(z, l), ls[1..], t);
        assert Erase(ls, t)[1..] == Erase(ls[1..], t);
      }
    }
  }

  /** If a call ended in a rollback at any step, or returned without committing
      (authorization, infrastructure or corrupt-state error, replay, not found),
      then the run without it is a possible run with the same tables, the same
      answers to every other call, and the same transactions in flight. */
  lemma FailedCallsLeaveNoTrace(key: SubjectKey, ls: seq<Label>, t: Tid)
    requires ValidRun(key, INITIAL, ls)
    requires forall d :: d in After(key, INITIAL, ls).log && d.tid == t ==> d.writes == NOTHING
    ensures ValidRun(key, INITIAL, Erase(ls, t))
    ensures var s, z := After(key, INITIAL, ls), After(key, INITIAL, Erase(ls, t));
            z.db == s.db && z.log == Without(s.log, t) && z.txs == s.txs - {t}
  {
    assert INITIAL.txs == INITIAL.txs - {t};
    ErasedRun(key, INITIAL, INITIAL, ls, t);
  }

  // ------------------------------------------------ what consumes a ceremony

  /** The verifier's answer on the tables a finish finds. */
  ghost function VerdictOn(db: Db, c: Ceremony, verify: Verify, env: Env): Verdict {
    verify(c, SubjectCredentials(db.credential, c.application, c.subject), env.credentialId)
  }

  /** The branches of Finish that close the ceremony rather than roll back. */
  ghost predicate Consumes(db: Db, k: Kind, c: Ceremony, authorize: Authorize, verify: Verify, env: Env) {
    && authorize(c) == None
    && (|| c.expiresAt <= env.now
        || match VerdictOn(db, c, verify, env)
           case Refused(fault) => fault.Is(k.Invalid())
           case Accepted(credential) => WriteOutcome(db.credential, k, c, credential, env.now).Settled?)
  }

  /** A pending ceremony is consumed exactly when its caller is authorized and it
      has expired, or verification failed as expected, or the verified credential
      could be written or found to be a duplicate; otherwise nothing changes. */
  lemma ConsumedExactly(db: Db, k: Kind, hash: Bytes, authorize: Authorize, verify: Verify, env: Env)
    requires hash in Table(db, k) && Table(db, k)[hash].state == Pending && env.eventId !in db.history
    ensures var c, after := Table(db, k)[hash], Run(db, Finish(k, hash, authorize, verify), env);
            && hash in Table(after, k)
            && (Table(after, k)[hash].state != Pending <==> Consumes(db, k, c, authorize, verify, env))
            && (Table(after, k)[hash].state == Expired <==> authorize(c) == None && c.expiresAt <= env.now)
            && (!Consumes(db, k, c, authorize, verify, env) ==> after == db)
            && (Table(after, k)[hash].state == Succeeded <==> Plan(db, Finish(k, hash, authorize, verify), env).result.Finished?)
  {
  }

  /** A ceremony that is no longer pending, or does not exist, is not touched. */
  lemma SpentIsRefused(db: Db, k: Kind, hash: Bytes, authorize: Authorize, verify: Verify, env: Env)
    requires hash !in Table(db, k) || Table(db, k)[hash].state != Pending
    ensures Run(db, Finish(k, hash, authorize, verify), env) == db
    ensures var result := Plan(db, Finish(k, hash, authorize, verify), env).result;
            if hash !in Table(db, k) then result == Failure(Plain(k.NotFound()))
            else result == Failure(if authorize(Table(db, k)[hash]).Some? then authorize(Table(db, k)[hash]).value else Plain(Conflict))
  {
  }
}
