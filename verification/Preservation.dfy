/** Every step keeps the invariant, and a call that returns answers what it
    would have answered alone. */
module Preservation {
  import opened Ceremonies
  import opened Store
  import opened Transactions
  import opened Invariant

  // ------------------------------------------------------ the one stepping

  lemma FinishReadsOk(db: Db, t: Tid, tx: Tx, now: Time, newId: Uuid, instant: nat)
    requires tx.call.Finish? && FinishOk(db, tx)
    requires tx.pc in {LockCeremony, LockSubject, ReadClock, ReadCredentials}
    requires FinishStatement(db, t, tx, now, newId, instant).Continue?
    ensures FinishOk(db, FinishStatement(db, t, tx, now, newId, instant).tx)
  {
    var next := FinishStatement(db, t, tx, now, newId, instant).tx;
    assert RowHeld(db, next);
  }

  lemma FinishWriteOk(db: Db, t: Tid, tx: Tx, now: Time, newId: Uuid, instant: nat)
    requires tx.call.Finish? && FinishOk(db, tx) && tx.pc.WriteCredential?
    requires FinishStatement(db, t, tx, now, newId, instant).Continue?
    ensures FinishOk(db, FinishStatement(db, t, tx, now, newId, instant).tx)
  {
    var next := FinishStatement(db, t, tx, now, newId, instant).tx;
    assert Closed(db, next);
  }

  lemma FinishCloseOk(db: Db, t: Tid, tx: Tx, now: Time, newId: Uuid, instant: nat)
    requires tx.call.Finish? && FinishOk(db, tx) && tx.pc in {SetState, LinkCredential, AppendEvent, Commit}
    requires FinishStatement(db, t, tx, now, newId, instant).Continue?
    ensures FinishOk(db, FinishStatement(db, t, tx, now, newId, instant).tx)
  {
    var next := FinishStatement(db, t, tx, now, newId, instant).tx;
    assert Closed(db, next);
  }

  lemma ContinueOk(db: Db, t: Tid, tx: Tx, now: Time, newId: Uuid, instant: nat)
    requires TxOk(db, tx)
    requires Statement(db, t, tx, now, newId, instant).Continue?
    ensures TxOk(db, Statement(db, t, tx, now, newId, instant).tx)
  {
    if tx.call.Finish? {
      if tx.pc in {LockCeremony, LockSubject, ReadClock, ReadCredentials} {
        FinishReadsOk(db, t, tx, now, newId, instant);
      } else if tx.pc.WriteCredential? {
        FinishWriteOk(db, t, tx, now, newId, instant);
      } else {
        FinishCloseOk(db, t, tx, now, newId, instant);
      }
    }
  }

  /** Unless it is a duplicate credential, a call answers and writes at its last
      statement what it would have answered and written alone at that instant. */
  lemma ReturnIsPlanned(db: Db, t: Tid, tx: Tx, now: Time, newId: Uuid, instant: nat)
    requires TxOk(db, tx) && tx.mark == None
    requires Statement(db, t, tx, now, newId, instant).Return?
    requires tx.pc.Commit? ==> tx.env.eventId !in db.history
    ensures var d := Statement(db, t, tx, now, newId, instant).done;
            Plan(db, d.call, d.env) == Planned(d.writes, d.result)
  {
  }

  /** A duplicate credential is decided at its INSERT as it would be alone. */
  lemma MarkedIsPlanned(db: Db, t: Tid, tx: Tx, now: Time, newId: Uuid, instant: nat)
    requires TxOk(db, tx) && tx.mark == None
    requires Statement(db, t, tx, now, newId, instant).Continue?
    requires Statement(db, t, tx, now, newId, instant).tx.mark.Some?
    ensures var next := Statement(db, t, tx, now, newId, instant).tx;
            && next.mark == Some(instant)
            && RowHeld(db, next)
            && Settle(db.credential, next.call.kind, next.c, next.call.verify, next.env)
               == Settled(next.outcome, next.credential, next.writes.credential)
  {
  }

  ghost function Next(s: System, t: Tid, now: Time, newId: Uuid, instant: nat): Tx
    requires t in s.txs && Statement(s.db, t, s.txs[t], now, newId, instant).Continue?
  {
    Statement(s.db, t, s.txs[t], now, newId, instant).tx
  }

  lemma RowsStayApart(key: SubjectKey, s: System, t: Tid, u: Tid, now: Time, newId: Uuid, instant: nat)
    requires t in s.txs && u in s.txs && t != u && !WaitsFor(key, s, t, u)
    requires TxOk(s.db, s.txs[t]) && TxOk(s.db, s.txs[u]) && RowsApart(s.txs[t], s.txs[u])
    requires Statement(s.db, t, s.txs[t], now, newId, instant).Continue?
    ensures RowsApart(Next(s, t, now, newId, instant), s.txs[u])
  {
    var tx, other, next := s.txs[t], s.txs[u], Next(s, t, now, newId, instant);
    forall k, hash | HoldsRow(next, k, hash) ensures !HoldsRow(other, k, hash) {
      assert HoldsRow(tx, k, hash) || tx.pc.LockCeremony?;
    }
    forall k, hash | HoldsToken(next, k, hash) ensures !HoldsToken(other, k, hash) {
      assert HoldsToken(tx, k, hash) || tx.pc.InsertCeremony?;
    }
  }

  lemma SubjectsStayApart(key: SubjectKey, s: System, t: Tid, u: Tid, now: Time, newId: Uuid, instant: nat)
    requires t in s.txs && u in s.txs && t != u && !WaitsFor(key, s, t, u)
    requires TxOk(s.db, s.txs[t]) && TxOk(s.db, s.txs[u]) && SubjectsApart(key, s.txs[t], s.txs[u])
    requires Statement(s.db, t, s.txs[t], now, newId, instant).Continue?
    ensures SubjectsApart(key, Next(s, t, now, newId, instant), s.txs[u])
  {
    var tx, next := s.txs[t], Next(s, t, now, newId, instant);
    if OwnsSubject(next) {
      assert SubjectOf(next) == SubjectOf(tx);
      assert OwnsSubject(tx) || tx.pc.LockSubject?;
    }
  }

  lemma InsertsStayApart(key: SubjectKey, s: System, t: Tid, u: Tid, now: Time, newId: Uuid, instant: nat)
    requires t in s.txs && u in s.txs && t != u && !WaitsFor(key, s, t, u)
    requires TxOk(s.db, s.txs[t]) && InsertsApart(s.txs[t], s.txs[u])
    requires Statement(s.db, t, s.txs[t], now, newId, instant).Continue?
    ensures InsertsApart(Next(s, t, now, newId, instant), s.txs[u])
  {
    var tx, next := s.txs[t], Next(s, t, now, newId, instant);
    if next.writes.credential.Insert? {
      assert next.writes.credential == tx.writes.credential || tx.pc.WriteCredential?;
    }
  }

  lemma ReservedGrows(s: System, t: Tid, now: Time, newId: Uuid, instant: nat)
    requires t in s.txs && TxOk(s.db, s.txs[t])
    requires Statement(s.db, t, s.txs[t], now, newId, instant).Continue?
    ensures Reserved(Next(s, t, now, newId, instant)) <= Reserved(s.txs[t]) + {newId}
  {
  }

  lemma ApartSymmetric(key: SubjectKey, a: Tx, b: Tx)
    requires Apart(key, a, b)
    ensures Apart(key, b, a)
  {
  }

  lemma ContinueApart(key: SubjectKey, s: System, t: Tid, u: Tid, now: Time, newId: Uuid, instant: nat)
    requires Inv(key, s) && Enabled(key, s, Step(t, now, newId, instant)) && u in s.txs && t != u
    requires Statement(s.db, t, s.txs[t], now, newId, instant).Continue?
    ensures Apart(key, Next(s, t, now, newId, instant), s.txs[u])
    ensures Apart(key, s.txs[u], Next(s, t, now, newId, instant))
  {
    assert Apart(key, s.txs[t], s.txs[u]);
    assert TxOk(s.db, s.txs[t]) && TxOk(s.db, s.txs[u]);
    assert !WaitsFor(key, s, t, u);
    RowsStayApart(key, s, t, u, now, newId, instant);
    SubjectsStayApart(key, s, t, u, now, newId, instant);
    InsertsStayApart(key, s, t, u, now, newId, instant);
    ReservedGrows(s, t, now, newId, instant);
    ApartSymmetric(key, Next(s, t, now, newId, instant), s.txs[u]);
  }

  // ------------------------------------------------------------ the others

  /** A commit leaves the scope of every other lock holder alone. */
  lemma CommitKeepsScope(key: SubjectKey, db: Db, t: Tx, u: Tx)
    requires TxOk(db, t) && UniqueIndex(db.credential) && OwnsSubject(u) && SubjectsApart(key, t, u)
    ensures var (application, subject) := SubjectOf(u);
            Scope(Apply(db, t.writes).credential, application, subject) == Scope(db.credential, application, subject)
  {
    var (application, subject) := SubjectOf(u);
    if !t.writes.credential.NoWrite? {
      WriteIsOwn(db, t);
      assert LockKey(key, t) != LockKey(key, u);
    }
    ScopeUnchanged(db.credential, t.writes.credential, application, subject);
  }

  /** A commit leaves the ceremony row of every other lock holder alone. */
  lemma CommitKeepsRow(db: Db, t: Tx, k: Kind, hash: Bytes)
    requires TxOk(db, t)
    requires hash in Table(db, k) ==> !HoldsRow(t, k, hash)
    requires hash !in Table(db, k) ==> !HoldsToken(t, k, hash)
    ensures hash in Table(db, k) <==> hash in Table(Apply(db, t.writes), k)
    ensures hash in Table(db, k) ==> Table(Apply(db, t.writes), k)[hash] == Table(db, k)[hash]
  {
  }

  /** A commit does not take the unique key another registration is inserting. */
  lemma CommitKeepsUnique(db: Db, t: Tx, u: Tx)
    requires TxOk(db, t) && TxOk(db, u) && UniqueIndex(db.credential)
    requires InsertsApart(t, u) && Reserved(t) !! Reserved(u) && u.writes.credential.Insert?
    ensures var row := u.writes.credential.row;
            && row.id !in Apply(db, t.writes).credential
            && !Taken(Apply(db, t.writes).credential, row.rpId, row.webauthnId)
  {
    var row := u.writes.credential.row;
    WriteIsOwn(db, u);
    assert u.env.credentialId in Reserved(u);
    if !t.writes.credential.NoWrite? {
      WriteIsOwn(db, t);
      if t.writes.credential.Insert? {
        assert t.env.credentialId in Reserved(t);
      }
    }
    FitsKeepsFree(db.credential, t.writes.credential, row.rpId, row.webauthnId);
  }

  lemma CommitKeepsClosed(key: SubjectKey, db: Db, t: Tx, u: Tx)
    requires TxOk(db, t) && u.call.Finish? && FinishOk(db, u) && UniqueIndex(db.credential) && Apart(key, t, u)
    requires u.pc in {SetState, LinkCredential, AppendEvent, Commit}
    ensures Closed(Apply(db, t.writes), u)
  {
    assert Closed(db, u);
    CommitKeepsScope(key, db, t, u);
    if u.mark.None? && u.writes.credential.Insert? {
      CommitKeepsUnique(db, t, u);
    }
  }

  lemma CommitKeepsFinish(key: SubjectKey, db: Db, t: Tx, u: Tx)
    requires TxOk(db, t) && u.call.Finish? && FinishOk(db, u) && UniqueIndex(db.credential) && Apart(key, t, u)
    ensures FinishOk(Apply(db, t.writes), u)
  {
    if !u.pc.LockCeremony? {
      assert HoldsRow(u, u.call.kind, u.call.hash);
      CommitKeepsRow(db, t, u.call.kind, u.call.hash);
      assert RowHeld(Apply(db, t.writes), u);
    }
    if OwnsSubject(u) {
      CommitKeepsScope(key, db, t, u);
    }
    if u.pc in {SetState, LinkCredential, AppendEvent, Commit} {
      CommitKeepsClosed(key, db, t, u);
    }
  }

  lemma CommitKeepsOther(key: SubjectKey, db: Db, t: Tx, u: Tx)
    requires TxOk(db, t) && TxOk(db, u) && UniqueIndex(db.credential) && Apart(key, t, u)
    ensures TxOk(Apply(db, t.writes), u)
  {
    match u.call
    case Start(k, c) =>
      if !u.pc.InsertCeremony? {
        assert HoldsToken(u, k, c.tokenHash);
        CommitKeepsRow(db, t, k, c.tokenHash);
      }
    case Finish(_, _, _, _) =>
      CommitKeepsFinish(key, db, t, u);
    case Delete(_, _, _) =>
      if OwnsSubject(u) {
        CommitKeepsScope(key, db, t, u);
      }
  }

  /** The unique index holds after every commit. */
  lemma CommitKeepsIndex(db: Db, t: Tx)
    requires TxOk(db, t) && UniqueIndex(db.credential)
    ensures UniqueIndex(Apply(db, t.writes).credential)
  {
    if !t.writes.credential.NoWrite? {
      WriteIsOwn(db, t);
    }
    FitsKeepsIndex(db.credential, t.writes.credential);
  }

  // -------------------------------------------------------------- all steps

  lemma ReturnWrites(db: Db, t: Tid, tx: Tx, now: Time, newId: Uuid, instant: nat)
    requires TxOk(db, tx)
    requires Statement(db, t, tx, now, newId, instant).Return?
    ensures var d := Statement(db, t, tx, now, newId, instant).done;
            d.writes == NOTHING || (tx.pc.Commit? && d.writes == tx.writes)
  {
  }

  /** What a continuing statement leaves of the transaction's identity. */
  lemma ContinueFields(db: Db, t: Tid, tx: Tx, now: Time, newId: Uuid, instant: nat)
    requires TxOk(db, tx)
    requires Statement(db, t, tx, now, newId, instant).Continue?
    ensures var next := Statement(db, t, tx, now, newId, instant).tx;
            && next.call == tx.call && next.began == tx.began
            && (next.mark == tx.mark || (tx.mark == None && next.mark == Some(instant)))
            && (next.pc.Commit? || next.env.eventId == tx.env.eventId)
  {
  }

  lemma ReturnFields(db: Db, t: Tid, tx: Tx, now: Time, newId: Uuid, instant: nat)
    requires TxOk(db, tx)
    requires Statement(db, t, tx, now, newId, instant).Return?
    ensures var d := Statement(db, t, tx, now, newId, instant).done;
            && d.tid == t && d.call == tx.call && d.began == tx.began && d.ended == instant
            && d.stamp == (if tx.mark.Some? then tx.mark.value else instant)
            && d.env.eventId == tx.env.eventId
            && (tx.mark.Some? ==>
                  tx.pc.Commit? && d.call.Finish? && d.call.kind.Registration?
                  && d.result == Failure(Plain(Conflict)) && d.writes.credential == NoWrite)
  {
    if tx.call.Finish? && tx.mark.Some? {
      assert Closed(db, tx);
    }
  }

  lemma CommitEventId(db: Db, tx: Tx)
    requires TxOk(db, tx) && tx.pc.Commit?
    ensures Apply(db, tx.writes).history.Keys == db.history.Keys + {tx.env.eventId}
    ensures tx.env.eventId in Reserved(tx)
  {
  }

  lemma CommitCredentialId(db: Db, tx: Tx)
    requires TxOk(db, tx) && tx.pc.Commit? && UniqueIndex(db.credential)
    ensures Apply(db, tx.writes).credential.Keys <= db.credential.Keys + Reserved(tx)
  {
    if !tx.writes.credential.NoWrite? {
      WriteIsOwn(db, tx);
    }
    assert Apply(db, tx.writes).credential == ApplyCredential(db.credential, tx.writes.credential);
  }

  lemma CommitIds(db: Db, tx: Tx)
    requires TxOk(db, tx) && tx.pc.Commit? && UniqueIndex(db.credential)
    ensures Apply(db, tx.writes).credential.Keys <= db.credential.Keys + Reserved(tx)
    ensures Apply(db, tx.writes).history.Keys <= db.history.Keys + Reserved(tx)
  {
    CommitEventId(db, tx);
    CommitCredentialId(db, tx);
  }

  lemma InvBegin(key: SubjectKey, s: System, l: Label)
    requires Inv(key, s) && l.Begin? && Enabled(key, s, l)
    ensures Inv(key, Do(s, l))
  {
    var tx := NewTx(l.call, l.instant);
    forall u | u in s.txs ensures Apart(key, tx, s.txs[u]) && Apart(key, s.txs[u], tx) {
      assert forall k, hash :: !HoldsRow(tx, k, hash) && !HoldsToken(tx, k, hash);
    }
  }

  lemma InvContinue(key: SubjectKey, s: System, l: Label)
    requires Inv(key, s) && l.Step? && Enabled(key, s, l)
    requires Statement(s.db, l.tid, s.txs[l.tid], l.now, l.newId, l.instant).Continue?
    ensures Inv(key, Do(s, l))
  {
    var t := l.tid;
    var next := Next(s, t, l.now, l.newId, l.instant);
    ContinueOk(s.db, t, s.txs[t], l.now, l.newId, l.instant);
    ReservedGrows(s, t, l.now, l.newId, l.instant);
    forall u | u in s.txs && u != t ensures Apart(key, next, s.txs[u]) && Apart(key, s.txs[u], next) {
      ContinueApart(key, s, t, u, l.now, l.newId, l.instant);
    }
    var after := Do(s, l);
    assert after.txs == s.txs[t := next] && after.db == s.db;
    assert Reserved(s.txs[t]) !! s.db.credential.Keys + s.db.history.Keys;
  }

  lemma InvReturn(key: SubjectKey, s: System, l: Label)
    requires Inv(key, s) && l.Step? && Enabled(key, s, l)
    requires Statement(s.db, l.tid, s.txs[l.tid], l.now, l.newId, l.instant).Return?
    ensures Inv(key, Do(s, l))
  {
    var t, tx, after := l.tid, s.txs[l.tid], Do(s, l);
    ReturnWrites(s.db, t, tx, l.now, l.newId, l.instant);
    var w := Statement(s.db, t, tx, l.now, l.newId, l.instant).done.writes;
    assert after.txs == s.txs - {t};
    if w == NOTHING {
      assert after.db == s.db;
    } else {
      assert after.db == Apply(s.db, tx.writes);
      CommitKeepsIndex(s.db, tx);
      CommitIds(s.db, tx);
      forall u | u in after.txs ensures TxOk(after.db, after.txs[u]) {
        assert Apart(key, tx, s.txs[u]);
        CommitKeepsOther(key, s.db, tx, s.txs[u]);
      }
      forall u | u in after.txs ensures Reserved(after.txs[u]) !! after.db.credential.Keys + after.db.history.Keys {
        assert Apart(key, tx, s.txs[u]);
      }
      assert Reserved(tx) <= s.used;
    }
  }

  lemma InvDo(key: SubjectKey, s: System, l: Label)
    requires Inv(key, s) && Enabled(key, s, l)
    ensures Inv(key, Do(s, l))
  {
    match l
    case Begin(_, _, _) => InvBegin(key, s, l);
    case Rollback(_) =>
    case Step(t, now, newId, instant) =>
      if Statement(s.db, t, s.txs[t], now, newId, instant).Continue? {
        InvContinue(key, s, l);
      } else {
        InvReturn(key, s, l);
      }
  }

  lemma {:induction false} InvAfter(key: SubjectKey, s: System, ls: seq<Label>)
    requires Inv(key, s) && ValidRun(key, s, ls)
    ensures Inv(key, After(key, s, ls))
    decreases |ls|
  {
    if ls != [] {
      InvDo(key, s, ls[0]);
      InvAfter(key, Do(s, ls[0]), ls[1..]);
    }
  }
}
