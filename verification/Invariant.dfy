/** What every reachable state satisfies: each transaction's local variables are
    still true of the committed tables, and no two transactions hold one lock. */
module Invariant {
  import opened Ceremonies
  import opened Store
  import opened Transactions

  // ------------------------------------------------------ one transaction

  ghost predicate StartOk(db: Db, tx: Tx)
    requires tx.call.Start?
  {
    var k, c := tx.call.kind, tx.call.ceremony;
    && tx.mark == None
    && Issued(tx.call)
    && tx.pc in {InsertCeremony, AppendEvent, Commit}
    && (tx.pc.InsertCeremony? ==> tx.writes == NOTHING)
    && (!tx.pc.InsertCeremony? ==> c.tokenHash !in Table(db, k) && c.createdAt < c.expiresAt)
    && (tx.pc.AppendEvent? ==> tx.writes == NOTHING.(ceremony := Some(CeremonyWrite(k, c.tokenHash, c))))
    && (tx.pc.Commit? ==>
          tx.writes == Writes(Some(CeremonyWrite(k, c.tokenHash, c)), NoWrite,
                              Some(EventWrite(tx.env.eventId, EventOf(c.application, c.subject, None, StartOf(k), Succeeded, None, tx.env.occurredAt)))))
  }

  /** The ceremony this finish locked is still in the table as it was read. */
  ghost predicate RowHeld(db: Db, tx: Tx)
    requires tx.call.Finish?
  {
    && tx.call.hash in Table(db, tx.call.kind)
    && Table(db, tx.call.kind)[tx.call.hash] == tx.c
    && tx.call.authorize(tx.c) == None
    && tx.c.state == Pending
  }

  /** A finish whose outcome is known, short of the history event. */
  ghost predicate Closed(db: Db, tx: Tx)
    requires tx.call.Finish?
  {
    var k, hash, c := tx.call.kind, tx.call.hash, tx.c;
    && (tx.mark.None? ==>
          Settle(db.credential, k, c, tx.call.verify, tx.env) == Settled(tx.outcome, tx.credential, tx.writes.credential))
    && (tx.mark.None? && k.Registration? ==> tx.outcome != Some(Plain(Conflict)))
    && (tx.mark.Some? ==>
          k.Registration? && tx.outcome == Some(Plain(Conflict)) && tx.writes.credential == NoWrite)
    && (tx.pc.SetState? ==> tx.writes.ceremony == None)
    && (tx.pc.LinkCredential? ==>
          k.Authentication? && tx.outcome == None &&
          tx.writes.ceremony == Some(CeremonyWrite(k, hash, c.(state := Terminal(k, tx.outcome)))))
    && (tx.pc in {AppendEvent, Commit} ==>
          tx.writes.ceremony == Some(CeremonyWrite(k, hash, ClosedRow(k, c, tx.outcome, tx.credential))))
    && (!tx.pc.Commit? ==> tx.writes.event == None)
    && (tx.pc.Commit? ==>
          tx.writes.event ==
          Some(EventWrite(tx.env.eventId, FinishEvent(k, c, tx.outcome, tx.credential, tx.env.occurredAt))))
  }

  ghost predicate FinishOk(db: Db, tx: Tx)
    requires tx.call.Finish?
  {
    var k, c := tx.call.kind, tx.c;
    && tx.pc !in {InsertCeremony, DeleteRow}
    && Issued(tx.call)
    && (tx.pc in {LockCeremony, LockSubject, ReadClock, ReadCredentials, WriteCredential} ==>
          tx.writes == NOTHING && tx.mark == None && tx.outcome == None)
    && (tx.pc in {LockCeremony, LockSubject, ReadClock, ReadCredentials} ==>
          tx.credential == ZERO_CREDENTIAL && tx.env.credentialId == 0)
    && (!tx.pc.LockCeremony? ==> RowHeld(db, tx))
    && (tx.pc in {ReadCredentials, WriteCredential} ==> c.Check(k, tx.env.now) == None)
    && (tx.pc.WriteCredential? ==>
          Decide(k, c, tx.call.verify, SubjectCredentials(db.credential, c.application, c.subject), tx.env) == Write(tx.credential))
    && (tx.pc in {SetState, LinkCredential, AppendEvent, Commit} ==> Closed(db, tx))
  }

  ghost predicate DeleteOk(db: Db, tx: Tx)
    requires tx.call.Delete?
  {
    var mine := Scope(db.credential, tx.call.application, tx.call.subject);
    && tx.mark == None
    && tx.pc in {LockSubject, DeleteRow, AppendEvent, Commit}
    && (tx.pc in {LockSubject, DeleteRow} ==> tx.writes == NOTHING)
    && (tx.pc in {AppendEvent, Commit} ==>
          tx.call.id in mine && tx.writes.ceremony == None && tx.writes.credential == Drop(mine[tx.call.id]))
    && (tx.pc.AppendEvent? ==> tx.writes.event == None)
    && (tx.pc.Commit? ==>
          tx.writes.event ==
          Some(EventWrite(tx.env.eventId,
                          EventOf(tx.call.application, tx.call.subject, Some(tx.call.id), CredentialDelete, Succeeded, None, tx.env.occurredAt))))
  }

  /** What a transaction relies on in the committed tables. */
  ghost predicate TxOk(db: Db, tx: Tx) {
    match tx.call
    case Start(_, _) => StartOk(db, tx)
    case Finish(_, _, _, _) => FinishOk(db, tx)
    case Delete(_, _, _) => DeleteOk(db, tx)
  }

  // ----------------------------------------------------- two transactions

  /** The ids a transaction has drawn for rows that are not committed yet. */
  function Reserved(tx: Tx): set<Uuid> {
    (if tx.call.Finish? && (tx.pc.WriteCredential? || tx.writes.credential.Insert?) then {tx.env.credentialId} else {}) +
    (if tx.pc.Commit? then {tx.env.eventId} else {})
  }

  ghost predicate RowsApart(a: Tx, b: Tx) {
    && (forall k, hash :: HoldsRow(a, k, hash) ==> !HoldsRow(b, k, hash))
    && (forall k, hash :: HoldsToken(a, k, hash) ==> !HoldsToken(b, k, hash))
  }

  ghost predicate SubjectsApart(key: SubjectKey, a: Tx, b: Tx) {
    OwnsSubject(a) && OwnsSubject(b) ==> LockKey(key, a) != LockKey(key, b)
  }

  ghost predicate InsertsApart(a: Tx, b: Tx) {
    a.writes.credential.Insert? && b.writes.credential.Insert? ==>
      a.writes.credential.row.rpId != b.writes.credential.row.rpId ||
      a.writes.credential.row.webauthnId != b.writes.credential.row.webauthnId
  }

  /** The two transactions hold no lock and no fresh id in common. */
  ghost predicate Apart(key: SubjectKey, a: Tx, b: Tx) {
    && RowsApart(a, b)
    && SubjectsApart(key, a, b)
    && InsertsApart(a, b)
    && Reserved(a) !! Reserved(b)
  }

  // ------------------------------------------------------------- the state

  ghost predicate IdsKnown(s: System) {
    && 0 in s.used
    && s.db.credential.Keys <= s.used
    && s.db.history.Keys <= s.used
    && (forall t :: t in s.txs ==> Reserved(s.txs[t]) <= s.used)
    && (forall t :: t in s.txs ==> Reserved(s.txs[t]) !! s.db.credential.Keys + s.db.history.Keys)
  }

  ghost predicate Inv(key: SubjectKey, s: System) {
    && s.txs.Keys <= s.begun
    && UniqueIndex(s.db.credential)
    && IdsKnown(s)
    && (forall t :: t in s.txs ==> TxOk(s.db, s.txs[t]))
    && (forall t, u :: t in s.txs && u in s.txs && t != u ==> Apart(key, s.txs[t], s.txs[u]))
  }

  // --------------------------------------------------- what a write changes

  /** The tables' contents that a finish of this scope and unique key reads. */
  lemma ScopeUnchanged(t: map<Uuid, Credential>, w: CredentialWrite, application: string, subject: string)
    requires !w.NoWrite? ==> (w.row.application, w.row.subject) != (application, subject)
    requires w.Insert? ==> w.row.id !in t
    requires w.Update? || w.Drop? ==> w.row.id in t && (t[w.row.id].application, t[w.row.id].subject) != (application, subject)
    ensures Scope(ApplyCredential(t, w), application, subject) == Scope(t, application, subject)
  {
    var after := ApplyCredential(t, w);
    assert forall id :: id in after && (w.NoWrite? || id != w.row.id) ==> id in t && after[id] == t[id];
  }

  /** A pending credential write belongs to the transaction's own subject, and an
      update keeps the row's unique key. */
  lemma WriteIsOwn(db: Db, tx: Tx)
    requires TxOk(db, tx) && UniqueIndex(db.credential) && !tx.writes.credential.NoWrite?
    ensures OwnsSubject(tx)
    ensures var row := tx.writes.credential.row; (row.application, row.subject) == SubjectOf(tx)
    ensures tx.writes.credential.Insert? ==>
              && tx.call.Finish? && tx.call.kind.Registration?
              && tx.writes.credential.row.id == tx.env.credentialId
    ensures Fits(db.credential, tx.writes.credential)
    ensures tx.writes.credential.Update? || tx.writes.credential.Drop? ==>
              var row := tx.writes.credential.row;
              && row.id in db.credential
              && var stored := db.credential[row.id];
                 (stored.application, stored.subject) == SubjectOf(tx)
  {
    if tx.call.Finish? {
      assert Closed(db, tx);
    }
  }
}
