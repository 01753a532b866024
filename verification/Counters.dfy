/** Signature counters across nodes: what a sound verifier accepts is what the
    tables store, and no concurrent transaction comes between. */
module Counters {
  import opened Ceremonies
  import opened Store
  import opened WebAuthn
  import opened Transactions
  import opened Invariant
  import opened Preservation

  /** The verifier of a finish accepts only sound credentials for the ceremonies
      its authorization lets through. */
  ghost predicate SoundCall(call: Call) {
    call.Finish? ==>
      forall c, rows, id :: call.authorize(c) == None && RowsOk(rows) && call.verify(c, rows, id).Accepted? ==>
        Sound(call.kind, c, rows, id, call.verify(c, rows, id).credential)
  }

  ghost predicate SoundRun(ls: seq<Label>) {
    forall l: Label :: l in ls && l.Begin? ==> SoundCall(l.call)
  }

  /** Every stored row agrees with the library record it holds. */
  ghost predicate RowsConsistent(t: map<Uuid, Credential>) {
    forall id :: id in t ==> Consistent(t[id])
  }

  lemma SubjectRowsOk(t: map<Uuid, Credential>, application: string, subject: string)
    requires UniqueIndex(t) && RowsConsistent(t)
    ensures RowsOk(SubjectCredentials(t, application, subject))
    ensures forall i :: 0 <= i < |SubjectCredentials(t, application, subject)| ==>
              var row := SubjectCredentials(t, application, subject)[i];
              row.id in Scope(t, application, subject) && Scope(t, application, subject)[row.id] == row
  {
    var mine := Scope(t, application, subject);
    var rows := SubjectCredentials(t, application, subject);
    forall i | 0 <= i < |rows| ensures rows[i].id in mine && mine[rows[i].id] == rows[i] {
      SortedRowsBelong(mine, i);
    }
    forall i, j | 0 <= i < j < |rows| ensures rows[i].id < rows[j].id {
      SortedRowsAscend(mine, i, j);
    }
  }

  /** A verified credential, as the transaction will write it. */
  lemma DecidedIsSound(db: Db, tx: Tx)
    requires tx.call.Finish? && RowHeld(db, tx) && SoundCall(tx.call)
    requires UniqueIndex(db.credential) && RowsConsistent(db.credential)
    requires Decide(tx.call.kind, tx.c, tx.call.verify, SubjectCredentials(db.credential, tx.c.application, tx.c.subject), tx.env).Write?
    ensures var d := Decide(tx.call.kind, tx.c, tx.call.verify, SubjectCredentials(db.credential, tx.c.application, tx.c.subject), tx.env);
            && Consistent(d.credential)
            && (tx.call.kind.Authentication? ==>
                  var mine := Scope(db.credential, tx.c.application, tx.c.subject);
                  && d.credential.id in mine && mine[d.credential.id].rpId == tx.c.rpId
                  && SameKey(mine[d.credential.id], d.credential)
                  && Advances(mine[d.credential.id].signCount, d.credential.signCount))
  {
    SubjectRowsOk(db.credential, tx.c.application, tx.c.subject);
  }

  // ----------------------------------------------------------- the invariant

  /** The sign counts reported by the calls that registered or authenticated one
      credential, in commit order. */
  function Counts(log: seq<Done>, id: Uuid): seq<nat> {
    if log == [] then []
    else
      var counts, last := Counts(log[..|log| - 1], id), log[|log| - 1];
      if last.result.Finished? && last.result.credential.id == id then counts + [last.result.credential.signCount]
      else counts
  }

  predicate RisesFrom(counts: seq<nat>, z: nat) {
    && z <= |counts|
    && (forall i :: 0 <= i < z ==> counts[i] == 0)
    && (forall i :: z <= i < |counts| ==> 0 < counts[i])
    && (forall i, j :: z <= i < j < |counts| ==> counts[i] < counts[j])
  }

  /** A run of zeros, then strictly increasing positive counts. */
  ghost predicate ZerosThenRising(counts: seq<nat>) {
    exists z: nat :: RisesFrom(counts, z)
  }

  lemma RisingExtends(counts: seq<nat>, count: nat)
    requires ZerosThenRising(counts)
    requires counts != [] ==> Advances(counts[|counts| - 1], count)
    ensures ZerosThenRising(counts + [count])
  {
    var z: nat :| RisesFrom(counts, z);
    assert RisesFrom(counts + [count], if count == 0 then z + 1 else z);
  }

  ghost predicate CountsOk(t: map<Uuid, Credential>, log: seq<Done>, id: Uuid) {
    && ZerosThenRising(Counts(log, id))
    && (id in t ==> var n := |Counts(log, id)|; n > 0 && Counts(log, id)[n - 1] == t[id].signCount)
  }

  ghost predicate CounterInv(s: System) {
    && RowsConsistent(s.db.credential)
    && (forall t :: t in s.txs ==> SoundCall(s.txs[t].call))
    && (forall id :: CountsOk(s.db.credential, s.log, id))
    && (forall id :: id !in s.used ==> Counts(s.log, id) == [])
    && (forall t, id :: t in s.txs && id in Reserved(s.txs[t]) ==> Counts(s.log, id) == [])
  }

  /** What a commit reports and stores of a credential. */
  ghost predicate Stores(t: map<Uuid, Credential>, w: CredentialWrite, result: Result, reserved: set<Uuid>) {
    match w
    case NoWrite => !result.Finished?
    case Drop(row) => !result.Finished?
    case Insert(row) =>
      && result.Finished? && result.credential.id == row.id && result.credential.signCount == row.signCount
      && Consistent(row) && row.id in reserved
    case Update(row) =>
      && result.Finished? && result.credential.id == row.id && result.credential.signCount == row.signCount
      && Consistent(row) && row.id in t && Advances(t[row.id].signCount, row.signCount)
  }

  lemma FinishStores(db: Db, tx: Tx)
    requires tx.call.Finish? && FinishOk(db, tx) && tx.pc.Commit? && SoundCall(tx.call)
    requires UniqueIndex(db.credential) && RowsConsistent(db.credential)
    ensures Stores(db.credential, tx.writes.credential, ResultOf(tx), Reserved(tx))
  {
    assert Closed(db, tx) && RowHeld(db, tx);
    if !tx.writes.credential.NoWrite? {
      DecidedIsSound(db, tx);
      if tx.writes.credential.Insert? {
        WriteIsOwn(db, tx);
      }
    }
  }

  lemma CommitStores(db: Db, tx: Tx)
    requires TxOk(db, tx) && tx.pc.Commit? && SoundCall(tx.call)
    requires UniqueIndex(db.credential) && RowsConsistent(db.credential)
    requires !tx.call.Start?
    ensures Stores(db.credential, tx.writes.credential, ResultOf(tx), Reserved(tx))
  {
    if tx.call.Finish? {
      FinishStores(db, tx);
    }
  }

  lemma CommitStoresFitting(db: Db, tx: Tx)
    requires TxOk(db, tx) && tx.pc.Commit? && SoundCall(tx.call)
    requires UniqueIndex(db.credential) && RowsConsistent(db.credential)
    requires !tx.call.Start?
    ensures Stores(db.credential, tx.writes.credential, ResultOf(tx), Reserved(tx))
    ensures Fits(db.credential, tx.writes.credential)
  {
    CommitStores(db, tx);
    if !tx.writes.credential.NoWrite? {
      WriteIsOwn(db, tx);
    }
  }

  lemma CountsOfAppend(log: seq<Done>, d: Done, id: Uuid)
    ensures Counts(log + [d], id) ==
            Counts(log, id) + (if d.result.Finished? && d.result.credential.id == id then [d.result.credential.signCount] else [])
  {
    assert (log + [d])[..|log|] == log;
  }

  lemma CountsExtend(t: map<Uuid, Credential>, log: seq<Done>, d: Done, id: Uuid, reserved: set<Uuid>)
    requires CountsOk(t, log, id) && Stores(t, d.writes.credential, d.result, reserved)
    requires id in reserved ==> Counts(log, id) == []
    requires d.writes.credential.Insert? ==> d.writes.credential.row.id !in t
    ensures CountsOk(ApplyCredential(t, d.writes.credential), log + [d], id)
  {
    CountsOfAppend(log, d, id);
    if d.result.Finished? && d.result.credential.id == id {
      RisingExtends(Counts(log, id), d.result.credential.signCount);
    }
  }

  lemma CounterCommit(s: System, after: System, t: Tid, d: Done)
    requires CounterInv(s) && t in s.txs && IdsKnown(s)
    requires Stores(s.db.credential, d.writes.credential, d.result, Reserved(s.txs[t]))
    requires Fits(s.db.credential, d.writes.credential)
    requires after.log == s.log + [d] && after.db.credential == ApplyCredential(s.db.credential, d.writes.credential)
    requires after.txs == s.txs - {t} && s.used <= after.used
    requires forall u :: u in s.txs && u != t ==> Reserved(s.txs[t]) !! Reserved(s.txs[u])
    ensures CounterInv(after)
  {
    forall id ensures CountsOk(after.db.credential, after.log, id) {
      assert CountsOk(s.db.credential, s.log, id);
      CountsExtend(s.db.credential, s.log, d, id, Reserved(s.txs[t]));
    }
    forall id ensures Counts(after.log, id) == Counts(s.log, id) || id in Reserved(s.txs[t]) || id in s.db.credential {
      CountsOfAppend(s.log, d, id);
    }
  }

  lemma CounterQuiet(s: System, after: System, t: Tid, d: Done)
    requires CounterInv(s) && t in s.txs && !d.result.Finished?
    requires after.log == s.log + [d] && after.db.credential == s.db.credential
    requires after.txs == s.txs - {t} && s.used <= after.used
    ensures CounterInv(after)
  {
    forall id ensures Counts(after.log, id) == Counts(s.log, id) {
      CountsOfAppend(s.log, d, id);
    }
    forall id ensures CountsOk(after.db.credential, after.log, id) {
      assert CountsOk(s.db.credential, s.log, id);
    }
  }

  lemma ReturnResult(db: Db, t: Tid, tx: Tx, now: Time, newId: Uuid, instant: nat)
    requires TxOk(db, tx)
    requires Statement(db, t, tx, now, newId, instant).Return?
    ensures var d := Statement(db, t, tx, now, newId, instant).done;
            (d.writes == NOTHING && !d.result.Finished?) || (tx.pc.Commit? && d.writes == tx.writes && d.result == ResultOf(tx))
  {
  }

  lemma CounterContinue(s: System, l: Label)
    requires l.Step? && l.tid in s.txs && TxOk(s.db, s.txs[l.tid]) && l.newId !in s.used && CounterInv(s)
    requires Statement(s.db, l.tid, s.txs[l.tid], l.now, l.newId, l.instant).Continue?
    ensures CounterInv(Do(s, l))
  {
    ContinueFields(s.db, l.tid, s.txs[l.tid], l.now, l.newId, l.instant);
    ReservedGrows(s, l.tid, l.now, l.newId, l.instant);
    assert Do(s, l).txs == s.txs[l.tid := Next(s, l.tid, l.now, l.newId, l.instant)];
  }

  lemma DoReturns(s: System, l: Label)
    requires l.Step? && l.tid in s.txs
    requires Statement(s.db, l.tid, s.txs[l.tid], l.now, l.newId, l.instant).Return?
    ensures var d, after := Statement(s.db, l.tid, s.txs[l.tid], l.now, l.newId, l.instant).done, Do(s, l);
            && after.log == s.log + [d] && after.db.credential == ApplyCredential(s.db.credential, d.writes.credential)
            && after.txs == s.txs - {l.tid} && s.used <= after.used
  {
  }

  lemma CounterReturn(key: SubjectKey, s: System, l: Label)
    requires Inv(key, s) && l.Step? && l.tid in s.txs && CounterInv(s)
    requires Statement(s.db, l.tid, s.txs[l.tid], l.now, l.newId, l.instant).Return?
    ensures CounterInv(Do(s, l))
  {
    var tx := s.txs[l.tid];
    assert TxOk(s.db, tx) && SoundCall(tx.call);
    ReturnResult(s.db, l.tid, tx, l.now, l.newId, l.instant);
    OthersReserve(key, s, l.tid);
    CounterReturnOf(s, l);
  }

  lemma CounterReturnOf(s: System, l: Label)
    requires l.Step? && l.tid in s.txs && CounterInv(s) && IdsKnown(s) && UniqueIndex(s.db.credential)
    requires var tx := s.txs[l.tid];
             var turn := Statement(s.db, l.tid, tx, l.now, l.newId, l.instant);
             && TxOk(s.db, tx) && SoundCall(tx.call) && turn.Return?
             && ((turn.done.writes == NOTHING && !turn.done.result.Finished?)
                 || (tx.pc.Commit? && turn.done.writes == tx.writes && turn.done.result == ResultOf(tx)))
    requires forall u :: u in s.txs && u != l.tid ==> Reserved(s.txs[l.tid]) !! Reserved(s.txs[u])
    ensures CounterInv(Do(s, l))
  {
    var tx := s.txs[l.tid];
    var d := Statement(s.db, l.tid, tx, l.now, l.newId, l.instant).done;
    DoReturns(s, l);
    if (d.writes == NOTHING && !d.result.Finished?) || tx.call.Start? {
      CounterQuiet(s, Do(s, l), l.tid, d);
    } else {
      CommitStoresFitting(s.db, tx);
      CounterCommit(s, Do(s, l), l.tid, d);
    }
  }

  lemma OthersReserve(key: SubjectKey, s: System, t: Tid)
    requires Inv(key, s) && t in s.txs
    ensures forall u :: u in s.txs && u != t ==> Reserved(s.txs[t]) !! Reserved(s.txs[u])
  {
    forall u | u in s.txs && u != t ensures Reserved(s.txs[t]) !! Reserved(s.txs[u]) {
      assert Apart(key, s.txs[t], s.txs[u]);
    }
  }

  lemma CounterDo(key: SubjectKey, s: System, l: Label)
    requires Inv(key, s) && Enabled(key, s, l) && CounterInv(s) && (l.Begin? ==> SoundCall(l.call))
    ensures CounterInv(Do(s, l))
  {
    match l
    case Begin(_, _, _) =>
    case Rollback(_) =>
    case Step(t, now, newId, instant) =>
      if Statement(s.db, t, s.txs[t], now, newId, instant).Continue? {
        assert TxOk(s.db, s.txs[t]);
        CounterContinue(s, l);
      } else {
        CounterReturn(key, s, l);
      }
  }

  lemma {:induction false} CounterAfter(key: SubjectKey, s: System, ls: seq<Label>)
    requires Inv(key, s) && CounterInv(s) && ValidRun(key, s, ls) && SoundRun(ls)
    ensures CounterInv(After(key, s, ls))
    decreases |ls|
  {
    if ls != [] {
      assert ls[0] in ls;
      InvDo(key, s, ls[0]);
      CounterDo(key, s, ls[0]);
      assert forall l :: l in ls[1..] ==> l in ls;
      CounterAfter(key, Do(s, ls[0]), ls[1..]);
    }
  }

  lemma CounterInitially()
    ensures CounterInv(INITIAL)
  {
    forall id ensures CountsOk(INITIAL.db.credential, INITIAL.log, id) {
      assert RisesFrom(Counts(INITIAL.log, id), 0);
    }
  }

  /** For every credential, the sign counts from its registration through all
      committed authentications, on all nodes, are a run of zeros followed by
      strictly increasing values; the last of them is in the live row; and the
      row agrees in every shared column with its stored library record. */
  lemma CountersAreSafe(key: SubjectKey, ls: seq<Label>, id: Uuid)
    requires ValidRun(key, INITIAL, ls) && SoundRun(ls)
    ensures var s := After(key, INITIAL, ls);
            && ZerosThenRising(Counts(s.log, id))
            && (id in s.db.credential ==>
                  && Consistent(s.db.credential[id])
                  && Counts(s.log, id) != []
                  && Counts(s.log, id)[|Counts(s.log, id)| - 1] == s.db.credential[id].signCount)
  {
    CounterInitially();
    CounterAfter(key, INITIAL, ls);
    assert CountsOk(After(key, INITIAL, ls).db.credential, After(key, INITIAL, ls).log, id);
  }

  /** The verified row is in the table, and nobody else is writing it. */
  lemma UpdateUnhindered(key: SubjectKey, s: System, t: Tid, u: Tid)
    requires t in s.txs && u in s.txs && t != u && s.txs[t].call.Finish? && FinishOk(s.db, s.txs[t])
    requires s.txs[t].pc.WriteCredential? && s.txs[t].call.kind.Authentication?
    requires TxOk(s.db, s.txs[u]) && UniqueIndex(s.db.credential) && SubjectsApart(key, s.txs[t], s.txs[u])
    ensures !WaitsFor(key, s, t, u)
  {
    if !s.txs[u].writes.credential.NoWrite? {
      WriteIsOwn(s.db, s.txs[u]);
    }
  }

  /** No update is lost: whenever an authentication is about to write the
      credential it verified, that row is still there, in the same state its
      verifier saw, nobody holds it, and the statement changes exactly that row. */
  lemma NoLostUpdate(key: SubjectKey, ls: seq<Label>, t: Tid)
    requires ValidRun(key, INITIAL, ls) && SoundRun(ls)
    requires var s := After(key, INITIAL, ls);
             t in s.txs && s.txs[t].call.Finish? && s.txs[t].call.kind.Authentication? && s.txs[t].pc.WriteCredential?
    ensures var s := After(key, INITIAL, ls);
            var tx := s.txs[t];
            var mine := Scope(s.db.credential, tx.c.application, tx.c.subject);
            && tx.credential.id in mine && mine[tx.credential.id].rpId == tx.c.rpId
            && Advances(mine[tx.credential.id].signCount, tx.credential.signCount)
            && !Blocked(key, s, t)
            && WriteOutcome(s.db.credential, Authentication, tx.c, tx.credential, tx.env.now)
               != Settled(Some(Plain(Authentication.Invalid())), tx.credential, NoWrite)
  {
    InvAfter(key, INITIAL, ls);
    CounterInitially();
    CounterAfter(key, INITIAL, ls);
    var s := After(key, INITIAL, ls);
    assert TxOk(s.db, s.txs[t]) && RowHeld(s.db, s.txs[t]);
    DecidedIsSound(s.db, s.txs[t]);
    forall u | u in s.txs && u != t ensures !WaitsFor(key, s, t, u) {
      assert TxOk(s.db, s.txs[u]) && Apart(key, s.txs[t], s.txs[u]);
      UpdateUnhindered(key, s, t, u);
    }
  }
}
