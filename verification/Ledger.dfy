/** History as a ledger: committed events, replayed in commit order, give exactly
    the live credentials of every subject. */
module Ledger {
  import opened Ceremonies
  import opened Store
  import opened Transactions
  import opened Invariant
  import opened Preservation
  import opened Serializability

  predicate Registers(e: Event) {
    e.kind == FinishOf(Registration) && e.result == Succeeded
  }

  predicate Authenticates(e: Event) {
    e.kind == FinishOf(Authentication) && e.result == Succeeded
  }

  function Named(e: Event): set<Uuid> {
    if e.credential.Some? then {e.credential.value} else {}
  }

  /** One event's effect on the live credentials of a subject. */
  function Post(live: set<Uuid>, w: Writes, application: string, subject: string): set<Uuid> {
    if w.event.None? then live
    else
      var e := w.event.value.event;
      if (e.application, e.subject) != (application, subject) then live
      else if Registers(e) then live + Named(e)
      else if e.kind.CredentialDelete? then live - Named(e)
      else live
  }

  /** The live credentials of a subject, read off the committed events alone. */
  function Live(log: seq<Done>, application: string, subject: string): set<Uuid> {
    if log == [] then {}
    else Post(Live(log[..|log| - 1], application, subject), log[|log| - 1].writes, application, subject)
  }

  /** The history table, read off the calls that committed. */
  function Recorded(log: seq<Done>): map<Uuid, Event> {
    if log == [] then map[]
    else
      var rows, w := Recorded(log[..|log| - 1]), log[|log| - 1].writes;
      if w.event.None? then rows else rows[w.event.value.id := w.event.value.event]
  }

  /** What an event says about the credentials live just before it. */
  ghost predicate Truthful(e: Event, before: set<Uuid>) {
    && (Registers(e) ==> e.credential.Some? && e.credential.value !in before)
    && (Authenticates(e) ==> e.credential.Some? && e.credential.value in before)
    && (e.kind.CredentialDelete? ==> e.credential.Some? && e.credential.value in before)
    && (e.kind.FinishOf? && e.result != Succeeded ==> e.credential.None? && e.error.Some?)
  }

  ghost predicate Faithful(log: seq<Done>) {
    forall i :: 0 <= i < |log| && log[i].writes.event.Some? ==>
      var e := log[i].writes.event.value.event;
      Truthful(e, Live(log[..i], e.application, e.subject))
  }

  /** How the event of a commit describes its credential write. */
  ghost predicate Describes(e: Event, w: CredentialWrite) {
    match w
    case NoWrite => !Registers(e) && !Authenticates(e) && !e.kind.CredentialDelete?
    case Insert(row) => Registers(e) && e.credential == Some(row.id) && (row.application, row.subject) == (e.application, e.subject)
    case Update(row) => Authenticates(e) && e.credential == Some(row.id) && (row.application, row.subject) == (e.application, e.subject)
    case Drop(row) => e.kind.CredentialDelete? && e.credential == Some(row.id) && (row.application, row.subject) == (e.application, e.subject)
  }

  /** A verifier refuses with an error that has a public code, or rolls back. */
  lemma CommitDescribes(db: Db, tx: Tx)
    requires TxOk(db, tx) && tx.pc.Commit? && UniqueIndex(db.credential)
    ensures tx.writes.event.Some? && tx.writes.event.value.id == tx.env.eventId
    ensures var e := tx.writes.event.value.event;
            && Describes(e, tx.writes.credential)
            && (e.kind.FinishOf? && e.result != Succeeded ==> e.credential.None? && e.error.Some?)
            && (!tx.call.Start? ==> (e.application, e.subject) == SubjectOf(tx))
            && e.occurredAt == tx.env.occurredAt
  {
    if tx.call.Finish? {
      assert Closed(db, tx);
    }
  }

  lemma PostMatchesWrite(t: map<Uuid, Credential>, w: Writes, application: string, subject: string)
    requires UniqueIndex(t) && Fits(t, w.credential) && w.event.Some? && Describes(w.event.value.event, w.credential)
    requires w.credential.Update? || w.credential.Drop? ==>
               var stored := t[w.credential.row.id];
               (stored.application, stored.subject) == (w.credential.row.application, w.credential.row.subject)
    ensures Scope(ApplyCredential(t, w.credential), application, subject).Keys
            == Post(Scope(t, application, subject).Keys, w, application, subject)
    ensures var e := w.event.value.event;
            e.kind.StartOf? || e.kind.CredentialDelete? || e.result == Succeeded ==>
              Truthful(e, Scope(t, e.application, e.subject).Keys)
  {
    var after := Scope(ApplyCredential(t, w.credential), application, subject);
    var live := Post(Scope(t, application, subject).Keys, w, application, subject);
    forall id ensures id in after.Keys <==> id in live {
    }
  }

  ghost predicate LedgerInv(s: System) {
    && (forall application, subject ::
          Live(s.log, application, subject) == Scope(s.db.credential, application, subject).Keys)
    && Faithful(s.log)
    && s.db.history == Recorded(s.log)
  }

  lemma FaithfulExtends(log: seq<Done>, d: Done)
    requires Faithful(log)
    requires d.writes.event.Some? ==>
               var e := d.writes.event.value.event; Truthful(e, Live(log, e.application, e.subject))
    ensures Faithful(log + [d])
  {
    var longer := log + [d];
    forall i | 0 <= i < |longer| && longer[i].writes.event.Some?
      ensures var e := longer[i].writes.event.value.event;
              Truthful(e, Live(longer[..i], e.application, e.subject))
    {
      assert longer[..i] == log[..i];
      assert log[..|log|] == log;
    }
  }

  /** A credential write the table accepts, told by its event. */
  ghost predicate Told(t: map<Uuid, Credential>, w: Writes) {
    && w.event.Some?
    && Describes(w.event.value.event, w.credential) && Fits(t, w.credential)
    && (w.credential.Update? || w.credential.Drop? ==>
          var stored := t[w.credential.row.id];
          (stored.application, stored.subject) == (w.credential.row.application, w.credential.row.subject))
    && var e := w.event.value.event;
       e.kind.FinishOf? && e.result != Succeeded ==> e.credential.None? && e.error.Some?
  }

  lemma LiveOfAppend(log: seq<Done>, d: Done, application: string, subject: string)
    ensures Live(log + [d], application, subject) == Post(Live(log, application, subject), d.writes, application, subject)
  {
    assert (log + [d])[..|log|] == log;
  }

  lemma CredentialOfApply(db: Db, w: Writes)
    ensures Apply(db, w).credential == ApplyCredential(db.credential, w.credential)
  {
  }

  lemma LiveExtends(log: seq<Done>, db: Db, d: Done, application: string, subject: string)
    requires UniqueIndex(db.credential) && (d.writes == NOTHING || Told(db.credential, d.writes))
    requires Live(log, application, subject) == Scope(db.credential, application, subject).Keys
    ensures Live(log + [d], application, subject) == Scope(Apply(db, d.writes).credential, application, subject).Keys
  {
    LiveOfAppend(log, d, application, subject);
    CredentialOfApply(db, d.writes);
    if d.writes != NOTHING {
      PostMatchesWrite(db.credential, d.writes, application, subject);
    }
  }

  lemma RecordedExtends(log: seq<Done>, db: Db, d: Done)
    requires db.history == Recorded(log)
    ensures Apply(db, d.writes).history == Recorded(log + [d])
  {
    assert (log + [d])[..|log|] == log;
  }

  lemma ToldIsTruthful(t: map<Uuid, Credential>, w: Writes)
    requires UniqueIndex(t) && Told(t, w)
    ensures var e := w.event.value.event; Truthful(e, Scope(t, e.application, e.subject).Keys)
  {
    PostMatchesWrite(t, w, "", "");
  }

  lemma LedgerExtends(s: System, after: System, d: Done)
    requires LedgerInv(s) && UniqueIndex(s.db.credential)
    requires after.log == s.log + [d] && after.db == Apply(s.db, d.writes)
    requires d.writes == NOTHING || Told(s.db.credential, d.writes)
    ensures LedgerInv(after)
  {
    forall application, subject
      ensures Live(after.log, application, subject) == Scope(after.db.credential, application, subject).Keys
    {
      LiveExtends(s.log, s.db, d, application, subject);
    }
    RecordedExtends(s.log, s.db, d);
    if d.writes != NOTHING {
      ToldIsTruthful(s.db.credential, d.writes);
    }
    FaithfulExtends(s.log, d);
  }

  lemma LedgerDo(key: SubjectKey, s: System, l: Label)
    requires Inv(key, s) && Enabled(key, s, l) && LedgerInv(s)
    ensures LedgerInv(Do(s, l))
  {
    if l.Step? && Statement(s.db, l.tid, s.txs[l.tid], l.now, l.newId, l.instant).Return? {
      var tx := s.txs[l.tid];
      assert TxOk(s.db, tx);
      ReturnWrites(s.db, l.tid, tx, l.now, l.newId, l.instant);
      var d := Statement(s.db, l.tid, tx, l.now, l.newId, l.instant).done;
      if d.writes != NOTHING {
        CommitDescribes(s.db, tx);
        if !tx.writes.credential.NoWrite? {
          WriteIsOwn(s.db, tx);
        }
      }
      LedgerExtends(s, Do(s, l), d);
    }
  }

  lemma {:induction false} LedgerAfter(key: SubjectKey, s: System, ls: seq<Label>)
    requires Inv(key, s) && LedgerInv(s) && ValidRun(key, s, ls)
    ensures LedgerInv(After(key, s, ls))
    decreases |ls|
  {
    if ls != [] {
      InvDo(key, s, ls[0]);
      LedgerDo(key, s, ls[0]);
      LedgerAfter(key, Do(s, ls[0]), ls[1..]);
    }
  }

  /** In every reachable state the history table holds exactly the committed
      events; replayed in commit order they give the live credential ids of every
      subject; and each event is true of the moment it commits: a registration
      names a new credential, an authentication and a deletion a live one of the
      same subject, and a finish that did not succeed names none but says why. */
  lemma HistoryIsLedger(key: SubjectKey, ls: seq<Label>)
    requires ValidRun(key, INITIAL, ls)
    ensures var s := After(key, INITIAL, ls);
            && s.db.history == Recorded(s.log)
            && (forall application, subject ::
                  Live(s.log, application, subject) == Scope(s.db.credential, application, subject).Keys)
            && Faithful(s.log)
  {
    LedgerAfter(key, INITIAL, ls);
  }

  // -------------------------------------------------------- event timestamps

  /** A finish or a deletion, which commits under its subject's lock. */
  predicate UnderLock(w: Writes) {
    w.event.Some? && !w.event.value.event.kind.StartOf?
  }

  function Stamped(w: Writes): (string, string, Time)
    requires w.event.Some?
  {
    (w.event.value.event.application, w.event.value.event.subject, w.event.value.event.occurredAt)
  }

  predicate SameSubject(a: Writes, b: Writes)
    requires a.event.Some? && b.event.Some?
  {
    Stamped(a).0 == Stamped(b).0 && Stamped(a).1 == Stamped(b).1
  }

  ghost predicate NotAfter(log: seq<Done>, w: Writes) {
    forall d :: d in log && UnderLock(d.writes) && UnderLock(w) && SameSubject(d.writes, w) ==>
      Stamped(d.writes).2 <= Stamped(w).2
  }

  ghost predicate InCommitOrder(log: seq<Done>) {
    forall i, j :: 0 <= i < j < |log| && UnderLock(log[i].writes) && UnderLock(log[j].writes)
                   && SameSubject(log[i].writes, log[j].writes) ==>
      Stamped(log[i].writes).2 <= Stamped(log[j].writes).2
  }

  ghost predicate ClockInv(s: System) {
    && (forall d :: d in s.log && d.writes.event.Some? ==> Stamped(d.writes).2 <= s.clock)
    && (forall t :: t in s.txs && s.txs[t].writes.event.Some? ==> Stamped(s.txs[t].writes).2 <= s.clock)
    && (forall t :: t in s.txs ==> NotAfter(s.log, s.txs[t].writes))
    && InCommitOrder(s.log)
  }

  lemma EventAdded(db: Db, t: Tid, tx: Tx, now: Time, newId: Uuid, instant: nat)
    requires TxOk(db, tx)
    requires Statement(db, t, tx, now, newId, instant).Continue?
    ensures var next := Statement(db, t, tx, now, newId, instant).tx;
            next.writes.event == tx.writes.event || (next.writes.event.Some? && Stamped(next.writes).2 == now)
  {
  }

  lemma ClockContinue(s: System, l: Label)
    requires l.Step? && l.tid in s.txs && TxOk(s.db, s.txs[l.tid]) && s.clock <= l.now && ClockInv(s)
    requires Statement(s.db, l.tid, s.txs[l.tid], l.now, l.newId, l.instant).Continue?
    ensures ClockInv(Do(s, l))
  {
    EventAdded(s.db, l.tid, s.txs[l.tid], l.now, l.newId, l.instant);
    var next := Next(s, l.tid, l.now, l.newId, l.instant);
    assert NotAfter(s.log, s.txs[l.tid].writes);
    assert NotAfter(s.log, next.writes);
    assert Do(s, l).txs == s.txs[l.tid := next] && Do(s, l).log == s.log;
  }

  /** Two transactions about to commit under a subject lock concern different subjects. */
  lemma CommitsApart(key: SubjectKey, db: Db, t: Tx, u: Tx)
    requires TxOk(db, t) && TxOk(db, u) && UniqueIndex(db.credential) && SubjectsApart(key, t, u)
    requires t.pc.Commit? && u.pc.Commit? && UnderLock(t.writes) && UnderLock(u.writes)
    ensures !SameSubject(t.writes, u.writes)
  {
    CommitDescribes(db, t);
    CommitDescribes(db, u);
    assert !t.call.Start? && !u.call.Start?;
    assert LockKey(key, t) != LockKey(key, u);
  }

  lemma EventMeansCommit(db: Db, tx: Tx)
    requires TxOk(db, tx) && tx.writes.event.Some?
    ensures tx.pc.Commit?
  {
    if tx.call.Finish? && tx.pc in {SetState, LinkCredential, AppendEvent, Commit} {
      assert Closed(db, tx);
    }
  }

  lemma ClockExtends(s: System, after: System, t: Tid, d: Done)
    requires ClockInv(s) && t in s.txs && (d.writes == NOTHING || d.writes == s.txs[t].writes)
    requires after.log == s.log + [d] && after.txs == s.txs - {t} && s.clock <= after.clock
    requires forall u :: u in s.txs && u != t && UnderLock(s.txs[t].writes) && UnderLock(s.txs[u].writes) ==>
               !SameSubject(s.txs[t].writes, s.txs[u].writes)
    ensures ClockInv(after)
  {
    assert NotAfter(s.log, s.txs[t].writes);
    forall u | u in after.txs ensures NotAfter(after.log, after.txs[u].writes) {
      assert NotAfter(s.log, s.txs[u].writes);
    }
  }

  lemma ClockDo(key: SubjectKey, s: System, l: Label)
    requires Inv(key, s) && Enabled(key, s, l) && ClockInv(s)
    ensures ClockInv(Do(s, l))
  {
    if l.Step? {
      var tx := s.txs[l.tid];
      assert TxOk(s.db, tx);
      if Statement(s.db, l.tid, tx, l.now, l.newId, l.instant).Continue? {
        ClockContinue(s, l);
      } else {
        ReturnWrites(s.db, l.tid, tx, l.now, l.newId, l.instant);
        forall u | u in s.txs && u != l.tid && UnderLock(tx.writes) && UnderLock(s.txs[u].writes)
          ensures !SameSubject(tx.writes, s.txs[u].writes)
        {
          assert TxOk(s.db, s.txs[u]) && Apart(key, tx, s.txs[u]);
          EventMeansCommit(s.db, tx);
          EventMeansCommit(s.db, s.txs[u]);
          CommitsApart(key, s.db, tx, s.txs[u]);
        }
        ClockExtends(s, Do(s, l), l.tid, Statement(s.db, l.tid, tx, l.now, l.newId, l.instant).done);
      }
    }
  }

  lemma {:induction false} ClockAfter(key: SubjectKey, s: System, ls: seq<Label>)
    requires Inv(key, s) && ClockInv(s) && ValidRun(key, s, ls)
    ensures ClockInv(After(key, s, ls))
    decreases |ls|
  {
    if ls != [] {
      InvDo(key, s, ls[0]);
      ClockDo(key, s, ls[0]);
      ClockAfter(key, Do(s, ls[0]), ls[1..]);
    }
  }

  /** The finishes and deletions of one subject carry timestamps in commit order,
      on any number of nodes: a history page sorted by time tells their story in
      the order it happened. */
  lemma TimestampsFollowCommits(key: SubjectKey, ls: seq<Label>)
    requires ValidRun(key, INITIAL, ls)
    ensures InCommitOrder(After(key, INITIAL, ls).log)
  {
    ClockAfter(key, INITIAL, ls);
  }
}
