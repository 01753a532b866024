/** Each ceremony is used at most once, and history counts ceremonies exactly. */
module Accounting {
  import opened Ceremonies
  import opened Store
  import opened Transactions
  import opened Invariant
  import opened Preservation
  import opened Serializability

  // ------------------------------------------------------------ single use

  /** A row keeps its identity, and once it is terminal it keeps everything. */
  ghost predicate RowsMove(before: Db, after: Db) {
    forall k, hash :: hash in Table(before, k) ==>
      && hash in Table(after, k)
      && var old_row, new_row := Table(before, k)[hash], Table(after, k)[hash];
         && (old_row.state != Pending ==> new_row == old_row)
         && new_row.(state := old_row.state, credential := old_row.credential) == old_row
         && (new_row.state == Pending ==> new_row == old_row)
  }

  lemma CommitMovesRows(db: Db, tx: Tx)
    requires TxOk(db, tx) && tx.pc.Commit?
    ensures RowsMove(db, Apply(db, tx.writes))
  {
    if tx.call.Finish? {
      assert Closed(db, tx) && RowHeld(db, tx);
    }
  }

  lemma DoMovesRows(key: SubjectKey, s: System, l: Label)
    requires Inv(key, s) && Enabled(key, s, l)
    ensures RowsMove(s.db, Do(s, l).db)
  {
    if l.Step? && Statement(s.db, l.tid, s.txs[l.tid], l.now, l.newId, l.instant).Return? {
      assert TxOk(s.db, s.txs[l.tid]);
      ReturnWrites(s.db, l.tid, s.txs[l.tid], l.now, l.newId, l.instant);
      if s.txs[l.tid].pc.Commit? {
        CommitMovesRows(s.db, s.txs[l.tid]);
      }
    }
  }

  lemma RowsMoveOn(a: Db, b: Db, c: Db)
    requires RowsMove(a, b) && RowsMove(b, c)
    ensures RowsMove(a, c)
  {
  }

  lemma {:induction false} RunMovesRows(key: SubjectKey, s: System, ls: seq<Label>)
    requires Inv(key, s) && ValidRun(key, s, ls)
    ensures RowsMove(s.db, After(key, s, ls).db)
    decreases |ls|
  {
    if ls != [] {
      DoMovesRows(key, s, ls[0]);
      InvDo(key, s, ls[0]);
      RunMovesRows(key, Do(s, ls[0]), ls[1..]);
      RowsMoveOn(s.db, Do(s, ls[0]).db, After(key, s, ls).db);
    }
  }

  /** From any reachable state on, a ceremony leaves pending at most once and
      never returns: a terminal row never changes again in any field. */
  lemma CeremoniesAreSingleUse(key: SubjectKey, ls: seq<Label>, more: seq<Label>)
    requires ValidRun(key, INITIAL, ls) && ValidRun(key, After(key, INITIAL, ls), more)
    ensures RowsMove(After(key, INITIAL, ls).db, After(key, After(key, INITIAL, ls), more).db)
  {
    InvAfter(key, INITIAL, ls);
    RunMovesRows(key, After(key, INITIAL, ls), more);
  }

  predicate Consumed(d: Done, k: Kind, hash: Bytes) {
    d.call.Finish? && d.call.kind == k && d.call.hash == hash && d.writes != NOTHING
  }

  ghost predicate ConsumersOk(s: System) {
    && (forall d, k, hash :: d in s.log && Consumed(d, k, hash) ==>
          hash in Table(s.db, k) && Table(s.db, k)[hash].state != Pending)
    && (forall i, j, k, hash :: 0 <= i < j < |s.log| && Consumed(s.log[i], k, hash) ==> !Consumed(s.log[j], k, hash))
    && (forall d :: d in s.log ==> Issued(d.call))
  }

  lemma FinishCommits(db: Db, tx: Tx)
    requires TxOk(db, tx) && tx.pc.Commit? && tx.call.Finish?
    ensures var k, hash, after := tx.call.kind, tx.call.hash, Apply(db, tx.writes);
            && hash in Table(db, k) && Table(db, k)[hash].state == Pending
            && hash in Table(after, k) && Table(after, k)[hash].state != Pending
  {
    assert Closed(db, tx) && RowHeld(db, tx);
  }

  lemma ConsumersExtend(s: System, after: System, d: Done)
    requires ConsumersOk(s) && after.log == s.log + [d] && RowsMove(s.db, after.db) && Issued(d.call)
    requires forall k, hash :: Consumed(d, k, hash) ==>
               && hash in Table(s.db, k) && Table(s.db, k)[hash].state == Pending
               && hash in Table(after.db, k) && Table(after.db, k)[hash].state != Pending
    ensures ConsumersOk(after)
  {
    forall i, j, k, hash | 0 <= i < j < |after.log| && Consumed(after.log[i], k, hash)
      ensures !Consumed(after.log[j], k, hash)
    {
      assert after.log[i] == s.log[i];
    }
  }

  lemma ConsumersDo(key: SubjectKey, s: System, l: Label)
    requires Inv(key, s) && Enabled(key, s, l) && ConsumersOk(s)
    ensures ConsumersOk(Do(s, l))
  {
    DoMovesRows(key, s, l);
    if l.Step? && Statement(s.db, l.tid, s.txs[l.tid], l.now, l.newId, l.instant).Return? {
      var tx := s.txs[l.tid];
      assert TxOk(s.db, tx);
      ReturnWrites(s.db, l.tid, tx, l.now, l.newId, l.instant);
      ReturnFields(s.db, l.tid, tx, l.now, l.newId, l.instant);
      if tx.call.Finish? && tx.pc.Commit? {
        FinishCommits(s.db, tx);
      }
      ConsumersExtend(s, Do(s, l), Statement(s.db, l.tid, tx, l.now, l.newId, l.instant).done);
    }
  }

  lemma {:induction false} ConsumersAfter(key: SubjectKey, s: System, ls: seq<Label>)
    requires Inv(key, s) && ConsumersOk(s) && ValidRun(key, s, ls)
    ensures ConsumersOk(After(key, s, ls))
    decreases |ls|
  {
    if ls != [] {
      InvDo(key, s, ls[0]);
      ConsumersDo(key, s, ls[0]);
      ConsumersAfter(key, Do(s, ls[0]), ls[1..]);
    }
  }

  /** Of all the finishes of one ceremony, on all nodes, at most one commits. */
  lemma AtMostOneFinishCommits(key: SubjectKey, ls: seq<Label>)
    requires ValidRun(key, INITIAL, ls)
    ensures var log := After(key, INITIAL, ls).log;
            forall i, j, k, hash :: 0 <= i < |log| && 0 <= j < |log| && Consumed(log[i], k, hash) && Consumed(log[j], k, hash) ==> i == j
  {
    ConsumersAfter(key, INITIAL, ls);
  }

  // -------------------------------------------------------------- accounting

  ghost function Matching<K, V>(m: map<K, V>, p: V -> bool): set<K> {
    set id | id in m && p(m[id])
  }

  ghost function Count<K, V>(m: map<K, V>, p: V -> bool): nat {
    |Matching(m, p)|
  }

  function Unit(b: bool): nat {
    if b then 1 else 0
  }

  lemma MatchingUpdate<K, V>(m: map<K, V>, id: K, v: V, p: V -> bool)
    ensures Matching(m[id := v], p) - {id} == Matching(m, p) - {id}
    ensures id in Matching(m[id := v], p) <==> p(v)
    ensures id in Matching(m, p) <==> id in m && p(m[id])
  {
    var after := m[id := v];
    forall other ensures other in Matching(after, p) - {id} <==> other in Matching(m, p) - {id} {
      if other != id {
        assert other in after <==> other in m;
      }
    }
  }

  lemma SizeWithout<K>(s: set<K>, id: K)
    ensures |s| == |s - {id}| + Unit(id in s)
  {
    assert s == (s - {id}) + (if id in s then {id} else {});
  }

  lemma CountUpdate<K, V>(m: map<K, V>, id: K, v: V, p: V -> bool)
    ensures Count(m[id := v], p) == Count(m, p) - (if id in m then Unit(p(m[id])) else 0) + Unit(p(v))
  {
    MatchingUpdate(m, id, v, p);
    SizeWithout(Matching(m, p), id);
    SizeWithout(Matching(m[id := v], p), id);
  }

  function OfSubject(application: string, subject: string): Ceremony -> bool {
    (c: Ceremony) => c.application == application && c.subject == subject
  }

  function InState(application: string, subject: string, state: State): Ceremony -> bool {
    (c: Ceremony) => c.application == application && c.subject == subject && c.state == state
  }

  function StartsOf(k: Kind, application: string, subject: string): Event -> bool {
    (e: Event) => e.application == application && e.subject == subject && e.kind == StartOf(k)
  }

  function FinishesOf(k: Kind, application: string, subject: string, state: State): Event -> bool {
    (e: Event) => e.application == application && e.subject == subject && e.kind == FinishOf(k) && e.result == state
  }

  ghost predicate Balanced(db: Db, k: Kind, application: string, subject: string, state: State) {
    && Count(Table(db, k), OfSubject(application, subject)) == Count(db.history, StartsOf(k, application, subject))
    && (state != Pending ==>
          Count(Table(db, k), InState(application, subject, state)) == Count(db.history, FinishesOf(k, application, subject, state)))
  }

  /** How a call's ceremony row and event move together. */
  ghost predicate Paired(db: Db, w: Writes) {
    && w.event.Some? && w.event.value.id !in db.history
    && var e := w.event.value.event;
       match e.kind
       case StartOf(k) =>
         && w.ceremony.Some? && w.ceremony.value.kind == k && w.ceremony.value.hash !in Table(db, k)
         && var c := w.ceremony.value.row;
            c.state == Pending && c.application == e.application && c.subject == e.subject
       case FinishOf(k) =>
         && w.ceremony.Some? && w.ceremony.value.kind == k && w.ceremony.value.hash in Table(db, k)
         && e.result != Pending
         && var before, c := Table(db, k)[w.ceremony.value.hash], w.ceremony.value.row;
            && before.state == Pending && c.state == e.result
            && c.application == before.application == e.application && c.subject == before.subject == e.subject
       case CredentialDelete => w.ceremony.None?
  }

  lemma PlanIsPaired(db: Db, call: Call, env: Env)
    requires Issued(call) && Plan(db, call, env).writes != NOTHING
    ensures Paired(db, Plan(db, call, env).writes)
  {
  }

  lemma TablesOfApply(db: Db, w: Writes, k: Kind)
    ensures Table(Apply(db, w), k) ==
            (if w.ceremony.Some? && w.ceremony.value.kind == k then Table(db, k)[w.ceremony.value.hash := w.ceremony.value.row] else Table(db, k))
    ensures Apply(db, w).history ==
            (if w.event.Some? then db.history[w.event.value.id := w.event.value.event] else db.history)
  {
  }

  lemma PairedKeepsBalance(db: Db, w: Writes, k: Kind, application: string, subject: string, state: State)
    requires Paired(db, w) && Balanced(db, k, application, subject, state)
    ensures Balanced(Apply(db, w), k, application, subject, state)
  {
    TablesOfApply(db, w, k);
    var e := w.event.value;
    CountUpdate(db.history, e.id, e.event, StartsOf(k, application, subject));
    CountUpdate(db.history, e.id, e.event, FinishesOf(k, application, subject, state));
    if w.ceremony.Some? && w.ceremony.value.kind == k {
      var c := w.ceremony.value;
      CountUpdate(Table(db, k), c.hash, c.row, OfSubject(application, subject));
      CountUpdate(Table(db, k), c.hash, c.row, InState(application, subject, state));
    }
  }

  lemma RunKeepsBalance(db: Db, d: Done, k: Kind, application: string, subject: string, state: State)
    requires Issued(d.call) && Balanced(db, k, application, subject, state)
    ensures Balanced(Run(db, d.call, d.env), k, application, subject, state)
  {
    if Plan(db, d.call, d.env).writes != NOTHING {
      PlanIsPaired(db, d.call, d.env);
      PairedKeepsBalance(db, Plan(db, d.call, d.env).writes, k, application, subject, state);
    }
  }

  lemma {:induction false} ReplayBalanced(order: seq<Done>, k: Kind, application: string, subject: string, state: State)
    requires forall d :: d in order ==> Issued(d.call)
    ensures Balanced(Replay(order), k, application, subject, state)
  {
    if order != [] {
      var n := |order|;
      ReplayBalanced(order[..n - 1], k, application, subject, state);
      RunKeepsBalance(Replay(order[..n - 1]), order[n - 1], k, application, subject, state);
    }
  }

  /** In every reachable state, per kind, application and subject, the start
      events equal the ceremony rows, and the finish events with each result equal
      the rows in that state. It holds of every serial run, and every run is
      serial. */
  lemma HistoryCountsCeremonies(key: SubjectKey, ls: seq<Label>, k: Kind, application: string, subject: string, state: State)
    requires ValidRun(key, INITIAL, ls)
    ensures Balanced(After(key, INITIAL, ls).db, k, application, subject, state)
  {
    Reachable(key, ls);
    ConsumersAfter(key, INITIAL, ls);
    var s := After(key, INITIAL, ls);
    OrderMembers(s.log);
    ReplayBalanced(SerialOrder(s.log), k, application, subject, state);
  }
}
