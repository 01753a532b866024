/** No deadlock: waits follow the order ceremony row, subject lock, credential
    row, for any lock key function, so somebody can always go on. */
module Progress {
  import opened Ceremonies
  import opened Store
  import opened Transactions
  import opened Invariant
  import opened Preservation

  /** Which lock a transaction may be waiting for; 3 is none. */
  function Rank(tx: Tx): nat {
    match tx.pc
    case InsertCeremony => 0
    case LockCeremony => 0
    case LockSubject => 1
    case WriteCredential => 2
    case DeleteRow => 2
    case _ => 3
  }

  /** Whoever is waited for has come further. */
  lemma WaitsClimb(key: SubjectKey, s: System, t: Tid, u: Tid)
    requires Inv(key, s) && WaitsFor(key, s, t, u)
    ensures Rank(s.txs[t]) < Rank(s.txs[u])
  {
    assert TxOk(s.db, s.txs[t]) && TxOk(s.db, s.txs[u]);
  }

  ghost predicate WaitChain(key: SubjectKey, s: System, chain: seq<Tid>) {
    forall i :: 0 <= i < |chain| - 1 ==> WaitsFor(key, s, chain[i], chain[i + 1])
  }

  lemma {:induction false} ChainClimbs(key: SubjectKey, s: System, chain: seq<Tid>)
    requires Inv(key, s) && |chain| > 1 && WaitChain(key, s, chain)
    ensures chain[0] in s.txs && chain[|chain| - 1] in s.txs
    ensures Rank(s.txs[chain[0]]) < Rank(s.txs[chain[|chain| - 1]])
  {
    var rest := chain[1..];
    assert WaitsFor(key, s, chain[0], chain[1]);
    WaitsClimb(key, s, chain[0], chain[1]);
    if |rest| > 1 {
      forall i | 0 <= i < |rest| - 1 ensures WaitsFor(key, s, rest[i], rest[i + 1]) {
        var j := i + 1;
        assert WaitsFor(key, s, chain[j], chain[j + 1]);
      }
      ChainClimbs(key, s, rest);
    }
  }

  /** The wait-for relation of every reachable state has no cycle. */
  lemma NoWaitCycle(key: SubjectKey, ls: seq<Label>, chain: seq<Tid>)
    requires ValidRun(key, INITIAL, ls)
    requires |chain| > 1 && WaitChain(key, After(key, INITIAL, ls), chain)
    ensures chain[0] != chain[|chain| - 1]
  {
    InvAfter(key, INITIAL, ls);
    ChainClimbs(key, After(key, INITIAL, ls), chain);
  }

  lemma {:induction false} UnblockedAbove(key: SubjectKey, s: System, t: Tid) returns (u: Tid)
    requires Inv(key, s) && t in s.txs
    ensures u in s.txs && !Blocked(key, s, u)
    decreases 3 - Rank(s.txs[t])
  {
    if Blocked(key, s, t) {
      var next :| WaitsFor(key, s, t, next);
      WaitsClimb(key, s, t, next);
      u := UnblockedAbove(key, s, next);
    } else {
      u := t;
    }
  }

  lemma {:induction false} UnusedId(used: set<Uuid>) returns (id: Uuid)
    ensures forall other :: other in used ==> other < id
    decreases |used|
  {
    if used == {} {
      id := 0;
    } else {
      var some :| some in used;
      var rest := UnusedId(used - {some});
      id := if rest <= some then some + 1 else rest;
      assert forall other :: other in used ==> other == some || other in used - {some};
    }
  }

  // -------------------------------------------------------------- draining

  /** The statements a transaction may still execute. */
  function Remaining(tx: Tx): nat {
    match tx.pc
    case Commit => 1
    case AppendEvent => 2
    case LinkCredential => 3
    case InsertCeremony => 3
    case DeleteRow => 3
    case SetState => 4
    case WriteCredential => 5
    case ReadCredentials => 6
    case ReadClock => 7
    case LockSubject => 8
    case LockCeremony => 9
  }

  ghost function Work(txs: map<Tid, Tx>): nat
    decreases |txs|
  {
    if txs == map[] then 0
    else
      var t :| t in txs;
      Remaining(txs[t]) + Work(txs - {t})
  }

  lemma {:induction false} WorkSplit(txs: map<Tid, Tx>, t: Tid)
    requires t in txs
    ensures Work(txs) == Remaining(txs[t]) + Work(txs - {t})
    decreases |txs|
  {
    var u :| u in txs && Work(txs) == Remaining(txs[u]) + Work(txs - {u});
    if u != t {
      assert (txs - {u}) - {t} == (txs - {t}) - {u};
      WorkSplit(txs - {u}, t);
      WorkSplit(txs - {t}, u);
    }
  }

  lemma StatementShortens(db: Db, t: Tid, tx: Tx, now: Time, newId: Uuid, instant: nat)
    requires TxOk(db, tx)
    requires Statement(db, t, tx, now, newId, instant).Continue?
    ensures Remaining(Statement(db, t, tx, now, newId, instant).tx) < Remaining(tx)
  {
  }

  lemma StepShortens(s: System, l: Label)
    requires l.Step? && l.tid in s.txs && TxOk(s.db, s.txs[l.tid])
    ensures Work(Do(s, l).txs) < Work(s.txs)
  {
    WorkSplit(s.txs, l.tid);
    if Statement(s.db, l.tid, s.txs[l.tid], l.now, l.newId, l.instant).Continue? {
      var next := Next(s, l.tid, l.now, l.newId, l.instant);
      StatementShortens(s.db, l.tid, s.txs[l.tid], l.now, l.newId, l.instant);
      WorkSplit(s.txs[l.tid := next], l.tid);
      assert s.txs[l.tid := next] - {l.tid} == s.txs - {l.tid};
    }
  }

  lemma SomeoneSteps(key: SubjectKey, s: System) returns (l: Label)
    requires Inv(key, s) && s.txs != map[]
    ensures l.Step? && Enabled(key, s, l)
  {
    var t :| t in s.txs;
    var u := UnblockedAbove(key, s, t);
    var id := UnusedId(s.used);
    l := Step(u, s.clock, id, s.instant + 1);
  }

  lemma {:induction false} Drains(key: SubjectKey, s: System) returns (ls: seq<Label>)
    requires Inv(key, s)
    ensures ValidRun(key, s, ls) && After(key, s, ls).txs == map[]
    ensures forall l :: l in ls ==> l.Step?
    decreases Work(s.txs)
  {
    if s.txs == map[] {
      ls := [];
    } else {
      var l := SomeoneSteps(key, s);
      assert TxOk(s.db, s.txs[l.tid]);
      StepShortens(s, l);
      InvDo(key, s, l);
      var rest := Drains(key, Do(s, l));
      ls := [l] + rest;
      assert ls[1..] == rest;
    }
  }

  /** From every reachable state, every transaction in flight can run on to its
      answer with no rollback and no new call: no lock is ever waited for in vain,
      whatever subjects share a lock key. */
  lemma DeadlockFree(key: SubjectKey, ls: seq<Label>)
    requires ValidRun(key, INITIAL, ls)
    ensures var s := After(key, INITIAL, ls);
            && (s.txs != map[] ==> exists l: Label :: l.Step? && Enabled(key, s, l))
            && (exists rest: seq<Label> :: ValidRun(key, s, rest) && After(key, s, rest).txs == map[] && forall l: Label :: l in rest ==> l.Step?)
  {
    InvAfter(key, INITIAL, ls);
    var s := After(key, INITIAL, ls);
    if s.txs != map[] {
      var l := SomeoneSteps(key, s);
    }
    var rest := Drains(key, s);
  }
}
