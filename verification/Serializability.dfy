/** Every interleaving equals a one-at-a-time run of the calls that returned,
    ordered by the instant each took effect: its commit, or, for a duplicate
    credential, its INSERT. */
module Serializability {
  import opened Ceremonies
  import opened Store
  import opened Transactions
  import opened Invariant
  import opened Preservation

  // ------------------------------------------------------- the serial order

  /** Insert a call into an order sorted by stamp. */
  function Place(order: seq<Done>, d: Done): seq<Done> {
    var n := |order|;
    if n == 0 || order[n - 1].stamp < d.stamp then order + [d]
    else Place(order[..n - 1], d) + [order[n - 1]]
  }

  /** The calls of a log, which is in the order of return, by stamp. */
  function SerialOrder(log: seq<Done>): seq<Done> {
    if log == [] then [] else Place(SerialOrder(log[..|log| - 1]), log[|log| - 1])
  }

  /** The part of an order before an instant. */
  function Earlier(order: seq<Done>, stamp: nat): seq<Done> {
    var n := |order|;
    if n == 0 || order[n - 1].stamp < stamp then order else Earlier(order[..n - 1], stamp)
  }

  ghost predicate Sorted(order: seq<Done>) {
    forall i, j :: 0 <= i < j < |order| ==> order[i].stamp < order[j].stamp
  }

  /** The tables after running the calls one at a time from empty tables. */
  ghost function Replay(order: seq<Done>): Db {
    if order == [] then EMPTY
    else Run(Replay(order[..|order| - 1]), order[|order| - 1].call, order[|order| - 1].env)
  }

  /** Each call, run alone after those before it, writes and answers exactly what
      it wrote and answered in the interleaving. */
  ghost predicate Explained(order: seq<Done>) {
    order == [] ||
    var last := order[|order| - 1];
    && Explained(order[..|order| - 1])
    && Plan(Replay(order[..|order| - 1]), last.call, last.env) == Planned(last.writes, last.result)
  }

  lemma {:induction false} PlaceContents(order: seq<Done>, d: Done)
    ensures multiset(Place(order, d)) == multiset(order) + multiset{d}
  {
    var n := |order|;
    if n > 0 {
      assert order == order[..n - 1] + [order[n - 1]];
      PlaceContents(order[..n - 1], d);
    }
  }

  lemma {:induction false} OrderContents(log: seq<Done>)
    ensures multiset(SerialOrder(log)) == multiset(log)
  {
    if log != [] {
      var n := |log|;
      assert log == log[..n - 1] + [log[n - 1]];
      OrderContents(log[..n - 1]);
      PlaceContents(SerialOrder(log[..n - 1]), log[n - 1]);
    }
  }

  lemma MultisetMembers(a: seq<Done>, b: seq<Done>)
    requires multiset(a) == multiset(b)
    ensures forall d :: d in a <==> d in b
  {
    forall d ensures d in a <==> d in b {
      assert d in a <==> d in multiset(a);
      assert d in b <==> d in multiset(b);
    }
  }

  lemma OrderMembers(log: seq<Done>)
    ensures forall d :: d in SerialOrder(log) <==> d in log
  {
    OrderContents(log);
    MultisetMembers(SerialOrder(log), log);
  }

  lemma PlaceMembers(order: seq<Done>, d: Done)
    ensures forall x :: x in Place(order, d) <==> x in order + [d]
  {
    PlaceContents(order, d);
    MultisetMembers(Place(order, d), order + [d]);
  }

  lemma {:induction false} PlaceSorted(order: seq<Done>, d: Done)
    requires Sorted(order) && forall x :: x in order ==> x.stamp != d.stamp
    ensures Sorted(Place(order, d))
  {
    var n := |order|;
    if n > 0 && order[n - 1].stamp > d.stamp {
      var init := order[..n - 1];
      PlaceSorted(init, d);
      PlaceMembers(init, d);
      assert forall x :: x in Place(init, d) ==> x.stamp < order[n - 1].stamp;
    } else if n > 0 {
      assert order[n - 1] in order;
    }
  }

  lemma {:induction false} EarlierPrefix(order: seq<Done>, stamp: nat)
    ensures |Earlier(order, stamp)| <= |order| && Earlier(order, stamp) == order[..|Earlier(order, stamp)|]
  {
    var n := |order|;
    if n > 0 && order[n - 1].stamp >= stamp {
      EarlierPrefix(order[..n - 1], stamp);
    }
  }

  /** Where an insertion lands relative to another instant. */
  lemma {:induction false} EarlierOfPlaced(order: seq<Done>, d: Done, stamp: nat)
    requires Sorted(order) && d.stamp != stamp
    ensures d.stamp < stamp ==> Earlier(Place(order, d), stamp) == Place(Earlier(order, stamp), d)
    ensures d.stamp > stamp ==> Earlier(Place(order, d), stamp) == Earlier(order, stamp)
  {
    var n := |order|;
    var placed := Place(order, d);
    if n == 0 {
      assert placed == [d] && placed[..0] == [];
    } else if order[n - 1].stamp < d.stamp {
      assert placed[..n] == order;
      if d.stamp < stamp {
        assert Earlier(order, stamp) == order;
      }
    } else {
      var init, last := order[..n - 1], order[n - 1];
      assert placed[..|placed| - 1] == Place(init, d);
      EarlierOfPlaced(init, d, stamp);
      if last.stamp < stamp {
        assert Earlier(placed, stamp) == placed;
      }
    }
  }

  lemma {:induction false} EarlierTwice(order: seq<Done>, first: nat, second: nat)
    requires Sorted(order) && first <= second
    ensures Earlier(Earlier(order, second), first) == Earlier(order, first)
  {
    var n := |order|;
    if n > 0 && order[n - 1].stamp >= second {
      EarlierTwice(order[..n - 1], first, second);
    }
  }

  lemma {:induction false} ExplainedPrefix(order: seq<Done>, n: nat)
    requires Explained(order) && n <= |order|
    ensures Explained(order[..n])
    decreases |order|
  {
    if n < |order| {
      var init := order[..|order| - 1];
      ExplainedPrefix(init, n);
      assert init[..n] == order[..n];
    } else {
      assert order[..n] == order;
    }
  }

  // ---------------------------------------------- a late commit, placed early

  /** The writes of a finish that changed no credential. */
  ghost predicate ClosesOnly(w: Writes) {
    w.ceremony.Some? && w.credential.NoWrite? && w.event.Some?
  }

  /** A call that neither finishes the same ceremony nor writes the same event. */
  ghost predicate Independent(w: Writes, x: Done)
    requires ClosesOnly(w)
  {
    && !(x.call.Finish? && x.call.kind == w.ceremony.value.kind && x.call.hash == w.ceremony.value.hash)
    && x.env.eventId != w.event.value.id
  }

  ghost predicate HasRow(db: Db, w: Writes)
    requires ClosesOnly(w)
  {
    w.ceremony.value.hash in Table(db, w.ceremony.value.kind)
  }

  /** An independent call does not see the closing of another ceremony. */
  lemma PlanIgnores(db: Db, w: Writes, x: Done)
    requires ClosesOnly(w) && HasRow(db, w) && Independent(w, x)
    ensures Plan(Apply(db, w), x.call, x.env) == Plan(db, x.call, x.env)
  {
  }

  /** The rows a plan may write. */
  lemma PlanTouches(db: Db, x: Done)
    ensures var w := Plan(db, x.call, x.env).writes;
            && (w.event.Some? ==> w.event.value.id == x.env.eventId)
            && (w.ceremony.Some? ==>
                  if w.ceremony.value.hash in Table(db, w.ceremony.value.kind)
                  then x.call.Finish? && x.call.kind == w.ceremony.value.kind && x.call.hash == w.ceremony.value.hash
                  else x.call.Start?)
  {
  }

  lemma UpdatesCommute<K, V>(m: map<K, V>, a: K, x: V, b: K, y: V)
    requires a != b
    ensures m[a := x][b := y] == m[b := y][a := x]
  {
  }

  lemma ApplyCommutes(db: Db, a: Writes, b: Writes)
    requires ClosesOnly(a)
    requires b.event.Some? ==> b.event.value.id != a.event.value.id
    requires b.ceremony.Some? ==>
               b.ceremony.value.kind != a.ceremony.value.kind || b.ceremony.value.hash != a.ceremony.value.hash
    ensures Apply(Apply(db, a), b) == Apply(Apply(db, b), a)
  {
    var ca, ea := a.ceremony.value, a.event.value;
    if b.ceremony.Some? {
      var cb := b.ceremony.value;
      if ca.kind == cb.kind {
        UpdatesCommute(Table(db, ca.kind), ca.hash, ca.row, cb.hash, cb.row);
      }
    }
    if b.event.Some? {
      UpdatesCommute(db.history, ea.id, ea.event, b.event.value.id, b.event.value.event);
    }
  }

  lemma RunCommutes(db: Db, w: Writes, x: Done)
    requires ClosesOnly(w) && HasRow(db, w) && Independent(w, x)
    ensures Run(Apply(db, w), x.call, x.env) == Apply(Run(db, x.call, x.env), w)
    ensures HasRow(Run(db, x.call, x.env), w)
  {
    PlanIgnores(db, w, x);
    PlanTouches(db, x);
    ApplyCommutes(db, w, Plan(db, x.call, x.env).writes);
  }

  /** Placing a call that only closes its ceremony back at an earlier instant:
      nothing after it changes its answer, and the tables end with its writes
      applied last. */
  lemma {:induction false} PlaceEarlier(order: seq<Done>, d: Done)
    requires Explained(order) && ClosesOnly(d.writes)
    requires var before := Replay(Earlier(order, d.stamp));
             HasRow(before, d.writes) && Plan(before, d.call, d.env) == Planned(d.writes, d.result)
    requires forall x :: x in order && x.stamp > d.stamp ==> Independent(d.writes, x)
    requires forall x :: x in order ==> x.stamp != d.stamp
    ensures Explained(Place(order, d))
    ensures Replay(Place(order, d)) == Apply(Replay(order), d.writes)
    ensures HasRow(Replay(order), d.writes)
  {
    var n := |order|;
    var placed := Place(order, d);
    if n == 0 || order[n - 1].stamp < d.stamp {
      assert placed[..n] == order;
    } else {
      var init, last := order[..n - 1], order[n - 1];
      assert last in order;
      PlaceEarlier(init, d);
      assert placed[..|placed| - 1] == Place(init, d);
      RunCommutes(Replay(init), d.writes, last);
      PlanIgnores(Replay(init), d.writes, last);
    }
  }

  // ------------------------------------------------------------ the invariant

  /** The tables `db` make this marked finish a duplicate credential. */
  ghost predicate Duplicate(db: Db, tx: Tx)
    requires tx.call.Finish?
  {
    && tx.call.hash in Table(db, tx.call.kind)
    && Table(db, tx.call.kind)[tx.call.hash] == tx.c
    && Settle(db.credential, tx.call.kind, tx.c, tx.call.verify, tx.env)
       == Settled(tx.outcome, tx.credential, tx.writes.credential)
  }

  predicate Finishes(d: Done, tx: Tx)
    requires tx.call.Finish?
  {
    d.call.Finish? && d.call.kind == tx.call.kind && d.call.hash == tx.call.hash
  }

  /** A finish that met a duplicate at instant `mark` is still a duplicate in the
      serial order at that instant, and nobody else finished its ceremony since. */
  ghost predicate MarkOk(log: seq<Done>, tx: Tx)
    requires tx.mark.Some? && tx.call.Finish?
  {
    && Duplicate(Replay(Earlier(SerialOrder(log), tx.mark.value)), tx)
    && (forall d :: d in log ==> d.stamp != tx.mark.value)
    && (forall d :: d in log && d.stamp > tx.mark.value ==> !Finishes(d, tx))
  }

  /** A call takes effect as it returns, unless it is a duplicate credential. */
  predicate EffectAtReturn(d: Done) {
    d.stamp == d.ended ||
    (d.call.Finish? && d.call.kind.Registration? && d.result == Failure(Plain(Conflict)) && d.writes.credential == NoWrite)
  }

  ghost predicate TimesOk(s: System) {
    && (forall d :: d in s.log ==> EffectAtReturn(d))
    && (forall d :: d in s.log ==> d.began < d.stamp <= d.ended <= s.instant)
    && (forall t :: t in s.txs ==> s.txs[t].began <= s.instant)
    && (forall t :: t in s.txs && s.txs[t].mark.Some? ==> s.txs[t].began < s.txs[t].mark.value <= s.instant)
    && (forall t, u :: t in s.txs && u in s.txs && t != u && s.txs[t].mark.Some? ==> s.txs[t].mark != s.txs[u].mark)
  }

  ghost predicate EventIdsOk(s: System) {
    && (forall d :: d in s.log ==> d.env.eventId in s.used)
    && (forall t :: t in s.txs && !s.txs[t].pc.Commit? ==> s.txs[t].env.eventId == 0)
    && (forall t :: t in s.txs ==> 0 !in Reserved(s.txs[t]))
    && (forall d, t :: d in s.log && t in s.txs ==> d.env.eventId !in Reserved(s.txs[t]))
  }

  ghost predicate SerialInv(s: System) {
    && Sorted(SerialOrder(s.log))
    && Explained(SerialOrder(s.log))
    && Replay(SerialOrder(s.log)) == s.db
    && (forall t :: t in s.txs && s.txs[t].mark.Some? ==> s.txs[t].call.Finish? && MarkOk(s.log, s.txs[t]))
  }

  lemma TimesContinue(s: System, l: Label)
    requires l.Step? && l.tid in s.txs && TxOk(s.db, s.txs[l.tid]) && s.instant < l.instant && TimesOk(s)
    requires Statement(s.db, l.tid, s.txs[l.tid], l.now, l.newId, l.instant).Continue?
    ensures TimesOk(Do(s, l))
  {
    ContinueFields(s.db, l.tid, s.txs[l.tid], l.now, l.newId, l.instant);
  }

  lemma TimesReturn(s: System, l: Label)
    requires l.Step? && l.tid in s.txs && TxOk(s.db, s.txs[l.tid]) && s.instant < l.instant && TimesOk(s)
    requires Statement(s.db, l.tid, s.txs[l.tid], l.now, l.newId, l.instant).Return?
    ensures TimesOk(Do(s, l))
  {
    ReturnFields(s.db, l.tid, s.txs[l.tid], l.now, l.newId, l.instant);
  }

  lemma TimesDo(key: SubjectKey, s: System, l: Label)
    requires Inv(key, s) && Enabled(key, s, l) && TimesOk(s)
    ensures TimesOk(Do(s, l))
  {
    if l.Step? {
      assert TxOk(s.db, s.txs[l.tid]);
      if Statement(s.db, l.tid, s.txs[l.tid], l.now, l.newId, l.instant).Continue? {
        TimesContinue(s, l);
      } else {
        TimesReturn(s, l);
      }
    }
  }

  lemma EventIdsReplaced(s: System, after: System, t: Tid, next: Tx, newId: Uuid)
    requires EventIdsOk(s) && t in s.txs && newId !in s.used && 0 in s.used
    requires after.txs == s.txs[t := next] && after.log == s.log && after.used == s.used + {newId}
    requires Reserved(next) <= Reserved(s.txs[t]) + {newId}
    requires !next.pc.Commit? ==> next.env.eventId == 0
    ensures EventIdsOk(after)
  {
  }

  lemma EventIdsContinue(s: System, l: Label)
    requires l.Step? && l.tid in s.txs && TxOk(s.db, s.txs[l.tid]) && 0 in s.used && l.newId !in s.used && EventIdsOk(s)
    requires Statement(s.db, l.tid, s.txs[l.tid], l.now, l.newId, l.instant).Continue?
    ensures EventIdsOk(Do(s, l))
  {
    var tx := s.txs[l.tid];
    ContinueFields(s.db, l.tid, tx, l.now, l.newId, l.instant);
    ReservedGrows(s, l.tid, l.now, l.newId, l.instant);
    var next, after := Next(s, l.tid, l.now, l.newId, l.instant), Do(s, l);
    EventIdsReplaced(s, after, l.tid, next, l.newId);
  }

  lemma EventIdsReturn(key: SubjectKey, s: System, l: Label)
    requires Inv(key, s) && l.Step? && Enabled(key, s, l) && EventIdsOk(s)
    requires Statement(s.db, l.tid, s.txs[l.tid], l.now, l.newId, l.instant).Return?
    ensures EventIdsOk(Do(s, l))
  {
    var tx := s.txs[l.tid];
    assert TxOk(s.db, tx);
    ReturnFields(s.db, l.tid, tx, l.now, l.newId, l.instant);
    assert tx.env.eventId in {0} + Reserved(tx);
    forall u | u in s.txs && u != l.tid ensures tx.env.eventId !in Reserved(s.txs[u]) {
      assert Apart(key, tx, s.txs[u]);
    }
    var d, after := Statement(s.db, l.tid, tx, l.now, l.newId, l.instant).done, Do(s, l);
    assert after.txs == s.txs - {l.tid} && after.log == s.log + [d] && after.used == s.used + {l.newId};
  }

  lemma EventIdsDo(key: SubjectKey, s: System, l: Label)
    requires Inv(key, s) && Enabled(key, s, l) && EventIdsOk(s)
    ensures EventIdsOk(Do(s, l))
  {
    match l
    case Begin(_, _, _) =>
    case Rollback(_) =>
    case Step(t, now, newId, instant) =>
      if Statement(s.db, t, s.txs[t], now, newId, instant).Continue? {
        assert TxOk(s.db, s.txs[t]);
        EventIdsContinue(s, l);
      } else {
        EventIdsReturn(key, s, l);
      }
  }

  // ---------------------------------------------------------------- the steps

  lemma {:induction false} EarlierAll(order: seq<Done>, stamp: nat)
    requires forall d :: d in order ==> d.stamp < stamp
    ensures Earlier(order, stamp) == order
  {
    if order != [] {
      assert order[|order| - 1] in order;
    }
  }

  /** A statement that does not mark keeps the marked outcome. */
  lemma MarkKept(db: Db, t: Tid, tx: Tx, now: Time, newId: Uuid, instant: nat)
    requires tx.call.Finish? && FinishOk(db, tx) && tx.mark.Some?
    requires FinishStatement(db, t, tx, now, newId, instant).Continue?
    ensures var next := FinishStatement(db, t, tx, now, newId, instant).tx;
            && next.call == tx.call && next.mark == tx.mark && next.c == tx.c && next.outcome == tx.outcome
            && next.credential == tx.credential && next.writes.credential == tx.writes.credential
            && next.env.now == tx.env.now && next.env.credentialId == tx.env.credentialId
  {
  }

  lemma MarkOkSame(log: seq<Done>, tx: Tx, next: Tx)
    requires tx.mark.Some? && tx.call.Finish? && MarkOk(log, tx)
    requires next.call == tx.call && next.mark == tx.mark && next.c == tx.c && next.outcome == tx.outcome
    requires next.credential == tx.credential && next.writes.credential == tx.writes.credential
    requires next.env.now == tx.env.now && next.env.credentialId == tx.env.credentialId
    ensures MarkOk(log, next)
  {
  }

  lemma NewMark(s: System, next: Tx)
    requires SerialInv(s) && TimesOk(s)
    requires next.call.Finish? && next.mark.Some? && s.instant < next.mark.value && Duplicate(s.db, next)
    ensures MarkOk(s.log, next)
  {
    OrderMembers(s.log);
    EarlierAll(SerialOrder(s.log), next.mark.value);
  }

  lemma SerialReplaced(s: System, after: System, t: Tid, next: Tx)
    requires SerialInv(s) && t in s.txs
    requires after.txs == s.txs[t := next] && after.log == s.log && after.db == s.db
    requires next.mark.Some? ==> next.call.Finish? && MarkOk(s.log, next)
    ensures SerialInv(after)
  {
  }

  lemma ContinuesMarked(s: System, t: Tid, now: Time, newId: Uuid, instant: nat)
    requires t in s.txs && TxOk(s.db, s.txs[t]) && s.instant < instant
    requires SerialInv(s) && TimesOk(s)
    requires Statement(s.db, t, s.txs[t], now, newId, instant).Continue?
    ensures var next := Next(s, t, now, newId, instant);
            next.mark.Some? ==> next.call.Finish? && MarkOk(s.log, next)
  {
    var tx, next := s.txs[t], Next(s, t, now, newId, instant);
    if next.mark.Some? {
      assert tx.call.Finish?;
      ContinueFields(s.db, t, tx, now, newId, instant);
      if tx.mark.Some? {
        MarkKept(s.db, t, tx, now, newId, instant);
        MarkOkSame(s.log, tx, next);
      } else {
        MarkedIsPlanned(s.db, t, tx, now, newId, instant);
        NewMark(s, next);
      }
    }
  }

  lemma SerialContinue(s: System, l: Label)
    requires l.Step? && l.tid in s.txs && TxOk(s.db, s.txs[l.tid]) && s.instant < l.instant
    requires SerialInv(s) && TimesOk(s)
    requires Statement(s.db, l.tid, s.txs[l.tid], l.now, l.newId, l.instant).Continue?
    ensures SerialInv(Do(s, l))
  {
    ContinuesMarked(s, l.tid, l.now, l.newId, l.instant);
    SerialReplaced(s, Do(s, l), l.tid, Next(s, l.tid, l.now, l.newId, l.instant));
  }

  lemma AppendOrder(log: seq<Done>, d: Done)
    requires forall x :: x in log ==> x.stamp < d.stamp
    ensures SerialOrder(log + [d]) == SerialOrder(log) + [d]
  {
    var longer, order := log + [d], SerialOrder(log);
    assert longer[..|longer| - 1] == log;
    OrderMembers(log);
    assert order != [] ==> order[|order| - 1] in order;
  }

  lemma AppendEarlier(order: seq<Done>, d: Done)
    ensures forall stamp: nat :: stamp <= d.stamp ==> Earlier(order + [d], stamp) == Earlier(order, stamp)
  {
    assert (order + [d])[..|order|] == order;
  }

  lemma AppendExplained(order: seq<Done>, d: Done)
    requires Explained(order) && Plan(Replay(order), d.call, d.env) == Planned(d.writes, d.result)
    ensures Explained(order + [d]) && Replay(order + [d]) == Apply(Replay(order), d.writes)
  {
    assert (order + [d])[..|order|] == order;
  }

  /** A call that takes effect as it returns goes last in the order. */
  lemma PlaceLast(s: System, d: Done)
    requires SerialInv(s) && TimesOk(s)
    requires d.stamp > s.instant && Plan(s.db, d.call, d.env) == Planned(d.writes, d.result)
    ensures Sorted(SerialOrder(s.log + [d])) && Explained(SerialOrder(s.log + [d]))
    ensures Replay(SerialOrder(s.log + [d])) == Apply(s.db, d.writes)
    ensures forall stamp: nat :: stamp <= d.stamp ==> Earlier(SerialOrder(s.log + [d]), stamp) == Earlier(SerialOrder(s.log), stamp)
  {
    AppendOrder(s.log, d);
    AppendEarlier(SerialOrder(s.log), d);
    AppendExplained(SerialOrder(s.log), d);
    OrderMembers(s.log);
    PlaceSorted(SerialOrder(s.log), d);
  }

  /** The answer of a marked finish, as a done call. */
  ghost predicate IsMarkedDone(db: Db, tx: Tx, d: Done) {
    && tx.call.Finish? && FinishOk(db, tx) && tx.mark.Some? && tx.pc.Commit?
    && d.call == tx.call && d.env == tx.env && d.writes == tx.writes && d.result == ResultOf(tx)
    && d.stamp == tx.mark.value
  }

  lemma MarkedPlan(log: seq<Done>, db: Db, tx: Tx, d: Done)
    requires IsMarkedDone(db, tx, d) && MarkOk(log, tx)
    requires forall x :: x in log ==> x.env.eventId != tx.env.eventId
    ensures ClosesOnly(d.writes)
    ensures d.writes.ceremony.value.kind == tx.call.kind && d.writes.ceremony.value.hash == tx.call.hash
    ensures d.writes.event.value.id == tx.env.eventId
    ensures var before := Replay(Earlier(SerialOrder(log), d.stamp));
            HasRow(before, d.writes) && Plan(before, d.call, d.env) == Planned(d.writes, d.result)
  {
    OrderMembers(log);
    assert Closed(db, tx) && RowHeld(db, tx);
    var before := Earlier(SerialOrder(log), d.stamp);
    EarlierPrefix(SerialOrder(log), d.stamp);
    assert forall x :: x in before ==> x in SerialOrder(log);
    FreshInReplay(before, tx.env.eventId);
  }

  lemma MarkedIndependent(log: seq<Done>, db: Db, tx: Tx, d: Done)
    requires IsMarkedDone(db, tx, d) && MarkOk(log, tx)
    requires forall x :: x in log ==> x.env.eventId != tx.env.eventId
    ensures ClosesOnly(d.writes)
    ensures forall x :: x in log && x.stamp > d.stamp ==> Independent(d.writes, x)
  {
    MarkedPlan(log, db, tx, d);
  }

  /** A marked finish goes to its mark. */
  lemma PlaceMarked(s: System, tx: Tx, d: Done)
    requires SerialInv(s) && IsMarkedDone(s.db, tx, d) && MarkOk(s.log, tx)
    requires forall x :: x in s.log ==> x.env.eventId != tx.env.eventId
    ensures ClosesOnly(d.writes)
    ensures Sorted(SerialOrder(s.log + [d])) && Explained(SerialOrder(s.log + [d]))
    ensures Replay(SerialOrder(s.log + [d])) == Apply(s.db, d.writes)
  {
    var order, log := SerialOrder(s.log), s.log + [d];
    assert log[..|log| - 1] == s.log;
    OrderMembers(s.log);
    MarkedPlan(s.log, s.db, tx, d);
    MarkedIndependent(s.log, s.db, tx, d);
    PlaceEarlier(order, d);
    PlaceSorted(order, d);
  }

  /** The history holds only event ids of calls in the order. */
  lemma {:induction false} FreshInReplay(order: seq<Done>, id: Uuid)
    requires forall d :: d in order ==> d.env.eventId != id
    ensures id !in Replay(order).history
  {
    var n := |order|;
    if n > 0 {
      assert order[n - 1] in order;
      FreshInReplay(order[..n - 1], id);
      PlanTouches(Replay(order[..n - 1]), order[n - 1]);
    }
  }

  /** While a finish is marked, nobody else returns from finishing its ceremony. */
  lemma OthersFinishElsewhere(key: SubjectKey, s: System, t: Tid, u: Tid, now: Time, newId: Uuid, instant: nat)
    requires t in s.txs && u in s.txs && t != u && !WaitsFor(key, s, t, u)
    requires TxOk(s.db, s.txs[t]) && TxOk(s.db, s.txs[u]) && RowsApart(s.txs[t], s.txs[u])
    requires s.txs[u].call.Finish? && s.txs[u].mark.Some?
    requires Statement(s.db, t, s.txs[t], now, newId, instant).Return?
    ensures !Finishes(Statement(s.db, t, s.txs[t], now, newId, instant).done, s.txs[u])
  {
    var tx, other := s.txs[t], s.txs[u];
    ReturnFields(s.db, t, tx, now, newId, instant);
    assert HoldsRow(other, other.call.kind, other.call.hash);
    assert RowHeld(s.db, other);
  }

  lemma MarkAfterUnmarked(s: System, u: Tx, d: Done)
    requires SerialInv(s) && TimesOk(s) && u.call.Finish? && u.mark.Some? && u.mark.value <= s.instant && MarkOk(s.log, u)
    requires d.stamp > s.instant && Plan(s.db, d.call, d.env) == Planned(d.writes, d.result) && !Finishes(d, u)
    ensures MarkOk(s.log + [d], u)
  {
    PlaceLast(s, d);
  }

  lemma DuplicateAfter(db: Db, w: Writes, u: Tx)
    requires u.call.Finish? && ClosesOnly(w) && Duplicate(db, u)
    requires u.call.kind != w.ceremony.value.kind || u.call.hash != w.ceremony.value.hash
    ensures Duplicate(Apply(db, w), u)
  {
  }

  /** Another marked finish, committing at an earlier mark, is not seen. */
  lemma DuplicateAfterMarked(s: System, tx: Tx, u: Tx, d: Done)
    requires SerialInv(s) && IsMarkedDone(s.db, tx, d) && MarkOk(s.log, tx)
    requires u.call.Finish? && u.mark.Some? && MarkOk(s.log, u) && d.stamp < u.mark.value
    requires tx.call.kind != u.call.kind || tx.call.hash != u.call.hash
    requires forall x :: x in s.log ==> x.env.eventId != tx.env.eventId
    ensures Duplicate(Replay(Place(Earlier(SerialOrder(s.log), u.mark.value), d)), u)
  {
    var order := SerialOrder(s.log);
    var before := Earlier(order, u.mark.value);
    OrderMembers(s.log);
    EarlierPrefix(order, u.mark.value);
    ExplainedPrefix(order, |before|);
    assert forall x :: x in before ==> x in order;
    EarlierTwice(order, d.stamp, u.mark.value);
    MarkedPlan(s.log, s.db, tx, d);
    MarkedIndependent(s.log, s.db, tx, d);
    PlaceEarlier(before, d);
    DuplicateAfter(Replay(before), d.writes, u);
  }

  lemma DuplicateAfterPlaced(s: System, tx: Tx, u: Tx, d: Done)
    requires SerialInv(s) && IsMarkedDone(s.db, tx, d) && MarkOk(s.log, tx)
    requires u.call.Finish? && u.mark.Some? && MarkOk(s.log, u) && tx.mark != u.mark
    requires tx.call.kind != u.call.kind || tx.call.hash != u.call.hash
    requires forall x :: x in s.log ==> x.env.eventId != tx.env.eventId
    ensures Duplicate(Replay(Earlier(SerialOrder(s.log + [d]), u.mark.value)), u)
  {
    var log := s.log + [d];
    assert log[..|log| - 1] == s.log;
    assert SerialOrder(log) == Place(SerialOrder(s.log), d);
    EarlierOfPlaced(SerialOrder(s.log), d, u.mark.value);
    if d.stamp < u.mark.value {
      DuplicateAfterMarked(s, tx, u, d);
    }
  }

  lemma MarkExtends(log: seq<Done>, u: Tx, d: Done)
    requires u.call.Finish? && u.mark.Some? && MarkOk(log, u)
    requires Duplicate(Replay(Earlier(SerialOrder(log + [d]), u.mark.value)), u)
    requires d.stamp != u.mark.value && !Finishes(d, u)
    ensures MarkOk(log + [d], u)
  {
  }

  lemma MarkAfterMarked(s: System, tx: Tx, u: Tx, d: Done)
    requires SerialInv(s) && IsMarkedDone(s.db, tx, d) && MarkOk(s.log, tx)
    requires u.call.Finish? && u.mark.Some? && MarkOk(s.log, u) && tx.mark != u.mark
    requires tx.call.kind != u.call.kind || tx.call.hash != u.call.hash
    requires forall x :: x in s.log ==> x.env.eventId != tx.env.eventId
    ensures MarkOk(s.log + [d], u)
  {
    DuplicateAfterPlaced(s, tx, u, d);
    MarkExtends(s.log, u, d);
  }

  lemma MarksAfterReturn(key: SubjectKey, s: System, l: Label, u: Tid)
    requires Inv(key, s) && l.Step? && Enabled(key, s, l) && SerialInv(s) && TimesOk(s) && EventIdsOk(s)
    requires Statement(s.db, l.tid, s.txs[l.tid], l.now, l.newId, l.instant).Return?
    requires u in s.txs && u != l.tid && s.txs[u].mark.Some?
    ensures MarkOk(s.log + [Statement(s.db, l.tid, s.txs[l.tid], l.now, l.newId, l.instant).done], s.txs[u])
  {
    var tx, other := s.txs[l.tid], s.txs[u];
    var d := Statement(s.db, l.tid, tx, l.now, l.newId, l.instant).done;
    assert Apart(key, tx, other) && TxOk(s.db, tx) && TxOk(s.db, other) && !WaitsFor(key, s, l.tid, u);
    ReturnFields(s.db, l.tid, tx, l.now, l.newId, l.instant);
    OthersFinishElsewhere(key, s, l.tid, u, l.now, l.newId, l.instant);
    if tx.mark.None? {
      ReturnsPlanned(s, l);
      MarkAfterUnmarked(s, other, d);
    } else {
      ReturnsMarked(s, l);
      MarkAfterMarked(s, tx, other, d);
    }
  }

  lemma ReturnsPlanned(s: System, l: Label)
    requires l.Step? && l.tid in s.txs && TxOk(s.db, s.txs[l.tid]) && s.txs[l.tid].mark.None?
    requires Reserved(s.txs[l.tid]) !! s.db.history.Keys
    requires Statement(s.db, l.tid, s.txs[l.tid], l.now, l.newId, l.instant).Return?
    ensures var d := Statement(s.db, l.tid, s.txs[l.tid], l.now, l.newId, l.instant).done;
            Plan(s.db, d.call, d.env) == Planned(d.writes, d.result)
  {
    assert s.txs[l.tid].pc.Commit? ==> s.txs[l.tid].env.eventId in Reserved(s.txs[l.tid]);
    ReturnIsPlanned(s.db, l.tid, s.txs[l.tid], l.now, l.newId, l.instant);
  }

  lemma ReturnsMarked(s: System, l: Label)
    requires l.Step? && l.tid in s.txs && TxOk(s.db, s.txs[l.tid]) && s.txs[l.tid].mark.Some?
    requires EventIdsOk(s)
    requires Statement(s.db, l.tid, s.txs[l.tid], l.now, l.newId, l.instant).Return?
    ensures IsMarkedDone(s.db, s.txs[l.tid], Statement(s.db, l.tid, s.txs[l.tid], l.now, l.newId, l.instant).done)
    ensures forall x :: x in s.log ==> x.env.eventId != s.txs[l.tid].env.eventId
  {
    var tx := s.txs[l.tid];
    ReturnFields(s.db, l.tid, tx, l.now, l.newId, l.instant);
    assert tx.env.eventId in Reserved(tx);
  }

  lemma SerialRemoved(s: System, after: System, t: Tid, d: Done)
    requires SerialInv(s)
    requires after.txs == s.txs - {t} && after.log == s.log + [d] && after.db == Apply(s.db, d.writes)
    requires Sorted(SerialOrder(after.log)) && Explained(SerialOrder(after.log))
    requires Replay(SerialOrder(after.log)) == after.db
    requires forall u :: u in after.txs && s.txs[u].mark.Some? ==> MarkOk(after.log, s.txs[u])
    ensures SerialInv(after)
  {
  }

  lemma ReturnPlaced(s: System, l: Label)
    requires l.Step? && l.tid in s.txs && TxOk(s.db, s.txs[l.tid]) && s.instant < l.instant
    requires Reserved(s.txs[l.tid]) !! s.db.history.Keys
    requires SerialInv(s) && TimesOk(s) && EventIdsOk(s)
    requires Statement(s.db, l.tid, s.txs[l.tid], l.now, l.newId, l.instant).Return?
    ensures var d := Statement(s.db, l.tid, s.txs[l.tid], l.now, l.newId, l.instant).done;
            && Sorted(SerialOrder(s.log + [d])) && Explained(SerialOrder(s.log + [d]))
            && Replay(SerialOrder(s.log + [d])) == Apply(s.db, d.writes)
  {
    var tx := s.txs[l.tid];
    var d := Statement(s.db, l.tid, tx, l.now, l.newId, l.instant).done;
    ReturnFields(s.db, l.tid, tx, l.now, l.newId, l.instant);
    if tx.mark.None? {
      ReturnsPlanned(s, l);
      PlaceLast(s, d);
    } else {
      ReturnsMarked(s, l);
      PlaceMarked(s, tx, d);
    }
  }

  lemma SerialReturn(key: SubjectKey, s: System, l: Label)
    requires Inv(key, s) && l.Step? && Enabled(key, s, l) && SerialInv(s) && TimesOk(s) && EventIdsOk(s)
    requires Statement(s.db, l.tid, s.txs[l.tid], l.now, l.newId, l.instant).Return?
    ensures SerialInv(Do(s, l))
  {
    var d := Statement(s.db, l.tid, s.txs[l.tid], l.now, l.newId, l.instant).done;
    assert TxOk(s.db, s.txs[l.tid]);
    ReturnPlaced(s, l);
    forall u | u in s.txs && u != l.tid && s.txs[u].mark.Some? ensures MarkOk(s.log + [d], s.txs[u]) {
      MarksAfterReturn(key, s, l, u);
    }
    SerialRemoved(s, Do(s, l), l.tid, d);
  }

  lemma SerialDo(key: SubjectKey, s: System, l: Label)
    requires Inv(key, s) && Enabled(key, s, l) && SerialInv(s) && TimesOk(s) && EventIdsOk(s)
    ensures SerialInv(Do(s, l))
  {
    match l
    case Begin(_, _, _) =>
    case Rollback(_) =>
    case Step(t, now, newId, instant) =>
      if Statement(s.db, t, s.txs[t], now, newId, instant).Continue? {
        assert TxOk(s.db, s.txs[t]);
        SerialContinue(s, l);
      } else {
        SerialReturn(key, s, l);
      }
  }

  // -------------------------------------------------------------- the theorem

  ghost predicate SystemInv(key: SubjectKey, s: System) {
    Inv(key, s) && TimesOk(s) && EventIdsOk(s) && SerialInv(s)
  }

  lemma {:induction false} SystemInvAfter(key: SubjectKey, s: System, ls: seq<Label>)
    requires SystemInv(key, s) && ValidRun(key, s, ls)
    ensures SystemInv(key, After(key, s, ls))
    decreases |ls|
  {
    if ls != [] {
      InvDo(key, s, ls[0]);
      TimesDo(key, s, ls[0]);
      EventIdsDo(key, s, ls[0]);
      SerialDo(key, s, ls[0]);
      SystemInvAfter(key, Do(s, ls[0]), ls[1..]);
    }
  }

  lemma Reachable(key: SubjectKey, ls: seq<Label>)
    requires ValidRun(key, INITIAL, ls)
    ensures SystemInv(key, After(key, INITIAL, ls))
  {
    SystemInvAfter(key, INITIAL, ls);
  }

  lemma RealTime(order: seq<Done>)
    requires Sorted(order)
    requires forall i :: 0 <= i < |order| ==> order[i].began < order[i].stamp <= order[i].ended
    ensures forall i, j :: 0 <= i < |order| && 0 <= j < |order| && order[i].ended <= order[j].began ==> i < j
  {
  }

  lemma OrderTimes(s: System)
    requires TimesOk(s)
    ensures var order := SerialOrder(s.log);
            forall i :: 0 <= i < |order| ==> order[i].began < order[i].stamp <= order[i].ended && EffectAtReturn(order[i])
  {
    var order := SerialOrder(s.log);
    OrderMembers(s.log);
    forall i | 0 <= i < |order|
      ensures order[i].began < order[i].stamp <= order[i].ended && EffectAtReturn(order[i])
    {
      assert order[i] in s.log;
    }
  }

  /** Strict serializability of every run. The calls that returned, sorted by the
      instant each took effect, explain every answer and every row when run one at
      a time. That instant lies within the call and is its return, except that a
      duplicate registration takes effect at its INSERT; so a call that returned
      before another began comes before it. */
  lemma Serializable(key: SubjectKey, ls: seq<Label>)
    requires ValidRun(key, INITIAL, ls)
    ensures var s := After(key, INITIAL, ls);
            var order := SerialOrder(s.log);
            && multiset(order) == multiset(s.log)
            && Explained(order) && Replay(order) == s.db && Sorted(order)
            && (forall i :: 0 <= i < |order| ==> order[i].began < order[i].stamp <= order[i].ended && EffectAtReturn(order[i]))
            && (forall i, j :: 0 <= i < |order| && 0 <= j < |order| && order[i].ended <= order[j].began ==> i < j)
  {
    Reachable(key, ls);
    var s := After(key, INITIAL, ls);
    OrderContents(s.log);
    OrderTimes(s);
    RealTime(SerialOrder(s.log));
  }
}
