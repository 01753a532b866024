/** Any number of nodes migrating one database at the same time, each able to fail
    or stop between any two statements. */
module MigrationNodes {
  import opened Ceremonies
  import opened Migration

  /** How one call of Migrate ended, and the database at that moment. */
  datatype Return = Return(build: Build, ok: bool, db: Db)

  /** `holder` has the session lock. */
  datatype System = System(db: Db, runs: map<nat, Run>, holder: Option<nat>, returned: seq<Return>)

  /** Statement: the node's next statement succeeds. Failure: it returns an error.
      LostReply: a commit takes effect and its reply is lost. Stop: the node dies. */
  datatype Event = Launch(build: Build) | Statement | Failure | LostReply | Stop

  datatype Label = Label(node: nat, event: Event)

  predicate Possible(s: System, l: Label) {
    if l.event.Launch? then l.node !in s.runs
    else
      && l.node in s.runs && InRange(s.runs[l.node])
      && (l.event.Statement? && s.runs[l.node].pc.Locking? ==> s.holder.None?)
      && (l.event.LostReply? ==> s.runs[l.node].pc.Committing?)
  }

  function Gone(s: System, node: nat): System {
    s.(runs := s.runs - {node}, holder := if s.holder == Some(node) then None else s.holder)
  }

  function Returns(s: System, node: nat, ok: bool): System
    requires node in s.runs
  {
    Gone(s, node).(returned := s.returned + [Return(s.runs[node].build, ok, s.db)])
  }

  function Moved(s: System, node: nat, pc: Pc): System
    requires node in s.runs
  {
    s.(runs := s.runs[node := s.runs[node].(pc := pc)])
  }

  /** A failed unlock closes the session, which releases the lock as well. */
  function Do(sum: Checksum, s: System, l: Label): System
    requires Possible(s, l)
  {
    if l.event.Launch? then s.(runs := s.runs[l.node := Run(l.event.build, Locking)])
    else
      var run := s.runs[l.node];
      match l.event
      case Statement =>
        if run.pc.Unlocking? then Returns(s, l.node, run.pc.ok)
        else
          Moved(s, l.node, Advance(sum, s.db, run)).(
          db := Effect(sum, s.db, run),
          holder := if run.pc.Locking? then Some(l.node) else s.holder)
      case Failure =>
        if run.pc.Locking? then Returns(s, l.node, false)
        else if run.pc.Unlocking? then Returns(s, l.node, run.pc.ok)
        else Moved(s, l.node, Unlocking(false))
      case LostReply => Moved(s, l.node, Unlocking(false)).(db := Effect(sum, s.db, run))
      case Stop => Gone(s, l.node)
  }

  predicate ValidRun(sum: Checksum, s: System, labels: seq<Label>)
    decreases labels
  {
    labels == [] || (Possible(s, labels[0]) && ValidRun(sum, Do(sum, s, labels[0]), labels[1..]))
  }

  function After(sum: Checksum, s: System, labels: seq<Label>): System
    requires ValidRun(sum, s, labels)
    decreases labels
  {
    if labels == [] then s else After(sum, Do(sum, s, labels[0]), labels[1..])
  }

  /** Before any node starts. */
  ghost predicate Quiet(sum: Checksum, s: System) {
    Clean(sum, s.db) && s.runs == map[] && s.holder == None && s.returned == []
  }

  // --------------------------------------------------------------- invariant

  /** All files recorded as they are, and the schema at the supported version. */
  ghost predicate UpToDate(sum: Checksum, db: Db, build: Build) {
    && Clean(sum, db) && db.table.Some?
    && Matches(sum, db, build, |build.files|) && |db.schema| == build.supported
  }

  /** What the holder of the lock knows at each statement. */
  ghost predicate Knows(sum: Checksum, db: Db, run: Run) {
    InRange(run) &&
    match run.pc
    case Locking => true
    case Creating => true
    case Looking(i) => db.table.Some? && Matches(sum, db, run.build, i) && Named(run.build.files[i], i + 1)
    case Measuring(i) => AtEnd(sum, db, run.build, i)
    case Running(i) => AtEnd(sum, db, run.build, i)
    case Recording(i) => AtEnd(sum, db, run.build, i)
    case Committing(i) => AtEnd(sum, db, run.build, i)
    case Checking => db.table.Some? && Matches(sum, db, run.build, |run.build.files|)
    case Unlocking(ok) => ok ==> UpToDate(sum, db, run.build)
  }

  ghost predicate AtEnd(sum: Checksum, db: Db, build: Build, i: nat)
    requires i < |build.files|
  {
    db.table.Some? && Matches(sum, db, build, i) && Named(build.files[i], i + 1) && i == |db.schema|
  }

  ghost predicate Holds(s: System, node: nat) {
    node in s.runs && !s.runs[node].pc.Locking?
  }

  ghost predicate Locks(s: System) {
    forall node: nat :: Holds(s, node) <==> s.holder == Some(node)
  }

  ghost predicate RunsKnow(sum: Checksum, s: System) {
    forall node :: node in s.runs ==> Knows(sum, s.db, s.runs[node])
  }

  ghost predicate ReturnsTold(sum: Checksum, s: System) {
    forall i :: 0 <= i < |s.returned| ==>
      s.returned[i].db.schema <= s.db.schema && (s.returned[i].ok ==> UpToDate(sum, s.returned[i].db, s.returned[i].build))
  }

  ghost predicate Inv(sum: Checksum, s: System) {
    Clean(sum, s.db) && Locks(s) && RunsKnow(sum, s) && ReturnsTold(sum, s)
  }

  lemma NextKnows(sum: Checksum, db: Db, build: Build, i: nat)
    requires db.table.Some? && Matches(sum, db, build, i)
    ensures Knows(sum, db, Run(build, Next(build, i)))
  {
  }

  lemma MatchesOneMore(sum: Checksum, db: Db, build: Build, i: nat)
    requires Matches(sum, db, build, i) && i < |build.files| && i < |db.schema|
    requires Named(build.files[i], i + 1) && sum(db.schema[i]) == sum(build.files[i].body)
    ensures Matches(sum, db, build, i + 1)
  {
  }

  lemma CommitKnows(sum: Checksum, db: Db, build: Build, i: nat)
    requires Clean(sum, db) && i < |build.files| && AtEnd(sum, db, build, i)
    ensures var next := Applied(sum, db, i + 1, build.files[i].body);
            && Clean(sum, next) && db.schema <= next.schema && next.table.Some?
            && Matches(sum, next, build, i + 1)
  {
    AppliedIsClean(sum, db, build.files[i].body);
    var next := Applied(sum, db, i + 1, build.files[i].body);
    assert forall j :: 0 <= j < i ==> next.schema[j] == db.schema[j];
  }

  /** What a statement of the lock holder keeps. */
  lemma AdvanceKnows(sum: Checksum, db: Db, run: Run)
    requires Clean(sum, db) && Knows(sum, db, run)
    ensures Clean(sum, Effect(sum, db, run)) && db.schema <= Effect(sum, db, run).schema
    ensures Knows(sum, Effect(sum, db, run), run.(pc := Advance(sum, db, run)))
  {
    var build := run.build;
    match run.pc
    case Locking =>
    case Creating => NextKnows(sum, CreateTable(db), build, 0);
    case Looking(i) =>
      if i + 1 in Rows(db) && Rows(db)[i + 1] == sum(build.files[i].body) {
        MatchesOneMore(sum, db, build, i);
        NextKnows(sum, db, build, i + 1);
      }
    case Measuring(i) =>
    case Running(i) =>
    case Recording(i) =>
    case Committing(i) =>
      CommitKnows(sum, db, build, i);
      NextKnows(sum, Applied(sum, db, i + 1, build.files[i].body), build, i + 1);
    case Checking => CleanLatest(sum, db);
    case Unlocking(ok) =>
  }

  /** Other nodes are waiting for the lock, so they know nothing to disturb. */
  lemma OthersKnow(sum: Checksum, s: System, t: System, node: nat)
    requires Inv(sum, s) && (t.db == s.db || s.holder == Some(node))
    requires forall other :: other in t.runs && other != node ==> other in s.runs && t.runs[other] == s.runs[other]
    requires node in t.runs ==> Knows(sum, t.db, t.runs[node])
    ensures RunsKnow(sum, t)
  {
    forall other | other in t.runs ensures Knows(sum, t.db, t.runs[other]) {
      if other != node && t.db != s.db {
        assert !Holds(s, other);
      }
    }
  }

  lemma ReturnsStay(sum: Checksum, s: System, t: System)
    requires ReturnsTold(sum, s) && s.db.schema <= t.db.schema && t.returned == s.returned
    ensures ReturnsTold(sum, t)
  {
  }

  lemma ReturnAdds(sum: Checksum, s: System, node: nat, ok: bool)
    requires ReturnsTold(sum, s) && node in s.runs && (ok ==> UpToDate(sum, s.db, s.runs[node].build))
    ensures ReturnsTold(sum, Returns(s, node, ok))
  {
  }

  lemma LocksDo(sum: Checksum, s: System, l: Label)
    requires Locks(s) && Possible(s, l)
    ensures Locks(Do(sum, s, l))
  {
    var t := Do(sum, s, l);
    assert Holds(s, l.node) <==> s.holder == Some(l.node);
    forall node: nat ensures Holds(t, node) <==> t.holder == Some(node) {
      assert Holds(s, node) <==> s.holder == Some(node);
      if node != l.node {
        assert node in t.runs <==> node in s.runs;
      }
    }
  }

  lemma InvDo(sum: Checksum, s: System, l: Label)
    requires Inv(sum, s) && Possible(s, l)
    ensures Inv(sum, Do(sum, s, l)) && s.db.schema <= Do(sum, s, l).db.schema
  {
    var t := Do(sum, s, l);
    LocksDo(sum, s, l);
    if !l.event.Launch? {
      var run := s.runs[l.node];
      assert Holds(s, l.node) <==> s.holder == Some(l.node);
      AdvanceKnows(sum, s.db, run);
      if t.returned != s.returned {
        ReturnAdds(sum, s, l.node, run.pc.Unlocking? && run.pc.ok);
      }
    }
    OthersKnow(sum, s, t, l.node);
    if t.returned == s.returned {
      ReturnsStay(sum, s, t);
    }
  }

  lemma {:induction false} InvAfter(sum: Checksum, s: System, labels: seq<Label>)
    requires Inv(sum, s) && ValidRun(sum, s, labels)
    ensures Inv(sum, After(sum, s, labels)) && s.db.schema <= After(sum, s, labels).db.schema
    decreases labels
  {
    if labels != [] {
      InvDo(sum, s, labels[0]);
      InvAfter(sum, Do(sum, s, labels[0]), labels[1..]);
    }
  }

  // ------------------------------------------------------------ main theorems

  /** However many nodes of whatever releases start, fail and stop: the recorded
      versions stay exactly 1..n, one for each body run, in order and once, with its
      checksum; what was there before stays; and a call that succeeded found every
      file of its release recorded and the schema at its supported version. */
  lemma MigrationsAreSafe(sum: Checksum, s: System, labels: seq<Label>)
    requires Quiet(sum, s) && ValidRun(sum, s, labels)
    ensures var t := After(sum, s, labels);
            && Clean(sum, t.db) && s.db.schema <= t.db.schema
            && forall i :: 0 <= i < |t.returned| && t.returned[i].ok ==>
                 UpToDate(sum, t.returned[i].db, t.returned[i].build) && t.returned[i].db.schema <= t.db.schema
  {
    InvAfter(sum, s, labels);
  }

  /** Every launch is of this release. */
  predicate Only(build: Build, labels: seq<Label>) {
    forall i :: 0 <= i < |labels| ==> labels[i].event.Launch? ==> labels[i].event.build == build
  }

  ghost predicate OneBuild(build: Build, s: System) {
    && (forall node :: node in s.runs ==> s.runs[node].build == build)
    && s.db.schema <= Bodies(build.files)
  }

  lemma OneBuildDo(sum: Checksum, s: System, l: Label, build: Build)
    requires Inv(sum, s) && Possible(s, l) && OneBuild(build, s)
    requires l.event.Launch? ==> l.event.build == build
    ensures OneBuild(build, Do(sum, s, l))
  {
    var t := Do(sum, s, l);
    if t.db.schema != s.db.schema {
      var i := s.runs[l.node].pc.i;
      assert Knows(sum, s.db, s.runs[l.node]);
      assert t.db.schema == s.db.schema + [Bodies(build.files)[i]];
    }
  }

  lemma {:induction false} OneBuildAfter(sum: Checksum, s: System, labels: seq<Label>, build: Build)
    requires Inv(sum, s) && ValidRun(sum, s, labels) && Only(build, labels) && OneBuild(build, s)
    ensures OneBuild(build, After(sum, s, labels))
    decreases labels
  {
    if labels != [] {
      OneBuildDo(sum, s, labels[0], build);
      InvDo(sum, s, labels[0]);
      assert forall i :: 0 <= i < |labels[1..]| ==> labels[1..][i] == labels[i + 1];
      OneBuildAfter(sum, Do(sum, s, labels[0]), labels[1..], build);
    }
  }

  /** With one release, from an empty schema or one its files produced, the schema is
      always the files 1..n, each run once and in order. */
  lemma OneReleaseRunsItsFiles(sum: Checksum, s: System, labels: seq<Label>, build: Build)
    requires Quiet(sum, s) && ValidRun(sum, s, labels) && Only(build, labels)
    requires s.db.schema <= Bodies(build.files)
    ensures var db := After(sum, s, labels).db;
            |db.schema| <= |build.files| && db.schema == Bodies(build.files[..|db.schema|])
  {
    OneBuildAfter(sum, s, labels, build);
    var schema := After(sum, s, labels).db.schema;
    assert schema == Bodies(build.files)[..|schema|];
  }

  /** At most one node is past the lock; it never meets the error for a
      noncontiguous table, nor a version already recorded, and it is never blocked. */
  lemma LockHolderIsUndisturbed(sum: Checksum, s: System, labels: seq<Label>, node: nat, other: nat)
    requires Quiet(sum, s) && ValidRun(sum, s, labels)
    requires Holds(After(sum, s, labels), node)
    ensures var t := After(sum, s, labels);
            var run := t.runs[node];
            && (Holds(t, other) ==> other == node)
            && Possible(t, Label(node, Statement))
            && (run.pc.Measuring? ==> Advance(sum, t.db, run) == Running(run.pc.i))
            && (run.pc.Recording? ==> Advance(sum, t.db, run) == Committing(run.pc.i))
  {
    InvAfter(sum, s, labels);
    var t := After(sum, s, labels);
    assert Knows(sum, t.db, t.runs[node]);
    CleanLatest(sum, t.db);
  }

  // ---------------------------------------------------- uninterrupted runs

  predicate Follows(sum: Checksum, node: nat, s: System, t: System) {
    Possible(s, Label(node, Statement)) && t == Do(sum, s, Label(node, Statement))
  }

  /** A run of one node alone, no statement failing: from its first state to the one
      in which it has returned as Migrate does on the database `before`. */
  ghost predicate RunsToEnd(sum: Checksum, node: nat, states: seq<System>, build: Build, before: Db) {
    && |states| >= 1
    && (forall i :: 0 < i < |states| ==> Follows(sum, node, states[i - 1], states[i]))
    && Returned(sum, states[0].returned, states[|states| - 1], build, before)
  }

  ghost predicate Returned(sum: Checksum, earlier: seq<Return>, t: System, build: Build, before: Db) {
    exists ok :: Migrated(sum, before, build, t.db, ok) && t.returned == earlier + [Return(build, ok, t.db)]
  }

  /** Where an undisturbed run stands that found the database `before`. */
  ghost predicate OnCourse(sum: Checksum, db: Db, run: Run, before: Db) {
    InRange(run) &&
    match run.pc
    case Locking => db == before
    case Creating => db == before
    case Looking(i) => Reached(sum, db, run.build, i, before)
    case Measuring(i) => Reached(sum, db, run.build, i, before)
    case Running(i) => Reached(sum, db, run.build, i, before)
    case Recording(i) => Reached(sum, db, run.build, i, before)
    case Committing(i) => Reached(sum, db, run.build, i, before)
    case Checking => Reached(sum, db, run.build, |run.build.files|, before)
    case Unlocking(ok) => Migrated(sum, before, run.build, db, ok)
  }

  /** A bound on the statements left. */
  function Left(run: Run): nat
    requires InRange(run)
  {
    var n := |run.build.files|;
    match run.pc
    case Locking => 5 * n + 8
    case Creating => 5 * n + 7
    case Looking(i) => 5 * (n - i) + 6
    case Measuring(i) => 5 * (n - i) + 5
    case Running(i) => 5 * (n - i) + 4
    case Recording(i) => 5 * (n - i) + 3
    case Committing(i) => 5 * (n - i) + 2
    case Checking => 1
    case Unlocking(_) => 0
  }

  /** The top of the loop keeps an undisturbed run on course. */
  lemma NextOnCourse(sum: Checksum, db: Db, build: Build, i: nat, before: Db)
    requires Clean(sum, db) && Reached(sum, db, build, i, before)
    ensures match Next(build, i)
            case Looking(j) => j == i
            case Checking => i == |build.files|
            case Unlocking(ok) => Migrated(sum, before, build, db, ok)
            case _ => false
  {
  }

  lemma LookOnCourse(sum: Checksum, db: Db, build: Build, i: nat, before: Db)
    requires Clean(sum, db) && Reached(sum, db, build, i, before)
    requires Knows(sum, db, Run(build, Looking(i)))
    ensures match Advance(sum, db, Run(build, Looking(i)))
            case Measuring(j) => j == i
            case Unlocking(ok) => Migrated(sum, before, build, db, ok)
            case pc => pc == Next(build, i + 1) && Reached(sum, db, build, i + 1, before)
  {
    if i + 1 in Rows(db) {
      RecordedFile(sum, db, build, i, before);
      if Rows(db)[i + 1] == sum(build.files[i].body) {
        NextOnCourse(sum, db, build, i + 1, before);
      }
    }
  }

  /** A successful statement keeps the run on course and leaves fewer to do. */
  lemma AdvanceStaysOnCourse(sum: Checksum, db: Db, run: Run, before: Db)
    requires Clean(sum, db) && Knows(sum, db, run) && OnCourse(sum, db, run, before) && !run.pc.Unlocking?
    ensures var next := run.(pc := Advance(sum, db, run));
            OnCourse(sum, Effect(sum, db, run), next, before) && Left(next) < Left(run)
  {
    var build := run.build;
    match run.pc
    case Locking =>
    case Creating => NextOnCourse(sum, CreateTable(db), build, 0, before);
    case Looking(i) => LookOnCourse(sum, db, build, i, before);
    case Measuring(i) => CleanLatest(sum, db);
    case Running(i) =>
    case Recording(i) =>
    case Committing(i) =>
      MissingFile(sum, db, build, i, before);
      NextOnCourse(sum, Applied(sum, db, i + 1, build.files[i].body), build, i + 1, before);
    case Checking => ReachedEnd(sum, db, build, before);
  }

  ghost predicate Undisturbed(sum: Checksum, s: System, node: nat, build: Build, before: Db) {
    && Inv(sum, s) && node in s.runs && s.runs[node].build == build && (s.holder.None? || s.holder == Some(node))
    && OnCourse(sum, s.db, s.runs[node], before)
  }

  lemma StaysUndisturbed(sum: Checksum, s: System, node: nat, build: Build, before: Db)
    requires Undisturbed(sum, s, node, build, before) && !s.runs[node].pc.Unlocking?
    ensures Possible(s, Label(node, Statement))
    ensures var t := Do(sum, s, Label(node, Statement));
            Undisturbed(sum, t, node, build, before) && t.returned == s.returned && Left(t.runs[node]) < Left(s.runs[node])
  {
    assert Holds(s, node) <==> s.holder == Some(node);
    InvDo(sum, s, Label(node, Statement));
    AdvanceStaysOnCourse(sum, s.db, s.runs[node], before);
  }

  lemma EndsAtUnlock(sum: Checksum, s: System, node: nat, build: Build, ok: bool, before: Db)
    requires node in s.runs && s.runs[node] == Run(build, Unlocking(ok)) && Migrated(sum, before, build, s.db, ok)
    ensures RunsToEnd(sum, node, [s, Do(sum, s, Label(node, Statement))], build, before)
  {
    var t := Do(sum, s, Label(node, Statement));
    assert t.returned == s.returned + [Return(build, ok, t.db)];
    assert Follows(sum, node, s, t);
  }

  /** One statement before a run that ends. */
  lemma EndsEarlier(sum: Checksum, node: nat, s: System, states: seq<System>, build: Build, before: Db)
    requires RunsToEnd(sum, node, states, build, before)
    requires Follows(sum, node, s, states[0]) && states[0].returned == s.returned
    ensures RunsToEnd(sum, node, [s] + states, build, before)
  {
    var all := [s] + states;
    forall i | 0 < i < |all| ensures Follows(sum, node, all[i - 1], all[i]) {
      if i > 1 {
        assert Follows(sum, node, states[i - 2], states[i - 1]);
      }
    }
  }

  lemma {:induction false} CourseEnds(sum: Checksum, s: System, node: nat, build: Build, before: Db)
    returns (states: seq<System>)
    requires Undisturbed(sum, s, node, build, before)
    ensures RunsToEnd(sum, node, states, build, before) && states[0] == s
    decreases Left(s.runs[node])
  {
    var run := s.runs[node];
    if run.pc.Unlocking? {
      EndsAtUnlock(sum, s, node, build, run.pc.ok, before);
      return [s, Do(sum, s, Label(node, Statement))];
    }
    StaysUndisturbed(sum, s, node, build, before);
    var rest := CourseEnds(sum, Do(sum, s, Label(node, Statement)), node, build, before);
    EndsEarlier(sum, node, s, rest, build, before);
    return [s] + rest;
  }

  /** From every reachable state, a node that gets the lock and is not interrupted
      ends, and ends as Migrate does on its own: success exactly when its files pass
      and the schema then has the supported version. */
  lemma UninterruptedRunEnds(sum: Checksum, s: System, labels: seq<Label>, node: nat) returns (states: seq<System>)
    requires Quiet(sum, s) && ValidRun(sum, s, labels)
    requires After(sum, s, labels).holder.None? && node in After(sum, s, labels).runs
    ensures var t := After(sum, s, labels);
            RunsToEnd(sum, node, states, t.runs[node].build, t.db) && states[0] == t
  {
    InvAfter(sum, s, labels);
    var t := After(sum, s, labels);
    assert Holds(t, node) <==> t.holder == Some(node);
    states := CourseEnds(sum, t, node, t.runs[node].build, t.db);
  }
}
