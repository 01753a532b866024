/** Startup migrations: one run of Migrate, statement by statement. */
module Migration {
  import opened Ceremonies
  import opened Dates
  import opened Decimal

  type Body = string

  /** The checksum of a file body. */
  type Checksum = Body -> string

  datatype File = File(name: string, body: Body)

  /** One release of the program: its embedded files in directory order and the
      schema version it supports, which is the constant schemaVersion. */
  datatype Build = Build(files: seq<File>, supported: nat)

  type Versions = map<nat, string>

  /** The committed database: the migration table, and what migrations have done
      to the schema, as the list of bodies run so far. */
  datatype Db = Db(table: Option<Versions>, schema: seq<Body>)

  function Rows(db: Db): Versions {
    if db.table.None? then map[] else db.table.value
  }

  // -------------------------------------------------------------- statements

  predicate IsLatest(rows: Versions, n: nat) {
    (forall v :: v in rows ==> v <= n) && (n in rows || (n == 0 && rows == map[]))
  }

  /** COALESCE(max(version), 0). */
  function Latest(rows: Versions): (n: nat)
    ensures IsLatest(rows, n)
  {
    HasLatest(rows);
    var n: nat :| IsLatest(rows, n);
    n
  }

  lemma {:induction false} HasLatest(rows: Versions)
    ensures exists n: nat :: IsLatest(rows, n)
    decreases |rows|
  {
    if rows == map[] {
      assert IsLatest(rows, 0);
    } else {
      var v :| v in rows;
      var rest := rows - {v};
      HasLatest(rest);
      var n: nat :| IsLatest(rest, n);
      assert forall w :: w in rows <==> w == v || w in rest;
      assert IsLatest(rows, if n in rest && n > v then n else v);
    }
  }

  /** A version padded to three digits. */
  function Padded(version: nat): string {
    var digits := NatText(version);
    (if |digits| == 1 then "00" else if |digits| == 2 then "0" else "") + digits
  }

  /** The names count up from 001_. */
  predicate Named(file: File, version: nat) {
    Padded(version) + "_" <= file.name
  }

  lemma PaddedDigits(version: nat)
    requires version < 1000
    ensures Padded(version) == [DigitChar(version / 100), DigitChar(version / 10 % 10), DigitChar(version % 10)]
  {
    var last := [DigitChar(version % 10)];
    assert DigitChar(0) == '0';
    if version < 10 {
      assert NatText(version) == last;
      assert Padded(version) == ['0', '0'] + last;
    } else if version < 100 {
      assert NatText(version) == [DigitChar(version / 10)] + last;
      assert Padded(version) == ['0'] + ([DigitChar(version / 10)] + last);
    } else {
      assert NatText(version / 100) == [DigitChar(version / 100)];
      assert NatText(version / 10) == NatText(version / 100) + [DigitChar(version / 10 % 10)];
      assert NatText(version) == NatText(version / 10) + last;
      assert Padded(version) == [] + NatText(version);
    }
  }

  lemma ThreeDigits(a: nat, b: nat, c: nat, n: nat)
    requires a < 10 && b < 10 && c < 10
    ensures 100 * a + 10 * b + c == n <==> n < 1000 && a == n / 100 && b == n / 10 % 10 && c == n % 10
  {
  }

  lemma SameDigit(c: char, n: nat)
    requires n < 10
    ensures c == DigitChar(n) <==> IsDigit(c) && DigitValue(c) == n
  {
  }

  lemma FourCharacters(s: string, a: char, b: char, c: char, d: char)
    ensures [a, b, c] + [d] <= s <==> |s| >= 4 && s[0] == a && s[1] == b && s[2] == c && s[3] == d
  {
    assert |s| >= 4 ==> s[..4] == [s[0], s[1], s[2], s[3]];
  }

  /** For versions of up to three digits the name starts with exactly three digits
      that read as the version, and an underscore. */
  lemma NamedIsThreeDigits(file: File, version: nat)
    requires version < 1000
    ensures Named(file, version) <==>
            && |file.name| >= 4 && file.name[3] == '_'
            && IsDigit(file.name[0]) && IsDigit(file.name[1]) && IsDigit(file.name[2])
            && 100 * DigitValue(file.name[0]) + 10 * DigitValue(file.name[1]) + DigitValue(file.name[2]) == version
  {
    var name, a, b, c := file.name, version / 100, version / 10 % 10, version % 10;
    PaddedDigits(version);
    FourCharacters(name, DigitChar(a), DigitChar(b), DigitChar(c), '_');
    if |name| >= 4 {
      SameDigit(name[0], a);
      SameDigit(name[1], b);
      SameDigit(name[2], c);
      if IsDigit(name[0]) && IsDigit(name[1]) && IsDigit(name[2]) {
        ThreeDigits(DigitValue(name[0]), DigitValue(name[1]), DigitValue(name[2]), version);
      }
    }
  }

  /** The repository's own two files are named in sequence. */
  lemma OwnFilesAreNamed(first: Body, second: Body)
    ensures Named(File("001_core.sql", first), 1) && Named(File("002_admin_history.sql", second), 2)
  {
    NamedIsThreeDigits(File("001_core.sql", first), 1);
    NamedIsThreeDigits(File("002_admin_history.sql", second), 2);
  }

  function CreateTable(db: Db): Db {
    if db.table.None? then db.(table := Some(map[])) else db
  }

  /** Commit of a transaction that ran a body and recorded its version. */
  function Applied(sum: Checksum, db: Db, version: nat, body: Body): Db {
    Db(Some(Rows(db)[version := sum(body)]), db.schema + [body])
  }

  /** checkSchema. */
  predicate Supports(db: Db, version: nat) {
    db.table.Some? && |Rows(db)| == version && Latest(Rows(db)) == version
  }

  // ------------------------------------------------------------------- nodes

  /** Where a run of Migrate stands: the statement it does next. */
  datatype Pc =
    | Locking
    | Creating
    | Looking(i: nat)
    | Measuring(i: nat)
    | Running(i: nat)
    | Recording(i: nat)
    | Committing(i: nat)
    | Checking
    | Unlocking(ok: bool)

  datatype Run = Run(build: Build, pc: Pc)

  /** The top of the loop: the end, or the name check of the next file. */
  function Next(build: Build, i: nat): Pc {
    if i >= |build.files| then Checking
    else if Named(build.files[i], i + 1) then Looking(i)
    else Unlocking(false)
  }

  predicate InRange(run: Run) {
    match run.pc
    case Looking(i) => i < |run.build.files|
    case Measuring(i) => i < |run.build.files|
    case Running(i) => i < |run.build.files|
    case Recording(i) => i < |run.build.files|
    case Committing(i) => i < |run.build.files|
    case _ => true
  }

  /** The run after its next statement succeeds, the lock being free for Locking. */
  function Advance(sum: Checksum, db: Db, run: Run): Pc
    requires InRange(run)
  {
    var build := run.build;
    match run.pc
    case Locking => Creating
    case Creating => Next(build, 0)
    case Looking(i) =>
      if i + 1 !in Rows(db) then Measuring(i)
      else if Rows(db)[i + 1] == sum(build.files[i].body) then Next(build, i + 1)
      else Unlocking(false)
    case Measuring(i) => if Latest(Rows(db)) == i then Running(i) else Unlocking(false)
    case Running(i) => Recording(i)
    case Recording(i) => if i + 1 in Rows(db) then Unlocking(false) else Committing(i)
    case Committing(i) => Next(build, i + 1)
    case Checking => Unlocking(Supports(db, build.supported))
    case Unlocking(ok) => Unlocking(ok)
  }

  /** What that statement commits. */
  function Effect(sum: Checksum, db: Db, run: Run): Db
    requires InRange(run)
  {
    match run.pc
    case Creating => CreateTable(db)
    case Committing(i) => Applied(sum, db, i + 1, run.build.files[i].body)
    case _ => db
  }

  // ------------------------------------------------------------- whole states

  /** A clean database: the versions are exactly 1..n, one for each body of the
      schema in order, each with that body's checksum. */
  ghost predicate Clean(sum: Checksum, db: Db) {
    && (forall v :: v in Rows(db) <==> 1 <= v <= |db.schema|)
    && (forall v :: 1 <= v <= |db.schema| ==> v in Rows(db) && Rows(db)[v] == sum(db.schema[v - 1]))
  }

  /** The first `n` files are named in sequence and recorded with their checksums. */
  ghost predicate Matches(sum: Checksum, db: Db, build: Build, n: nat) {
    && n <= |build.files| && n <= |db.schema|
    && forall i :: 0 <= i < n ==> Named(build.files[i], i + 1) && sum(db.schema[i]) == sum(build.files[i].body)
  }

  lemma {:induction false} CountVersions(rows: Versions, n: nat)
    requires forall v :: v in rows <==> 1 <= v <= n
    ensures |rows| == n && Latest(rows) == n
    decreases n
  {
    if n == 0 {
      assert rows == map[];
    } else {
      var rest := rows - {n};
      assert forall v :: v in rest <==> 1 <= v <= n - 1;
      CountVersions(rest, n - 1);
      assert rows.Keys == rest.Keys + {n};
      assert IsLatest(rows, Latest(rows));
    }
  }

  lemma CleanLatest(sum: Checksum, db: Db)
    requires Clean(sum, db)
    ensures Latest(Rows(db)) == |db.schema| == |Rows(db)|
  {
    CountVersions(Rows(db), |db.schema|);
  }

  lemma AppliedIsClean(sum: Checksum, db: Db, body: Body)
    requires Clean(sum, db)
    ensures Clean(sum, Applied(sum, db, |db.schema| + 1, body))
  {
    var next := Applied(sum, db, |db.schema| + 1, body);
    assert forall i :: 0 <= i < |db.schema| ==> next.schema[i] == db.schema[i];
  }

  /** Count and maximum alone tell a contiguous table, if versions are positive. */
  lemma CheckSchemaIsContiguity(db: Db, version: nat)
    requires db.table.Some? && 0 !in Rows(db)
    ensures Supports(db, version) <==> forall v :: v in Rows(db) <==> 1 <= v <= version
  {
    var rows := Rows(db);
    if Supports(db, version) {
      assert |rows.Keys| == |rows|;
      assert rows.Keys <= UpTo(version);
      SubsetOfSameSize(rows.Keys, UpTo(version));
    } else if forall v :: v in rows <==> 1 <= v <= version {
      CountVersions(rows, version);
    }
  }

  function UpTo(n: nat): (versions: set<nat>)
    ensures forall v :: v in versions <==> 1 <= v <= n
    ensures |versions| == n
  {
    if n == 0 then {} else UpTo(n - 1) + {n}
  }

  lemma SubsetOfSameSize<T>(a: set<T>, b: set<T>)
    requires a <= b && |a| == |b|
    ensures a == b
  {
    assert |b - a| == |b| - |a|;
  }

  // ------------------------------------------------------- one run on its own

  /** How many leading files pass the name and checksum tests, from file i. */
  function Passing(sum: Checksum, db: Db, build: Build, i: nat): (n: nat)
    requires i <= |build.files|
    ensures i <= n <= |build.files|
    decreases |build.files| - i
  {
    if i == |build.files| || !Named(build.files[i], i + 1) || (i < |db.schema| && sum(db.schema[i]) != sum(build.files[i].body))
    then i
    else Passing(sum, db, build, i + 1)
  }

  function Bodies(files: seq<File>): (bodies: seq<Body>)
    ensures |bodies| == |files| && forall i :: 0 <= i < |files| ==> bodies[i] == files[i].body
  {
    seq(|files|, i requires 0 <= i < |files| => files[i].body)
  }

  /** The schema with the files from its own length up to `n` run on top. */
  function Extended(schema: seq<Body>, build: Build, n: nat): seq<Body>
    requires n <= |build.files|
  {
    if n <= |schema| then schema else schema + Bodies(build.files[|schema|..n])
  }

  lemma ExtendedMore(schema: seq<Body>, build: Build, n: nat)
    requires n < |build.files|
    ensures Extended(schema, build, n + 1) ==
            if n < |schema| then schema else Extended(schema, build, n) + [build.files[n].body]
  {
    if n >= |schema| {
      assert build.files[|schema|..n + 1] == build.files[|schema|..n] + [build.files[n]];
      assert Bodies(build.files[|schema|..n + 1]) == Bodies(build.files[|schema|..n]) + [build.files[n].body];
    }
  }

  lemma {:induction false} PassingMatches(sum: Checksum, db: Db, build: Build, i: nat)
    requires i <= |build.files|
    ensures forall j :: i <= j < Passing(sum, db, build, i) ==>
              Named(build.files[j], j + 1) && (j < |db.schema| ==> sum(db.schema[j]) == sum(build.files[j].body))
    ensures var n := Passing(sum, db, build, i);
            n < |build.files| ==> !Named(build.files[n], n + 1) || (n < |db.schema| && sum(db.schema[n]) != sum(build.files[n].body))
    decreases |build.files| - i
  {
    if i < |build.files| {
      PassingMatches(sum, db, build, i + 1);
    }
  }

  /** What a run leaves that no failing statement interrupts: the missing files up
      to the first one that does not pass have been run, and it succeeds exactly
      when every file passes and the schema then has the supported version. */
  ghost predicate Migrated(sum: Checksum, before: Db, build: Build, after: Db, ok: bool) {
    && Clean(sum, after) && after.table.Some?
    && var n := Passing(sum, before, build, 0);
       && after.schema == Extended(before.schema, build, n)
       && (ok <==> n == |build.files| && |after.schema| == build.supported)
  }

  /** The loop has dealt with the files before `i`. */
  ghost predicate Reached(sum: Checksum, db: Db, build: Build, i: nat, before: Db) {
    && i <= |build.files| && db.table.Some?
    && db.schema == Extended(before.schema, build, i)
    && Passing(sum, before, build, 0) == Passing(sum, before, build, i)
  }

  lemma PassesFile(sum: Checksum, db: Db, build: Build, i: nat, before: Db)
    requires Reached(sum, db, build, i, before) && i < |build.files| && Named(build.files[i], i + 1)
    requires i < |before.schema| ==> sum(before.schema[i]) == sum(build.files[i].body)
    ensures Passing(sum, before, build, 0) == Passing(sum, before, build, i + 1)
  {
  }

  /** A recorded file: it passes if its checksum is the recorded one, and otherwise
      the run ends where it stands. */
  lemma RecordedFile(sum: Checksum, db: Db, build: Build, i: nat, before: Db)
    requires Clean(sum, db) && Reached(sum, db, build, i, before)
    requires i < |build.files| && Named(build.files[i], i + 1) && i + 1 in Rows(db)
    ensures if Rows(db)[i + 1] == sum(build.files[i].body) then Reached(sum, db, build, i + 1, before)
            else Migrated(sum, before, build, db, false)
  {
    assert i < |db.schema|;
    ExtendedMore(before.schema, build, i);
    assert i < |before.schema| && db.schema == before.schema;
    if Rows(db)[i + 1] == sum(build.files[i].body) {
      PassesFile(sum, db, build, i, before);
    }
  }

  /** A missing file comes right after the schema, and running it keeps the table clean. */
  lemma MissingFile(sum: Checksum, db: Db, build: Build, i: nat, before: Db)
    requires Clean(sum, db) && Reached(sum, db, build, i, before)
    requires i < |build.files| && Named(build.files[i], i + 1) && i + 1 !in Rows(db)
    ensures Latest(Rows(db)) == i
    ensures var next := Applied(sum, db, i + 1, build.files[i].body);
            Clean(sum, next) && Reached(sum, next, build, i + 1, before)
  {
    CleanLatest(sum, db);
    assert i == |db.schema| && |before.schema| <= i;
    AppliedIsClean(sum, db, build.files[i].body);
    ExtendedMore(before.schema, build, i);
    PassesFile(sum, db, build, i, before);
  }

  lemma ReachedEnd(sum: Checksum, db: Db, build: Build, before: Db)
    requires Clean(sum, db) && Reached(sum, db, build, |build.files|, before)
    ensures Migrated(sum, before, build, db, Supports(db, build.supported))
  {
    CleanLatest(sum, db);
  }

  class Database {
    var table: Option<Versions>
    var schema: seq<Body>

    function Contents(): Db
      reads this
    {
      Db(table, schema)
    }

    constructor (db: Db)
      ensures Contents() == db
    {
      table, schema := db.table, db.schema;
    }

    /** CREATE TABLE IF NOT EXISTS. */
    method Create()
      modifies this
      ensures Contents() == CreateTable(old(Contents()))
    {
      if table.None? {
        table := Some(map[]);
      }
    }

    /** The transaction that runs one file and records it. */
    method Apply(sum: Checksum, version: nat, body: Body)
      requires table.Some?
      modifies this
      ensures Contents() == Applied(sum, old(Contents()), version, body)
    {
      schema := schema + [body];
      table := Some(table.value[version := sum(body)]);
    }

    /** Migrate from a clean database, with no statement failing. */
    method Migrate(sum: Checksum, build: Build) returns (ok: bool)
      requires Clean(sum, Contents())
      modifies this
      ensures Migrated(sum, old(Contents()), build, Contents(), ok)
    {
      ghost var start := Contents();
      Create();
      var i := 0;
      while i < |build.files|
        invariant i <= |build.files| && Clean(sum, Contents()) && Reached(sum, Contents(), build, i, start)
      {
        if !Named(build.files[i], i + 1) {
          return false;
        }
        var checksum := sum(build.files[i].body);
        if i + 1 in table.value {
          RecordedFile(sum, Contents(), build, i, start);
          if table.value[i + 1] != checksum {
            return false;
          }
        } else {
          MissingFile(sum, Contents(), build, i, start);
          if Latest(table.value) != i {
            return false;
          }
          Apply(sum, i + 1, build.files[i].body);
        }
        i := i + 1;
      }
      ReachedEnd(sum, Contents(), build, start);
      ok := Supports(Contents(), build.supported);
    }
  }
}
