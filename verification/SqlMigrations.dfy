/**
  The file-based migration runner of the SQLite stores, with its schema check and its self-healing
  second attempt.  Two things are taken from the comments beside the code, the `.sql` files not
  being part of this model: every CREATE is IF NOT EXISTS, and the first migration creates the
  tracker table.
*/
module SqlMigrations {
  import opened MigrationPrograms

  const TRACKER := "_migrations"

  // What discovery hands over: versions 1, 2, 3, ... in order.
  ghost predicate Discovered(migrations: seq<Migration>) {
    && (forall i :: 0 <= i < |migrations| ==> migrations[i].version == i + 1)
    && (migrations != [] ==> TRACKER in migrations[0].creates)
  }

  // Tracker rows live in the tracker table.
  ghost predicate RowsLiveInTable(db: Database) {
    TRACKER !in db.objects ==> db.tracked == {}
  }

  // The statements issued before the schema check.
  function MainProgram(db: Database, migrations: seq<Migration>): seq<Statement>
    requires migrations != []
  {
    if TRACKER in db.objects then Pending(migrations, db.tracked)
    else ApplyOne(migrations[0]) + Pending(migrations[1..], {migrations[0].version})
  }

  function Program(db: Database, migrations: seq<Migration>, required: set<string>): seq<Statement> {
    if migrations == [] then []
    else
      var main := MainProgram(db, migrations);
      if required <= ExecuteAll(db, main).objects then main else main + ApplyOne(migrations[0])
  }

  function Opened(db: Database, migrations: seq<Migration>, required: set<string>): Database {
    ExecuteAll(db, Program(db, migrations, required))
  }

  // A run returns normally when the required tables exist in the end, otherwise it raises.
  predicate Returns(db: Database, migrations: seq<Migration>, required: set<string>) {
    required <= Opened(db, migrations, required).objects
  }

  lemma DiscoveredVersionsAreDistinct(migrations: seq<Migration>)
    requires Discovered(migrations)
    ensures DistinctVersions(migrations)
  {
    forall m, n | m in migrations && n in migrations && m.version == n.version ensures m == n {
      var i :| 0 <= i < |migrations| && migrations[i] == m;
      var j :| 0 <= j < |migrations| && migrations[j] == n;
    }
  }

  // Before the schema check everything discovered is tracked, and exactly the objects of the
  // versions untracked at the start have been added.
  lemma MainProgramEffect(db: Database, migrations: seq<Migration>)
    requires migrations != [] && Discovered(migrations) && RowsLiveInTable(db)
    ensures ExecuteAll(db, MainProgram(db, migrations))
         == Database(db.objects + ObjectsOf(migrations, db.tracked), db.tracked + VersionsOf(migrations))
  {
    if TRACKER in db.objects {
      ExecutePending(db, migrations, db.tracked);
    } else {
      BootEffect(db, migrations);
    }
  }

  lemma BootEffect(db: Database, migrations: seq<Migration>)
    requires migrations != [] && Discovered(migrations)
    ensures ExecuteAll(db, ApplyOne(migrations[0]) + Pending(migrations[1..], {migrations[0].version}))
         == Database(db.objects + ObjectsOf(migrations, {}), db.tracked + VersionsOf(migrations))
  {
    var first, rest := migrations[0], migrations[1..];
    ExecuteApplyOne(db, first);
    ExecuteConcat(db, ApplyOne(first), Pending(rest, {first.version}));
    ExecutePending(ExecuteAll(db, ApplyOne(first)), rest, {first.version});
    SplitFirst(migrations);
  }

  lemma SplitFirst(migrations: seq<Migration>)
    requires migrations != [] && Discovered(migrations)
    ensures ObjectsOf(migrations, {}) == (set t | t in migrations[0].creates)
          + ObjectsOf(migrations[1..], {migrations[0].version})
    ensures VersionsOf(migrations) == {migrations[0].version} + VersionsOf(migrations[1..])
  {
    var first, rest := migrations[0], migrations[1..];
    assert forall m :: m in migrations <==> m == first || m in rest;
    assert first in migrations;
    forall m | m in rest ensures m.version != first.version {
      var i :| 0 <= i < |rest| && rest[i] == m;
      assert migrations[i + 1] == m;
    }
  }

  function Baseline(migrations: seq<Migration>): set<string>
    requires migrations != []
  {
    set t | t in migrations[0].creates
  }

  lemma OpenedEffect(db: Database, migrations: seq<Migration>, required: set<string>)
    requires migrations != [] && Discovered(migrations) && RowsLiveInTable(db)
    ensures var after := Opened(db, migrations, required);
            var made := db.objects + ObjectsOf(migrations, db.tracked);
            && after.tracked == db.tracked + VersionsOf(migrations)
            && after.objects == (if required <= made then made else made + Baseline(migrations))
            && TRACKER in after.objects
  {
    MainProgramEffect(db, migrations);
    var first := migrations[0];
    var main := MainProgram(db, migrations);
    ExecuteApplyOne(ExecuteAll(db, main), first);
    ExecuteConcat(db, main, ApplyOne(first));
    assert first in migrations && first.version in VersionsOf(migrations);
    if TRACKER !in db.objects {
      assert TRACKER in ObjectsOf(migrations, db.tracked);
    }
  }

  // Exactly which databases open: whatever is required must exist already, or belong to an
  // untracked version, or to the baseline.  A required table of a later, tracked version is never
  // healed.
  lemma {:induction false} ReturnsExactlyWhen(db: Database, migrations: seq<Migration>, required: set<string>)
    requires migrations != [] && Discovered(migrations) && RowsLiveInTable(db)
    ensures Returns(db, migrations, required) <==>
            required <= db.objects + ObjectsOf(migrations, db.tracked) + Baseline(migrations)
  {
    OpenedEffect(db, migrations, required);
  }

  // A table of the second migration that was dropped behind the tracker's back stays away: every start
  // fails.
  lemma LaterTableIsNotHealedExample()
    ensures var migrations := [Migration(1, [TRACKER, "a"]), Migration(2, ["b"])];
            !Returns(Database({TRACKER, "a"}, {1, 2}), migrations, {"b"})
  {
    var migrations := [Migration(1, [TRACKER, "a"]), Migration(2, ["b"])];
    var db := Database({TRACKER, "a"}, {1, 2});
    assert migrations[0].creates[0] == TRACKER;
    assert Discovered(migrations) && RowsLiveInTable(db);
    ReturnsExactlyWhen(db, migrations, {"b"});
    assert ObjectsOf(migrations, db.tracked) == {};
    assert "b" in {"b"} && "b" !in db.objects && "b" !in Baseline(migrations);
  }

  // A run that returns, from any database: every discovered version is tracked, every required
  // table exists, and the next run issues no statement at all.
  lemma ReturnedRunIsComplete(db: Database, migrations: seq<Migration>, required: set<string>)
    requires migrations != [] && Discovered(migrations) && RowsLiveInTable(db)
    requires Returns(db, migrations, required)
    ensures var after := Opened(db, migrations, required);
            && VersionsOf(migrations) <= after.tracked && required <= after.objects && RowsLiveInTable(after)
            && Program(after, migrations, required) == []
            && Returns(after, migrations, required)
  {
    OpenedEffect(db, migrations, required);
    var after := Opened(db, migrations, required);
    NothingPending(migrations, after.tracked);
  }

  // A run that raises will raise again: the attempt has healed all it can.
  lemma {:induction false} RaisedRunRaisesAgain(db: Database, migrations: seq<Migration>, required: set<string>)
    requires migrations != [] && Discovered(migrations) && RowsLiveInTable(db)
    requires !Returns(db, migrations, required)
    ensures !Returns(Opened(db, migrations, required), migrations, required)
  {
    OpenedEffect(db, migrations, required);
    ReturnsExactlyWhen(Opened(db, migrations, required), migrations, required);
  }

  lemma {:induction false} NothingPending(migrations: seq<Migration>, skip: set<nat>)
    requires VersionsOf(migrations) <= skip
    ensures Pending(migrations, skip) == []
  {
    if migrations != [] {
      assert migrations[|migrations| - 1].version in VersionsOf(migrations);
      NothingPending(migrations[..|migrations| - 1], skip);
    }
  }

  /******* Runs that are killed *******/

  // The database after attempts killed after `cuts[0]`, `cuts[1]`, ... statements.
  function Attempts(db: Database, migrations: seq<Migration>, required: set<string>, cuts: seq<nat>): Database {
    if cuts == [] then db
    else
      var before := Attempts(db, migrations, required, cuts[..|cuts| - 1]);
      var program := Program(before, migrations, required);
      var k := cuts[|cuts| - 1];
      ExecuteAll(before, if k < |program| then program[..k] else program)
  }

  lemma ProgramTracksLast(db: Database, migrations: seq<Migration>, required: set<string>)
    requires Discovered(migrations)
    ensures TracksLast(Program(db, migrations, required), migrations)
  {
    if migrations != [] {
      DiscoveredVersionsAreDistinct(migrations);
      PendingTracksLast(migrations, db.tracked, migrations);
      PendingTracksLast(migrations[1..], {migrations[0].version}, migrations);
      ApplyOneTracksLast(migrations[0], migrations);
      TracksLastConcat(ApplyOne(migrations[0]), Pending(migrations[1..], {migrations[0].version}), migrations);
      TracksLastConcat(MainProgram(db, migrations), ApplyOne(migrations[0]), migrations);
    }
  }

  // In every state left by any number of killed attempts a tracked version has all its tables, and
  // no tracker row was ever inserted without the tracker table.
  lemma {:induction false} KilledAttemptsKeepTrackedBuilt(
      db: Database, migrations: seq<Migration>, required: set<string>, cuts: seq<nat>)
    requires Discovered(migrations) && TrackedIsBuilt(db, migrations) && RowsLiveInTable(db)
    ensures var after := Attempts(db, migrations, required, cuts);
            TrackedIsBuilt(after, migrations) && RowsLiveInTable(after)
  {
    if cuts != [] {
      KilledAttemptsKeepTrackedBuilt(db, migrations, required, cuts[..|cuts| - 1]);
      var before := Attempts(db, migrations, required, cuts[..|cuts| - 1]);
      var program := Program(before, migrations, required);
      var k := if cuts[|cuts| - 1] < |program| then cuts[|cuts| - 1] else |program|;
      assert program[..|program|] == program;
      ProgramTracksLast(before, migrations, required);
      KilledProgramTracksOnlyBuilt(before, program, k, migrations);
      TrackerComesFirst(before, migrations, required, k);
    }
  }

  lemma CreatesTrackNothing(objects: seq<string>, k: nat)
    requires k <= |objects|
    ensures Tracked(CreatesOf(objects)[..k]) == {}
  {
    assert forall s :: s in CreatesOf(objects)[..k] ==> s.Create?;
  }

  lemma TrackerComesFirst(db: Database, migrations: seq<Migration>, required: set<string>, k: nat)
    requires Discovered(migrations) && RowsLiveInTable(db) && k <= |Program(db, migrations, required)|
    ensures RowsLiveInTable(ExecuteAll(db, Program(db, migrations, required)[..k]))
  {
    var program := Program(db, migrations, required);
    if migrations != [] && TRACKER !in db.objects {
      BootStartsWithCreates(db, migrations, required);
      CreatesBeforeTracking(db, migrations[0].creates, program, k);
    } else {
      ExecuteAdds(db, program[..k]);
    }
  }

  lemma BootStartsWithCreates(db: Database, migrations: seq<Migration>, required: set<string>)
    requires migrations != [] && TRACKER !in db.objects
    ensures var program, creates := Program(db, migrations, required), CreatesOf(migrations[0].creates);
            |creates| <= |program| && program[..|creates|] == creates
  {
    var creates := CreatesOf(migrations[0].creates);
    var main := MainProgram(db, migrations);
    assert main == creates + ([Track(migrations[0].version)] + Pending(migrations[1..], {migrations[0].version}));
    assert main[..|creates|] == creates;
  }

  // A program that starts by creating the tracker among other objects.
  lemma CreatesBeforeTracking(db: Database, objects: seq<string>, program: seq<Statement>, k: nat)
    requires |objects| <= |program| && program[..|objects|] == CreatesOf(objects) && TRACKER in objects
    requires db.tracked == {} && k <= |program|
    ensures RowsLiveInTable(ExecuteAll(db, program[..k]))
  {
    ExecuteAdds(db, program[..k]);
    if k <= |objects| {
      assert program[..k] == CreatesOf(objects)[..k];
      CreatesTrackNothing(objects, k);
    } else {
      var i :| 0 <= i < |objects| && objects[i] == TRACKER;
      assert program[..|objects|][i] == Create(TRACKER) && program[..k][i] == Create(TRACKER);
    }
  }

  // No version is tracked before an earlier one.
  ghost predicate TrackedInOrder(db: Database, migrations: seq<Migration>) {
    forall i, j :: 0 <= i < j < |migrations| && migrations[j].version in db.tracked ==>
      migrations[i].version in db.tracked
  }

  lemma {:induction false} BootIsPending(migrations: seq<Migration>)
    requires migrations != [] && Discovered(migrations)
    ensures ApplyOne(migrations[0]) + Pending(migrations[1..], {migrations[0].version}) == Pending(migrations, {})
  {
    var first, rest := migrations[0], migrations[1..];
    assert migrations == [first] + rest;
    PendingConcat([first], rest, {});
    PendingOne(first);
    SkippingNone(rest, {first.version});
  }

  lemma {:induction false} PendingOne(m: Migration)
    ensures Pending([m], {}) == ApplyOne(m)
  {
    assert [m][..0] == [];
  }

  lemma {:induction false} SkippingNone(migrations: seq<Migration>, skip: set<nat>)
    requires forall m :: m in migrations ==> m.version !in skip
    ensures Pending(migrations, skip) == Pending(migrations, {})
  {
    if migrations != [] {
      assert migrations[|migrations| - 1] in migrations;
      SkippingNone(migrations[..|migrations| - 1], skip);
    }
  }

  lemma {:induction false} MainIsPending(db: Database, migrations: seq<Migration>)
    requires migrations != [] && Discovered(migrations) && RowsLiveInTable(db)
    ensures MainProgram(db, migrations) == Pending(migrations, db.tracked)
  {
    if TRACKER !in db.objects {
      BootIsPending(migrations);
    }
  }

  lemma {:induction false} ProgramTracksInOrder(db: Database, migrations: seq<Migration>, required: set<string>, k: nat)
    requires Discovered(migrations) && RowsLiveInTable(db) && TrackedInOrder(db, migrations)
    requires k <= |Program(db, migrations, required)|
    ensures TrackedInOrder(ExecuteAll(db, Program(db, migrations, required)[..k]), migrations)
  {
    var program := Program(db, migrations, required);
    if migrations != [] {
      MainIsPending(db, migrations);
      var main := Pending(migrations, db.tracked);
      if k <= |main| {
        assert program[..k] == main[..k];
        MainTracksInOrder(db, migrations, k);
      } else {
        assert program[..k] == main + program[|main|..k];
        CompletePassTracksAll(db, migrations, program[|main|..k]);
      }
    }
  }

  lemma CompletePassTracksAll(db: Database, migrations: seq<Migration>, more: seq<Statement>)
    ensures TrackedInOrder(ExecuteAll(db, Pending(migrations, db.tracked) + more), migrations)
  {
    var main := Pending(migrations, db.tracked);
    ExecuteAdds(db, main + more);
    ContentsConcat(main, more);
    PendingContents(migrations, db.tracked);
    forall i | 0 <= i < |migrations| ensures migrations[i].version in ExecuteAll(db, main + more).tracked {
      assert migrations[i] in migrations && migrations[i].version in VersionsOf(migrations);
    }
  }

  lemma MainTracksInOrder(db: Database, migrations: seq<Migration>, k: nat)
    requires Discovered(migrations) && TrackedInOrder(db, migrations) && k <= |Pending(migrations, db.tracked)|
    ensures TrackedInOrder(ExecuteAll(db, Pending(migrations, db.tracked)[..k]), migrations)
  {
    var after := ExecuteAll(db, Pending(migrations, db.tracked)[..k]);
    ExecuteAdds(db, Pending(migrations, db.tracked)[..k]);
    assert NoVersionTwice(migrations);
    forall i, j | 0 <= i < j < |migrations| && migrations[j].version in after.tracked
      ensures migrations[i].version in after.tracked
    {
      if migrations[j].version !in db.tracked {
        KilledPassTracksInOrder(db, migrations, db.tracked, k, i, j);
      }
    }
  }

  // After any number of killed attempts the tracked versions reach up to some version without a gap, if
  // they did before.
  lemma {:induction false} KilledAttemptsTrackInOrder(
      db: Database, migrations: seq<Migration>, required: set<string>, cuts: seq<nat>)
    requires Discovered(migrations) && RowsLiveInTable(db) && TrackedInOrder(db, migrations)
    requires TrackedIsBuilt(db, migrations)
    ensures TrackedInOrder(Attempts(db, migrations, required, cuts), migrations)
  {
    if cuts != [] {
      var n := |cuts| - 1;
      KilledAttemptsTrackInOrder(db, migrations, required, cuts[..n]);
      KilledAttemptsKeepTrackedBuilt(db, migrations, required, cuts[..n]);
      var before := Attempts(db, migrations, required, cuts[..n]);
      var program := Program(before, migrations, required);
      assert program[..|program|] == program;
      ProgramTracksInOrder(before, migrations, required, if cuts[n] < |program| then cuts[n] else |program|);
    }
  }

  // Recovery: after any killed attempts on a new file, one complete run leaves every version
  // tracked and every table of every version in place, so it returns whenever the required tables
  // belong to some migration.
  lemma CompleteRunRecovers(migrations: seq<Migration>, required: set<string>, cuts: seq<nat>)
    requires migrations != [] && Discovered(migrations) && required <= ObjectsOf(migrations, {})
    ensures var before := Attempts(Database({}, {}), migrations, required, cuts);
            var after := Opened(before, migrations, required);
            && Returns(before, migrations, required)
            && VersionsOf(migrations) <= after.tracked
            && ObjectsOf(migrations, {}) <= after.objects
  {
    KilledAttemptsKeepTrackedBuilt(Database({}, {}), migrations, required, cuts);
    var before := Attempts(Database({}, {}), migrations, required, cuts);
    OpenedEffect(before, migrations, required);
  }

  lemma HealingComesLast(db: Database, migrations: seq<Migration>, required: set<string>)
    requires migrations != []
    ensures var main := MainProgram(db, migrations);
            var healthy := required <= ExecuteAll(db, main).objects;
            && Program(db, migrations, required) == (if healthy then main else main + ApplyOne(migrations[0]))
            && Opened(db, migrations, required)
               == if healthy then ExecuteAll(db, main) else ExecuteAll(ExecuteAll(db, main), ApplyOne(migrations[0]))
  {
    ExecuteConcat(db, MainProgram(db, migrations), ApplyOne(migrations[0]));
  }

  /******* The runner *******/

  // `log` lists the statements executed; the state changes by nothing else, so a killed run leaves
  // the effect of a prefix of what it would have logged.
  class Connection {
    var objects: set<string>
    var tracked: set<nat>
    ghost var log: seq<Statement>

    ghost function State(): Database
      reads this
    {
      Database(objects, tracked)
    }

    constructor (db: Database)
      ensures State() == db && log == []
    {
      objects, tracked, log := db.objects, db.tracked, [];
    }

    method Run(s: Statement)
      modifies this
      ensures log == old(log) + [s] && State() == Execute(old(State()), s)
    {
      match s {
        case Create(name) => objects := objects + {name};
        case Track(version) => tracked := tracked + {version};
      }
      log := log + [s];
    }
  }

  // Since the old state the connection has run exactly `program`.
  twostate predicate Ran(conn: Connection, program: seq<Statement>)
    reads conn
  {
    conn.log == old(conn.log) + program && conn.State() == ExecuteAll(old(conn.State()), program)
  }

  class Store {
    const conn: Connection
    const required: set<string>

    constructor (conn: Connection, required: set<string>)
      ensures this.conn == conn && this.required == required
    {
      this.conn, this.required := conn, required;
    }

    method ApplyMigration(m: Migration)
      modifies conn
      ensures Ran(conn, ApplyOne(m))
    {
      for i := 0 to |m.creates|
        invariant Ran(conn, CreatesOf(m.creates)[..i])
      {
        var creates := CreatesOf(m.creates);
        conn.Run(creates[i]);
        assert creates[..i + 1][..i] == creates[..i];
      }
      conn.Run(Track(m.version));
      assert ApplyOne(m)[..|m.creates|] == CreatesOf(m.creates)[..|m.creates|];
    }

    // The loop over the migrations that remain.
    method ApplyPending(rest: seq<Migration>, applied: set<nat>)
      modifies conn
      ensures Ran(conn, Pending(rest, applied))
    {
      for i := 0 to |rest|
        invariant Ran(conn, Pending(rest[..i], applied))
      {
        assert rest[..i + 1][..i] == rest[..i];
        if rest[i].version in applied {
          assert Pending(rest[..i + 1], applied) == Pending(rest[..i], applied);
          continue;
        }
        ghost var before, done := conn.State(), Pending(rest[..i], applied);
        ApplyMigration(rest[i]);
        ExecuteConcat(old(conn.State()), done, ApplyOne(rest[i]));
        assert Pending(rest[..i + 1], applied) == done + ApplyOne(rest[i]);
        assert conn.State() == ExecuteAll(before, ApplyOne(rest[i]));
      }
      assert rest[..|rest|] == rest;
    }

    // A database without a tracker: the first migration makes it, then the others follow.
    method Bootstrap(migrations: seq<Migration>)
      requires migrations != [] && RowsLiveInTable(conn.State()) && TRACKER !in conn.objects
      modifies conn
      ensures Ran(conn, MainProgram(old(conn.State()), migrations))
    {
      ghost var before, log, version := conn.State(), conn.log, migrations[0].version;
      ghost var first, others := ApplyOne(migrations[0]), Pending(migrations[1..], {version});
      ApplyMigration(migrations[0]);
      assert conn.tracked == {version} by {
        ExecuteApplyOne(before, migrations[0]);
      }
      ghost var booted := conn.State();
      ApplyPending(migrations[1..], conn.tracked);
      assert conn.State() == ExecuteAll(booted, others);
      ExecuteConcat(before, first, others);
      assert conn.log == log + first + others == log + (first + others);
    }

    method RunMain(migrations: seq<Migration>)
      requires migrations != [] && RowsLiveInTable(conn.State())
      modifies conn
      ensures Ran(conn, MainProgram(old(conn.State()), migrations))
    {
      if TRACKER !in conn.objects {
        Bootstrap(migrations);
      } else {
        ApplyPending(migrations, conn.tracked);
      }
    }

    // False stands for the exception; either way the statements issued are those of `Program`.
    method RunMigrations(migrations: seq<Migration>) returns (ok: bool)
      requires RowsLiveInTable(conn.State())
      modifies conn
      ensures Ran(conn, Program(old(conn.State()), migrations, required))
      ensures ok == Returns(old(conn.State()), migrations, required)
    {
      if migrations == [] {
        return required <= conn.objects;
      }
      RunMain(migrations);
      HealingComesLast(old(conn.State()), migrations, required);
      if !(required <= conn.objects) {
        ApplyMigration(migrations[0]);
      }
      return required <= conn.objects;
    }
  }
}
