/**
  The Cypher migration runner.  Version 1 is applied on every run, the others once.
*/
module GraphMigrations {
  import opened MigrationPrograms

  datatype MigrationResult = MigrationResult(applied: seq<Migration>, skipped: seq<Migration>)

  // The versions a run leaves out: those already tracked, except the bootstrap version 1.
  function Skips(tracked: set<nat>): set<nat> {
    tracked - {1}
  }

  function Keep(migrations: seq<Migration>, versions: set<nat>): (r: seq<Migration>)
    ensures forall m :: m in r <==> m in migrations && m.version in versions
  {
    if migrations == [] then []
    else
      var last := migrations[|migrations| - 1];
      assert migrations == migrations[..|migrations| - 1] + [last];
      Keep(migrations[..|migrations| - 1], versions) + (if last.version in versions then [last] else [])
  }

  function AppliedBy(migrations: seq<Migration>, tracked: set<nat>): seq<Migration> {
    Keep(migrations, VersionsOf(migrations) - Skips(tracked))
  }

  // What a run applies and what it skips, each in the order of the migrations.
  lemma {:induction false} AppliedIsExact(migrations: seq<Migration>, tracked: set<nat>)
    ensures forall m :: m in AppliedBy(migrations, tracked)
                   <==> m in migrations && (m.version !in tracked || m.version == 1)
    ensures forall m :: m in Keep(migrations, Skips(tracked))
                   <==> m in migrations && m.version in tracked && m.version != 1
  {
    forall m | m in migrations ensures m.version in VersionsOf(migrations) {
    }
  }

  lemma {:induction false} KeepConcat(a: seq<Migration>, b: seq<Migration>, versions: set<nat>)
    ensures Keep(a + b, versions) == Keep(a, versions) + Keep(b, versions)
  {
    if b == [] {
      assert a + b == a;
    } else {
      assert (a + b)[..|a + b| - 1] == a + b[..|b| - 1];
      KeepConcat(a, b[..|b| - 1], versions);
    }
  }

  // After a complete run every version is tracked and built, from any starting point whose tracked
  // versions are built, in particular after any run killed in the middle.
  lemma CompleteRunBuildsEverything(db: Database, migrations: seq<Migration>)
    requires TrackedIsBuilt(db, migrations)
    ensures var after := ExecuteAll(db, Pending(migrations, Skips(db.tracked)));
            VersionsOf(migrations) <= after.tracked && ObjectsOf(migrations, {}) <= after.objects
  {
    ExecutePending(db, migrations, Skips(db.tracked));
  }

  lemma KilledRunTracksOnlyBuilt(db: Database, migrations: seq<Migration>, k: nat)
    requires DistinctVersions(migrations) && TrackedIsBuilt(db, migrations)
    requires k <= |Pending(migrations, Skips(db.tracked))|
    ensures TrackedIsBuilt(ExecuteAll(db, Pending(migrations, Skips(db.tracked))[..k]), migrations)
  {
    PendingTracksLast(migrations, Skips(db.tracked), migrations);
    KilledProgramTracksOnlyBuilt(db, Pending(migrations, Skips(db.tracked)), k, migrations);
  }

  // A second run changes nothing in the database, but what it reports as applied is not empty: it
  // is version 1, every time.
  lemma {:induction false} SecondRunReappliesOnlyTheFirst(db: Database, migrations: seq<Migration>)
    requires TrackedIsBuilt(db, migrations)
    ensures var after := ExecuteAll(db, Pending(migrations, Skips(db.tracked)));
            && ExecuteAll(after, Pending(migrations, Skips(after.tracked))) == after
            && forall m :: m in AppliedBy(migrations, after.tracked) <==> m in migrations && m.version == 1
  {
    var after := ExecuteAll(db, Pending(migrations, Skips(db.tracked)));
    ExecutePending(db, migrations, Skips(db.tracked));
    ExecutePending(after, migrations, Skips(after.tracked));
    forall m | m in migrations ensures m.version in VersionsOf(migrations) {}
    assert ObjectsOf(migrations, Skips(after.tracked)) <= ObjectsOf(migrations, {}) <= after.objects;
  }

  class GraphClient {
    var objects: set<string>
    var tracked: set<nat>

    constructor (db: Database)
      ensures State() == db
    {
      objects, tracked := db.objects, db.tracked;
    }

    ghost function State(): Database
      reads this
    {
      Database(objects, tracked)
    }

    method Run(s: Statement)
      modifies this
      ensures State() == Execute(old(State()), s)
    {
      match s {
        case Create(name) => objects := objects + {name};
        case Track(version) => tracked := tracked + {version};
      }
    }
  }

  method ApplyMigration(client: GraphClient, m: Migration)
    modifies client
    ensures client.State() == ExecuteAll(old(client.State()), ApplyOne(m))
  {
    ghost var before := client.State();
    for i := 0 to |m.creates|
      invariant client.State() == ExecuteAll(before, CreatesOf(m.creates)[..i])
    {
      var creates := CreatesOf(m.creates);
      client.Run(creates[i]);
      assert creates[..i + 1][..i] == creates[..i];
    }
    client.Run(Track(m.version));
    assert ApplyOne(m)[..|m.creates|] == CreatesOf(m.creates)[..|m.creates|];
  }

  lemma OneMorePending(db: Database, migrations: seq<Migration>, i: nat, skips: set<nat>, todo: set<nat>)
    requires i < |migrations|
    ensures ExecuteAll(db, Pending(migrations[..i + 1], skips))
         == if migrations[i].version in skips then ExecuteAll(db, Pending(migrations[..i], skips))
            else ExecuteAll(ExecuteAll(db, Pending(migrations[..i], skips)), ApplyOne(migrations[i]))
    ensures Keep(migrations[..i + 1], skips)
         == Keep(migrations[..i], skips) + if migrations[i].version in skips then [migrations[i]] else []
    ensures Keep(migrations[..i + 1], todo)
         == Keep(migrations[..i], todo) + if migrations[i].version in todo then [migrations[i]] else []
  {
    assert migrations[..i + 1][..i] == migrations[..i];
    var done := Pending(migrations[..i], skips);
    assert Pending(migrations[..i + 1], skips)
        == if migrations[i].version in skips then done else done + ApplyOne(migrations[i]);
    ExecuteConcat(db, done, ApplyOne(migrations[i]));
  }

  // `migrations` in version order, as the constructor of the runner leaves them.
  method ApplyPending(client: GraphClient, migrations: seq<Migration>) returns (result: MigrationResult)
    modifies client
    ensures client.State() == ExecuteAll(old(client.State()), Pending(migrations, Skips(old(client.tracked))))
    ensures result.applied == AppliedBy(migrations, old(client.tracked))
    ensures result.skipped == Keep(migrations, Skips(old(client.tracked)))
  {
    ghost var before := client.State();
    var already := client.tracked;
    result := MigrationResult([], []);
    ghost var todo := VersionsOf(migrations) - Skips(already);
    for i := 0 to |migrations|
      invariant client.State() == ExecuteAll(before, Pending(migrations[..i], Skips(already)))
      invariant result.applied == Keep(migrations[..i], todo)
      invariant result.skipped == Keep(migrations[..i], Skips(already))
    {
      assert migrations[i].version in VersionsOf(migrations);
      OneMorePending(before, migrations, i, Skips(already), todo);
      if migrations[i].version in already && migrations[i].version != 1 {
        result := result.(skipped := result.skipped + [migrations[i]]);
        continue;
      }
      ApplyMigration(client, migrations[i]);
      result := result.(applied := result.applied + [migrations[i]]);
    }
    assert migrations[..|migrations|] == migrations;
  }
}
