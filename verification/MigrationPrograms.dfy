/**
  Migrations as programs of durable statements.

  No runner wraps a migration in a transaction, so a killed process leaves the effect of some prefix
  of its program.  What makes that recoverable is the order inside a program: a version is tracked
  only after everything it creates has been created.
*/
module MigrationPrograms {
  // `creates` are the schema objects of one migration, each made by an IF NOT EXISTS statement.
  datatype Migration = Migration(version: nat, creates: seq<string>)

  datatype Statement = Create(name: string) | Track(version: nat)

  datatype Database = Database(objects: set<string>, tracked: set<nat>)

  function Execute(db: Database, s: Statement): Database {
    match s
    case Create(name) => db.(objects := db.objects + {name})
    case Track(version) => db.(tracked := db.tracked + {version})
  }

  function ExecuteAll(db: Database, program: seq<Statement>): Database {
    if program == [] then db
    else Execute(ExecuteAll(db, program[..|program| - 1]), program[|program| - 1])
  }

  function CreatesOf(objects: seq<string>): seq<Statement> {
    seq(|objects|, i requires 0 <= i < |objects| => Create(objects[i]))
  }

  function ApplyOne(m: Migration): seq<Statement> {
    CreatesOf(m.creates) + [Track(m.version)]
  }

  // The migrations in order, leaving out the versions in `skip`.
  function Pending(migrations: seq<Migration>, skip: set<nat>): seq<Statement> {
    if migrations == [] then []
    else
      var last := migrations[|migrations| - 1];
      Pending(migrations[..|migrations| - 1], skip) + (if last.version in skip then [] else ApplyOne(last))
  }

  function ObjectsOf(migrations: seq<Migration>, skip: set<nat>): set<string> {
    set m, t | m in migrations && m.version !in skip && t in m.creates :: t
  }

  function VersionsOf(migrations: seq<Migration>): set<nat> {
    set m | m in migrations :: m.version
  }

  /******* Effect of a complete program *******/

  lemma {:induction false} ExecuteConcat(db: Database, p: seq<Statement>, q: seq<Statement>)
    ensures ExecuteAll(db, p + q) == ExecuteAll(ExecuteAll(db, p), q)
  {
    if q == [] {
      assert p + q == p;
    } else {
      assert (p + q)[..|p + q| - 1] == p + q[..|q| - 1];
      ExecuteConcat(db, p, q[..|q| - 1]);
    }
  }

  function Created(program: seq<Statement>): set<string> {
    set s | s in program && s.Create? :: s.name
  }

  function Tracked(program: seq<Statement>): set<nat> {
    set s | s in program && s.Track? :: s.version
  }

  // Statements only ever add.
  lemma {:induction false} ExecuteAdds(db: Database, program: seq<Statement>)
    ensures ExecuteAll(db, program) == Database(db.objects + Created(program), db.tracked + Tracked(program))
  {
    if program != [] {
      var n := |program| - 1;
      ExecuteAdds(db, program[..n]);
      assert forall s :: s in program <==> s in program[..n] || s == program[n];
    }
  }

  lemma ContentsConcat(p: seq<Statement>, q: seq<Statement>)
    ensures Created(p + q) == Created(p) + Created(q) && Tracked(p + q) == Tracked(p) + Tracked(q)
  {
    assert forall s :: s in p + q <==> s in p || s in q;
  }

  lemma ApplyOneContents(m: Migration)
    ensures Created(ApplyOne(m)) == (set t | t in m.creates) && Tracked(ApplyOne(m)) == {m.version}
  {
    forall t | t in m.creates ensures Create(t) in ApplyOne(m) {
      var i :| 0 <= i < |m.creates| && m.creates[i] == t;
      assert ApplyOne(m)[i] == Create(t);
    }
    assert ApplyOne(m)[|m.creates|] == Track(m.version);
  }

  lemma {:induction false} PendingContents(migrations: seq<Migration>, skip: set<nat>)
    ensures Created(Pending(migrations, skip)) == ObjectsOf(migrations, skip)
    ensures Tracked(Pending(migrations, skip)) == VersionsOf(migrations) - skip
  {
    if migrations != [] {
      var n := |migrations| - 1;
      var last := migrations[n];
      PendingContents(migrations[..n], skip);
      assert migrations == migrations[..n] + [last];
      SplitLast(migrations[..n], last, skip);
      ApplyOneContents(last);
      ContentsConcat(Pending(migrations[..n], skip), if last.version in skip then [] else ApplyOne(last));
    }
  }

  lemma SplitLast(init: seq<Migration>, last: Migration, skip: set<nat>)
    ensures ObjectsOf(init + [last], skip)
         == ObjectsOf(init, skip) + if last.version in skip then {} else set t | t in last.creates
    ensures VersionsOf(init + [last]) == VersionsOf(init) + {last.version}
  {
    assert forall m :: m in init + [last] <==> m in init || m == last;
    assert last in init + [last];
  }

  // A complete pass creates what the unskipped migrations create, and tracks them.
  lemma {:induction false} ExecutePending(db: Database, migrations: seq<Migration>, skip: set<nat>)
    ensures ExecuteAll(db, Pending(migrations, skip))
         == Database(db.objects + ObjectsOf(migrations, skip), db.tracked + (VersionsOf(migrations) - skip))
  {
    ExecuteAdds(db, Pending(migrations, skip));
    PendingContents(migrations, skip);
  }

  lemma ExecuteApplyOne(db: Database, m: Migration)
    ensures ExecuteAll(db, ApplyOne(m)) == Database(db.objects + (set t | t in m.creates), db.tracked + {m.version})
  {
    ExecuteAdds(db, ApplyOne(m));
    ApplyOneContents(m);
  }

  /******* Order *******/

  lemma {:induction false} PendingConcat(a: seq<Migration>, b: seq<Migration>, skip: set<nat>)
    ensures Pending(a + b, skip) == Pending(a, skip) + Pending(b, skip)
  {
    if b == [] {
      assert a + b == a;
    } else {
      var init, last := b[..|b| - 1], b[|b| - 1];
      assert a + b == (a + init) + [last];
      PendingConcat(a, init, skip);
      PendingSnoc(a + init, last, skip);
      PendingSnoc(init, last, skip);
      assert b == init + [last];
      Associative(Pending(a, skip), Pending(init, skip), if last.version in skip then [] else ApplyOne(last));
    }
  }

  lemma {:induction false} PendingSnoc(init: seq<Migration>, last: Migration, skip: set<nat>)
    ensures Pending(init + [last], skip)
         == Pending(init, skip) + if last.version in skip then [] else ApplyOne(last)
  {
    assert (init + [last])[..|init|] == init;
  }

  lemma Associative(a: seq<Statement>, b: seq<Statement>, c: seq<Statement>)
    ensures (a + b) + c == a + (b + c)
  {
  }

  ghost predicate NoVersionTwice(migrations: seq<Migration>) {
    forall a, b :: 0 <= a < b < |migrations| ==> migrations[a].version != migrations[b].version
  }

  // Killed after any number of statements, a pass has tracked no version without every earlier one.
  lemma {:induction false} KilledPassTracksInOrder(db: Database, migrations: seq<Migration>, skip: set<nat>, k: nat,
      i: nat, j: nat)
    requires i < j < |migrations| && k <= |Pending(migrations, skip)|
    requires NoVersionTwice(migrations)
    requires var after := ExecuteAll(db, Pending(migrations, skip)[..k]);
             migrations[j].version in after.tracked && migrations[j].version !in db.tracked
    ensures var after := ExecuteAll(db, Pending(migrations, skip)[..k]);
            migrations[i].version in after.tracked || migrations[i].version in skip
  {
    var front, back := migrations[..j], migrations[j..];
    var before, rest := Pending(front, skip), Pending(back, skip);
    assert Pending(migrations, skip) == before + rest by {
      assert migrations == front + back;
      PendingConcat(front, back, skip);
    }
    EarlierTracksOthers(migrations, skip, j);
    LaterComesAfterFront(db, before, rest, k, migrations[j].version);
    assert migrations[i].version in Tracked(before) || migrations[i].version in skip by {
      PendingContents(front, skip);
      assert front[i] in front && front[i].version in VersionsOf(front);
    }
  }

  lemma {:induction false} LaterComesAfterFront(db: Database, front: seq<Statement>, back: seq<Statement>, k: nat,
      version: nat)
    requires k <= |front + back| && Track(version) !in front && version !in db.tracked
    requires version in ExecuteAll(db, (front + back)[..k]).tracked
    ensures Tracked(front) <= ExecuteAll(db, (front + back)[..k]).tracked
  {
    var done := (front + back)[..k];
    ExecuteAdds(db, done);
    assert Track(version) in done;
    FrontIsDone(front, back, k, Track(version));
  }

  // What has a statement of the second part has all of the first.
  lemma FrontIsDone(front: seq<Statement>, back: seq<Statement>, k: nat, s: Statement)
    requires k <= |front + back| && s in (front + back)[..k] && s !in front
    ensures Tracked(front) <= Tracked((front + back)[..k])
  {
    var n :| 0 <= n < k && (front + back)[n] == s;
    assert n >= |front|;
    assert (front + back)[..k] == front + back[..k - |front|];
    ContentsConcat(front, back[..k - |front|]);
  }

  lemma {:induction false} EarlierTracksOthers(migrations: seq<Migration>, skip: set<nat>, j: nat)
    requires j < |migrations|
    requires NoVersionTwice(migrations)
    ensures Track(migrations[j].version) !in Pending(migrations[..j], skip)
  {
    PendingContents(migrations[..j], skip);
    forall m | m in migrations[..j] ensures m.version != migrations[j].version {
      var a :| 0 <= a < j && migrations[a] == m;
    }
    var tracked := Tracked(Pending(migrations[..j], skip));
    assert migrations[j].version !in tracked;
  }

  /******* Killed programs *******/

  ghost predicate DistinctVersions(migrations: seq<Migration>) {
    forall m, n :: m in migrations && n in migrations && m.version == n.version ==> m == n
  }

  // A tracked version has everything it creates.
  ghost predicate TrackedIsBuilt(db: Database, migrations: seq<Migration>) {
    forall m, t :: m in migrations && m.version in db.tracked && t in m.creates ==> t in db.objects
  }

  // Each tracking statement comes after all creations of its version.
  ghost predicate TracksLast(program: seq<Statement>, migrations: seq<Migration>) {
    forall i, m, t :: 0 <= i < |program| && m in migrations && program[i] == Track(m.version) && t in m.creates ==>
      Create(t) in program[..i]
  }

  lemma TracksLastConcat(p: seq<Statement>, q: seq<Statement>, migrations: seq<Migration>)
    requires TracksLast(p, migrations) && TracksLast(q, migrations)
    ensures TracksLast(p + q, migrations)
  {
    forall i, m, t | 0 <= i < |p + q| && m in migrations && (p + q)[i] == Track(m.version) && t in m.creates
      ensures Create(t) in (p + q)[..i]
    {
      if i < |p| {
        assert (p + q)[..i] == p[..i];
      } else {
        assert (p + q)[..i] == p + q[..i - |p|];
        assert q[i - |p|] == Track(m.version);
      }
    }
  }

  lemma ApplyOneTracksLast(m: Migration, migrations: seq<Migration>)
    requires DistinctVersions(migrations) && m in migrations
    ensures TracksLast(ApplyOne(m), migrations)
  {
    forall i, n, t | 0 <= i < |ApplyOne(m)| && n in migrations && ApplyOne(m)[i] == Track(n.version) && t in n.creates
      ensures Create(t) in ApplyOne(m)[..i]
    {
      assert i == |m.creates| && n == m;
      var j :| 0 <= j < |m.creates| && m.creates[j] == t;
      assert ApplyOne(m)[..i][j] == Create(t);
    }
  }

  lemma {:induction false} PendingTracksLast(some: seq<Migration>, skip: set<nat>, migrations: seq<Migration>)
    requires DistinctVersions(migrations) && forall m :: m in some ==> m in migrations
    ensures TracksLast(Pending(some, skip), migrations)
  {
    if some != [] {
      var n := |some| - 1;
      PendingTracksLast(some[..n], skip, migrations);
      ApplyOneTracksLast(some[n], migrations);
      TracksLastConcat(Pending(some[..n], skip), if some[n].version in skip then [] else ApplyOne(some[n]), migrations);
    }
  }

  // Killed after any number of statements: whatever is tracked is built.
  lemma KilledProgramTracksOnlyBuilt(db: Database, program: seq<Statement>, k: nat, migrations: seq<Migration>)
    requires k <= |program| && TracksLast(program, migrations) && TrackedIsBuilt(db, migrations)
    ensures TrackedIsBuilt(ExecuteAll(db, program[..k]), migrations)
  {
    var after := ExecuteAll(db, program[..k]);
    ExecuteAdds(db, program[..k]);
    forall m, t | m in migrations && m.version in after.tracked && t in m.creates ensures t in after.objects {
      if m.version !in db.tracked {
        assert m.version in Tracked(program[..k]);
        var i :| 0 <= i < k && program[i] == Track(m.version);
        assert Create(t) in program[..i];
        assert Create(t) in program[..k];
      }
    }
  }
}
