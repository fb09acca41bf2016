/**
  Table reads and writes read off SQL statements: each statement that selects or modifies is charged to
  the artifact that encloses it, and each table it names becomes an artifact of its own.
*/
module DbAccess {
  import opened Wrappers
  import opened Artifacts
  import opened EnclosingLookup
  import opened Text

  const READ_OPS: set<string> := {"select"}
  const WRITE_OPS: set<string> := {"insert", "update", "delete", "merge", "truncate"}

  datatype Statement = Statement(operation: string, tables: seq<string>, file: string, line: nat, repo: string)

  // The statement facts of one repository, under the name the repository has there.
  datatype Tree = Tree(repo: string, statements: seq<Statement>)

  datatype TableRef = TableRef(repo: string, name: string)

  // One table touched by one artifact.
  datatype Touch = Touch(source: string, table: TableRef, isWrite: bool)

  function TableName(raw: string): string {
    Lower(Strip(raw))
  }

  function TableId(t: TableRef): string {
    "table:" + t.repo + ":" + t.name
  }

  function TableRecord(t: TableRef): Artifact {
    Artifact(TableId(t), t.repo, Table, t.name, "sql:" + t.name, 1, 1, [], [], [])
  }

  /******* What is touched *******/

  function Named(source: string, repo: string, isWrite: bool, tables: seq<string>): seq<Touch> {
    if tables == [] then []
    else
      var name := TableName(tables[|tables| - 1]);
      Named(source, repo, isWrite, tables[..|tables| - 1])
      + if name == "" then [] else [Touch(source, TableRef(repo, name), isWrite)]
  }

  function OfStatement(items: seq<Artifact>, repo: string, s: Statement): seq<Touch> {
    if s.operation !in READ_OPS && s.operation !in WRITE_OPS then [] else
    var source := EnclosingId(items, Query(s.file, s.line, s.repo));
    if source.None? then [] else Named(source.value, repo, s.operation !in READ_OPS, s.tables)
  }

  function OfStatements(items: seq<Artifact>, repo: string, statements: seq<Statement>): seq<Touch> {
    if statements == [] then []
    else
      OfStatements(items, repo, statements[..|statements| - 1])
      + OfStatement(items, repo, statements[|statements| - 1])
  }

  function Touched(items: seq<Artifact>, trees: seq<Tree>): seq<Touch> {
    if trees == [] then []
    else
      var last := trees[|trees| - 1];
      Touched(items, trees[..|trees| - 1]) + OfStatements(items, last.repo, last.statements)
  }

  /******* What is returned *******/

  // Table ids in the order of the touches by `source`.
  function TableIds(touches: seq<Touch>, source: string, isWrite: bool): seq<string> {
    if touches == [] then []
    else
      var t := touches[|touches| - 1];
      TableIds(touches[..|touches| - 1], source, isWrite)
      + if t.source == source && t.isWrite == isWrite then [TableId(t.table)] else []
  }

  // One record for each table id, in the order of first mention.
  function TablesOf(touches: seq<Touch>): seq<Artifact> {
    if touches == [] then []
    else
      var before, t := TablesOf(touches[..|touches| - 1]), touches[|touches| - 1];
      if TableId(t.table) in Ids(before) then before else before + [TableRecord(t.table)]
  }

  function LinksOf(a: Artifact, isWrite: bool): seq<string> {
    if isWrite then a.writesTo else a.readsFrom
  }

  // The accesses recorded under an id: the last artifact with that id counts.
  function LinksUnder(artifacts: seq<Artifact>, id: string, isWrite: bool): seq<string> {
    if artifacts == [] then []
    else if artifacts[|artifacts| - 1].id == id then LinksOf(artifacts[|artifacts| - 1], isWrite)
    else LinksUnder(artifacts[..|artifacts| - 1], id, isWrite)
  }

  function AllLinks(artifacts: seq<Artifact>, touches: seq<Touch>, id: string, isWrite: bool): seq<string> {
    LinksUnder(artifacts, id, isWrite) + TableIds(touches, id, isWrite)
  }

  function Updated(artifacts: seq<Artifact>, touches: seq<Touch>, a: Artifact): Artifact {
    a.(readsFrom := SortedSet(AllLinks(artifacts, touches, a.id, false)),
       writesTo := SortedSet(AllLinks(artifacts, touches, a.id, true)))
  }

  function Applied(artifacts: seq<Artifact>, touches: seq<Touch>): seq<Artifact> {
    seq(|artifacts|, i requires 0 <= i < |artifacts| => Updated(artifacts, touches, artifacts[i]))
  }

  function Returned(trees: seq<Tree>, artifacts: seq<Artifact>): seq<Artifact> {
    var touches := Touched(ById(artifacts), trees);
    Applied(artifacts, touches) + TablesOf(touches)
  }

  /******* The resolver *******/

  // The sets hold, for every artifact id, the accesses recorded so far.
  ghost predicate Mirrors(sets: map<string, set<string>>, artifacts: seq<Artifact>, touches: seq<Touch>,
      isWrite: bool) {
    && sets.Keys == Ids(artifacts)
    && forall id :: id in sets ==> SameMembers(sets[id], AllLinks(artifacts, touches, id, isWrite))
  }

  function Added(sets: map<string, set<string>>, source: string, x: string): map<string, set<string>>
    requires source in sets
  {
    sets[source := sets[source] + {x}]
  }

  lemma MirrorGrows(sets: map<string, set<string>>, artifacts: seq<Artifact>, touches: seq<Touch>, t: Touch)
    requires Mirrors(sets, artifacts, touches, t.isWrite) && t.source in sets
    ensures Mirrors(Added(sets, t.source, TableId(t.table)), artifacts, touches + [t], t.isWrite)
  {
    var grown := Added(sets, t.source, TableId(t.table));
    forall id | id in grown ensures SameMembers(grown[id], AllLinks(artifacts, touches + [t], id, t.isWrite)) {
      MembersGrow(sets[id], artifacts, touches, t, id, t.isWrite);
    }
  }

  lemma MirrorStays(sets: map<string, set<string>>, artifacts: seq<Artifact>, touches: seq<Touch>, t: Touch)
    requires Mirrors(sets, artifacts, touches, !t.isWrite)
    ensures Mirrors(sets, artifacts, touches + [t], !t.isWrite)
  {
    forall id | id in sets ensures SameMembers(sets[id], AllLinks(artifacts, touches + [t], id, !t.isWrite)) {
      MembersGrow(sets[id], artifacts, touches, t, id, !t.isWrite);
    }
  }

  lemma MembersGrow(s: set<string>, artifacts: seq<Artifact>, touches: seq<Touch>, t: Touch, id: string, isWrite: bool)
    requires SameMembers(s, AllLinks(artifacts, touches, id, isWrite))
    ensures SameMembers(if t.isWrite == isWrite && t.source == id then s + {TableId(t.table)} else s,
                        AllLinks(artifacts, touches + [t], id, isWrite))
  {
    OneMoreTouch(artifacts, touches, t);
  }

  // The two dictionaries of sets and the dictionary of tables that the resolver fills.
  class Ledger {
    var readSets: map<string, set<string>>
    var writeSets: map<string, set<string>>
    var tables: seq<Artifact>
    ghost const artifacts: seq<Artifact>
    ghost var touches: seq<Touch>

    ghost predicate Valid()
      reads this
    {
      && tables == TablesOf(touches)
      && Mirrors(readSets, artifacts, touches, false) && Mirrors(writeSets, artifacts, touches, true)
    }

    constructor (artifacts: seq<Artifact>)
      ensures Valid() && this.artifacts == artifacts && touches == []
    {
      this.artifacts := artifacts;
      touches, tables := [], [];
      new;
      readSets := CollectLinks(artifacts, false);
      writeSets := CollectLinks(artifacts, true);
    }

    method Note(t: Touch)
      requires Valid() && t.source in readSets
      modifies this
      ensures Valid() && touches == old(touches) + [t] && readSets.Keys == old(readSets.Keys)
    {
      NoteTable(t);
      if t.isWrite {
        MirrorGrows(writeSets, artifacts, touches, t);
        MirrorStays(readSets, artifacts, touches, t);
        writeSets := Added(writeSets, t.source, TableId(t.table));
      } else {
        MirrorGrows(readSets, artifacts, touches, t);
        MirrorStays(writeSets, artifacts, touches, t);
        readSets := Added(readSets, t.source, TableId(t.table));
      }
      touches := touches + [t];
    }

    // A table met for the first time gets an entry of its own.
    method NoteTable(t: Touch)
      requires tables == TablesOf(touches)
      modifies this`tables
      ensures tables == TablesOf(touches + [t])
    {
      OneMoreTouch(artifacts, touches, t);
      if !exists a :: a in tables && a.id == TableId(t.table) {
        tables := tables + [TableRecord(t.table)];
      }
    }
  }

  lemma OneMoreTouch(artifacts: seq<Artifact>, touches: seq<Touch>, t: Touch)
    ensures forall source, isWrite ::
      TableIds(touches + [t], source, isWrite)
      == TableIds(touches, source, isWrite)
         + if t.source == source && t.isWrite == isWrite then [TableId(t.table)] else []
    ensures TablesOf(touches + [t])
         == TablesOf(touches) + if TableId(t.table) in Ids(TablesOf(touches)) then [] else [TableRecord(t.table)]
  {
    assert (touches + [t])[..|touches|] == touches;
  }

  method CollectLinks(artifacts: seq<Artifact>, isWrite: bool) returns (links: map<string, set<string>>)
    ensures Mirrors(links, artifacts, [], isWrite)
  {
    links := map[];
    for i := 0 to |artifacts|
      invariant links.Keys == Ids(artifacts[..i])
      invariant forall id :: id in links ==> SameMembers(links[id], LinksUnder(artifacts[..i], id, isWrite))
    {
      assert artifacts[..i + 1] == artifacts[..i] + [artifacts[i]];
      assert artifacts[..i + 1][..i] == artifacts[..i];
      links := links[artifacts[i].id := set x | x in LinksOf(artifacts[i], isWrite)];
    }
    assert artifacts[..|artifacts|] == artifacts;
  }

  method ResolveDbAccess(trees: seq<Tree>, artifacts: seq<Artifact>)
    returns (out: seq<Artifact>, tables: seq<Artifact>)
    ensures tables == TablesOf(Touched(ById(artifacts), trees))
    ensures out == Returned(trees, artifacts)
  {
    var items := ById(artifacts);
    var ledger := new Ledger(artifacts);
    for i := 0 to |trees|
      invariant ledger.Valid() && ledger.artifacts == artifacts && fresh(ledger)
      invariant ledger.touches == Touched(items, trees[..i])
    {
      OneMoreTree(items, trees, i);
      NoteStatements(items, trees[i], ledger);
    }
    assert trees[..|trees|] == trees;
    assert ledger.touches == Touched(items, trees);
    var updated := ApplyLedger(artifacts, ledger);
    tables := ledger.tables;
    out := updated + tables;
  }

  lemma OneMoreTree(items: seq<Artifact>, trees: seq<Tree>, i: nat)
    requires i < |trees|
    ensures Touched(items, trees[..i + 1])
         == Touched(items, trees[..i]) + OfStatements(items, trees[i].repo, trees[i].statements)
  {
    assert trees[..i + 1][..i] == trees[..i];
  }

  lemma OneMoreStatement(items: seq<Artifact>, repo: string, statements: seq<Statement>, i: nat, start: seq<Touch>)
    requires i < |statements|
    ensures start + OfStatements(items, repo, statements[..i + 1])
         == (start + OfStatements(items, repo, statements[..i])) + OfStatement(items, repo, statements[i])
    ensures statements[i].tables == [] ==> OfStatement(items, repo, statements[i]) == []
  {
    assert statements[..i + 1][..i] == statements[..i];
  }

  method NoteStatements(items: seq<Artifact>, tree: Tree, ledger: Ledger)
    requires ledger.Valid() && items == ById(ledger.artifacts)
    modifies ledger
    ensures ledger.Valid()
    ensures ledger.touches == old(ledger.touches) + OfStatements(items, tree.repo, tree.statements)
  {
    var statements := tree.statements;
    ghost var start := ledger.touches;
    for i := 0 to |statements|
      invariant ledger.Valid()
      invariant ledger.touches == start + OfStatements(items, tree.repo, statements[..i])
    {
      var s := statements[i];
      OneMoreStatement(items, tree.repo, statements, i, start);
      if s.tables == [] {
        continue;
      }
      if s.operation !in READ_OPS && s.operation !in WRITE_OPS {
        continue;
      }
      var source := EnclosingArtifactId(items, Query(s.file, s.line, s.repo));
      if source.None? {
        continue;
      }
      EnclosingIdIsKnown(items, Query(s.file, s.line, s.repo));
      NoteTables(source.value, tree.repo, s.operation !in READ_OPS, s.tables, ledger);
    }
    assert statements[..|statements|] == statements;
  }

  lemma OneMoreName(source: string, repo: string, isWrite: bool, tables: seq<string>, i: nat, start: seq<Touch>)
    requires i < |tables|
    ensures start + Named(source, repo, isWrite, tables[..i + 1])
         == (start + Named(source, repo, isWrite, tables[..i]))
            + if TableName(tables[i]) == "" then [] else [Touch(source, TableRef(repo, TableName(tables[i])), isWrite)]
  {
    assert tables[..i + 1][..i] == tables[..i];
  }

  method NoteTables(source: string, repo: string, isWrite: bool, tables: seq<string>, ledger: Ledger)
    requires ledger.Valid() && source in ledger.readSets
    modifies ledger
    ensures ledger.Valid()
    ensures ledger.touches == old(ledger.touches) + Named(source, repo, isWrite, tables)
  {
    ghost var start := ledger.touches;
    for i := 0 to |tables|
      invariant ledger.Valid() && source in ledger.readSets
      invariant ledger.touches == start + Named(source, repo, isWrite, tables[..i])
    {
      var name := Lower(Strip(tables[i]));
      OneMoreName(source, repo, isWrite, tables, i, start);
      if name == "" {
        continue;
      }
      ledger.Note(Touch(source, TableRef(repo, name), isWrite));
    }
    assert tables[..|tables|] == tables;
  }

  method ApplyLedger(artifacts: seq<Artifact>, ledger: Ledger) returns (out: seq<Artifact>)
    requires ledger.Valid() && ledger.artifacts == artifacts
    ensures out == Applied(artifacts, ledger.touches)
  {
    out := [];
    ghost var goal := Applied(artifacts, ledger.touches);
    for i := 0 to |artifacts|
      invariant |out| == i && forall j :: 0 <= j < i ==> out[j] == goal[j]
    {
      var a := artifacts[i];
      assert a in artifacts;
      var newReads := SortSet(ledger.readSets[a.id], AllLinks(artifacts, ledger.touches, a.id, false));
      var newWrites := SortSet(ledger.writeSets[a.id], AllLinks(artifacts, ledger.touches, a.id, true));
      assert goal[i] == a.(readsFrom := newReads, writesTo := newWrites);
      if newReads == a.readsFrom && newWrites == a.writesTo {
        out := out + [a];
      } else {
        out := out + [a.(readsFrom := newReads, writesTo := newWrites)];
      }
    }
  }

  /******* Every access, and no other *******/

  ghost predicate Touches(items: seq<Artifact>, repo: string, s: Statement, t: Touch) {
    && s.operation in (if t.isWrite then WRITE_OPS else READ_OPS)
    && EnclosingId(items, Query(s.file, s.line, s.repo)) == Some(t.source)
    && t.table.repo == repo && t.table.name != ""
    && exists raw :: raw in s.tables && Lower(Strip(raw)) == t.table.name
  }

  ghost predicate Accesses(items: seq<Artifact>, trees: seq<Tree>, t: Touch) {
    exists tree, s :: tree in trees && s in tree.statements && Touches(items, tree.repo, s, t)
  }

  // Some statement inside the artifact names the table with this id.
  ghost predicate HasAccess(items: seq<Artifact>, trees: seq<Tree>, source: string, tableId: string, isWrite: bool) {
    exists table :: tableId == TableId(table) && Accesses(items, trees, Touch(source, table, isWrite))
  }

  lemma {:induction false} NamedContents(source: string, repo: string, isWrite: bool, tables: seq<string>, t: Touch)
    ensures t in Named(source, repo, isWrite, tables)
       <==> t.source == source && t.table.repo == repo && t.isWrite == isWrite && t.table.name != ""
            && exists raw :: raw in tables && Lower(Strip(raw)) == t.table.name
  {
    if tables != [] {
      var init, last := tables[..|tables| - 1], tables[|tables| - 1];
      NamedContents(source, repo, isWrite, init, t);
      assert TableName(last) == Lower(Strip(last));
      assert forall raw :: raw in tables <==> raw in init || raw == last by {
        assert tables == init + [last];
      }
    }
  }

  lemma OfStatementContents(items: seq<Artifact>, repo: string, s: Statement, t: Touch)
    ensures t in OfStatement(items, repo, s) <==> Touches(items, repo, s, t)
  {
    var source := EnclosingId(items, Query(s.file, s.line, s.repo));
    if source.Some? {
      NamedContents(source.value, repo, s.operation !in READ_OPS, s.tables, t);
    }
    assert READ_OPS !! WRITE_OPS;
  }

  lemma {:induction false} OfStatementsContents(items: seq<Artifact>, repo: string, statements: seq<Statement>,
      t: Touch)
    ensures t in OfStatements(items, repo, statements) <==> exists s :: s in statements && Touches(items, repo, s, t)
  {
    if statements != [] {
      var init, last := statements[..|statements| - 1], statements[|statements| - 1];
      OfStatementsContents(items, repo, init, t);
      OfStatementContents(items, repo, last, t);
      assert forall s :: s in statements <==> s in init || s == last by {
        assert statements == init + [last];
      }
    }
  }

  lemma {:induction false} TouchedIsExact(items: seq<Artifact>, trees: seq<Tree>, t: Touch)
    ensures t in Touched(items, trees) <==> Accesses(items, trees, t)
  {
    if trees != [] {
      var init, last := trees[..|trees| - 1], trees[|trees| - 1];
      TouchedIsExact(items, init, t);
      OfStatementsContents(items, last.repo, last.statements, t);
      assert forall tree :: tree in trees <==> tree in init || tree == last by {
        assert trees == init + [last];
      }
    }
  }

  lemma {:induction false} TableIdsContents(touches: seq<Touch>, source: string, isWrite: bool, x: string)
    ensures x in TableIds(touches, source, isWrite)
       <==> exists t :: t in touches && t.source == source && t.isWrite == isWrite && TableId(t.table) == x
  {
    if touches != [] {
      var init, last := touches[..|touches| - 1], touches[|touches| - 1];
      TableIdsContents(init, source, isWrite, x);
      assert forall t :: t in touches <==> t in init || t == last by {
        assert touches == init + [last];
      }
    }
  }

  lemma {:induction false} LinksUnderOwnId(artifacts: seq<Artifact>, i: nat, isWrite: bool)
    requires DistinctIds(artifacts) && i < |artifacts|
    ensures LinksUnder(artifacts, artifacts[i].id, isWrite) == LinksOf(artifacts[i], isWrite)
  {
    if i < |artifacts| - 1 {
      LinksUnderOwnId(artifacts[..|artifacts| - 1], i, isWrite);
    }
  }

  // The reads, and the writes, of a returned artifact: the sorted union of those it came with and of the
  // tables named by the statements it encloses.  Nothing else about it changes.
  lemma {:induction false} AccessIsExact(trees: seq<Tree>, artifacts: seq<Artifact>, i: nat, isWrite: bool)
    requires DistinctIds(artifacts) && i < |artifacts|
    ensures var a, after := artifacts[i], Returned(trees, artifacts)[i];
            && a.(readsFrom := after.readsFrom, writesTo := after.writesTo) == after
            && Increasing(LinksOf(after, isWrite))
            && forall x :: x in LinksOf(after, isWrite) <==>
                 x in LinksOf(a, isWrite) || HasAccess(ById(artifacts), trees, a.id, x, isWrite)
  {
    var items := ById(artifacts);
    var touches, a := Touched(items, trees), artifacts[i];
    SortedSetKeeps(AllLinks(artifacts, touches, a.id, isWrite));
    LinksUnderOwnId(artifacts, i, isWrite);
    assert Returned(trees, artifacts)[i] == Updated(artifacts, touches, a);
    forall x ensures x in TableIds(touches, a.id, isWrite) <==> HasAccess(items, trees, a.id, x, isWrite) {
      TableIdsAreAccesses(items, trees, a.id, isWrite, x);
    }
  }

  lemma TableIdsAreAccesses(items: seq<Artifact>, trees: seq<Tree>, source: string, isWrite: bool, x: string)
    ensures x in TableIds(Touched(items, trees), source, isWrite) <==> HasAccess(items, trees, source, x, isWrite)
  {
    var touches := Touched(items, trees);
    TableIdsContents(touches, source, isWrite, x);
    if t :| t in touches && t.source == source && t.isWrite == isWrite && TableId(t.table) == x {
      TouchedIsExact(items, trees, t);
      assert t == Touch(source, t.table, isWrite);
    }
    if table :| x == TableId(table) && Accesses(items, trees, Touch(source, table, isWrite)) {
      TouchedIsExact(items, trees, Touch(source, table, isWrite));
    }
  }

  /******* One node for each table *******/

  // The record of a table, which stands for all its occurrences.
  ghost predicate IsTable(a: Artifact) {
    exists repo, name :: a == Artifact("table:" + repo + ":" + name, repo, Table, name, "sql:" + name, 1, 1, [], [], [])
  }

  lemma {:induction false} TablesOfContents(touches: seq<Touch>)
    ensures DistinctIds(TablesOf(touches))
    ensures forall id :: id in Ids(TablesOf(touches)) <==> exists t :: t in touches && TableId(t.table) == id
    ensures forall a :: a in TablesOf(touches) ==> IsTable(a)
  {
    if touches != [] {
      var init, last := touches[..|touches| - 1], touches[|touches| - 1];
      TablesOfContents(init);
      assert forall t :: t in touches <==> t in init || t == last by {
        assert touches == init + [last];
      }
      var before, record := TablesOf(init), TableRecord(last.table);
      assert IsTable(record) by {
        assert record.id == "table:" + record.repo + ":" + record.name;
      }
      if record.id !in Ids(before) {
        assert TablesOf(touches) == before + [record];
        assert Ids([record]) == {record.id} by {
          assert record in [record];
        }
        AppendedIdsAreDistinctExactlyWhen(before, [record]);
        IdsOfConcat(before, [record]);
      }
    }
  }

  lemma IdsOfConcat(a: seq<Artifact>, b: seq<Artifact>)
    ensures Ids(a + b) == Ids(a) + Ids(b)
  {
    assert forall x :: x in a + b <==> x in a || x in b;
  }

  // No dangling access: whatever table an artifact reads or writes is returned beside it, once, and no
  // other table is.
  lemma {:induction false} TouchedTablesAreReturned(trees: seq<Tree>, artifacts: seq<Artifact>)
    ensures var tables := TablesOf(Touched(ById(artifacts), trees));
            && DistinctIds(tables) && (forall a :: a in tables ==> IsTable(a))
            && forall id :: id in Ids(tables) <==>
                 exists t: Touch :: TableId(t.table) == id && Accesses(ById(artifacts), trees, t)
  {
    var items := ById(artifacts);
    var touches := Touched(items, trees);
    TablesOfContents(touches);
    forall id
      ensures id in Ids(TablesOf(touches)) <==> exists t: Touch :: TableId(t.table) == id && Accesses(items, trees, t)
    {
      if t :| t in touches && TableId(t.table) == id {
        TouchedIsExact(items, trees, t);
      }
      if t: Touch :| TableId(t.table) == id && Accesses(items, trees, t) {
        TouchedIsExact(items, trees, t);
      }
    }
  }

  lemma ReturnedIdsAreDistinct(trees: seq<Tree>, artifacts: seq<Artifact>)
    ensures DistinctIds(Returned(trees, artifacts))
       <==> DistinctIds(artifacts) && Ids(TablesOf(Touched(ById(artifacts), trees))) !! Ids(artifacts)
  {
    var touches := Touched(ById(artifacts), trees);
    TablesOfContents(touches);
    AppendedIdsAreDistinctExactlyWhen(Applied(artifacts, touches), TablesOf(touches));
    SameIds(artifacts, Applied(artifacts, touches));
  }

  // The returned ids are distinct exactly when the input ids were and no statement accesses a table whose
  // id an input artifact already has.
  lemma ReturnedIdsAreDistinctExactlyWhen(trees: seq<Tree>, artifacts: seq<Artifact>)
    ensures DistinctIds(Returned(trees, artifacts))
       <==> DistinctIds(artifacts)
            && forall t :: Accesses(ById(artifacts), trees, t) ==> TableId(t.table) !in Ids(artifacts)
  {
    ReturnedIdsAreDistinct(trees, artifacts);
    TouchedTablesAreReturned(trees, artifacts);
  }

  // The same table seen from two repositories is two nodes, as long as repository names hold no colon.
  lemma OneNodePerRepository(a: TableRef, b: TableRef)
    requires ':' !in a.repo && ':' !in b.repo
    ensures TableId(a) == TableId(b) <==> a == b
  {
    if |a.repo| < |b.repo| {
      ShorterRepoDiffers(a, b);
    } else if |b.repo| < |a.repo| {
      ShorterRepoDiffers(b, a);
    } else if TableId(a) == TableId(b) {
      var n := 6 + |a.repo|;
      assert a.repo == TableId(a)[6..n] == TableId(b)[6..n] == b.repo;
      assert a.name == TableId(a)[n + 1..] == TableId(b)[n + 1..] == b.name;
    }
  }

  lemma ShorterRepoDiffers(a: TableRef, b: TableRef)
    requires |a.repo| < |b.repo| && ':' !in b.repo
    ensures TableId(a) != TableId(b)
  {
    var n := 6 + |a.repo|;
    assert TableId(a)[n] == ':';
    assert TableId(b)[n] == b.repo[|a.repo|] && b.repo[|a.repo|] in b.repo;
  }

  /******* Running it again *******/

  lemma {:induction false} EnclosingDecidesTouches(a: seq<Artifact>, b: seq<Artifact>, trees: seq<Tree>)
    requires forall q :: EnclosingId(a, q) == EnclosingId(b, q)
    ensures Touched(a, trees) == Touched(b, trees)
  {
    if trees != [] {
      EnclosingDecidesTouches(a, b, trees[..|trees| - 1]);
      var last := trees[|trees| - 1];
      EnclosingDecidesStatements(a, b, last.repo, last.statements);
    }
  }

  lemma {:induction false} EnclosingDecidesStatements(a: seq<Artifact>, b: seq<Artifact>, repo: string,
      statements: seq<Statement>)
    requires forall q :: EnclosingId(a, q) == EnclosingId(b, q)
    ensures OfStatements(a, repo, statements) == OfStatements(b, repo, statements)
  {
    if statements != [] {
      EnclosingDecidesStatements(a, b, repo, statements[..|statements| - 1]);
    }
  }

  // Tables enclose nothing, and accesses play no part in the lookup.
  lemma ReturnedEncloseTheSame(artifacts: seq<Artifact>, touches: seq<Touch>, q: Query)
    ensures EnclosingId(Applied(artifacts, touches) + TablesOf(touches), q) == EnclosingId(artifacts, q)
  {
    var applied, tables := Applied(artifacts, touches), TablesOf(touches);
    TablesOfContents(touches);
    SmallestCorresponds(artifacts, applied, CoveringLines(q));
    LatestCorresponds(artifacts, applied, StartingBefore(q));
    SmallestIgnores(applied, tables, CoveringLines(q));
    LatestIgnores(applied, tables, StartingBefore(q));
  }

  lemma SourcesAreArtifacts(trees: seq<Tree>, artifacts: seq<Artifact>, t: Touch)
    requires t in Touched(ById(artifacts), trees)
    ensures t.source in Ids(artifacts)
  {
    var items := ById(artifacts);
    TouchedIsExact(items, trees, t);
    var tree, s :| tree in trees && s in tree.statements && Touches(items, tree.repo, s, t);
    EnclosingIdIsKnown(items, Query(s.file, s.line, s.repo));
  }

  // The accesses of what was returned are final, for the artifacts as for the tables.
  lemma AccessesAreFinal(trees: seq<Tree>, artifacts: seq<Artifact>, i: nat)
    requires DistinctIds(Returned(trees, artifacts)) && i < |Returned(trees, artifacts)|
    ensures var once := Returned(trees, artifacts);
            Updated(once, Touched(ById(artifacts), trees), once[i]) == once[i]
  {
    var once, touches := Returned(trees, artifacts), Touched(ById(artifacts), trees);
    var applied, tables := Applied(artifacts, touches), TablesOf(touches);
    if i < |artifacts| {
      assert once[i] == Updated(artifacts, touches, artifacts[i]);
      LinksAreFinal(artifacts, once, touches, i, false);
      LinksAreFinal(artifacts, once, touches, i, true);
    } else {
      assert once[i] == tables[i - |artifacts|] && once[i] in tables;
      TablesOfContents(touches);
      TableHasNoLinks(trees, artifacts, i, false);
      TableHasNoLinks(trees, artifacts, i, true);
    }
  }

  lemma LinksAreFinal(artifacts: seq<Artifact>, once: seq<Artifact>, touches: seq<Touch>, i: nat, isWrite: bool)
    requires DistinctIds(once) && i < |artifacts| <= |once| && once[i] == Updated(artifacts, touches, artifacts[i])
    ensures SortedSet(AllLinks(once, touches, once[i].id, isWrite)) == LinksOf(once[i], isWrite)
  {
    var id := artifacts[i].id;
    var before := AllLinks(artifacts, touches, id, isWrite);
    LinksUnderOwnId(once, i, isWrite);
    SortedSetKeeps(before);
    SortedSetIsCanonical(before, SortedSet(before) + TableIds(touches, id, isWrite));
  }

  lemma TableHasNoLinks(trees: seq<Tree>, artifacts: seq<Artifact>, i: nat, isWrite: bool)
    requires DistinctIds(Returned(trees, artifacts)) && |artifacts| <= i < |Returned(trees, artifacts)|
    ensures var once, touches := Returned(trees, artifacts), Touched(ById(artifacts), trees);
            AllLinks(once, touches, once[i].id, isWrite) == []
  {
    var once, touches := Returned(trees, artifacts), Touched(ById(artifacts), trees);
    var tables, x := TablesOf(touches), once[i];
    assert x == tables[i - |artifacts|] && x in tables && x.id in Ids(tables);
    ReturnedIdsAreDistinct(trees, artifacts);
    TablesOfContents(touches);
    LinksUnderOwnId(once, i, isWrite);
    if TableIds(touches, x.id, isWrite) != [] {
      var y := TableIds(touches, x.id, isWrite)[0];
      TableIdsContents(touches, x.id, isWrite, y);
      var t :| t in touches && t.source == x.id;
      SourcesAreArtifacts(trees, artifacts, t);
      assert false;
    }
  }

  // Resolving what was returned finds the same accesses and changes no artifact, but hands out the table
  // records a second time.
  lemma {:induction false} SecondRunRepeatsTheTables(trees: seq<Tree>, artifacts: seq<Artifact>)
    requires DistinctIds(Returned(trees, artifacts))
    ensures Returned(trees, Returned(trees, artifacts))
         == Returned(trees, artifacts) + TablesOf(Touched(ById(artifacts), trees))
  {
    var once, touches := Returned(trees, artifacts), Touched(ById(artifacts), trees);
    ReturnedIdsAreDistinct(trees, artifacts);
    ByIdOfDistinct(artifacts);
    ByIdOfDistinct(once);
    forall q ensures EnclosingId(once, q) == EnclosingId(artifacts, q) {
      ReturnedEncloseTheSame(artifacts, touches, q);
    }
    EnclosingDecidesTouches(once, artifacts, trees);
    forall i | 0 <= i < |once| ensures Applied(once, touches)[i] == once[i] {
      AccessesAreFinal(trees, artifacts, i);
    }
    assert Applied(once, touches) == once;
  }
}
