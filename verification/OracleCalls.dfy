/**
  Resolving PL/SQL and Pro*C procedure calls.

  A call to a procedure nobody declares makes a stub artifact on the spot, indexed for the calls that
  follow.  Every edge must start at an input artifact and end at a returned one.
*/
module OracleCalls {
  import opened Wrappers
  import opened Text
  import opened Artifacts
  import opened EnclosingLookup

  datatype PkgKey = PkgKey(repo: string, pkg: string, name: string)

  datatype NameKey = NameKey(repo: string, name: string)

  datatype PkgEntry = PkgEntry(key: PkgKey, id: string)

  // `byPkg` is a dictionary in insertion order: the scan over other repositories takes the first hit.
  datatype Index = Index(byName: map<NameKey, string>, byPkg: seq<PkgEntry>)

  // `text` is the callee of a call, or the procedure named by an EXEC SQL statement; the operation is
  // only used for the latter.
  datatype Fact = Fact(file: string, line: nat, repo: string, operation: string, text: string)

  datatype Tree = Tree(repo: string, calls: seq<Fact>, statements: seq<Fact>)

  datatype Link = Link(source: string, target: string)

  function ProcId(repo: string, pkg: string, name: string): string {
    Join(["proc", repo, pkg, Lower(name)], ':')
  }

  function PkgFromId(id: string): string {
    var parts := Split(id, ':');
    if |id| >= 5 && id[..5] == "proc:" && |parts| >= 4 then parts[2] else ""
  }

  lemma JoinOfFour(a: string, b: string, c: string, d: string, sep: char)
    ensures Join([a, b, c, d], sep) == a + [sep] + b + [sep] + c + [sep] + d
  {
    assert [a, b, c, d][..3] == [a, b, c] && [a, b, c][..2] == [a, b] && [a, b][..1] == [a];
    assert Join([a], sep) == a && Join([a, b], sep) == a + [sep] + b;
    assert Join([a, b, c], sep) == a + [sep] + b + [sep] + c;
  }

  lemma SplitOfFour(a: string, b: string, c: string, d: string, sep: char)
    requires sep !in a && sep !in b && sep !in c
    ensures Split(a + [sep] + b + [sep] + c + [sep] + d, sep) == [a, b, c] + Split(d, sep)
  {
    SplitConcat(a, b, sep);
    SplitConcat(a + [sep] + b, c, sep);
    SplitConcat(a + [sep] + b + [sep] + c, d, sep);
    SplitWithout(a, sep);
    SplitWithout(b, sep);
    SplitWithout(c, sep);
    assert [a] + [b] + [c] == [a, b, c];
  }

  // The package is recovered from an id as long as no colon hides in repository or package.
  lemma PkgRoundTrip(repo: string, pkg: string, name: string)
    requires ':' !in repo && ':' !in pkg
    ensures PkgFromId(ProcId(repo, pkg, name)) == pkg
  {
    JoinOfFour("proc", repo, pkg, Lower(name), ':');
    SplitOfFour("proc", repo, pkg, Lower(name), ':');
    var id := ProcId(repo, pkg, name);
    assert id == "proc:" + (repo + [':'] + pkg + [':'] + Lower(name));
    assert id[..5] == "proc:" && Split(id, ':')[2] == pkg;
  }

  /******* The index *******/

  function Get(entries: seq<PkgEntry>, key: PkgKey): Option<string> {
    if entries == [] then None
    else if entries[0].key == key then Some(entries[0].id)
    else Get(entries[1..], key)
  }

  function Set(entries: seq<PkgEntry>, key: PkgKey, id: string): seq<PkgEntry> {
    if entries == [] then [PkgEntry(key, id)]
    else if entries[0].key == key then [PkgEntry(key, id)] + entries[1..]
    else [entries[0]] + Set(entries[1..], key, id)
  }

  function FirstInAnyRepo(entries: seq<PkgEntry>, pkg: string, name: string): Option<string> {
    if entries == [] then None
    else if entries[0].key.pkg == pkg && entries[0].key.name == name then Some(entries[0].id)
    else FirstInAnyRepo(entries[1..], pkg, name)
  }

  function AddToIndex(index: Index, a: Artifact): Index {
    if a.kind !in {Procedure, Function, Trigger} then index
    else
      var name, pkg := Lower(a.name), PkgFromId(a.id);
      Index(index.byName[NameKey(a.repo, name) := a.id],
            if pkg == "" then index.byPkg else Set(index.byPkg, PkgKey(a.repo, pkg, name), a.id))
  }

  function IndexOf(artifacts: seq<Artifact>): Index {
    if artifacts == [] then Index(map[], [])
    else AddToIndex(IndexOf(artifacts[..|artifacts| - 1]), artifacts[|artifacts| - 1])
  }

  // An empty id counts as no hit in the own repository.
  function ResolveCall(callee: string, repo: string, byName: map<NameKey, string>,
      byPkg: seq<PkgEntry>): Option<string> {
    if callee == "" then None else
    var parts := Split(Lower(callee), '.');
    if |parts| >= 2 then
      var pkg, name := parts[|parts| - 2], parts[|parts| - 1];
      var hit := Get(byPkg, PkgKey(repo, pkg, name));
      if hit.Some? && hit.value != "" then hit else FirstInAnyRepo(byPkg, pkg, name)
    else if NameKey(repo, parts[0]) in byName then Some(byName[NameKey(repo, parts[0])]) else None
  }

  /******* What a lookup finds *******/

  predicate IsProcedural(a: Artifact) {
    a.kind in {Procedure, Function, Trigger}
  }

  // A procedure that declares this package in its id.
  predicate InPackage(a: Artifact, pkg: string, name: string) {
    IsProcedural(a) && pkg != "" && PkgFromId(a.id) == pkg && Lower(a.name) == name
  }

  ghost predicate IsLastNamed(artifacts: seq<Artifact>, key: NameKey, i: int) {
    && 0 <= i < |artifacts| && IsProcedural(artifacts[i]) && NameKey(artifacts[i].repo, Lower(artifacts[i].name)) == key
    && forall j :: i < j < |artifacts| && IsProcedural(artifacts[j]) ==>
         NameKey(artifacts[j].repo, Lower(artifacts[j].name)) != key
  }

  function Keys(entries: seq<PkgEntry>): set<PkgKey> {
    set e | e in entries :: e.key
  }

  lemma {:induction false} SetContents(entries: seq<PkgEntry>, key: PkgKey, id: string)
    ensures forall e :: e in Set(entries, key, id) ==> e in entries || e == PkgEntry(key, id)
    ensures Keys(Set(entries, key, id)) == Keys(entries) + {key}
  {
    if entries == [] {
      assert PkgEntry(key, id) in [PkgEntry(key, id)];
    } else {
      var rest := if entries[0].key == key then entries[1..] else Set(entries[1..], key, id);
      var first := if entries[0].key == key then PkgEntry(key, id) else entries[0];
      SetContents(entries[1..], key, id);
      KeysOfCons(first, rest);
      KeysOfCons(entries[0], entries[1..]);
      assert entries == [entries[0]] + entries[1..];
    }
  }

  lemma KeysOfCons(e: PkgEntry, entries: seq<PkgEntry>)
    ensures Keys([e] + entries) == {e.key} + Keys(entries)
  {
    assert forall x :: x in [e] + entries <==> x == e || x in entries;
  }

  lemma {:induction false} GetFinds(entries: seq<PkgEntry>, key: PkgKey)
    ensures Get(entries, key).Some? <==> key in Keys(entries)
    ensures Get(entries, key).Some? ==> PkgEntry(key, Get(entries, key).value) in entries
  {
    if entries != [] {
      GetFinds(entries[1..], key);
      KeysOfCons(entries[0], entries[1..]);
      assert entries == [entries[0]] + entries[1..];
    }
  }

  lemma {:induction false} FirstInAnyRepoFinds(entries: seq<PkgEntry>, pkg: string, name: string)
    ensures FirstInAnyRepo(entries, pkg, name).Some?
          <==> exists e :: e in entries && e.key.pkg == pkg && e.key.name == name
    ensures var hit := FirstInAnyRepo(entries, pkg, name);
            hit.Some? ==> exists e :: e in entries && e.key.pkg == pkg && e.key.name == name && e.id == hit.value
  {
    if entries != [] {
      FirstInAnyRepoFinds(entries[1..], pkg, name);
      assert forall e :: e in entries <==> e == entries[0] || e in entries[1..] by {
        assert entries == [entries[0]] + entries[1..];
      }
    }
  }

  ghost predicate Declares(artifacts: seq<Artifact>, e: PkgEntry) {
    exists a :: a in artifacts && InPackage(a, e.key.pkg, e.key.name) && a.repo == e.key.repo && a.id == e.id
  }

  // The package index holds the declared packages, and nothing else.
  lemma {:induction false} PackagesAreIndexed(artifacts: seq<Artifact>)
    ensures forall e :: e in IndexOf(artifacts).byPkg ==> Declares(artifacts, e)
    ensures forall a :: a in artifacts && IsProcedural(a) && PkgFromId(a.id) != "" ==>
              PkgKey(a.repo, PkgFromId(a.id), Lower(a.name)) in Keys(IndexOf(artifacts).byPkg)
  {
    if artifacts != [] {
      var init, last := artifacts[..|artifacts| - 1], artifacts[|artifacts| - 1];
      PackagesAreIndexed(init);
      assert forall a :: a in artifacts <==> a in init || a == last by {
        assert artifacts == init + [last];
      }
      forall e | e in IndexOf(init).byPkg ensures Declares(artifacts, e) {
        assert Declares(init, e);
      }
      if IsProcedural(last) && PkgFromId(last.id) != "" {
        var key := PkgKey(last.repo, PkgFromId(last.id), Lower(last.name));
        SetContents(IndexOf(init).byPkg, key, last.id);
        assert Declares(artifacts, PkgEntry(key, last.id));
      }
    }
  }

  lemma {:induction false} NamesAreIndexed(artifacts: seq<Artifact>, key: NameKey)
    ensures var byName := IndexOf(artifacts).byName;
            if key in byName then exists i :: IsLastNamed(artifacts, key, i) && byName[key] == artifacts[i].id
            else forall i :: !IsLastNamed(artifacts, key, i)
  {
    if artifacts != [] {
      var n := |artifacts| - 1;
      var init, last := artifacts[..n], artifacts[n];
      NamesAreIndexed(init, key);
      assert forall j :: 0 <= j < n ==> init[j] == artifacts[j];
      if IsProcedural(last) && NameKey(last.repo, Lower(last.name)) == key {
        assert IsLastNamed(artifacts, key, n);
      } else {
        assert forall i :: IsLastNamed(artifacts, key, i) <==> IsLastNamed(init, key, i);
      }
    }
  }

  // A qualified call finds a procedure of the package whenever any repository declares one, and one of
  // the calling repository if that does.  An unqualified call finds the procedure of that name that the
  // calling repository lists last, be it the only one or not.
  lemma LookupFindsProcedures(callee: string, repo: string, artifacts: seq<Artifact>)
    requires callee != ""
    ensures var index, parts := IndexOf(artifacts), Split(Lower(callee), '.');
            var target := ResolveCall(callee, repo, index.byName, index.byPkg);
            if |parts| >= 2 then FoundInPackage(artifacts, repo, parts[|parts| - 2], parts[|parts| - 1], target)
            else if target.None? then forall i :: !IsLastNamed(artifacts, NameKey(repo, parts[0]), i)
            else exists i :: IsLastNamed(artifacts, NameKey(repo, parts[0]), i) && target.value == artifacts[i].id
  {
    var index, parts := IndexOf(artifacts), Split(Lower(callee), '.');
    if |parts| >= 2 {
      PackageLookup(artifacts, repo, parts[|parts| - 2], parts[|parts| - 1]);
    } else {
      NamesAreIndexed(artifacts, NameKey(repo, parts[0]));
    }
  }

  ghost predicate FoundInPackage(artifacts: seq<Artifact>, repo: string, pkg: string, name: string,
      target: Option<string>) {
    if target.None? then forall a :: a in artifacts ==> !InPackage(a, pkg, name)
    else exists a :: && a in artifacts && InPackage(a, pkg, name) && a.id == target.value
                     && (a.repo == repo || forall b :: b in artifacts && InPackage(b, pkg, name) ==> b.repo != repo)
  }

  lemma PackageLookup(artifacts: seq<Artifact>, repo: string, pkg: string, name: string)
    ensures var byPkg := IndexOf(artifacts).byPkg;
            var hit := Get(byPkg, PkgKey(repo, pkg, name));
            FoundInPackage(artifacts, repo, pkg, name,
                           if hit.Some? && hit.value != "" then hit else FirstInAnyRepo(byPkg, pkg, name))
  {
    LocalLookup(artifacts, repo, pkg, name);
    LookupInAnyRepo(artifacts, pkg, name);
  }

  lemma LocalLookup(artifacts: seq<Artifact>, repo: string, pkg: string, name: string)
    ensures var hit := Get(IndexOf(artifacts).byPkg, PkgKey(repo, pkg, name));
            if hit.None? then forall a :: a in artifacts && InPackage(a, pkg, name) ==> a.repo != repo
            else
              && hit.value != ""
              && exists a :: a in artifacts && InPackage(a, pkg, name) && a.repo == repo && a.id == hit.value
  {
    var byPkg, key := IndexOf(artifacts).byPkg, PkgKey(repo, pkg, name);
    PackagesAreIndexed(artifacts);
    GetFinds(byPkg, key);
    if Get(byPkg, key).Some? {
      assert Declares(artifacts, PkgEntry(key, Get(byPkg, key).value));
    }
  }

  lemma LookupInAnyRepo(artifacts: seq<Artifact>, pkg: string, name: string)
    ensures var hit := FirstInAnyRepo(IndexOf(artifacts).byPkg, pkg, name);
            if hit.None? then forall a :: a in artifacts ==> !InPackage(a, pkg, name)
            else exists a :: a in artifacts && InPackage(a, pkg, name) && a.id == hit.value
  {
    var byPkg := IndexOf(artifacts).byPkg;
    PackagesAreIndexed(artifacts);
    FirstInAnyRepoFinds(byPkg, pkg, name);
    forall a | a in artifacts && InPackage(a, pkg, name)
      ensures exists e :: e in byPkg && e.key.pkg == pkg && e.key.name == name
    {
      assert PkgKey(a.repo, pkg, name) in Keys(byPkg);
    }
    var hit := FirstInAnyRepo(byPkg, pkg, name);
    if hit.Some? {
      var e :| e in byPkg && e.key.pkg == pkg && e.key.name == name && e.id == hit.value;
      assert Declares(artifacts, e);
    }
  }

  /******* Stubs *******/

  function StubKey(qualified: string): PkgKey {
    var parts := Split(Lower(qualified), '.');
    PkgKey("external", if |parts| >= 2 then parts[|parts| - 2] else "", parts[|parts| - 1])
  }

  function StubId(qualified: string): string {
    ProcId("external", StubKey(qualified).pkg, StubKey(qualified).name)
  }

  function Stub(qualified: string): Artifact {
    var name := Lower(qualified);
    Artifact(StubId(qualified), "external", Procedure, name, "external:" + name, 1, 1, [], [], [])
  }

  // The state of the pass over the facts.
  datatype Pass = Pass(byPkg: seq<PkgEntry>, extras: seq<Artifact>, edges: seq<Link>)

  function Materialize(p: Pass, qualified: string): Pass {
    if StubId(qualified) in Ids(p.extras) then p
    else p.(extras := p.extras + [Stub(qualified)], byPkg := Set(p.byPkg, StubKey(qualified), StubId(qualified)))
  }

  /******* The pass *******/

  // The lookup made again for Pro*C facts, accepted only if it finds a function.
  function EnclosingFunction(items: seq<Artifact>, q: Query): Option<string> {
    var id := EnclosingId(items, q);
    if id.Some? && exists a :: a in items && a.id == id.value && a.kind == Function then id else None
  }

  function SourceOf(items: seq<Artifact>, f: Fact): Option<string> {
    var q := Query(f.file, f.line, f.repo);
    if EnclosingId(items, q).Some? then EnclosingId(items, q) else EnclosingFunction(items, q)
  }

  // It repeats the lookup that just failed, so it never adds a source; it could only have kept the functions
  // among those found.
  lemma SecondLookupNeverHelps(items: seq<Artifact>, f: Fact)
    ensures SourceOf(items, f) == EnclosingId(items, Query(f.file, f.line, f.repo))
    ensures forall id :: EnclosingFunction(items, Query(f.file, f.line, f.repo)) == Some(id)
                    <==> && EnclosingId(items, Query(f.file, f.line, f.repo)) == Some(id)
                         && exists i :: 0 <= i < |items| && items[i].id == id && items[i].kind == Function
  {
  }

  function LinkFrom(source: Option<string>, target: string): seq<Link> {
    if source.Some? then [Link(source.value, target)] else []
  }

  function CallStep(p: Pass, repo: string, f: Fact, byName: map<NameKey, string>, items: seq<Artifact>): Pass {
    var target := ResolveCall(f.text, repo, byName, p.byPkg);
    if target.None? then p
    else p.(edges := p.edges + LinkFrom(EnclosingId(items, Query(f.file, f.line, f.repo)), target.value))
  }

  function StatementStep(p: Pass, repo: string, f: Fact, byName: map<NameKey, string>, items: seq<Artifact>): Pass {
    if f.operation !in {"call", "execute"} || f.text == "" then p else
    var target := ResolveCall(f.text, repo, byName, p.byPkg);
    var q := if target.Some? then p else Materialize(p, f.text);
    q.(edges := q.edges + LinkFrom(SourceOf(items, f), if target.Some? then target.value else StubId(f.text)))
  }

  function CallSteps(p: Pass, repo: string, facts: seq<Fact>, byName: map<NameKey, string>,
      items: seq<Artifact>): Pass {
    if facts == [] then p
    else CallStep(CallSteps(p, repo, facts[..|facts| - 1], byName, items), repo, facts[|facts| - 1], byName, items)
  }

  function StatementSteps(p: Pass, repo: string, facts: seq<Fact>, byName: map<NameKey, string>,
      items: seq<Artifact>): Pass {
    if facts == [] then p
    else
      var before := StatementSteps(p, repo, facts[..|facts| - 1], byName, items);
      StatementStep(before, repo, facts[|facts| - 1], byName, items)
  }

  function TreeSteps(p: Pass, trees: seq<Tree>, byName: map<NameKey, string>, items: seq<Artifact>): Pass {
    if trees == [] then p
    else
      var t := trees[|trees| - 1];
      var q := TreeSteps(p, trees[..|trees| - 1], byName, items);
      StatementSteps(CallSteps(q, t.repo, t.calls, byName, items), t.repo, t.statements, byName, items)
  }

  function PassOver(trees: seq<Tree>, artifacts: seq<Artifact>): Pass {
    var index := IndexOf(artifacts);
    TreeSteps(Pass(index.byPkg, [], []), trees, index.byName, ById(artifacts))
  }

  /******* Applying the edges *******/

  function TargetsOf(edges: seq<Link>, id: string): seq<string> {
    if edges == [] then []
    else
      var e := edges[|edges| - 1];
      TargetsOf(edges[..|edges| - 1], id) + if e.source == id then [e.target] else []
  }

  // The calls recorded under an id: the last artifact with that id counts.
  function CallsUnder(artifacts: seq<Artifact>, id: string): seq<string> {
    if artifacts == [] then []
    else if artifacts[|artifacts| - 1].id == id then artifacts[|artifacts| - 1].calls
    else CallsUnder(artifacts[..|artifacts| - 1], id)
  }

  function NewCalls(artifacts: seq<Artifact>, edges: seq<Link>, id: string): seq<string> {
    SortedSet(CallsUnder(artifacts, id) + TargetsOf(edges, id))
  }

  function Applied(artifacts: seq<Artifact>, edges: seq<Link>): seq<Artifact> {
    seq(|artifacts|, i requires 0 <= i < |artifacts| =>
      artifacts[i].(calls := NewCalls(artifacts, edges, artifacts[i].id)))
  }

  function Returned(trees: seq<Tree>, artifacts: seq<Artifact>): seq<Artifact> {
    var p := PassOver(trees, artifacts);
    Applied(artifacts, p.edges) + p.extras
  }

  lemma {:induction false} TargetsOfContents(edges: seq<Link>, id: string)
    ensures forall t :: t in TargetsOf(edges, id) <==> Link(id, t) in edges
  {
    if edges != [] {
      TargetsOfContents(edges[..|edges| - 1], id);
      assert edges == edges[..|edges| - 1] + [edges[|edges| - 1]];
    }
  }

  lemma {:induction false} CallsUnderUpdated(artifacts: seq<Artifact>, updated: seq<Artifact>, id: string,
      calls: seq<string>)
    requires |updated| == |artifacts| && id in Ids(artifacts)
    requires forall i :: 0 <= i < |artifacts| ==>
      updated[i].id == artifacts[i].id && (artifacts[i].id == id ==> updated[i].calls == calls)
    ensures CallsUnder(updated, id) == calls
  {
    var n := |artifacts| - 1;
    if artifacts[n].id != id {
      assert artifacts == artifacts[..n] + [artifacts[n]];
      CallsUnderUpdated(artifacts[..n], updated[..n], id, calls);
    }
  }

  lemma {:induction false} CallsUnderOwnId(artifacts: seq<Artifact>, i: nat)
    requires DistinctIds(artifacts) && i < |artifacts|
    ensures CallsUnder(artifacts, artifacts[i].id) == artifacts[i].calls
  {
    if i < |artifacts| - 1 {
      CallsUnderOwnId(artifacts[..|artifacts| - 1], i);
    }
  }

  // The new calls of an id are the sorted union of its old calls and its targets; the order and the
  // repetition of the edges do not matter, and applying them again changes nothing.
  lemma NewCallsAreCanonical(artifacts: seq<Artifact>, edges: seq<Link>, same: seq<Link>, id: string)
    requires forall e :: e in edges <==> e in same
    requires id in Ids(artifacts)
    ensures NewCalls(artifacts, edges, id) == NewCalls(artifacts, same, id)
    ensures NewCalls(Applied(artifacts, edges), same, id) == NewCalls(artifacts, edges, id)
    ensures Increasing(NewCalls(artifacts, edges, id))
    ensures forall t :: t in NewCalls(artifacts, edges, id) <==> t in CallsUnder(artifacts, id) || Link(id, t) in edges
  {
    TargetsOfContents(edges, id);
    TargetsOfContents(same, id);
    var before := CallsUnder(artifacts, id);
    var wanted := before + TargetsOf(edges, id);
    var once := SortedSet(wanted);
    SortedSetKeeps(wanted);
    SortedSetIsCanonical(wanted, before + TargetsOf(same, id));
    SortedSetIsCanonical(wanted, once + TargetsOf(same, id));
    CallsUnderUpdated(artifacts, Applied(artifacts, edges), id, once);
  }

  lemma AppliedIsCanonical(artifacts: seq<Artifact>, edges: seq<Link>, same: seq<Link>)
    requires forall e :: e in edges <==> e in same
    ensures Applied(artifacts, edges) == Applied(artifacts, same)
    ensures Applied(Applied(artifacts, edges), same) == Applied(artifacts, edges)
    ensures DistinctIds(artifacts) ==> forall i :: 0 <= i < |artifacts| ==>
      var calls := Applied(artifacts, edges)[i].calls;
      Increasing(calls) && forall t :: t in calls <==> t in artifacts[i].calls || Link(artifacts[i].id, t) in edges
  {
    var once := Applied(artifacts, edges);
    forall i | 0 <= i < |artifacts|
      ensures once[i] == Applied(artifacts, same)[i] && Applied(once, same)[i] == once[i]
      ensures DistinctIds(artifacts) ==>
        Increasing(once[i].calls)
        && forall t :: t in once[i].calls <==> t in artifacts[i].calls || Link(artifacts[i].id, t) in edges
    {
      assert artifacts[i] in artifacts;
      NewCallsAreCanonical(artifacts, edges, same, artifacts[i].id);
      if DistinctIds(artifacts) {
        CallsUnderOwnId(artifacts, i);
      }
    }
  }

  /******* No dangling edges *******/

  // Everything the index can answer with is an input artifact or a stub; stubs have their own ids;
  // edges start at inputs and end at inputs or stubs.
  ghost predicate Grounded(p: Pass, known: set<string>) {
    && (forall e :: e in p.byPkg ==> e.id in known + Ids(p.extras))
    && (forall e :: e in p.edges ==> e.source in known && e.target in known + Ids(p.extras))
    && DistinctIds(p.extras)
  }

  ghost predicate NamesAre(byName: map<NameKey, string>, known: set<string>) {
    forall k: NameKey :: k in byName.Keys ==> byName[k] in known
  }

  lemma {:induction false} HitsAreEntries(entries: seq<PkgEntry>, key: PkgKey, pkg: string, name: string)
    ensures Get(entries, key).Some? ==> exists e :: e in entries && e.id == Get(entries, key).value
    ensures FirstInAnyRepo(entries, pkg, name).Some? ==>
          exists e :: e in entries && e.id == FirstInAnyRepo(entries, pkg, name).value
  {
    if entries != [] {
      assert entries[0] in entries;
      HitsAreEntries(entries[1..], key, pkg, name);
      assert forall e :: e in entries[1..] ==> e in entries;
    }
  }

  lemma {:induction false} IndexIsGrounded(artifacts: seq<Artifact>)
    ensures var index := IndexOf(artifacts);
            && NamesAre(index.byName, Ids(artifacts))
            && forall e :: e in index.byPkg ==> e.id in Ids(artifacts)
  {
    if artifacts != [] {
      var init, last := artifacts[..|artifacts| - 1], artifacts[|artifacts| - 1];
      IndexIsGrounded(init);
      assert artifacts == init + [last];
      assert Ids(artifacts) == Ids(init) + {last.id};
      SetContents(IndexOf(init).byPkg, PkgKey(last.repo, PkgFromId(last.id), Lower(last.name)), last.id);
    }
  }

  lemma ResolvedIsGrounded(p: Pass, callee: string, repo: string, byName: map<NameKey, string>, known: set<string>)
    requires Grounded(p, known) && NamesAre(byName, known)
    ensures var target := ResolveCall(callee, repo, byName, p.byPkg);
            target.Some? ==> target.value in known + Ids(p.extras)
  {
    var parts := Split(Lower(callee), '.');
    if |parts| >= 2 {
      HitsAreEntries(p.byPkg, PkgKey(repo, parts[|parts| - 2], parts[|parts| - 1]), parts[|parts| - 2],
            parts[|parts| - 1]);
    }
  }

  lemma MaterializeIsGrounded(p: Pass, qualified: string, known: set<string>)
    requires Grounded(p, known)
    ensures var q := Materialize(p, qualified);
            Grounded(q, known) && StubId(qualified) in Ids(q.extras) && q.edges == p.edges
  {
    var stub := Stub(qualified);
    assert Ids(p.extras + [stub]) == Ids(p.extras) + {stub.id} by {
      assert forall a :: a in p.extras + [stub] <==> a in p.extras || a == stub;
      assert stub in p.extras + [stub];
    }
    assert forall i :: 0 <= i < |p.extras| ==> p.extras[i].id in Ids(p.extras);
    SetContents(p.byPkg, StubKey(qualified), StubId(qualified));
  }

  lemma LinkIsGrounded(p: Pass, source: Option<string>, target: string, known: set<string>)
    requires Grounded(p, known) && target in known + Ids(p.extras)
    requires source.Some? ==> source.value in known
    ensures Grounded(p.(edges := p.edges + LinkFrom(source, target)), known)
  {
  }

  lemma StepsAreGrounded(p: Pass, repo: string, f: Fact, byName: map<NameKey, string>, items: seq<Artifact>)
    requires Grounded(p, Ids(items)) && NamesAre(byName, Ids(items))
    ensures Grounded(CallStep(p, repo, f, byName, items), Ids(items))
    ensures Grounded(StatementStep(p, repo, f, byName, items), Ids(items))
  {
    EnclosingIdIsKnown(items, Query(f.file, f.line, f.repo));
    SecondLookupNeverHelps(items, f);
    ResolvedIsGrounded(p, f.text, repo, byName, Ids(items));
    MaterializeIsGrounded(p, f.text, Ids(items));
    var source, target := EnclosingId(items, Query(f.file, f.line, f.repo)), ResolveCall(f.text, repo, byName, p.byPkg);
    if target.Some? {
      LinkIsGrounded(p, source, target.value, Ids(items));
    } else {
      LinkIsGrounded(Materialize(p, f.text), source, StubId(f.text), Ids(items));
    }
  }

  lemma {:induction false} FactsAreGrounded(p: Pass, repo: string, facts: seq<Fact>, byName: map<NameKey, string>,
      items: seq<Artifact>)
    requires Grounded(p, Ids(items)) && NamesAre(byName, Ids(items))
    ensures Grounded(CallSteps(p, repo, facts, byName, items), Ids(items))
    ensures Grounded(StatementSteps(p, repo, facts, byName, items), Ids(items))
  {
    if facts != [] {
      var init, last := facts[..|facts| - 1], facts[|facts| - 1];
      FactsAreGrounded(p, repo, init, byName, items);
      StepsAreGrounded(CallSteps(p, repo, init, byName, items), repo, last, byName, items);
      StepsAreGrounded(StatementSteps(p, repo, init, byName, items), repo, last, byName, items);
    }
  }

  lemma {:induction false} TreesAreGrounded(p: Pass, trees: seq<Tree>, byName: map<NameKey, string>,
      items: seq<Artifact>)
    requires Grounded(p, Ids(items)) && NamesAre(byName, Ids(items))
    ensures Grounded(TreeSteps(p, trees, byName, items), Ids(items))
  {
    if trees != [] {
      var t := trees[|trees| - 1];
      TreesAreGrounded(p, trees[..|trees| - 1], byName, items);
      var q := TreeSteps(p, trees[..|trees| - 1], byName, items);
      FactsAreGrounded(q, t.repo, t.calls, byName, items);
      FactsAreGrounded(CallSteps(q, t.repo, t.calls, byName, items), t.repo, t.statements, byName, items);
    }
  }

  // Every edge starts at an input artifact and ends at a returned one, stubs made on the way included;
  // all targets that are called stay callable.
  lemma NoDanglingTargets(trees: seq<Tree>, artifacts: seq<Artifact>)
    ensures forall e :: e in PassOver(trees, artifacts).edges ==>
      e.source in Ids(artifacts) && e.target in Ids(Returned(trees, artifacts))
  {
    IndexIsGrounded(artifacts);
    var index := IndexOf(artifacts);
    TreesAreGrounded(Pass(index.byPkg, [], []), trees, index.byName, ById(artifacts));
    var p := PassOver(trees, artifacts);
    ReturnedIds(trees, artifacts);
  }

  lemma ReturnedIds(trees: seq<Tree>, artifacts: seq<Artifact>)
    ensures Ids(Returned(trees, artifacts)) == Ids(artifacts) + Ids(PassOver(trees, artifacts).extras)
  {
    var p := PassOver(trees, artifacts);
    SameIds(artifacts, Applied(artifacts, p.edges));
    assert forall a :: a in Returned(trees, artifacts) <==> a in Applied(artifacts, p.edges) || a in p.extras;
  }

  /******* Which stubs are made *******/

  predicate IsCallStatement(f: Fact) {
    f.operation in {"call", "execute"} && f.text != ""
  }

  // A call statement whose procedure the index does not know.
  predicate IsUnresolved(index: Index, repo: string, f: Fact) {
    IsCallStatement(f) && ResolveCall(f.text, repo, index.byName, index.byPkg).None?
  }

  ghost predicate NeedsStub(index: Index, trees: seq<Tree>, id: string) {
    exists t, f :: t in trees && f in t.statements && IsUnresolved(index, t.repo, f) && StubId(f.text) == id
  }

  ghost predicate NeedsStubIn(index: Index, repo: string, facts: seq<Fact>, id: string) {
    exists f :: f in facts && IsUnresolved(index, repo, f) && StubId(f.text) == id
  }

  ghost predicate HasPair(entries: seq<PkgEntry>, pkg: string, name: string) {
    exists e :: e in entries && e.key.pkg == pkg && e.key.name == name
  }

  // Nothing of the index has been forgotten, and what has come to it are stubs.
  ghost predicate GrewByStubs(index: Index, p: Pass) {
    && (forall pkg, name :: HasPair(index.byPkg, pkg, name) ==> HasPair(p.byPkg, pkg, name))
    && (forall pkg, name :: HasPair(p.byPkg, pkg, name) ==>
          HasPair(index.byPkg, pkg, name) || StubIdOf(pkg, name) in Ids(p.extras))
    && forall a :: a in p.extras ==> exists qualified :: a == Stub(qualified)
  }

  function StubIdOf(pkg: string, name: string): string {
    ProcId("external", pkg, name)
  }

  // Whether a call is resolved depends on the pairs of package and name alone.
  lemma UnresolvedHasNoPair(callee: string, repo: string, byName: map<NameKey, string>, byPkg: seq<PkgEntry>)
    requires callee != ""
    ensures var parts := Split(Lower(callee), '.');
            ResolveCall(callee, repo, byName, byPkg).None?
            <==> if |parts| >= 2 then !HasPair(byPkg, parts[|parts| - 2], parts[|parts| - 1])
                 else NameKey(repo, parts[0]) !in byName
    ensures |Split(Lower(callee), '.')| >= 2 ==>
              var parts := Split(Lower(callee), '.'); StubId(callee) == StubIdOf(parts[|parts| - 2], parts[|parts| - 1])
  {
    var parts := Split(Lower(callee), '.');
    if |parts| >= 2 {
      var pkg, name := parts[|parts| - 2], parts[|parts| - 1];
      var hit := Get(byPkg, PkgKey(repo, pkg, name));
      FirstInAnyRepoFinds(byPkg, pkg, name);
      GetFinds(byPkg, PkgKey(repo, pkg, name));
      if hit.Some? {
        assert HasPair(byPkg, pkg, name);
      }
    }
  }

  lemma PairsOfSet(entries: seq<PkgEntry>, key: PkgKey, id: string, pkg: string, name: string)
    ensures HasPair(Set(entries, key, id), pkg, name)
            <==> HasPair(entries, pkg, name) || (key.pkg == pkg && key.name == name)
  {
    SetContents(entries, key, id);
    PairsAreKeys(entries, pkg, name);
    PairsAreKeys(Set(entries, key, id), pkg, name);
  }

  lemma PairsAreKeys(entries: seq<PkgEntry>, pkg: string, name: string)
    ensures HasPair(entries, pkg, name) <==> exists key :: key in Keys(entries) && key.pkg == pkg && key.name == name
  {
    if e :| e in entries && e.key.pkg == pkg && e.key.name == name {
      assert e.key in Keys(entries);
    }
  }

  lemma MaterializeGrows(index: Index, p: Pass, qualified: string)
    requires GrewByStubs(index, p)
    ensures var q := Materialize(p, qualified);
            GrewByStubs(index, q) && Ids(q.extras) == Ids(p.extras) + {StubId(qualified)}
  {
    var q := Materialize(p, qualified);
    if StubId(qualified) !in Ids(p.extras) {
      var stub := Stub(qualified);
      assert forall a :: a in q.extras <==> a in p.extras || a == stub;
      assert stub in q.extras && Ids(q.extras) == Ids(p.extras) + {stub.id};
      forall pkg, name ensures HasPair(q.byPkg, pkg, name)
          <==> HasPair(p.byPkg, pkg, name) || (StubKey(qualified).pkg == pkg && StubKey(qualified).name == name) {
        PairsOfSet(p.byPkg, StubKey(qualified), StubId(qualified), pkg, name);
      }
    }
  }

  // A call that the grown index leaves unresolved was unresolved from the start; one that it resolves, but
  // the first index did not, has its stub.
  lemma UnresolvedOrStubbed(index: Index, p: Pass, callee: string, repo: string)
    requires GrewByStubs(index, p) && callee != ""
    ensures var first := ResolveCall(callee, repo, index.byName, index.byPkg);
            var now := ResolveCall(callee, repo, index.byName, p.byPkg);
            && (now.None? ==> first.None?)
            && (now.Some? && first.None? ==> StubId(callee) in Ids(p.extras))
  {
    UnresolvedHasNoPair(callee, repo, index.byName, p.byPkg);
    UnresolvedHasNoPair(callee, repo, index.byName, index.byPkg);
  }

  lemma StatementGrows(index: Index, p: Pass, repo: string, f: Fact, items: seq<Artifact>)
    requires GrewByStubs(index, p)
    ensures var q := StatementStep(p, repo, f, index.byName, items);
            && GrewByStubs(index, q)
            && Ids(q.extras) == Ids(p.extras) + if IsUnresolved(index, repo, f) then {StubId(f.text)} else {}
  {
    if IsCallStatement(f) {
      UnresolvedOrStubbed(index, p, f.text, repo);
      MaterializeGrows(index, p, f.text);
      var grown := if ResolveCall(f.text, repo, index.byName, p.byPkg).Some? then p else Materialize(p, f.text);
      assert StatementStep(p, repo, f, index.byName, items).byPkg == grown.byPkg;
      assert StatementStep(p, repo, f, index.byName, items).extras == grown.extras;
    }
  }

  lemma {:induction false} StatementsGrow(index: Index, p: Pass, repo: string, facts: seq<Fact>, items: seq<Artifact>,
      id: string)
    requires GrewByStubs(index, p)
    ensures var q := StatementSteps(p, repo, facts, index.byName, items);
            && GrewByStubs(index, q)
            && (id in Ids(q.extras) <==> id in Ids(p.extras) || NeedsStubIn(index, repo, facts, id))
  {
    if facts != [] {
      var init, last := facts[..|facts| - 1], facts[|facts| - 1];
      StatementsGrow(index, p, repo, init, items, id);
      StatementGrows(index, StatementSteps(p, repo, init, index.byName, items), repo, last, items);
      assert forall f :: f in facts <==> f in init || f == last by {
        assert facts == init + [last];
      }
    }
  }

  lemma {:induction false} CallsMakeNoStubs(p: Pass, repo: string, facts: seq<Fact>, byName: map<NameKey, string>,
      items: seq<Artifact>)
    ensures var q := CallSteps(p, repo, facts, byName, items);
            q.byPkg == p.byPkg && q.extras == p.extras
  {
    if facts != [] {
      CallsMakeNoStubs(p, repo, facts[..|facts| - 1], byName, items);
    }
  }

  lemma {:induction false} TreesGrow(index: Index, p: Pass, trees: seq<Tree>, items: seq<Artifact>, id: string)
    requires GrewByStubs(index, p)
    ensures var q := TreeSteps(p, trees, index.byName, items);
            && GrewByStubs(index, q)
            && (id in Ids(q.extras) <==> id in Ids(p.extras) || NeedsStub(index, trees, id))
  {
    if trees != [] {
      var init, t := trees[..|trees| - 1], trees[|trees| - 1];
      TreesGrow(index, p, init, items, id);
      var q := TreeSteps(p, init, index.byName, items);
      TreeGrows(index, q, t, items, id);
      NeedsStubSnoc(index, init, t, id);
      assert trees == init + [t];
    }
  }

  lemma TreeGrows(index: Index, p: Pass, t: Tree, items: seq<Artifact>, id: string)
    requires GrewByStubs(index, p)
    ensures var called := CallSteps(p, t.repo, t.calls, index.byName, items);
            var q := StatementSteps(called, t.repo, t.statements, index.byName, items);
            && GrewByStubs(index, q)
            && (id in Ids(q.extras) <==> id in Ids(p.extras) || NeedsStubIn(index, t.repo, t.statements, id))
  {
    CallsMakeNoStubs(p, t.repo, t.calls, index.byName, items);
    StatementsGrow(index, CallSteps(p, t.repo, t.calls, index.byName, items), t.repo, t.statements, items, id);
  }

  lemma NeedsStubSnoc(index: Index, init: seq<Tree>, t: Tree, id: string)
    ensures NeedsStub(index, init + [t], id)
            <==> NeedsStub(index, init, id) || NeedsStubIn(index, t.repo, t.statements, id)
  {
    assert forall u :: u in init + [t] <==> u in init || u == t;
  }

  // The stubs made are those of the call statements that the input artifacts leave unresolved.
  lemma StubsAreTheUnresolved(trees: seq<Tree>, artifacts: seq<Artifact>)
    ensures var extras := PassOver(trees, artifacts).extras;
            && (forall id :: id in Ids(extras) <==> NeedsStub(IndexOf(artifacts), trees, id))
            && DistinctIds(extras) && forall a :: a in extras ==> exists qualified :: a == Stub(qualified)
  {
    var index := IndexOf(artifacts);
    var start := Pass(index.byPkg, [], []);
    IndexIsGrounded(artifacts);
    TreesAreGrounded(start, trees, index.byName, ById(artifacts));
    forall id ensures id in Ids(PassOver(trees, artifacts).extras) <==> NeedsStub(index, trees, id) {
      TreesGrow(index, start, trees, ById(artifacts), id);
    }
    TreesGrow(index, start, trees, ById(artifacts), "");
  }

  // The returned ids are distinct exactly when the input ids were and no unresolved call statement makes a
  // stub with the id of an input artifact.
  lemma ReturnedIdsAreDistinctExactlyWhen(trees: seq<Tree>, artifacts: seq<Artifact>)
    ensures DistinctIds(Returned(trees, artifacts))
       <==> DistinctIds(artifacts)
            && forall id :: NeedsStub(IndexOf(artifacts), trees, id) ==> id !in Ids(artifacts)
  {
    var p := PassOver(trees, artifacts);
    StubsAreTheUnresolved(trees, artifacts);
    AppendedIdsAreDistinctExactlyWhen(Applied(artifacts, p.edges), p.extras);
    ReturnedIds(trees, artifacts);
    SameIds(artifacts, Applied(artifacts, p.edges));
  }

  /******* Running it again *******/

  // Names of procedures that a lookup can ask for hold no dot.
  function Dotless(entries: seq<PkgEntry>): seq<PkgEntry> {
    if entries == [] then []
    else if '.' in entries[0].key.name then Dotless(entries[1..])
    else [entries[0]] + Dotless(entries[1..])
  }

  lemma {:induction false} DotlessOfSet(entries: seq<PkgEntry>, key: PkgKey, id: string)
    ensures Dotless(Set(entries, key, id))
         == if '.' in key.name then Dotless(entries) else Set(Dotless(entries), key, id)
  {
    if entries == [] {
      assert [PkgEntry(key, id)][1..] == [];
    } else {
      var head, tail := entries[0], entries[1..];
      DotlessOfSet(tail, key, id);
      var rest := if head.key == key then tail else Set(tail, key, id);
      var first := if head.key == key then PkgEntry(key, id) else head;
      assert Set(entries, key, id) == [first] + rest && ([first] + rest)[1..] == rest;
      if '.' !in head.key.name {
        assert ([head] + Dotless(tail))[1..] == Dotless(tail);
      }
    }
  }

  lemma {:induction false} LookupsAreDotless(entries: seq<PkgEntry>, key: PkgKey)
    requires '.' !in key.name
    ensures Get(entries, key) == Get(Dotless(entries), key)
    ensures FirstInAnyRepo(entries, key.pkg, key.name) == FirstInAnyRepo(Dotless(entries), key.pkg, key.name)
  {
    if entries != [] {
      LookupsAreDotless(entries[1..], key);
      if '.' !in entries[0].key.name {
        assert Dotless(entries)[1..] == Dotless(entries[1..]);
      }
    }
  }

  ghost predicate SameNames(a: map<NameKey, string>, b: map<NameKey, string>, repo: string) {
    forall name :: var key := NameKey(repo, name); (key in a <==> key in b) && (key in a ==> a[key] == b[key])
  }

  // Passes that answer lookups alike and have made the same stubs.
  ghost predicate Alike(p: Pass, q: Pass) {
    Dotless(p.byPkg) == Dotless(q.byPkg) && p.extras == q.extras
  }

  lemma AlikeResolveAlike(p: Pass, q: Pass, callee: string, repo: string, a: map<NameKey, string>,
      b: map<NameKey, string>)
    requires Alike(p, q) && SameNames(a, b, repo)
    ensures ResolveCall(callee, repo, a, p.byPkg) == ResolveCall(callee, repo, b, q.byPkg)
  {
    var parts := Split(Lower(callee), '.');
    PartsAreFree(Lower(callee), '.');
    if callee != "" && |parts| >= 2 {
      assert parts[|parts| - 1] in parts;
      var key := PkgKey(repo, parts[|parts| - 2], parts[|parts| - 1]);
      LookupsAreDotless(p.byPkg, key);
      LookupsAreDotless(q.byPkg, key);
    }
  }

  lemma AlikeMaterializeAlike(p: Pass, q: Pass, qualified: string)
    requires Alike(p, q)
    ensures Alike(Materialize(p, qualified), Materialize(q, qualified))
  {
    DotlessOfSet(p.byPkg, StubKey(qualified), StubId(qualified));
    DotlessOfSet(q.byPkg, StubKey(qualified), StubId(qualified));
  }

  // The enclosing artifacts of facts that are not of the repository "external".
  ghost predicate SameSources(items: seq<Artifact>, others: seq<Artifact>) {
    forall q: Query :: q.repo != "external" ==> EnclosingId(items, q) == EnclosingId(others, q)
  }

  predicate IsForeign(t: Tree) {
    t.repo == "external" || exists f :: f in t.calls + t.statements && f.repo == "external"
  }

  lemma {:induction false} StatementsAlike(p: Pass, q: Pass, repo: string, facts: seq<Fact>, a: map<NameKey, string>,
      b: map<NameKey, string>, items: seq<Artifact>, others: seq<Artifact>)
    requires Alike(p, q) && SameNames(a, b, repo)
    ensures var x, y := StatementSteps(p, repo, facts, a, items), StatementSteps(q, repo, facts, b, others);
            && Alike(x, y)
            && (p.edges == q.edges && SameSources(items, others)
                && (forall f :: f in facts ==> f.repo != "external") ==>
                  x.edges == y.edges)
  {
    if facts != [] {
      var init, f := facts[..|facts| - 1], facts[|facts| - 1];
      assert f in facts && forall g :: g in init ==> g in facts;
      StatementsAlike(p, q, repo, init, a, b, items, others);
      var x, y := StatementSteps(p, repo, init, a, items), StatementSteps(q, repo, init, b, others);
      AlikeResolveAlike(x, y, f.text, repo, a, b);
      AlikeMaterializeAlike(x, y, f.text);
      SecondLookupNeverHelps(items, f);
      SecondLookupNeverHelps(others, f);
    }
  }

  lemma {:induction false} CallsAlike(p: Pass, q: Pass, repo: string, facts: seq<Fact>, a: map<NameKey, string>,
      b: map<NameKey, string>, items: seq<Artifact>, others: seq<Artifact>)
    requires Alike(p, q) && SameNames(a, b, repo) && p.edges == q.edges
    requires SameSources(items, others) && forall f :: f in facts ==> f.repo != "external"
    ensures CallSteps(p, repo, facts, a, items).edges == CallSteps(q, repo, facts, b, others).edges
  {
    if facts != [] {
      var init, f := facts[..|facts| - 1], facts[|facts| - 1];
      assert f in facts && forall g :: g in init ==> g in facts;
      CallsAlike(p, q, repo, init, a, b, items, others);
      CallsMakeNoStubs(p, repo, init, a, items);
      CallsMakeNoStubs(q, repo, init, b, others);
      AlikeResolveAlike(CallSteps(p, repo, init, a, items), CallSteps(q, repo, init, b, others), f.text, repo, a, b);
    }
  }

  lemma {:induction false} TreesAlike(p: Pass, q: Pass, trees: seq<Tree>, a: map<NameKey, string>,
      b: map<NameKey, string>, items: seq<Artifact>, others: seq<Artifact>)
    requires Alike(p, q) && p.edges == q.edges && forall repo :: repo != "external" ==> SameNames(a, b, repo)
    requires forall t :: t in trees ==> t.repo != "external"
    ensures var x, y := TreeSteps(p, trees, a, items), TreeSteps(q, trees, b, others);
            && Alike(x, y)
            && (SameSources(items, others) && (forall t :: t in trees ==> !IsForeign(t)) ==> x.edges == y.edges)
  {
    if trees != [] {
      var init, t := trees[..|trees| - 1], trees[|trees| - 1];
      assert t in trees && forall u :: u in init ==> u in trees;
      TreesAlike(p, q, init, a, b, items, others);
      var x, y := TreeSteps(p, init, a, items), TreeSteps(q, init, b, others);
      CallsMakeNoStubs(x, t.repo, t.calls, a, items);
      CallsMakeNoStubs(y, t.repo, t.calls, b, others);
      if SameSources(items, others) && !IsForeign(t) && x.edges == y.edges {
        CallsAlike(x, y, t.repo, t.calls, a, b, items, others);
      }
      StatementsAlike(CallSteps(x, t.repo, t.calls, a, items), CallSteps(y, t.repo, t.calls, b, others),
                      t.repo, t.statements, a, b, items, others);
    }
  }

  lemma {:induction false} SameIndex(a: seq<Artifact>, b: seq<Artifact>)
    requires |a| == |b|
    requires forall i :: 0 <= i < |a| ==>
      a[i].id == b[i].id && a[i].kind == b[i].kind && a[i].name == b[i].name && a[i].repo == b[i].repo
    ensures IndexOf(a) == IndexOf(b)
  {
    if a != [] {
      SameIndex(a[..|a| - 1], b[..|b| - 1]);
    }
  }

  lemma LowerTwice(s: string)
    ensures Lower(Lower(s)) == Lower(s)
  {
  }

  lemma {:induction false} DotSplits(s: string)
    ensures |Split(s, '.')| >= 2 <==> '.' in s
  {
    if s != "" {
      var init, last := s[..|s| - 1], s[|s| - 1];
      DotSplits(init);
      assert s == init + [last];
    }
  }

  lemma NoPackageInside(name: string)
    ensures PkgFromId(StubIdOf("", name)) == ""
  {
    JoinOfFour("proc", "external", "", Lower(name), ':');
    SplitOfFour("proc", "external", "", Lower(name), ':');
    assert Split(StubIdOf("", name), ':')[2] == "";
  }

  // A stub is indexed under a name with a dot, or under no package at all.
  lemma StubIsIndexedUseless(qualified: string)
    ensures var stub := Stub(qualified);
            '.' in Lower(stub.name) || PkgFromId(stub.id) == ""
  {
    LowerTwice(qualified);
    DotSplits(Lower(qualified));
    if |Split(Lower(qualified), '.')| < 2 {
      NoPackageInside(StubKey(qualified).name);
    }
  }

  lemma {:induction false} StubsAreIndexedUseless(artifacts: seq<Artifact>, stubs: seq<Artifact>)
    requires forall a :: a in stubs ==> exists qualified :: a == Stub(qualified)
    ensures var before, after := IndexOf(artifacts), IndexOf(artifacts + stubs);
            && Dotless(after.byPkg) == Dotless(before.byPkg)
            && forall repo :: repo != "external" ==> SameNames(before.byName, after.byName, repo)
  {
    if stubs == [] {
      assert artifacts + stubs == artifacts;
    } else {
      var init, last := stubs[..|stubs| - 1], stubs[|stubs| - 1];
      assert last in stubs && forall a :: a in init ==> a in stubs;
      StubsAreIndexedUseless(artifacts, init);
      assert (artifacts + stubs)[..|artifacts + stubs| - 1] == artifacts + init;
      var qualified :| last == Stub(qualified);
      StubIsIndexedUseless(qualified);
      var inner := IndexOf(artifacts + init);
      DotlessOfSet(inner.byPkg, PkgKey(last.repo, PkgFromId(last.id), Lower(last.name)), last.id);
      assert IndexOf(artifacts + stubs) == AddToIndex(inner, last);
      forall repo | repo != "external"
        ensures SameNames(IndexOf(artifacts).byName, AddToIndex(inner, last).byName, repo)
      {
        assert SameNames(IndexOf(artifacts).byName, inner.byName, repo);
      }
    }
  }

  // Unless a tree is named "external" itself, a second run over what was returned makes the very same
  // stubs again, in the same order.
  lemma {:induction false} SecondRunMakesTheStubsAgain(trees: seq<Tree>, artifacts: seq<Artifact>)
    requires forall t :: t in trees ==> t.repo != "external"
    ensures PassOver(trees, Returned(trees, artifacts)).extras == PassOver(trees, artifacts).extras
    ensures SameSources(ById(artifacts), ById(Returned(trees, artifacts)))
            && (forall t :: t in trees ==> !IsForeign(t)) ==>
              PassOver(trees, Returned(trees, artifacts)).edges == PassOver(trees, artifacts).edges
  {
    var p, returned := PassOver(trees, artifacts), Returned(trees, artifacts);
    var applied := Applied(artifacts, p.edges);
    StubsAreTheUnresolved(trees, artifacts);
    SameIndex(artifacts, applied);
    StubsAreIndexedUseless(applied, p.extras);
    var before, after := IndexOf(artifacts), IndexOf(returned);
    TreesAlike(Pass(before.byPkg, [], []), Pass(after.byPkg, [], []), trees, before.byName, after.byName,
               ById(artifacts), ById(returned));
  }

  lemma StubsEncloseNothing(artifacts: seq<Artifact>, edges: seq<Link>, stubs: seq<Artifact>, q: Query)
    requires q.repo != "external" && forall a :: a in stubs ==> a.repo == "external"
    ensures EnclosingId(Applied(artifacts, edges) + stubs, q) == EnclosingId(artifacts, q)
  {
    var applied := Applied(artifacts, edges);
    SmallestCorresponds(artifacts, applied, CoveringLines(q));
    LatestCorresponds(artifacts, applied, StartingBefore(q));
    SmallestIgnores(applied, stubs, CoveringLines(q));
    LatestIgnores(applied, stubs, StartingBefore(q));
  }

  lemma ReturnedHaveTheSameSources(trees: seq<Tree>, artifacts: seq<Artifact>)
    requires DistinctIds(Returned(trees, artifacts))
    ensures SameSources(ById(artifacts), ById(Returned(trees, artifacts)))
  {
    var p := PassOver(trees, artifacts);
    var applied := Applied(artifacts, p.edges);
    ReturnedIdsAreDistinctExactlyWhen(trees, artifacts);
    StubsAreTheUnresolved(trees, artifacts);
    ByIdOfDistinct(artifacts);
    ByIdOfDistinct(applied + p.extras);
    assert forall a :: a in p.extras ==> a.repo == "external";
    forall q: Query | q.repo != "external" ensures EnclosingId(artifacts, q) == EnclosingId(applied + p.extras, q) {
      StubsEncloseNothing(artifacts, p.edges, p.extras, q);
    }
  }

  lemma SourcesAreInputs(trees: seq<Tree>, artifacts: seq<Artifact>, id: string)
    requires id !in Ids(artifacts)
    ensures TargetsOf(PassOver(trees, artifacts).edges, id) == []
  {
    var edges := PassOver(trees, artifacts).edges;
    var targets := TargetsOf(edges, id);
    assert targets != [] ==> targets[0] in targets;
    NoDanglingTargets(trees, artifacts);
    TargetsOfContents(edges, id);
    assert forall t :: t in targets ==> Link(id, t) in edges;
  }

  // So re-running over the output, when its ids are distinct and nothing in it is called "external",
  // changes no artifact and appends every stub a second time.
  lemma {:induction false} SecondRunRepeatsTheStubs(trees: seq<Tree>, artifacts: seq<Artifact>)
    requires DistinctIds(Returned(trees, artifacts)) && forall t :: t in trees ==> !IsForeign(t)
    ensures Returned(trees, Returned(trees, artifacts))
         == Returned(trees, artifacts) + PassOver(trees, artifacts).extras
  {
    var p, once := PassOver(trees, artifacts), Returned(trees, artifacts);
    ReturnedHaveTheSameSources(trees, artifacts);
    SecondRunMakesTheStubsAgain(trees, artifacts);
    forall i | 0 <= i < |once| ensures Applied(once, p.edges)[i] == once[i] {
      CallsAreFinal(trees, artifacts, i);
    }
    assert Applied(once, p.edges) == once;
  }

  lemma CallsAreFinal(trees: seq<Tree>, artifacts: seq<Artifact>, i: nat)
    requires DistinctIds(Returned(trees, artifacts)) && i < |Returned(trees, artifacts)|
    ensures var once := Returned(trees, artifacts);
            NewCalls(once, PassOver(trees, artifacts).edges, once[i].id) == once[i].calls
  {
    var p, once := PassOver(trees, artifacts), Returned(trees, artifacts);
    var id := once[i].id;
    CallsUnderOwnId(once, i);
    if i < |artifacts| {
      var wanted := CallsUnder(artifacts, id) + TargetsOf(p.edges, id);
      assert once[i].calls == SortedSet(wanted);
      SortedSetKeeps(wanted);
      SortedSetIsCanonical(wanted, SortedSet(wanted) + TargetsOf(p.edges, id));
    } else {
      var stub := p.extras[i - |artifacts|];
      assert once[i] == stub && stub in p.extras && id in Ids(p.extras);
      StubsAreTheUnresolved(trees, artifacts);
      ReturnedIdsAreDistinctExactlyWhen(trees, artifacts);
      SourcesAreInputs(trees, artifacts, id);
      assert stub.calls + [] == [];
    }
  }

  // Of two procedures with one name the last listed answers an unqualified call, though the name is not
  // unique.
  lemma UnqualifiedIsNotUniqueExample(a: Artifact, b: Artifact)
    requires a.kind == b.kind == Procedure && a.repo == b.repo == "r" && a.name == b.name == "go" && a.id != b.id
    ensures var index := IndexOf([a, b]);
            ResolveCall("go", "r", index.byName, index.byPkg) == Some(b.id)
  {
    assert Lower("go") == "go";
    SplitWithout("go", '.');
    LookupFindsProcedures("go", "r", [a, b]);
    assert IsLastNamed([a, b], NameKey("r", "go"), 1);
  }

  // A stub alone, fed back as an input, does not answer for the procedure it stands for.
  lemma StubIsNotFoundAgain(qualified: string, repo: string)
    requires qualified != "" && repo != "external"
    ensures var index := IndexOf([Stub(qualified)]);
            ResolveCall(qualified, repo, index.byName, index.byPkg).None?
  {
    var stub := Stub(qualified);
    var empty := Index(map[], []);
    assert [stub][..0] == [];
    assert IndexOf([stub]) == AddToIndex(IndexOf([stub][..0]), stub) == AddToIndex(empty, stub);
    assert Lower(Lower(qualified)) == Lower(qualified);
    PartsAreFree(Lower(qualified), '.');
    var parts := Split(Lower(qualified), '.');
    var last := parts[|parts| - 1];
    assert last in parts;
    var byPkg := AddToIndex(empty, stub).byPkg;
    var entry := PkgEntry(PkgKey("external", PkgFromId(stub.id), Lower(qualified)), stub.id);
    assert byPkg == [] || byPkg == [entry];
    if |parts| >= 2 {
      assert |last| < |entry.key.name|;
      OneEntry(entry, PkgKey(repo, parts[|parts| - 2], last), parts[|parts| - 2], last);
    } else {
      assert AddToIndex(empty, stub).byName == map[NameKey("external", Lower(qualified)) := stub.id];
    }
  }

  lemma OneEntry(e: PkgEntry, key: PkgKey, pkg: string, name: string)
    ensures Get([e], key) == if e.key == key then Some(e.id) else None
    ensures FirstInAnyRepo([e], pkg, name) == if e.key.pkg == pkg && e.key.name == name then Some(e.id) else None
  {
    assert [e][1..] == [];
  }

  /******* The resolver *******/

  method BuildIndex(artifacts: seq<Artifact>) returns (index: Index)
    ensures index == IndexOf(artifacts)
  {
    var byName: map<NameKey, string> := map[];
    var byPkg: seq<PkgEntry> := [];
    for i := 0 to |artifacts|
      invariant Index(byName, byPkg) == IndexOf(artifacts[..i])
    {
      var a := artifacts[i];
      assert artifacts[..i + 1][..i] == artifacts[..i];
      if a.kind !in {Procedure, Function, Trigger} {
        continue;
      }
      var name := Lower(a.name);
      byName := byName[NameKey(a.repo, name) := a.id];
      var pkg := PkgFromId(a.id);
      if pkg != "" {
        byPkg := Set(byPkg, PkgKey(a.repo, pkg, name), a.id);
      }
    }
    assert artifacts[..|artifacts|] == artifacts;
    index := Index(byName, byPkg);
  }

  method MaterializeUnknown(p: Pass, qualified: string) returns (id: string, q: Pass)
    ensures id == StubId(qualified) && q == Materialize(p, qualified)
  {
    var parts := Split(Lower(qualified), '.');
    var pkg := if |parts| >= 2 then parts[|parts| - 2] else "";
    var name := parts[|parts| - 1];
    id := ProcId("external", pkg, name);
    if exists x :: x in p.extras && x.id == id {
      return id, p;
    }
    var stub := Artifact(id, "external", Procedure, Lower(qualified), "external:" + Lower(qualified), 1, 1, [], [], []);
    q := p.(extras := p.extras + [stub], byPkg := Set(p.byPkg, PkgKey("external", pkg, name), id));
  }

  method ResolveOracleCalls(trees: seq<Tree>, artifacts: seq<Artifact>) returns (out: seq<Artifact>, edges: seq<Link>)
    ensures out == Returned(trees, artifacts) && edges == PassOver(trees, artifacts).edges
  {
    var index := BuildIndex(artifacts);
    var items, byName := ById(artifacts), index.byName;
    var p := Pass(index.byPkg, [], []);
    ghost var start := p;
    for i := 0 to |trees|
      invariant p == TreeSteps(start, trees[..i], byName, items)
    {
      var t := trees[i];
      assert trees[..i + 1][..i] == trees[..i];
      p := ResolveCalls(p, t.repo, t.calls, byName, items);
      p := ResolveStatements(p, t.repo, t.statements, byName, items);
    }
    assert trees[..|trees|] == trees;
    edges := p.edges;
    var applied := ApplyCallEdges(artifacts, edges);
    out := applied + p.extras;
  }

  // The loop over the CALL facts of a tree.
  method ResolveCalls(start: Pass, repo: string, facts: seq<Fact>, byName: map<NameKey, string>, items: seq<Artifact>)
      returns (p: Pass)
    ensures p == CallSteps(start, repo, facts, byName, items)
  {
    p := start;
    for i := 0 to |facts|
      invariant p == CallSteps(start, repo, facts[..i], byName, items)
    {
      var f := facts[i];
      assert facts[..i + 1][..i] == facts[..i];
      var target := ResolveCall(f.text, repo, byName, p.byPkg);
      if target.None? {
        continue;
      }
      var source := EnclosingArtifactId(items, Query(f.file, f.line, f.repo));
      if source.None? {
        assert p.edges + [] == p.edges;
        continue;
      }
      p := p.(edges := p.edges + [Link(source.value, target.value)]);
    }
    assert facts[..|facts|] == facts;
  }

  // The loop over the SQL_STATEMENT facts of a tree.
  method ResolveStatements(start: Pass, repo: string, facts: seq<Fact>, byName: map<NameKey, string>,
      items: seq<Artifact>) returns (p: Pass)
    ensures p == StatementSteps(start, repo, facts, byName, items)
  {
    p := start;
    for i := 0 to |facts|
      invariant p == StatementSteps(start, repo, facts[..i], byName, items)
    {
      var f := facts[i];
      assert facts[..i + 1][..i] == facts[..i];
      if f.operation !in {"call", "execute"} || f.text == "" {
        continue;
      }
      var target := ResolveCall(f.text, repo, byName, p.byPkg);
      var id: string;
      if target.None? {
        id, p := MaterializeUnknown(p, f.text);
      } else {
        id := target.value;
      }
      var q := Query(f.file, f.line, f.repo);
      var source := EnclosingArtifactId(items, q);
      if source.None? {
        source := EnclosingFunction(items, q);
      }
      if source.None? {
        assert p.edges + [] == p.edges;
        continue;
      }
      p := p.(edges := p.edges + [Link(source.value, id)]);
    }
    assert facts[..|facts|] == facts;
  }

  // The recorded calls of each id, before the edges are added.
  method CollectCalls(artifacts: seq<Artifact>) returns (extended: map<string, seq<string>>)
    ensures extended.Keys == Ids(artifacts)
    ensures forall id :: id in extended ==> extended[id] == CallsUnder(artifacts, id)
  {
    extended := map[];
    for i := 0 to |artifacts|
      invariant extended.Keys == Ids(artifacts[..i])
      invariant forall id :: id in extended ==> extended[id] == CallsUnder(artifacts[..i], id)
    {
      assert artifacts[..i + 1] == artifacts[..i] + [artifacts[i]];
      assert artifacts[..i + 1][..i] == artifacts[..i];
      extended := extended[artifacts[i].id := artifacts[i].calls];
    }
    assert artifacts[..|artifacts|] == artifacts;
  }

  method AddTargets(collected: map<string, seq<string>>, edges: seq<Link>) returns (extended: map<string, seq<string>>)
    ensures extended.Keys == collected.Keys
    ensures forall id :: id in extended ==> extended[id] == collected[id] + TargetsOf(edges, id)
  {
    extended := collected;
    for i := 0 to |edges|
      invariant extended.Keys == collected.Keys
      invariant forall id :: id in extended ==> extended[id] == collected[id] + TargetsOf(edges[..i], id)
    {
      assert edges[..i + 1][..i] == edges[..i];
      if edges[i].source in extended {
        extended := extended[edges[i].source := extended[edges[i].source] + [edges[i].target]];
      }
    }
    assert edges[..|edges|] == edges;
  }

  method ApplyCallEdges(artifacts: seq<Artifact>, edges: seq<Link>) returns (out: seq<Artifact>)
    ensures out == Applied(artifacts, edges)
  {
    var collected := CollectCalls(artifacts);
    var extended := AddTargets(collected, edges);
    out := [];
    ghost var updated := Applied(artifacts, edges);
    for i := 0 to |artifacts|
      invariant out == updated[..i]
    {
      var a := artifacts[i];
      assert a in artifacts && a.id in extended;
      assert updated[i] == a.(calls := SortedSet(extended[a.id]));
      out := out + [a.(calls := SortedSet(extended[a.id]))];
    }
  }
}
