/**
  Linking tests to the artifacts they cover, by the imports of the test file.

  A named import covers the artifacts with that name in the files its re-exports lead to; a bare import
  covers everything in the files of the module.  The resolver keeps two records in step, the set of
  covered ids of a test and the list of edges.
*/
module CoverageLinks {
  import opened Wrappers
  import opened AliasExpansion
  import opened ModulePath
  import opened NameResolution
  import opened Artifacts
  import opened Text
  import opened CallEdges

  datatype TestCase = TestCase(id: string, name: string, file: string, covers: seq<string>)

  datatype CoverageEdge = CoverageEdge(test: string, artifact: string, reason: string)

  // What is known about the code: its artifacts, its re-exports, the language of each file, and the
  // names that a test function refers to, where the grammar lists them.
  datatype Code = Code(artifacts: seq<Artifact>, aliases: Aliases, profile: string -> Language,
                       references: TestCase -> Option<set<string>>)

  // The import stands in the file of the test, which may lack the directories in front.
  predicate AppliesTo(fact: Import, t: TestCase): (applies: bool)
    ensures applies <==> fact.file == t.file || exists before :: fact.file == before + "/" + t.file
  {
    assert EndsWith(fact.file, "/" + t.file) ==>
      fact.file == fact.file[..|fact.file| - |t.file| - 1] + "/" + t.file;
    assert forall before :: fact.file == before + "/" + t.file ==> fact.file == before + ("/" + t.file);
    fact.file == t.file || EndsWith(fact.file, "/" + t.file)
  }

  predicate Uses(references: Option<set<string>>, name: string) {
    references.None? || name in references.value
  }

  /******* What is proposed *******/

  // An artifact that an import leads to.  A bare import names nothing in particular.
  datatype Proposal = Proposal(artifact: string, reason: string, bare: bool)

  function Reason(imported: string, key: Key): string {
    if key.mod == imported then "from " + imported + " import " + key.name
    else "from " + imported + " import " + key.name + " (re-exported via " + key.mod + ")"
  }

  // The artifacts of a file that have the name; all of them if there is no name.
  function InOneFile(inFile: seq<Artifact>, name: Option<string>, reason: string): seq<Proposal> {
    if inFile == [] then []
    else
      var a := inFile[|inFile| - 1];
      InOneFile(inFile[..|inFile| - 1], name, reason)
      + if name.None? || a.name == name.value then [Proposal(a.id, reason, name.None?)] else []
  }

  function InFiles(artifacts: seq<Artifact>, files: seq<string>, name: Option<string>, reason: string): seq<Proposal> {
    if files == [] then []
    else
      InFiles(artifacts, files[..|files| - 1], name, reason)
      + InOneFile(InFile(artifacts, files[|files| - 1]), name, reason)
  }

  function FilesOf(code: Code, t: TestCase, mod: string): seq<string> {
    CandidateFiles(mod, code.profile(t.file).sep, code.profile(t.file).templates)
  }

  function FromKeys(code: Code, t: TestCase, imported: string, keys: seq<Key>): seq<Proposal> {
    if keys == [] then []
    else
      var key := keys[|keys| - 1];
      FromKeys(code, t, imported, keys[..|keys| - 1])
      + InFiles(code.artifacts, FilesOf(code, t, key.mod), Some(key.name), Reason(imported, key))
  }

  function FromNames(code: Code, t: TestCase, imported: string, names: seq<string>): seq<Proposal> {
    if names == [] then []
    else
      var name := names[|names| - 1];
      FromNames(code, t, imported, names[..|names| - 1])
      + if Uses(code.references(t), name)
        then FromKeys(code, t, imported, Expansion(Key(imported, name), code.aliases)) else []
  }

  function FromImport(code: Code, t: TestCase, fact: Import): seq<Proposal> {
    if !AppliesTo(fact, t) then []
    else if fact.names != [] then FromNames(code, t, fact.mod, fact.names)
    else InFiles(code.artifacts, FilesOf(code, t, fact.mod), None, "import " + fact.mod)
  }

  function Proposals(code: Code, t: TestCase, imports: seq<Import>): seq<Proposal> {
    if imports == [] then []
    else Proposals(code, t, imports[..|imports| - 1]) + FromImport(code, t, imports[|imports| - 1])
  }

  /******* What becomes of the proposals *******/

  datatype Progress = Progress(covered: set<string>, edges: seq<CoverageEdge>)

  // A named import adds an edge only for an artifact not yet covered, a bare one always does.
  function Take(p: Progress, test: string, x: Proposal): Progress {
    if !x.bare && x.artifact in p.covered then p
    else Progress(p.covered + {x.artifact}, p.edges + [CoverageEdge(test, x.artifact, x.reason)])
  }

  function TakeAll(p: Progress, test: string, xs: seq<Proposal>): Progress {
    if xs == [] then p else Take(TakeAll(p, test, xs[..|xs| - 1]), test, xs[|xs| - 1])
  }

  function EdgesOf(code: Code, t: TestCase, imports: seq<Import>): seq<CoverageEdge> {
    TakeAll(Progress({}, []), t.id, Proposals(code, t, imports)).edges
  }

  function AllEdges(code: Code, tests: seq<TestCase>, imports: seq<Import>): seq<CoverageEdge> {
    if tests == [] then []
    else AllEdges(code, tests[..|tests| - 1], imports) + EdgesOf(code, tests[|tests| - 1], imports)
  }

  function ArtifactsOf(xs: seq<Proposal>): seq<string> {
    seq(|xs|, i requires 0 <= i < |xs| => xs[i].artifact)
  }

  // A test that covers nothing keeps the record it came with.
  function WithCovers(code: Code, t: TestCase, imports: seq<Import>): TestCase {
    var xs := Proposals(code, t, imports);
    if xs == [] then t else t.(covers := SortedSet(ArtifactsOf(xs)))
  }

  function AllUpdated(code: Code, tests: seq<TestCase>, imports: seq<Import>): seq<TestCase> {
    seq(|tests|, i requires 0 <= i < |tests| => WithCovers(code, tests[i], imports))
  }

  lemma {:induction false} TakeAllConcat(p: Progress, test: string, a: seq<Proposal>, b: seq<Proposal>)
    ensures TakeAll(p, test, a + b) == TakeAll(TakeAll(p, test, a), test, b)
  {
    if b == [] {
      assert a + b == a;
    } else {
      assert (a + b)[..|a + b| - 1] == a + b[..|b| - 1];
      TakeAllConcat(p, test, a, b[..|b| - 1]);
    }
  }

  // The edges of earlier tests have no influence.
  lemma {:induction false} TakeAllAppends(p: Progress, test: string, xs: seq<Proposal>)
    ensures TakeAll(p, test, xs)
         == var q := TakeAll(Progress(p.covered, []), test, xs); Progress(q.covered, p.edges + q.edges)
  {
    if xs != [] {
      TakeAllAppends(p, test, xs[..|xs| - 1]);
    }
  }

  // The two records of a test stay in step: both hold exactly the proposed artifacts.
  lemma {:induction false} RecordsAgree(test: string, xs: seq<Proposal>)
    ensures var p := TakeAll(Progress({}, []), test, xs);
            && (forall e :: e in p.edges ==> e.test == test)
            && (forall id :: id in p.covered <==> exists e :: e in p.edges && e.artifact == id)
            && (forall id :: id in p.covered <==> id in ArtifactsOf(xs))
            && (p.covered == {} <==> xs == [])
  {
    if xs != [] {
      var init, last := xs[..|xs| - 1], xs[|xs| - 1];
      RecordsAgree(test, init);
      var p, edge := TakeAll(Progress({}, []), test, init), CoverageEdge(test, last.artifact, last.reason);
      assert ArtifactsOf(xs) == ArtifactsOf(init) + [last.artifact];
      assert forall e :: e in p.edges + [edge] <==> e in p.edges || e == edge;
    }
  }

  /******* Exactly the covered artifacts *******/

  // Some artifact with this id stands in one of the files, under the name if there is one.
  ghost predicate FilesHold(artifacts: seq<Artifact>, files: seq<string>, name: Option<string>, id: string) {
    exists a :: a in artifacts && a.id == id && a.file in files && (name.None? || a.name == name.value)
  }

  ghost predicate Any<T(!new)>(items: seq<T>, p: T -> bool) {
    exists x :: x in items && p(x)
  }

  // The files of the key's module hold the artifact, under the key's name.
  ghost function ByKey(code: Code, t: TestCase, id: string): Key -> bool {
    (key: Key) => FilesHold(code.artifacts, FilesOf(code, t, key.mod), Some(key.name), id)
  }

  // The test uses the imported name, and one of the pairs it is re-exported from leads to the artifact.
  ghost function ByName(code: Code, t: TestCase, imported: string, id: string): string -> bool {
    (name: string) =>
      && (code.references(t).None? || name in code.references(t).value)
      && Any(Expansion(Key(imported, name), code.aliases), ByKey(code, t, id))
  }

  // The import is one of the test's file and leads to the artifact.
  ghost function ByImport(code: Code, t: TestCase, id: string): Import -> bool {
    (fact: Import) =>
      && AppliesTo(fact, t)
      && if fact.names == [] then FilesHold(code.artifacts, FilesOf(code, t, fact.mod), None, id)
         else Any(fact.names, ByName(code, t, fact.mod, id))
  }

  lemma AnySnoc<T(!new)>(items: seq<T>, p: T -> bool)
    requires items != []
    ensures Any(items, p) <==> Any(items[..|items| - 1], p) || p(items[|items| - 1])
  {
    assert forall x :: x in items <==> x in items[..|items| - 1] || x == items[|items| - 1] by {
      assert items == items[..|items| - 1] + [items[|items| - 1]];
    }
  }

  ghost predicate Proposes(xs: seq<Proposal>, id: string) {
    exists x :: x in xs && x.artifact == id
  }

  lemma ProposesConcat(a: seq<Proposal>, b: seq<Proposal>, id: string)
    ensures Proposes(a + b, id) <==> Proposes(a, id) || Proposes(b, id)
  {
    assert forall x :: x in a + b <==> x in a || x in b;
  }

  lemma {:induction false} InOneFileContents(inFile: seq<Artifact>, name: Option<string>, reason: string, id: string)
    ensures Proposes(InOneFile(inFile, name, reason), id)
       <==> exists a :: a in inFile && a.id == id && (name.None? || a.name == name.value)
  {
    if inFile != [] {
      var init, last := inFile[..|inFile| - 1], inFile[|inFile| - 1];
      InOneFileContents(init, name, reason, id);
      var x := Proposal(last.id, reason, name.None?);
      ProposesConcat(InOneFile(init, name, reason), if name.None? || last.name == name.value then [x] else [], id);
      assert Proposes([x], id) <==> last.id == id by {
        assert x in [x];
      }
      assert forall a :: a in inFile <==> a in init || a == last by {
        assert inFile == init + [last];
      }
    }
  }

  lemma {:induction false} InFilesContents(artifacts: seq<Artifact>, files: seq<string>, name: Option<string>,
      reason: string, id: string)
    ensures Proposes(InFiles(artifacts, files, name, reason), id) <==> FilesHold(artifacts, files, name, id)
  {
    if files != [] {
      var init, last := files[..|files| - 1], files[|files| - 1];
      InFilesContents(artifacts, init, name, reason, id);
      InOneFileContents(InFile(artifacts, last), name, reason, id);
      ProposesConcat(InFiles(artifacts, init, name, reason), InOneFile(InFile(artifacts, last), name, reason), id);
      assert forall f :: f in files <==> f in init || f == last by {
        assert files == init + [last];
      }
    }
  }

  lemma {:induction false} FromKeysContents(code: Code, t: TestCase, imported: string, keys: seq<Key>, id: string)
    ensures Proposes(FromKeys(code, t, imported, keys), id) <==> Any(keys, ByKey(code, t, id))
  {
    if keys != [] {
      var init, last := keys[..|keys| - 1], keys[|keys| - 1];
      FromKeysContents(code, t, imported, init, id);
      var files, reason := FilesOf(code, t, last.mod), Reason(imported, last);
      InFilesContents(code.artifacts, files, Some(last.name), reason, id);
      ProposesConcat(FromKeys(code, t, imported, init), InFiles(code.artifacts, files, Some(last.name), reason), id);
      AnySnoc(keys, ByKey(code, t, id));
    }
  }

  lemma {:induction false} FromNamesContents(code: Code, t: TestCase, imported: string, names: seq<string>, id: string)
    ensures Proposes(FromNames(code, t, imported, names), id) <==> Any(names, ByName(code, t, imported, id))
  {
    if names != [] {
      var init, last := names[..|names| - 1], names[|names| - 1];
      FromNamesContents(code, t, imported, init, id);
      var keys := Expansion(Key(imported, last), code.aliases);
      FromKeysContents(code, t, imported, keys, id);
      var more := if Uses(code.references(t), last) then FromKeys(code, t, imported, keys) else [];
      ProposesConcat(FromNames(code, t, imported, init), more, id);
      assert Proposes(more, id) <==> ByName(code, t, imported, id)(last);
      AnySnoc(names, ByName(code, t, imported, id));
    }
  }

  lemma FromImportContents(code: Code, t: TestCase, fact: Import, id: string)
    ensures Proposes(FromImport(code, t, fact), id) <==> ByImport(code, t, id)(fact)
  {
    InFilesContents(code.artifacts, FilesOf(code, t, fact.mod), None, "import " + fact.mod, id);
    FromNamesContents(code, t, fact.mod, fact.names, id);
  }

  lemma {:induction false} ProposalsContents(code: Code, t: TestCase, imports: seq<Import>, id: string)
    ensures Proposes(Proposals(code, t, imports), id) <==> Any(imports, ByImport(code, t, id))
  {
    if imports != [] {
      var init, last := imports[..|imports| - 1], imports[|imports| - 1];
      ProposalsContents(code, t, init, id);
      FromImportContents(code, t, last, id);
      ProposesConcat(Proposals(code, t, init), FromImport(code, t, last), id);
      AnySnoc(imports, ByImport(code, t, id));
    }
  }

  // A test is linked to an artifact exactly when one of its imports leads there, and its record lists
  // exactly the linked artifacts, sorted, unless there are none.
  lemma CoverageIsExact(code: Code, t: TestCase, imports: seq<Import>, id: string)
    ensures (exists e :: e in EdgesOf(code, t, imports) && e.artifact == id)
       <==> Any(imports, ByImport(code, t, id))
    ensures EdgesOf(code, t, imports) != [] ==>
      var covers := WithCovers(code, t, imports).covers;
      Increasing(covers) && (id in covers <==> exists e :: e in EdgesOf(code, t, imports) && e.artifact == id)
    ensures EdgesOf(code, t, imports) == [] ==> WithCovers(code, t, imports) == t
  {
    var xs := Proposals(code, t, imports);
    ProposalsContents(code, t, imports, id);
    RecordsAgree(t.id, xs);
    SortedSetKeeps(ArtifactsOf(xs));
    assert Proposes(xs, id) <==> id in ArtifactsOf(xs) by {
      if x :| x in xs && x.artifact == id {
        var i :| 0 <= i < |xs| && xs[i] == x;
        assert ArtifactsOf(xs)[i] == id;
      }
    }
    if xs != [] {
      assert ArtifactsOf(xs)[0] in ArtifactsOf(xs);
    }
  }

  /******* Reasons *******/

  // The import leads to the artifact and is worded like this: by itself if it is bare, otherwise by the pair
  // that leads there and, if that is another module's, by the module.
  ghost predicate Justifies(code: Code, t: TestCase, fact: Import, id: string, reason: string) {
    && AppliesTo(fact, t)
    && if fact.names == [] then
         reason == "import " + fact.mod && FilesHold(code.artifacts, FilesOf(code, t, fact.mod), None, id)
       else exists name :: name in fact.names && NameJustifies(code, t, fact.mod, name, id, reason)
  }

  ghost predicate NameJustifies(code: Code, t: TestCase, imported: string, name: string, id: string, reason: string) {
    && (code.references(t).None? || name in code.references(t).value)
    && exists key :: key in Expansion(Key(imported, name), code.aliases)
                     && KeyJustifies(code, t, imported, key, id, reason)
  }

  ghost predicate KeyJustifies(code: Code, t: TestCase, imported: string, key: Key, id: string, reason: string) {
    && FilesHold(code.artifacts, FilesOf(code, t, key.mod), Some(key.name), id)
    && reason == Wording(imported, key)
  }

  function Wording(imported: string, key: Key): string {
    "from " + imported + " import " + key.name
    + (if key.mod == imported then "" else " (re-exported via " + key.mod + ")")
  }

  lemma ReasonIsWorded(imported: string, key: Key)
    ensures Reason(imported, key) == Wording(imported, key)
  {
    var front := "from " + imported + " import " + key.name;
    assert front + "" == front;
    assert front + " (re-exported via " + key.mod + ")" == front + (" (re-exported via " + key.mod + ")");
  }

  lemma {:induction false} InOneFileSays(inFile: seq<Artifact>, name: Option<string>, reason: string, x: Proposal)
    requires x in InOneFile(inFile, name, reason)
    ensures x.reason == reason && Proposes(InOneFile(inFile, name, reason), x.artifact)
  {
    var init := inFile[..|inFile| - 1];
    if x in InOneFile(init, name, reason) {
      InOneFileSays(init, name, reason, x);
    }
  }

  lemma {:induction false} InFilesSays(artifacts: seq<Artifact>, files: seq<string>, name: Option<string>,
      reason: string, x: Proposal)
    requires x in InFiles(artifacts, files, name, reason)
    ensures x.reason == reason && FilesHold(artifacts, files, name, x.artifact)
  {
    InFilesContents(artifacts, files, name, reason, x.artifact);
    var init, last := files[..|files| - 1], files[|files| - 1];
    if x in InFiles(artifacts, init, name, reason) {
      InFilesSays(artifacts, init, name, reason, x);
    } else {
      InOneFileSays(InFile(artifacts, last), name, reason, x);
    }
  }

  lemma {:induction false} FromKeysSays(code: Code, t: TestCase, imported: string, keys: seq<Key>, x: Proposal)
    requires x in FromKeys(code, t, imported, keys)
    ensures exists key :: key in keys && KeyJustifies(code, t, imported, key, x.artifact, x.reason)
  {
    var init, last := keys[..|keys| - 1], keys[|keys| - 1];
    if x in FromKeys(code, t, imported, init) {
      FromKeysSays(code, t, imported, init, x);
      var key :| key in init && KeyJustifies(code, t, imported, key, x.artifact, x.reason);
      assert key in keys;
    } else {
      InFilesSays(code.artifacts, FilesOf(code, t, last.mod), Some(last.name), Reason(imported, last), x);
      ReasonIsWorded(imported, last);
      assert KeyJustifies(code, t, imported, last, x.artifact, x.reason) && last in keys;
    }
  }

  lemma {:induction false} FromNamesSays(code: Code, t: TestCase, imported: string, names: seq<string>, x: Proposal)
    requires x in FromNames(code, t, imported, names)
    ensures exists name :: name in names && NameJustifies(code, t, imported, name, x.artifact, x.reason)
  {
    var init, last := names[..|names| - 1], names[|names| - 1];
    if x in FromNames(code, t, imported, init) {
      FromNamesSays(code, t, imported, init, x);
      var name :| name in init && NameJustifies(code, t, imported, name, x.artifact, x.reason);
      assert name in names;
    } else {
      FromKeysSays(code, t, imported, Expansion(Key(imported, last), code.aliases), x);
      assert NameJustifies(code, t, imported, last, x.artifact, x.reason) && last in names;
    }
  }

  lemma {:induction false} ProposalsSay(code: Code, t: TestCase, imports: seq<Import>, x: Proposal)
    requires x in Proposals(code, t, imports)
    ensures exists fact :: fact in imports && Justifies(code, t, fact, x.artifact, x.reason)
  {
    var init, last := imports[..|imports| - 1], imports[|imports| - 1];
    if x in Proposals(code, t, init) {
      ProposalsSay(code, t, init, x);
      var fact :| fact in init && Justifies(code, t, fact, x.artifact, x.reason);
      assert fact in imports;
    } else {
      if last.names == [] {
        InFilesSays(code.artifacts, FilesOf(code, t, last.mod), None, "import " + last.mod, x);
      } else {
        FromNamesSays(code, t, last.mod, last.names, x);
      }
      assert Justifies(code, t, last, x.artifact, x.reason) && last in imports;
    }
  }

  lemma {:induction false} TakenAreProposed(p: Progress, test: string, xs: seq<Proposal>, e: CoverageEdge)
    requires e in TakeAll(p, test, xs).edges
    ensures e in p.edges || exists x :: x in xs && e == CoverageEdge(test, x.artifact, x.reason)
  {
    if xs != [] {
      var init, last := xs[..|xs| - 1], xs[|xs| - 1];
      assert xs == init + [last];
      if e in TakeAll(p, test, init).edges {
        TakenAreProposed(p, test, init, e);
      } else {
        assert e == CoverageEdge(test, last.artifact, last.reason) && last in xs;
      }
    }
  }

  // Every edge starts at its test and gives the wording of an import that leads to its artifact.
  lemma EdgesAreJustified(code: Code, t: TestCase, imports: seq<Import>, e: CoverageEdge)
    requires e in EdgesOf(code, t, imports)
    ensures e.test == t.id && exists fact :: fact in imports && Justifies(code, t, fact, e.artifact, e.reason)
  {
    var xs := Proposals(code, t, imports);
    TakenAreProposed(Progress({}, []), t.id, xs, e);
    var x :| x in xs && e == CoverageEdge(t.id, x.artifact, x.reason);
    ProposalsSay(code, t, imports, x);
  }

  /******* Repeated edges *******/

  ghost predicate NoPairTwice(edges: seq<CoverageEdge>) {
    forall i, j :: 0 <= i < j < |edges| ==> edges[i].artifact != edges[j].artifact
  }

  // A bare import that leads to an artifact already proposed.
  ghost predicate BareRepeats(xs: seq<Proposal>) {
    exists i, j :: 0 <= i < j < |xs| && xs[j].bare && xs[i].artifact == xs[j].artifact
  }

  lemma {:induction false} ProposalsRepeatExactlyWhen(test: string, xs: seq<Proposal>)
    ensures NoPairTwice(TakeAll(Progress({}, []), test, xs).edges) <==> !BareRepeats(xs)
  {
    if xs != [] {
      var init, last := xs[..|xs| - 1], xs[|xs| - 1];
      ProposalsRepeatExactlyWhen(test, init);
      RecordsAgree(test, init);
      var p := TakeAll(Progress({}, []), test, init);
      BareRepeatsSnoc(init, last);
      assert xs == init + [last];
      if last.bare || last.artifact !in p.covered {
        NoPairTwiceSnoc(p.edges, CoverageEdge(test, last.artifact, last.reason));
      }
    }
  }

  lemma BareRepeatsSnoc(init: seq<Proposal>, last: Proposal)
    ensures BareRepeats(init + [last]) <==> BareRepeats(init) || (last.bare && last.artifact in ArtifactsOf(init))
  {
    var xs := init + [last];
    if BareRepeats(init) {
      var i, j :| 0 <= i < j < |init| && init[j].bare && init[i].artifact == init[j].artifact;
      assert xs[j].bare && xs[i].artifact == xs[j].artifact;
    }
    if last.bare && last.artifact in ArtifactsOf(init) {
      var i :| 0 <= i < |init| && ArtifactsOf(init)[i] == last.artifact;
      assert xs[|init|].bare && xs[i].artifact == xs[|init|].artifact;
    }
    if BareRepeats(xs) {
      var i, j :| 0 <= i < j < |xs| && xs[j].bare && xs[i].artifact == xs[j].artifact;
      assert ArtifactsOf(init)[i] == xs[i].artifact;
      assert j < |init| ==> init[j].bare && init[i].artifact == init[j].artifact;
    }
  }

  lemma NoPairTwiceSnoc(edges: seq<CoverageEdge>, e: CoverageEdge)
    ensures NoPairTwice(edges + [e]) <==> NoPairTwice(edges) && forall x :: x in edges ==> x.artifact != e.artifact
  {
    var all := edges + [e];
    assert forall i :: 0 <= i < |edges| ==> all[i] == edges[i];
    assert all[|edges|] == e;
    if NoPairTwice(all) {
      forall i, j | 0 <= i < j < |edges| ensures edges[i].artifact != edges[j].artifact {
        assert all[i].artifact != all[j].artifact;
      }
      forall x | x in edges ensures x.artifact != e.artifact {
        var i :| 0 <= i < |edges| && edges[i] == x;
        assert all[i].artifact != all[|edges|].artifact;
      }
    }
  }

  // How often an id is listed in a file, and in several.
  function TimesInFile(inFile: seq<Artifact>, id: string): nat {
    if inFile == [] then 0
    else TimesInFile(inFile[..|inFile| - 1], id) + if inFile[|inFile| - 1].id == id then 1 else 0
  }

  function Times(artifacts: seq<Artifact>, files: seq<string>, id: string): nat {
    if files == [] then 0
    else Times(artifacts, files[..|files| - 1], id) + TimesInFile(InFile(artifacts, files[|files| - 1]), id)
  }

  function Proposed(xs: seq<Proposal>, id: string): nat {
    if xs == [] then 0 else Proposed(xs[..|xs| - 1], id) + if xs[|xs| - 1].artifact == id then 1 else 0
  }

  lemma {:induction false} ProposedConcat(a: seq<Proposal>, b: seq<Proposal>, id: string)
    ensures Proposed(a + b, id) == Proposed(a, id) + Proposed(b, id)
  {
    if b == [] {
      assert a + b == a;
    } else {
      assert (a + b)[..|a + b| - 1] == a + b[..|b| - 1];
      ProposedConcat(a, b[..|b| - 1], id);
    }
  }

  lemma {:induction false} BareProposalsOfFile(inFile: seq<Artifact>, reason: string, id: string)
    ensures var xs := InOneFile(inFile, None, reason);
            Proposed(xs, id) == TimesInFile(inFile, id) && forall x :: x in xs ==> x.bare
  {
    if inFile != [] {
      var init, last := inFile[..|inFile| - 1], inFile[|inFile| - 1];
      BareProposalsOfFile(init, reason, id);
      var xs, x := InOneFile(init, None, reason), Proposal(last.id, reason, true);
      assert InOneFile(inFile, None, reason) == xs + [x] && (xs + [x])[..|xs|] == xs;
    }
  }

  // A bare import proposes an id as often as its files list it.
  lemma {:induction false} BareProposals(artifacts: seq<Artifact>, files: seq<string>, reason: string, id: string)
    ensures var xs := InFiles(artifacts, files, None, reason);
            Proposed(xs, id) == Times(artifacts, files, id) && forall x :: x in xs ==> x.bare
  {
    if files != [] {
      var init, last := files[..|files| - 1], files[|files| - 1];
      BareProposals(artifacts, init, reason, id);
      BareProposalsOfFile(InFile(artifacts, last), reason, id);
      ProposedConcat(InFiles(artifacts, init, None, reason), InOneFile(InFile(artifacts, last), None, reason), id);
    }
  }

  lemma {:induction false} NamedProposalsOfFile(inFile: seq<Artifact>, name: string, reason: string)
    ensures forall x :: x in InOneFile(inFile, Some(name), reason) ==> !x.bare
  {
    if inFile != [] {
      NamedProposalsOfFile(inFile[..|inFile| - 1], name, reason);
    }
  }

  lemma {:induction false} NamedProposals(artifacts: seq<Artifact>, files: seq<string>, name: string, reason: string)
    ensures forall x :: x in InFiles(artifacts, files, Some(name), reason) ==> !x.bare
  {
    if files != [] {
      NamedProposals(artifacts, files[..|files| - 1], name, reason);
      NamedProposalsOfFile(InFile(artifacts, files[|files| - 1]), name, reason);
    }
  }

  lemma {:induction false} KeysProposeNamed(code: Code, t: TestCase, imported: string, keys: seq<Key>)
    ensures forall x :: x in FromKeys(code, t, imported, keys) ==> !x.bare
  {
    if keys != [] {
      var last := keys[|keys| - 1];
      KeysProposeNamed(code, t, imported, keys[..|keys| - 1]);
      NamedProposals(code.artifacts, FilesOf(code, t, last.mod), last.name, Reason(imported, last));
    }
  }

  lemma {:induction false} NamesProposeNamed(code: Code, t: TestCase, imported: string, names: seq<string>)
    ensures forall x :: x in FromNames(code, t, imported, names) ==> !x.bare
  {
    if names != [] {
      NamesProposeNamed(code, t, imported, names[..|names| - 1]);
      KeysProposeNamed(code, t, imported, Expansion(Key(imported, names[|names| - 1]), code.aliases));
    }
  }

  lemma {:induction false} RepeatIsCounted(xs: seq<Proposal>)
    requires forall x :: x in xs ==> x.bare
    ensures BareRepeats(xs) <==> exists id :: Proposed(xs, id) >= 2
  {
    if xs != [] {
      var init, last := xs[..|xs| - 1], xs[|xs| - 1];
      assert last in xs && forall x :: x in init ==> x in xs;
      RepeatIsCounted(init);
      BareRepeatsSnoc(init, last);
      assert xs == init + [last];
      ProposedIsListed(init, last.artifact);
      assert forall id :: Proposed(xs, id) == Proposed(init, id) + if id == last.artifact then 1 else 0;
      if BareRepeats(init) {
        var id :| Proposed(init, id) >= 2;
        assert Proposed(xs, id) >= 2;
      } else if last.artifact in ArtifactsOf(init) {
        assert Proposed(xs, last.artifact) >= 2;
      } else {
        assert forall id :: Proposed(init, id) < 2;
      }
    }
  }

  lemma {:induction false} ProposedIsListed(xs: seq<Proposal>, id: string)
    ensures Proposed(xs, id) >= 1 <==> id in ArtifactsOf(xs)
    ensures Proposed(xs, id) >= 1 <==> Proposes(xs, id)
  {
    if xs != [] {
      var init, last := xs[..|xs| - 1], xs[|xs| - 1];
      ProposedIsListed(init, id);
      assert ArtifactsOf(xs) == ArtifactsOf(init) + [last.artifact];
      assert forall x :: x in xs <==> x in init || x == last by {
        assert xs == init + [last];
      }
    }
  }

  // A bare import leads to an id that its files list twice, or that an earlier import leads to.
  ghost predicate RepeatsAfter(code: Code, t: TestCase, earlier: seq<Import>, fact: Import, id: string) {
    && AppliesTo(fact, t) && fact.names == []
    && var times := Times(code.artifacts, FilesOf(code, t, fact.mod), id);
       times >= 2 || (times >= 1 && Any(earlier, ByImport(code, t, id)))
  }

  ghost predicate RepeatsAt(code: Code, t: TestCase, imports: seq<Import>, k: int, id: string) {
    0 <= k < |imports| && RepeatsAfter(code, t, imports[..k], imports[k], id)
  }

  ghost predicate BareImportRepeats(code: Code, t: TestCase, imports: seq<Import>) {
    exists k, id :: RepeatsAt(code, t, imports, k, id)
  }

  ghost predicate LastRepeats(code: Code, t: TestCase, earlier: seq<Import>, fact: Import) {
    exists id :: RepeatsAfter(code, t, earlier, fact, id)
  }

  ghost predicate RepeatsAcross(a: seq<Proposal>, b: seq<Proposal>) {
    exists x :: x in b && x.bare && x.artifact in ArtifactsOf(a)
  }

  lemma BareRepeatsConcat(a: seq<Proposal>, b: seq<Proposal>)
    ensures BareRepeats(a + b)
       <==> BareRepeats(a) || BareRepeats(b) || RepeatsAcross(a, b)
  {
    var all := a + b;
    if i, j :| 0 <= i < j < |all| && all[j].bare && all[i].artifact == all[j].artifact {
      assert j < |a| ==> a[j].bare && a[i].artifact == a[j].artifact;
      assert i >= |a| ==> b[j - |a|].bare && b[i - |a|].artifact == b[j - |a|].artifact;
      assert i < |a| <= j ==> b[j - |a|] in b && ArtifactsOf(a)[i] == b[j - |a|].artifact;
    }
    if i, j :| 0 <= i < j < |a| && a[j].bare && a[i].artifact == a[j].artifact {
      assert all[j].bare && all[i].artifact == all[j].artifact;
    }
    if i, j :| 0 <= i < j < |b| && b[j].bare && b[i].artifact == b[j].artifact {
      assert all[|a| + j].bare && all[|a| + i].artifact == all[|a| + j].artifact;
    }
    if x :| x in b && x.bare && x.artifact in ArtifactsOf(a) {
      var j :| 0 <= j < |b| && b[j] == x;
      var i :| 0 <= i < |a| && ArtifactsOf(a)[i] == x.artifact;
      assert all[|a| + j].bare && all[i].artifact == all[|a| + j].artifact;
    }
  }

  lemma ListedLater(a: seq<Proposal>, b: seq<Proposal>)
    requires forall x :: x in b ==> x.bare
    ensures RepeatsAcross(a, b)
       <==> exists id :: Proposed(b, id) >= 1 && Proposes(a, id)
  {
    if x :| x in b && x.bare && x.artifact in ArtifactsOf(a) {
      ProposedIsListed(a, x.artifact);
      ProposedIsListed(b, x.artifact);
      assert Proposes(b, x.artifact);
    }
    if id :| Proposed(b, id) >= 1 && Proposes(a, id) {
      ProposedIsListed(a, id);
      ProposedIsListed(b, id);
      var x :| x in b && x.artifact == id;
    }
  }

  lemma RepeatsAfterByCount(code: Code, t: TestCase, init: seq<Import>, fact: Import, id: string)
    requires AppliesTo(fact, t) && fact.names == []
    ensures var a, b := Proposals(code, t, init), FromImport(code, t, fact);
            && (RepeatsAfter(code, t, init, fact, id)
                <==> Proposed(b, id) >= 2 || (Proposed(b, id) >= 1 && Proposes(a, id)))
            && forall x :: x in b ==> x.bare
  {
    BareProposals(code.artifacts, FilesOf(code, t, fact.mod), "import " + fact.mod, id);
    ProposalsContents(code, t, init, id);
  }

  lemma BareLastRepeats(code: Code, t: TestCase, init: seq<Import>, fact: Import)
    requires AppliesTo(fact, t) && fact.names == []
    ensures var a, b := Proposals(code, t, init), FromImport(code, t, fact);
            BareRepeats(b) || RepeatsAcross(a, b) <==> LastRepeats(code, t, init, fact)
  {
    var a, b := Proposals(code, t, init), FromImport(code, t, fact);
    RepeatsAfterByCount(code, t, init, fact, "");
    RepeatIsCounted(b);
    ListedLater(a, b);
    if LastRepeats(code, t, init, fact) {
      var id :| RepeatsAfter(code, t, init, fact, id);
      RepeatsAfterByCount(code, t, init, fact, id);
    }
    if BareRepeats(b) {
      var id :| Proposed(b, id) >= 2;
      RepeatsAfterByCount(code, t, init, fact, id);
    } else if RepeatsAcross(a, b) {
      var id :| Proposed(b, id) >= 1 && Proposes(a, id);
      RepeatsAfterByCount(code, t, init, fact, id);
    }
  }

  lemma LastImportRepeats(code: Code, t: TestCase, init: seq<Import>, fact: Import)
    ensures var a, b := Proposals(code, t, init), FromImport(code, t, fact);
            BareRepeats(b) || RepeatsAcross(a, b)
            <==> LastRepeats(code, t, init, fact)
  {
    if AppliesTo(fact, t) && fact.names == [] {
      BareLastRepeats(code, t, init, fact);
    } else {
      NamesProposeNamed(code, t, fact.mod, fact.names);
      var b := FromImport(code, t, fact);
      assert forall x :: x in b ==> !x.bare;
      assert forall j :: 0 <= j < |b| ==> b[j] in b;
    }
  }

  lemma RepeatsAtSnoc(code: Code, t: TestCase, init: seq<Import>, fact: Import)
    ensures BareImportRepeats(code, t, init + [fact])
       <==> BareImportRepeats(code, t, init) || LastRepeats(code, t, init, fact)
  {
    var all := init + [fact];
    assert all[..|init|] == init && all[|init|] == fact;
    if k, id :| RepeatsAt(code, t, all, k, id) {
      assert k < |init| ==> all[..k] == init[..k] && RepeatsAt(code, t, init, k, id);
    }
    if k, id :| RepeatsAt(code, t, init, k, id) {
      assert all[..k] == init[..k] && RepeatsAt(code, t, all, k, id);
    }
    if id :| RepeatsAfter(code, t, init, fact, id) {
      assert RepeatsAt(code, t, all, |init|, id);
    }
  }

  lemma OneMoreImport(code: Code, t: TestCase, init: seq<Import>, last: Import)
    ensures BareRepeats(Proposals(code, t, init + [last]))
       <==> BareRepeats(Proposals(code, t, init)) || LastRepeats(code, t, init, last)
  {
    var a, b := Proposals(code, t, init), FromImport(code, t, last);
    assert Proposals(code, t, init + [last]) == a + b by {
      assert (init + [last])[..|init|] == init;
    }
    BareRepeatsConcat(a, b);
    LastImportRepeats(code, t, init, last);
  }

  lemma {:induction false} ImportsRepeat(code: Code, t: TestCase, imports: seq<Import>)
    ensures BareRepeats(Proposals(code, t, imports)) <==> BareImportRepeats(code, t, imports)
  {
    if imports != [] {
      var init, last := imports[..|imports| - 1], imports[|imports| - 1];
      assert imports == init + [last];
      ImportsRepeat(code, t, init);
      OneMoreImport(code, t, init, last);
      RepeatsAtSnoc(code, t, init, last);
    }
  }

  // A test has two edges to one artifact exactly when a bare import of its file leads to an id that an
  // earlier import leads to already, or that its own candidate files list twice.
  lemma EdgesRepeatExactlyWhen(code: Code, t: TestCase, imports: seq<Import>)
    ensures NoPairTwice(EdgesOf(code, t, imports)) <==> !BareImportRepeats(code, t, imports)
  {
    ProposalsRepeatExactlyWhen(t.id, Proposals(code, t, imports));
    ImportsRepeat(code, t, imports);
  }

  lemma OnlyFileOf(code: Code, t: TestCase)
    requires code.profile(t.file) == Language('.', [Around("", ".py")])
    ensures FilesOf(code, t, "a") == ["a.py"]
  {
    assert Replace("a", '.', '/') == "a";
    assert ModulePath.Expand(Around("", ".py"), "a") == "a.py";
  }

  lemma ListedOnce(a: Artifact)
    ensures Times([a], [a.file], a.id) == 1 && FilesHold([a], [a.file], None, a.id)
  {
    var single := [a];
    assert single[..0] == [] && InFile(single, a.file) == [] + [a];
    assert [] + [a] == single && [a.file][..0] == [];
    assert TimesInFile(single, a.id) == TimesInFile(single[..0], a.id) + 1;
    assert a in single;
  }

  // Importing one module twice is enough.
  lemma TwoBareImportsExample(code: Code, t: TestCase, a: Artifact)
    requires code.profile(t.file) == Language('.', [Around("", ".py")])
    requires code.artifacts == [a] && a.file == "a.py"
    ensures var fact := Import(t.file, "a", 0, [], "");
            !NoPairTwice(EdgesOf(code, t, [fact, fact]))
  {
    var fact := Import(t.file, "a", 0, [], "");
    OnlyFileOf(code, t);
    ListedOnce(a);
    assert [fact, fact][..1] == [fact] && fact in [fact];
    assert ByImport(code, t, a.id)(fact);
    assert Any([fact], ByImport(code, t, a.id));
    assert RepeatsAt(code, t, [fact, fact], 1, a.id);
    EdgesRepeatExactlyWhen(code, t, [fact, fact]);
  }

  /******* The resolver *******/

  // The set of the current test and the list of all tests.
  class Ledger {
    var covered: set<string>
    var edges: seq<CoverageEdge>

    constructor ()
      ensures State() == Progress({}, [])
    {
      covered, edges := {}, [];
    }

    ghost function State(): Progress
      reads this
    {
      Progress(covered, edges)
    }

    method StartTest()
      modifies `covered
      ensures covered == {}
    {
      covered := {};
    }

    // The artifacts of one candidate file, in search of a name or, for a bare import, all of them.
    method CoverFile(inFile: seq<Artifact>, name: Option<string>, reason: string, test: string)
      modifies this
      ensures State() == TakeAll(old(State()), test, InOneFile(inFile, name, reason))
    {
      ghost var start := State();
      for i := 0 to |inFile|
        invariant State() == TakeAll(start, test, InOneFile(inFile[..i], name, reason))
      {
        var a := inFile[i];
        assert inFile[..i + 1][..i] == inFile[..i];
        TakeOneMore(start, test, InOneFile(inFile[..i], name, reason), Proposal(a.id, reason, name.None?));
        if name.Some? {
          if a.name != name.value {
            continue;
          }
          if a.id in covered {
            continue;
          }
        }
        covered := covered + {a.id};
        edges := edges + [CoverageEdge(test, a.id, reason)];
      }
      assert inFile[..|inFile|] == inFile;
    }
  }

  lemma TakeOneMore(p: Progress, test: string, xs: seq<Proposal>, x: Proposal)
    ensures TakeAll(p, test, xs + [x]) == Take(TakeAll(p, test, xs), test, x)
    ensures xs + [] == xs
  {
    assert (xs + [x])[..|xs|] == xs;
  }

  method CoverFiles(artifacts: seq<Artifact>, byFile: map<string, seq<Artifact>>, files: seq<string>,
      name: Option<string>, reason: string, test: string, ledger: Ledger)
    requires IndexesFiles(byFile, artifacts)
    modifies ledger
    ensures ledger.State() == TakeAll(old(ledger.State()), test, InFiles(artifacts, files, name, reason))
  {
    ghost var start := ledger.State();
    for i := 0 to |files|
      invariant ledger.State() == TakeAll(start, test, InFiles(artifacts, files[..i], name, reason))
    {
      assert files[..i + 1][..i] == files[..i];
      var inFile := if files[i] in byFile then byFile[files[i]] else [];
      assert inFile == InFile(artifacts, files[i]);
      ledger.CoverFile(inFile, name, reason, test);
      ghost var before, more := InFiles(artifacts, files[..i], name, reason), InOneFile(inFile, name, reason);
      TakeAllConcat(start, test, before, more);
      assert InFiles(artifacts, files[..i + 1], name, reason) == before + more;
    }
    assert files[..|files|] == files;
  }

  method CoverName(code: Code, byFile: map<string, seq<Artifact>>, t: TestCase, imported: string, name: string,
      ledger: Ledger)
    requires IndexesFiles(byFile, code.artifacts)
    modifies ledger
    ensures ledger.State()
         == TakeAll(old(ledger.State()), t.id,
               FromKeys(code, t, imported, Expansion(Key(imported, name), code.aliases)))
  {
    ghost var start := ledger.State();
    var keys := AliasExpansion.Expand(Key(imported, name), code.aliases);
    for i := 0 to |keys|
      invariant ledger.State() == TakeAll(start, t.id, FromKeys(code, t, imported, keys[..i]))
    {
      ghost var before := FromKeys(code, t, imported, keys[..i]);
      var files, reason := FilesOf(code, t, keys[i].mod), Reason(imported, keys[i]);
      CoverFiles(code.artifacts, byFile, files, Some(keys[i].name), reason, t.id, ledger);
      ghost var more := InFiles(code.artifacts, files, Some(keys[i].name), reason);
      assert FromKeys(code, t, imported, keys[..i + 1]) == before + more by {
        assert keys[..i + 1][..i] == keys[..i];
      }
      TakeAllConcat(start, t.id, before, more);
    }
    assert keys[..|keys|] == keys;
  }

  method CoverNames(code: Code, byFile: map<string, seq<Artifact>>, t: TestCase, imported: string, names: seq<string>,
      ledger: Ledger)
    requires IndexesFiles(byFile, code.artifacts)
    modifies ledger
    ensures ledger.State() == TakeAll(old(ledger.State()), t.id, FromNames(code, t, imported, names))
  {
    ghost var start := ledger.State();
    var references := code.references(t);
    for i := 0 to |names|
      invariant ledger.State() == TakeAll(start, t.id, FromNames(code, t, imported, names[..i]))
    {
      assert names[..i + 1][..i] == names[..i];
      ghost var before := FromNames(code, t, imported, names[..i]);
      if references.Some? && names[i] !in references.value {
        assert FromNames(code, t, imported, names[..i + 1]) == before;
        continue;
      }
      CoverName(code, byFile, t, imported, names[i], ledger);
      TakeAllConcat(start, t.id, before,
                    FromKeys(code, t, imported, Expansion(Key(imported, names[i]), code.aliases)));
    }
    assert names[..|names|] == names;
  }

  lemma TakeOneImport(code: Code, t: TestCase, imports: seq<Import>, i: nat, start: Progress)
    requires i < |imports|
    ensures TakeAll(start, t.id, Proposals(code, t, imports[..i + 1]))
         == TakeAll(TakeAll(start, t.id, Proposals(code, t, imports[..i])), t.id, FromImport(code, t, imports[i]))
  {
    assert imports[..i + 1][..i] == imports[..i];
    TakeAllConcat(start, t.id, Proposals(code, t, imports[..i]), FromImport(code, t, imports[i]));
  }

  method CoverTest(code: Code, byFile: map<string, seq<Artifact>>, t: TestCase, imports: seq<Import>,
      ledger: Ledger)
    requires IndexesFiles(byFile, code.artifacts)
    modifies ledger
    ensures ledger.State() == TakeAll(Progress({}, old(ledger.edges)), t.id, Proposals(code, t, imports))
  {
    ledger.StartTest();
    ghost var start := ledger.State();
    for i := 0 to |imports|
      invariant ledger.State() == TakeAll(start, t.id, Proposals(code, t, imports[..i]))
    {
      var fact := imports[i];
      TakeOneImport(code, t, imports, i, start);
      if !(fact.file == t.file || EndsWith(fact.file, "/" + t.file)) {
        continue;
      }
      if fact.names != [] {
        CoverNames(code, byFile, t, fact.mod, fact.names, ledger);
      } else {
        CoverFiles(code.artifacts, byFile, FilesOf(code, t, fact.mod), None, "import " + fact.mod, t.id, ledger);
      }
    }
    assert imports[..|imports|] == imports;
  }

  method UpdateTest(code: Code, byFile: map<string, seq<Artifact>>, t: TestCase, imports: seq<Import>,
      ledger: Ledger) returns (updated: TestCase)
    requires IndexesFiles(byFile, code.artifacts)
    modifies ledger
    ensures ledger.edges == old(ledger.edges) + EdgesOf(code, t, imports)
    ensures updated == WithCovers(code, t, imports)
  {
    ghost var xs, before := Proposals(code, t, imports), ledger.edges;
    CoverTest(code, byFile, t, imports, ledger);
    TakeAllAppends(Progress({}, before), t.id, xs);
    RecordsAgree(t.id, xs);
    if ledger.covered != {} {
      var covers := SortSet(ledger.covered, ArtifactsOf(xs));
      updated := t.(covers := covers);
    } else {
      updated := t;
    }
  }

  lemma OneMoreTest(code: Code, tests: seq<TestCase>, i: nat, imports: seq<Import>)
    requires i < |tests|
    ensures AllEdges(code, tests[..i + 1], imports)
         == AllEdges(code, tests[..i], imports) + EdgesOf(code, tests[i], imports)
    ensures AllUpdated(code, tests[..i + 1], imports)
         == AllUpdated(code, tests[..i], imports) + [WithCovers(code, tests[i], imports)]
  {
    UpdatedSnoc(code, tests[..i], tests[i], imports);
    EdgesSnoc(code, tests[..i], tests[i], imports);
    assert tests[..i + 1] == tests[..i] + [tests[i]];
  }

  lemma UpdatedSnoc(code: Code, init: seq<TestCase>, t: TestCase, imports: seq<Import>)
    ensures AllUpdated(code, init + [t], imports) == AllUpdated(code, init, imports) + [WithCovers(code, t, imports)]
  {
  }

  lemma EdgesSnoc(code: Code, init: seq<TestCase>, t: TestCase, imports: seq<Import>)
    ensures AllEdges(code, init + [t], imports) == AllEdges(code, init, imports) + EdgesOf(code, t, imports)
  {
    assert (init + [t])[..|init|] == init;
  }

  method ResolveCoverage(code: Code, tests: seq<TestCase>, imports: seq<Import>)
    returns (updated: seq<TestCase>, edges: seq<CoverageEdge>)
    ensures updated == AllUpdated(code, tests, imports)
    ensures edges == AllEdges(code, tests, imports)
  {
    var byFile := IndexByFile(code.artifacts);
    var ledger := new Ledger();
    updated := [];
    for i := 0 to |tests|
      invariant updated == AllUpdated(code, tests[..i], imports)
      invariant ledger.edges == AllEdges(code, tests[..i], imports)
    {
      OneMoreTest(code, tests, i, imports);
      var t := UpdateTest(code, byFile, tests[i], imports, ledger);
      updated := updated + [t];
    }
    assert tests[..|tests|] == tests;
    edges := ledger.edges;
  }
}
