/**
  Relative imports.

  The dots of an import count in the map of re-exports.  The imports of each file are kept without them, so
  a call is resolved as if its file's imports were absolute, in aggregator files as in others.
*/
module RelativeImports {
  import opened Wrappers
  import opened AliasExpansion
  import opened ModulePath
  import opened NameResolution
  import opened Artifacts
  import opened Text
  import opened CallEdges
  import opened Attempts
  import opened CallTargets
  import opened CallPlaces

  /******* Dots are dropped *******/

  function Dotless(facts: seq<Import>): seq<Import> {
    seq(|facts|, i requires 0 <= i < |facts| => facts[i].(level := 0))
  }

  lemma ImportsAreReadDotless(facts: seq<Import>, file: string)
    ensures ImportsOf(Dotless(facts), file) == ImportsOf(facts, file)
  {
    SameModulesSameIndex(facts, Dotless(facts), file);
  }

  function WithImports(code: Code, imports: seq<Import>): Code {
    code.(imports := imports)
  }

  function WithArtifacts(code: Code, artifacts: seq<Artifact>): Code {
    code.(artifacts := artifacts)
  }

  // The places depend on the imports as the file's index holds them, and not on the artifacts.
  lemma SameIndexSamePlaces(code: Code, imports: seq<Import>, artifacts: seq<Artifact>, c: CallSite,
      enclosing: Artifact)
    requires ImportsOf(imports, c.file) == ImportsOf(code.imports, c.file)
    ensures CallAttempts(WithArtifacts(WithImports(code, imports), artifacts), c, enclosing)
         == CallAttempts(code, c, enclosing)
  {
    var other := WithArtifacts(WithImports(code, imports), artifacts);
    forall hint ensures TypeAttempts(other, hint, c.name, c.file) == TypeAttempts(code, hint, c.name, c.file) {
    }
    assert NamedAttempts(other, c.name, c.file) == NamedAttempts(code, c.name, c.file);
    assert SubmoduleAttempts(other, c) == SubmoduleAttempts(code, c);
    assert Singleton(other, HeadPart(c.receiver), c.file) == Singleton(code, HeadPart(c.receiver), c.file);
    assert SingletonAttempts(other, c) == SingletonAttempts(code, c);
    forall lang, mod ensures ModuleAttempts(other, lang, mod, c.name) == ModuleAttempts(code, lang, mod, c.name) {
    }
    assert ReceiverAttempts(other, c, enclosing) == ReceiverAttempts(code, c, enclosing);
    assert AttributeAttempts(other, c, enclosing) == AttributeAttempts(code, c, enclosing);
  }

  lemma SameIndexSameNamedPlaces(code: Code, imports: seq<Import>, name: string, file: string)
    requires ImportsOf(imports, file) == ImportsOf(code.imports, file)
    ensures NamedTarget(WithImports(code, imports), name, file) == NamedTarget(code, name, file)
  {
  }

  lemma {:induction false} AliasedDotless(code: Code, params: seq<Param>, file: string)
    ensures AliasedBy(WithImports(code, Dotless(code.imports)), params, file) == AliasedBy(code, params, file)
  {
    if params != [] {
      var dotless, last := WithImports(code, Dotless(code.imports)), params[|params| - 1];
      AliasedDotless(code, params[..|params| - 1], file);
      ImportsAreReadDotless(code.imports, file);
      var deps := if last.hint == "" then None else DepsBehind(code, last.hint, file);
      if deps.Some? {
        var names, from := deps.value.names, deps.value.file;
        ImportsAreReadDotless(code.imports, from);
        forall i | 0 <= i < |names| ensures NamedTarget(dotless, names[i], from) == NamedTarget(code, names[i], from) {
          SameIndexSameNamedPlaces(code, Dotless(code.imports), names[i], from);
        }
        assert DepsOf(dotless, names, from, last.hint) == DepsOf(code, names, from, last.hint);
      }
    }
  }

  // The whole resolver, for calls, handed-over dependencies and type aliases alike, reads every import as
  // if it were absolute.
  lemma DotsAreDropped(code: Code, c: CallSite, enclosing: Artifact, fn: Artifact)
    ensures var r, dotless := ResolverOf(code), ResolverOf(WithImports(code, Dotless(code.imports)));
            && dotless.named(c, enclosing) == r.named(c, enclosing)
            && dotless.injected(c) == r.injected(c)
            && dotless.aliased(fn) == r.aliased(fn)
  {
    var imports := Dotless(code.imports);
    ImportsAreReadDotless(code.imports, c.file);
    SameIndexSamePlaces(code, imports, code.artifacts, c, enclosing);
    CallTargetIsFirstListed(code, c, enclosing);
    CallTargetIsFirstListed(WithImports(code, imports), c, enclosing);
    assert WithArtifacts(WithImports(code, imports), code.artifacts) == WithImports(code, imports);
    AliasedDotless(code, Get(code.params, fn.id, []), fn.file);
  }

  /******* What the dots mean *******/

  // The package that the dots of an import start from: the module of an aggregator file, and what contains
  // the module of any other file; "" if nothing does.
  function PackageSeen(file: string, lang: Language, aggregates: string -> bool): string {
    var own := ModuleOf(file, lang.sep, lang.templates);
    if aggregates(file) then own
    else
      var parts := Split(own, lang.sep);
      Join(parts[..|parts| - 1], lang.sep)
  }

  // The same import, written without dots.
  function Absolute(fact: Import, lang: Language, aggregates: string -> bool): Import {
    var package := PackageSeen(fact.file, lang, aggregates);
    if fact.names == [] || package == "" then fact
    else fact.(mod := TargetModule(fact.mod, fact.level, package, lang.sep), level := 0)
  }

  function AbsoluteImports(code: Code, aggregates: string -> bool): seq<Import> {
    seq(|code.imports|, i requires 0 <= i < |code.imports| =>
      Absolute(code.imports[i], code.profile(code.imports[i].file), aggregates))
  }

  // The code with every import written out: resolving it is what the imports mean.
  function Meant(code: Code, aggregates: string -> bool): Code {
    WithImports(code, AbsoluteImports(code, aggregates))
  }

  // A call has the same target in both, whatever the artifacts are.
  ghost predicate ResolvedAlike(code: Code, other: Code, c: CallSite, enclosing: Artifact) {
    forall artifacts :: CallTarget(WithArtifacts(code, artifacts), c, enclosing)
                        == CallTarget(WithArtifacts(other, artifacts), c, enclosing)
  }

  // A call is resolved as its imports mean it, whatever the artifacts are, exactly when both readings lead
  // to the same places, those left out that can never decide.
  lemma ResolvedAsMeantExactlyWhen(code: Code, aggregates: string -> bool, c: CallSite, enclosing: Artifact)
    ensures ResolvedAlike(code, Meant(code, aggregates), c, enclosing)
       <==> Essential(CallAttempts(code, c, enclosing))
            == Essential(CallAttempts(Meant(code, aggregates), c, enclosing))
  {
    var meant := Meant(code, aggregates);
    var a, b := CallAttempts(code, c, enclosing), CallAttempts(meant, c, enclosing);
    SameFindsExactlyWhen(a, b);
    if ResolvedAlike(code, meant, c, enclosing) {
      forall artifacts ensures FirstListed(a, artifacts) == FirstListed(b, artifacts) {
        PlacesOfCode(code, artifacts, c, enclosing);
        PlacesOfCode(meant, artifacts, c, enclosing);
      }
    }
    if Essential(a) == Essential(b) {
      forall artifacts ensures CallTarget(WithArtifacts(code, artifacts), c, enclosing)
                            == CallTarget(WithArtifacts(meant, artifacts), c, enclosing) {
        PlacesOfCode(code, artifacts, c, enclosing);
        PlacesOfCode(meant, artifacts, c, enclosing);
      }
    }
  }

  lemma PlacesOfCode(code: Code, artifacts: seq<Artifact>, c: CallSite, enclosing: Artifact)
    ensures CallTarget(WithArtifacts(code, artifacts), c, enclosing)
         == FirstListed(CallAttempts(code, c, enclosing), artifacts)
  {
    CallTargetIsFirstListed(WithArtifacts(code, artifacts), c, enclosing);
    SameIndexSamePlaces(code, code.imports, artifacts, c, enclosing);
    assert WithImports(code, code.imports) == code;
  }

  // In particular when no import of the file has dots that lead elsewhere.
  lemma DotsDoNoHarmWhen(code: Code, aggregates: string -> bool, c: CallSite, enclosing: Artifact)
    requires forall f :: f in code.imports && f.file == c.file ==>
               Absolute(f, code.profile(f.file), aggregates).mod == f.mod
    ensures CallTarget(Meant(code, aggregates), c, enclosing) == CallTarget(code, c, enclosing)
  {
    SameModulesSameIndex(code.imports, AbsoluteImports(code, aggregates), c.file);
    SameIndexSamePlaces(code, AbsoluteImports(code, aggregates), code.artifacts, c, enclosing);
    CallTargetIsFirstListed(code, c, enclosing);
    CallTargetIsFirstListed(Meant(code, aggregates), c, enclosing);
    assert WithArtifacts(Meant(code, aggregates), code.artifacts) == Meant(code, aggregates);
  }

  lemma {:induction false} SameModulesSameIndex(facts: seq<Import>, others: seq<Import>, file: string)
    requires |facts| == |others|
    requires forall i :: 0 <= i < |facts| ==> others[i].file == facts[i].file
    requires forall i :: 0 <= i < |facts| && facts[i].file == file ==>
                           others[i].(level := 0) == facts[i].(level := 0)
    ensures ImportsOf(others, file) == ImportsOf(facts, file)
    ensures BareIn(others, file) == BareIn(facts, file)
    ensures RenamedIn(others, file) == RenamedIn(facts, file)
    ensures FromNamesOf(others, file) == FromNamesOf(facts, file)
  {
    if facts != [] {
      var n := |facts| - 1;
      SameModulesSameIndex(facts[..n], others[..n], file);
      assert others[n].file == facts[n].file;
    }
  }

  /******* A sibling module *******/

  const PYTHON := Language('.', [Around("", ".py"), Around("", "/__init__.py")])

  // A pair that is not re-exported is tried alone.
  lemma LonelyPair(code: Code, lang: Language, mod: string, name: string)
    requires Key(mod, name) !in code.aliases
    ensures InModule(code, lang, mod, name)
         == FirstFile(FilesOfKey(Key(mod, name), lang), name, ListedIn(code.artifacts))
  {
    var start := Key(mod, name);
    VisitMakesProgress([], Entry(start, 0), {}, code.aliases);
    assert [Entry(start, 0)][..0] == [];
    assert Refilled([], Entry(start, 0), code.aliases) == [];
    assert Expansion(start, code.aliases) == [start] + Yields([], {} + {start}, code.aliases);
    assert FirstKey([start][1..], lang, ListedIn(code.artifacts)) == None;
  }

  // A name that one import brings in, from a module with two candidate files.
  lemma OneImportDecides(code: Code, file: string, mod: string, name: string, x: string, y: string)
    requires ImportsOf(code.imports, file).fromNames == [FromName(mod, name)] && code.aliases == map[]
    requires FilesOfKey(Key(mod, name), code.profile(file)) == [x, y]
    requires Listed(code.artifacts, FileKey(file, name)).None?
    ensures NamedTarget(code, name, file)
         == if Listed(code.artifacts, FileKey(x, name)).Some? then Listed(code.artifacts, FileKey(x, name))
            else Listed(code.artifacts, FileKey(y, name))
  {
    var lang, probe := code.profile(file), ListedIn(code.artifacts);
    LonelyPair(code, lang, mod, name);
    FirstOfTwo(x, y, name, probe);
    assert [FromName(mod, name)][1..] == [];
    assert FromImports([], name, StartAt(name), lang, code.aliases, probe) == None;
  }

  // So `from .b import f` in pkg/a.py does not lead to the f of pkg/b.py, which it means, but to that of a
  // b.py at the root, or nowhere.
  lemma SiblingImportIsMissedExample(f: Artifact, other: Artifact, code: Code, aggregates: string -> bool)
    requires f.file == "pkg/b.py" && other.file == "b.py" && f.name == other.name != ""
    requires code.aliases == map[] && code.imports == [Import("pkg/a.py", "b", 1, [f.name], "")]
    requires code.profile("pkg/a.py") == PYTHON && !aggregates("pkg/a.py")
    requires code.artifacts == [f] || code.artifacts == [f, other]
    ensures NamedTarget(code, f.name, "pkg/a.py") == if code.artifacts == [f] then None else Some(other)
    ensures NamedTarget(Meant(code, aggregates), f.name, "pkg/a.py") == Some(f)
  {
    var file, fact := "pkg/a.py", code.imports[0];
    OnlyImport(fact);
    FilesAreDistinct();
    ListedOfTwo(f, other, FileKey(file, f.name));
    ListedOfTwo(f, other, FileKey("b.py", f.name));
    ListedOfTwo(f, other, FileKey("b/__init__.py", f.name));
    FilesOfModules();
    OneImportDecides(code, file, "b", f.name, "b.py", "b/__init__.py");
    SiblingIsInPackage(fact, aggregates);
    assert AbsoluteImports(code, aggregates) == [fact.(mod := "pkg.b", level := 0)];
    OnlyImport(fact.(mod := "pkg.b", level := 0));
    ListedOfTwo(f, other, FileKey("pkg/b.py", f.name));
    OneImportDecides(Meant(code, aggregates), file, "pkg.b", f.name, "pkg/b.py", "pkg/b/__init__.py");
  }

  lemma SiblingIsInPackage(fact: Import, aggregates: string -> bool)
    requires fact.file == "pkg/a.py" && fact.mod == "b" && fact.level == 1 && fact.names != []
    requires !aggregates("pkg/a.py")
    ensures Absolute(fact, PYTHON, aggregates) == fact.(mod := "pkg.b", level := 0)
  {
    ModuleOfA();
    assert "pkg.a" == "pkg" + ['.'] + "a" && "pkg.b" == "pkg" + ['.'] + "b";
    OneDotIsTheParent(fact, "pkg", "a", PYTHON, aggregates);
  }

  // In a plain file of a package one dot names the package.
  lemma OneDotIsTheParent(fact: Import, package: string, leaf: string, lang: Language, aggregates: string -> bool)
    requires ModuleOf(fact.file, lang.sep, lang.templates) == package + [lang.sep] + leaf
    requires lang.sep !in package && lang.sep !in leaf && package != "" && !aggregates(fact.file)
    requires fact.level == 1 && fact.names != [] && fact.mod != ""
    ensures Absolute(fact, lang, aggregates) == fact.(mod := package + [lang.sep] + fact.mod, level := 0)
  {
    SplitConcat(package, leaf, lang.sep);
    SplitWithout(package, lang.sep);
    SplitWithout(leaf, lang.sep);
    assert ([package] + [leaf])[..1] == [package];
    OneDotIsThePackage(fact.mod, package, lang.sep);
  }

  lemma ModuleOfA()
    ensures ModuleOf("pkg/a.py", '.', PYTHON.templates) == "pkg.a"
  {
    var file, templates := "pkg/a.py", PYTHON.templates;
    assert file[5..] == ".py" && file[..5] == "pkg/a";
    assert Fits(templates[0], file);
    assert |"/__init__.py"| > |file|;
    BestSuffixIsLongest(file, templates);
    assert templates[0] in templates;
    assert Replace("pkg/a", '/', '.') == "pkg.a";
  }

  lemma FilesOfModules()
    ensures CandidateFiles("b", '.', PYTHON.templates) == ["b.py", "b/__init__.py"]
    ensures CandidateFiles("pkg.b", '.', PYTHON.templates) == ["pkg/b.py", "pkg/b/__init__.py"]
  {
    assert Replace("b", '.', '/') == "b" && Replace("pkg.b", '.', '/') == "pkg/b";
    assert ModulePath.Expand(PYTHON.templates[0], "b") == "b.py";
    assert ModulePath.Expand(PYTHON.templates[1], "b") == "b/__init__.py";
    assert ModulePath.Expand(PYTHON.templates[0], "pkg/b") == "pkg/b.py";
    assert ModulePath.Expand(PYTHON.templates[1], "pkg/b") == "pkg/b/__init__.py";
  }

  lemma FilesAreDistinct()
    ensures "pkg/b.py" != "pkg/a.py" && "pkg/b.py" != "b.py" && "pkg/b.py" != "b/__init__.py"
    ensures "b.py" != "pkg/a.py" && "b.py" != "b/__init__.py" && "b.py" != "pkg/b.py"
  {
    assert "pkg/b.py"[4] == 'b' && "pkg/a.py"[4] == 'a' && "pkg/b.py"[0] == 'p';
    assert "b.py"[0] == 'b' && "b.py"[1] == '.' && "b/__init__.py"[1] == '/' && "b/__init__.py"[0] == 'b';
  }

  lemma FirstOfTwo<V>(x: string, y: string, name: string, probe: FileKey -> Option<V>)
    ensures FirstFile([x, y], name, probe)
         == if probe(FileKey(x, name)).Some? then probe(FileKey(x, name)) else probe(FileKey(y, name))
  {
    assert [x, y][1..] == [y] && [y][1..] == [];
    assert FirstFile([], name, probe) == None;
    assert FirstFile([y], name, probe) == probe(FileKey(y, name));
  }

  lemma OnlyImport(fact: Import)
    requires |fact.names| == 1 && fact.names[0] != ""
    ensures ImportsOf([fact], fact.file).fromNames == [FromName(fact.mod, fact.names[0])]
  {
    assert [fact][..0] == [] && fact.names[..0] == [];
    assert Named(fact.mod, fact.names) == Named(fact.mod, []) + [FromName(fact.mod, fact.names[0])];
    assert FromNamesOf([fact], fact.file) == FromNamesOf([], fact.file) + Named(fact.mod, fact.names);
  }

  lemma ListedOfTwo(a: Artifact, b: Artifact, key: FileKey)
    ensures Listed([a], key) == if FileKey(a.file, a.name) == key then Some(a) else None
    ensures Listed([a, b], key) == if FileKey(b.file, b.name) == key then Some(b) else Listed([a], key)
  {
    assert [a][..0] == [] && [a, b][..1] == [a];
  }
}
