/**
  What a call site calls: same-file definitions, imports and their re-exports, methods found through the
  type of a receiver, and dependencies handed to the framework.
*/
module CallTargets {
  import opened Wrappers
  import opened AliasExpansion
  import opened NameResolution
  import opened Artifacts
  import opened EnclosingLookup
  import opened Sorting
  import opened Text
  import opened CallEdges
  import opened Attempts

  datatype ClassKey = ClassKey(file: string, className: string)

  datatype Param = Param(name: string, hint: string)

  datatype FromName = FromName(mod: string, name: string)

  // What one file imports: `import x.y`, longest first; `import x as y`, with the heads of the former;
  // `from m import n`.
  datatype FileImports = FileImports(bare: seq<string>, renamed: map<string, string>, fromNames: seq<FromName>)

  // The artifacts, the import facts, the re-exports, and what the symbol and assignment facts say about
  // types: parameters by artifact id, attributes by class, module variables, and the dependency functions
  // behind type aliases.
  datatype Code = Code(
    artifacts: seq<Artifact>,
    imports: seq<Import>,
    aliases: Aliases,
    profile: string -> Language,
    params: map<string, seq<Param>>,
    selfAttrs: map<ClassKey, map<string, string>>,
    moduleVars: map<FileKey, string>,
    aliasDeps: map<FileKey, seq<string>>)

  /******* The imports of a file *******/

  function Named(mod: string, names: seq<string>): seq<FromName> {
    if names == [] then []
    else
      Named(mod, names[..|names| - 1])
      + if names[|names| - 1] == "" then [] else [FromName(mod, names[|names| - 1])]
  }

  function FromNamesOf(facts: seq<Import>, file: string): seq<FromName> {
    if facts == [] then []
    else
      var last := facts[|facts| - 1];
      FromNamesOf(facts[..|facts| - 1], file) + if last.file == file then Named(last.mod, last.names) else []
  }

  function BareIn(facts: seq<Import>, file: string): seq<string> {
    if facts == [] then []
    else
      var last := facts[|facts| - 1];
      BareIn(facts[..|facts| - 1], file)
      + if last.file == file && last.names == [] && last.alias == "" then [last.mod] else []
  }

  function HeadOf(mod: string): string {
    Split(mod, '.')[0]
  }

  // An alias replaces what its name stood for; the head of a bare import only fills a gap.
  function Rename(renamed: map<string, string>, fact: Import): map<string, string> {
    if fact.names != [] then renamed
    else if fact.alias != "" then renamed[fact.alias := fact.mod]
    else if HeadOf(fact.mod) in renamed then renamed
    else renamed[HeadOf(fact.mod) := HeadOf(fact.mod)]
  }

  function RenamedIn(facts: seq<Import>, file: string): map<string, string> {
    if facts == [] then map[]
    else
      var before, last := RenamedIn(facts[..|facts| - 1], file), facts[|facts| - 1];
      if last.file == file then Rename(before, last) else before
  }

  function LongestFirst(): string -> int {
    (s: string) => -|s|
  }

  function ImportsOf(facts: seq<Import>, file: string): FileImports {
    FileImports(Sort(BareIn(facts, file), LongestFirst()), RenamedIn(facts, file), FromNamesOf(facts, file))
  }

  function Get<K, V>(m: map<K, V>, key: K, default: V): V {
    if key in m then m[key] else default
  }

  // What the pass over the import facts has collected, file by file.
  ghost predicate Collected(facts: seq<Import>, bare: map<string, seq<string>>,
      renamed: map<string, map<string, string>>, fromNames: map<string, seq<FromName>>) {
    forall file :: && Get(bare, file, []) == BareIn(facts, file)
                   && Get(renamed, file, map[]) == RenamedIn(facts, file)
                   && Get(fromNames, file, []) == FromNamesOf(facts, file)
  }

  method BuildFileImports(facts: seq<Import>) returns (out: map<string, FileImports>)
    ensures forall file :: Get(out, file, FileImports([], map[], [])) == ImportsOf(facts, file)
  {
    var bare: map<string, seq<string>> := map[];
    var renamed: map<string, map<string, string>> := map[];
    var fromNames: map<string, seq<FromName>> := map[];
    for i := 0 to |facts|
      invariant Collected(facts[..i], bare, renamed, fromNames)
    {
      var fact := facts[i];
      ghost var b, r, f := bare, renamed, fromNames;
      if fact.names != [] {
        fromNames := fromNames[fact.file := Get(fromNames, fact.file, []) + Named(fact.mod, fact.names)];
      } else if fact.alias != "" {
        renamed := renamed[fact.file := Get(renamed, fact.file, map[])[fact.alias := fact.mod]];
      } else {
        bare := bare[fact.file := Get(bare, fact.file, []) + [fact.mod]];
        var head, own := HeadOf(fact.mod), Get(renamed, fact.file, map[]);
        renamed := renamed[fact.file := if head in own then own else own[head := head]];
      }
      OneMoreImport(facts, i, b, r, f, bare, renamed, fromNames);
    }
    assert facts[..|facts|] == facts;
    out := map file | file in bare.Keys + renamed.Keys + fromNames.Keys ::
      FileImports(Sort(Get(bare, file, []), LongestFirst()), Get(renamed, file, map[]), Get(fromNames, file, []));
    forall file ensures Get(out, file, FileImports([], map[], [])) == ImportsOf(facts, file) {
      assert Get(bare, file, []) == BareIn(facts, file);
    }
  }

  lemma OneMoreImport(facts: seq<Import>, i: nat, b: map<string, seq<string>>, r: map<string, map<string, string>>,
      f: map<string, seq<FromName>>, bare: map<string, seq<string>>, renamed: map<string, map<string, string>>,
      fromNames: map<string, seq<FromName>>)
    requires i < |facts| && Collected(facts[..i], b, r, f)
    requires var x := facts[i];
             && fromNames == (if x.names != [] then f[x.file := Get(f, x.file, []) + Named(x.mod, x.names)] else f)
             && bare == (if x.names == [] && x.alias == "" then b[x.file := Get(b, x.file, []) + [x.mod]] else b)
             && renamed == (if x.names == [] then r[x.file := Rename(Get(r, x.file, map[]), x)] else r)
    ensures Collected(facts[..i + 1], bare, renamed, fromNames)
  {
    var x := facts[i];
    assert facts[..i + 1][..i] == facts[..i];
    forall file ensures && Get(bare, file, []) == BareIn(facts[..i + 1], file)
                        && Get(renamed, file, map[]) == RenamedIn(facts[..i + 1], file)
                        && Get(fromNames, file, []) == FromNamesOf(facts[..i + 1], file) {
      assert Get(b, file, []) == BareIn(facts[..i], file);
    }
  }

  /******* Tables *******/

  method IndexMethods(artifacts: seq<Artifact>) returns (index: map<MethodKey, Artifact>)
    ensures forall key :: (if key in index then Some(index[key]) else None) == ListedMethod(artifacts, key)
  {
    index := map[];
    for i := 0 to |artifacts|
      invariant forall key :: (if key in index then Some(index[key]) else None) == ListedMethod(artifacts[..i], key)
    {
      var a := artifacts[i];
      assert artifacts[..i + 1][..i] == artifacts[..i];
      if a.kind == Method {
        var className := ClassOf(a);
        if className != "" {
          index := index[MethodKey(a.file, className, a.name) := a];
        }
      }
    }
    assert artifacts[..|artifacts|] == artifacts;
  }

  /******* Lookups *******/

  function StartAt(name: string): string -> Key {
    (mod: string) => Key(mod, name)
  }

  function StartBelow(sub: string, name: string): string -> Key {
    (mod: string) => Key(mod + "." + sub, name)
  }

  // The first import of the name whose module leads to something.
  function FromImports<V>(names: seq<FromName>, name: string, start: string -> Key, lang: Language, aliases: Aliases,
      probe: FileKey -> Option<V>): Option<V> {
    if names == [] then None
    else if names[0].name == name && Probe(start(names[0].mod), lang, aliases, probe).Some? then
      Probe(start(names[0].mod), lang, aliases, probe)
    else FromImports(names[1..], name, start, lang, aliases, probe)
  }

  lemma {:induction false} FromImportsFinds<V>(names: seq<FromName>, name: string, start: string -> Key,
      lang: Language, aliases: Aliases, probe: FileKey -> Option<V>)
    ensures var hit := FromImports(names, name, start, lang, aliases, probe);
            && (hit.Some? <==>
                  exists n :: n in names && n.name == name && Probe(start(n.mod), lang, aliases, probe).Some?)
            && (hit.Some? ==>
                  exists n :: n in names && n.name == name && Probe(start(n.mod), lang, aliases, probe) == hit)
  {
    if names != [] {
      FromImportsFinds(names[1..], name, start, lang, aliases, probe);
      assert forall n :: n in names <==> n == names[0] || n in names[1..] by {
        assert names == [names[0]] + names[1..];
      }
    }
  }

  function InModule(code: Code, lang: Language, mod: string, name: string): Option<Artifact> {
    Probe(Key(mod, name), lang, code.aliases, ListedIn(code.artifacts))
  }

  // A bare name: defined in the file, or imported into it.
  function NamedTarget(code: Code, name: string, file: string): Option<Artifact> {
    var own := Listed(code.artifacts, FileKey(file, name));
    if own.Some? then own
    else
      FromImports(ImportsOf(code.imports, file).fromNames, name, StartAt(name), code.profile(file), code.aliases,
                  ListedIn(code.artifacts))
  }

  function MethodsNamed(artifacts: seq<Artifact>, name: string): FileKey -> Option<Artifact> {
    (key: FileKey) => ListedMethod(artifacts, MethodKey(key.file, key.name, name))
  }

  // A method of a type: the class is in the file, or imported into it.
  function MethodByType(code: Code, typeName: string, name: string, file: string): Option<Artifact> {
    var own := ListedMethod(code.artifacts, MethodKey(file, typeName, name));
    if own.Some? then own
    else
      FromImports(ImportsOf(code.imports, file).fromNames, typeName, StartAt(typeName), code.profile(file),
                  code.aliases, MethodsNamed(code.artifacts, name))
  }

  // A module variable with a known type, and the file it lives in.
  datatype Bound = Bound(file: string, typeName: string)

  function Variables(moduleVars: map<FileKey, string>): FileKey -> Option<Bound> {
    (key: FileKey) =>
      var hint := Get(moduleVars, key, "");
      if hint == "" then None else Some(Bound(key.file, hint))
  }

  function Singleton(code: Code, head: string, file: string): Option<Bound> {
    FromImports(ImportsOf(code.imports, file).fromNames, head, StartAt(head), code.profile(file), code.aliases,
                Variables(code.moduleVars))
  }

  /******* The target of a call *******/

  function Or(a: Option<Artifact>, b: Option<Artifact>): Option<Artifact> {
    if a.Some? then a else b
  }

  function DotAt(s: string): nat {
    if s == "" || s[0] == '.' then 0 else 1 + DotAt(s[1..])
  }

  lemma DotIsInside(s: string)
    ensures DotAt(s) <= |s|
  {
  }

  // `receiver.partition(".")`.
  function HeadPart(s: string): string {
    DotIsInside(s);
    s[..DotAt(s)]
  }

  function RestPart(s: string): string {
    DotIsInside(s);
    if DotAt(s) < |s| then s[DotAt(s) + 1..] else ""
  }

  function WithRest(s: string, rest: string): string {
    if rest == "" then s else s + "." + rest
  }

  function FirstBare(bare: seq<string>, receiver: string): Option<string> {
    if bare == [] then None
    else if receiver == bare[0] || (bare[0] + ".") <= receiver then Some(bare[0])
    else FirstBare(bare[1..], receiver)
  }

  function ParamHint(params: seq<Param>, name: string): string {
    if params == [] then ""
    else if params[0].name == name then params[0].hint
    else ParamHint(params[1..], name)
  }

  function ByHint(code: Code, hint: string, c: CallSite): Option<Artifact> {
    if hint == "" then None else MethodByType(code, hint, c.name, c.file)
  }

  // `self.method()`: a sibling on the class of the enclosing method.
  function OnOwnClass(code: Code, c: CallSite, enclosing: Artifact): Option<Artifact> {
    if ClassOf(enclosing) == "" then None
    else ListedMethod(code.artifacts, MethodKey(enclosing.file, ClassOf(enclosing), c.name))
  }

  // `self.attr.method()`: by the type of the attribute.
  function OnAttribute(code: Code, c: CallSite, enclosing: Artifact): Option<Artifact> {
    if |c.chain| >= 2 && c.chain[0] == "self" && enclosing.kind == Method && ClassOf(enclosing) != "" then
      var attrs := Get(code.selfAttrs, ClassKey(enclosing.file, ClassOf(enclosing)), map[]);
      ByHint(code, Get(attrs, c.chain[1], ""), c)
    else None
  }

  function OnSingleton(code: Code, c: CallSite): Option<Artifact> {
    var bound := Singleton(code, HeadPart(c.receiver), c.file);
    if bound.None? then None
    else
      Or(ListedMethod(code.artifacts, MethodKey(bound.value.file, bound.value.typeName, c.name)),
         MethodByType(code, bound.value.typeName, c.name, c.file))
  }

  function OnSubmodule(code: Code, c: CallSite): Option<Artifact> {
    var sub := WithRest(HeadPart(c.receiver), RestPart(c.receiver));
    FromImports(ImportsOf(code.imports, c.file).fromNames, HeadPart(c.receiver), StartBelow(sub, c.name),
                code.profile(c.file), code.aliases, ListedIn(code.artifacts))
  }

  // The receiver is a bare module, an alias, an imported submodule, a parameter, a variable of the module
  // or one imported from elsewhere.
  function OnReceiver(code: Code, c: CallSite, enclosing: Artifact): Option<Artifact> {
    var lang, imports := code.profile(c.file), ImportsOf(code.imports, c.file);
    var head, rest := HeadPart(c.receiver), RestPart(c.receiver);
    var byModule :=
      if FirstBare(imports.bare, c.receiver).Some? then InModule(code, lang, c.receiver, c.name) else None;
    if byModule.Some? then byModule
    else if head in imports.renamed then InModule(code, lang, WithRest(imports.renamed[head], rest), c.name)
    else
      Or(OnSubmodule(code, c),
      Or(ByHint(code, ParamHint(Get(code.params, enclosing.id, []), head), c),
      Or(ByHint(code, Get(code.moduleVars, FileKey(c.file, head), ""), c),
         OnSingleton(code, c))))
  }

  function CallTarget(code: Code, c: CallSite, enclosing: Artifact): Option<Artifact> {
    if c.name == "" then None
    else if c.receiver == "" then NamedTarget(code, c.name, c.file)
    else if (c.receiver == "self" || c.receiver == "cls") && enclosing.kind == Method then
      OnOwnClass(code, c, enclosing)
    else Or(OnAttribute(code, c, enclosing), OnReceiver(code, c, enclosing))
  }

  /******* Dependencies handed to the framework *******/

  const NAME_MARK := "<name:"

  // `Depends(f)` counts as a call of `f`.
  function InjectedTarget(code: Code, c: CallSite): Option<Artifact> {
    if (c.callee == "Depends" || EndsWith(c.callee, ".Depends")) && NAME_MARK <= c.firstArg then
      NamedTarget(code, if |c.firstArg| > |NAME_MARK| then c.firstArg[|NAME_MARK|..|c.firstArg| - 1] else "", c.file)
    else None
  }

  // The dependency functions behind a type alias, and the file that names them.
  datatype DepList = DepList(file: string, names: seq<string>)

  function DepLists(aliasDeps: map<FileKey, seq<string>>): FileKey -> Option<DepList> {
    (key: FileKey) =>
      var names := Get(aliasDeps, key, []);
      if names == [] then None else Some(DepList(key.file, names))
  }

  function DepsBehind(code: Code, typeName: string, file: string): Option<DepList> {
    var own := DepLists(code.aliasDeps)(FileKey(file, typeName));
    if own.Some? then own
    else
      FromImports(ImportsOf(code.imports, file).fromNames, typeName, StartAt(typeName), code.profile(file),
                  code.aliases, DepLists(code.aliasDeps))
  }

  function DepsOf(code: Code, names: seq<string>, file: string, via: string): seq<AliasDep> {
    seq(|names|, i requires 0 <= i < |names| => AliasDep(NamedTarget(code, names[i], file), via))
  }

  function AliasedBy(code: Code, params: seq<Param>, file: string): seq<AliasDep> {
    if params == [] then []
    else
      var last := params[|params| - 1];
      var deps := if last.hint == "" then None else DepsBehind(code, last.hint, file);
      AliasedBy(code, params[..|params| - 1], file)
      + if deps.None? then [] else DepsOf(code, deps.value.names, deps.value.file, last.hint)
  }

  // The resolver whose edges are drawn.
  function ResolverOf(code: Code): Resolver {
    Resolver((c: CallSite, enclosing: Artifact) => CallTarget(code, c, enclosing),
             (c: CallSite) => InjectedTarget(code, c),
             (fn: Artifact) => AliasedBy(code, Get(code.params, fn.id, []), fn.file))
  }

  /******* The resolver's lookups *******/

  // The tables built once for a repository.
  datatype Tables = Tables(byFileName: map<FileKey, Artifact>, methods: map<MethodKey, Artifact>,
                           fileImports: map<string, FileImports>)

  ghost predicate AreTablesOf(t: Tables, code: Code) {
    && (forall key :: EntryOf(t.byFileName)(key) == Listed(code.artifacts, key))
    && (forall key :: (if key in t.methods then Some(t.methods[key]) else None) == ListedMethod(code.artifacts, key))
    && (forall file :: Get(t.fileImports, file, FileImports([], map[], [])) == ImportsOf(code.imports, file))
  }

  method BuildTables(code: Code) returns (t: Tables)
    ensures AreTablesOf(t, code)
  {
    var byFileName := IndexByFileAndName(code.artifacts);
    var methods := IndexMethods(code.artifacts);
    var fileImports := BuildFileImports(code.imports);
    t := Tables(byFileName, methods, fileImports);
  }

  function ImportsIn(t: Tables, file: string): FileImports {
    Get(t.fileImports, file, FileImports([], map[], []))
  }

  function MethodEntry(t: Tables, key: MethodKey): Option<Artifact> {
    if key in t.methods then Some(t.methods[key]) else None
  }

  method FindInModule(code: Code, t: Tables, mod: string, name: string, file: string) returns (target: Option<Artifact>)
    requires AreTablesOf(t, code)
    ensures target == InModule(code, code.profile(file), mod, name)
  {
    target := LookupByModule(Key(mod, name), code.profile(file), code.aliases, code.artifacts, t.byFileName) by {
      forall key
        ensures (if key in t.byFileName then Some(t.byFileName[key]) else None) == Listed(code.artifacts, key)
      {
        assert EntryOf(t.byFileName)(key) == Listed(code.artifacts, key);
      }
    }
  }

  method FindNamed(code: Code, t: Tables, name: string, file: string) returns (target: Option<Artifact>)
    requires AreTablesOf(t, code)
    ensures target == NamedTarget(code, name, file)
  {
    target := EntryOf(t.byFileName)(FileKey(file, name));
    if target.Some? {
      return;
    }
    var names := ImportsIn(t, file).fromNames;
    ghost var lang, probe := code.profile(file), ListedIn(code.artifacts);
    assert names[0..] == names;
    for i := 0 to |names|
      invariant FromImports(names, name, StartAt(name), lang, code.aliases, probe)
             == FromImports(names[i..], name, StartAt(name), lang, code.aliases, probe)
    {
      assert names[i..][1..] == names[i + 1..];
      if names[i].name != name {
        continue;
      }
      target := FindInModule(code, t, names[i].mod, name, file);
      if target.Some? {
        return;
      }
    }
    return None;
  }

  method FindMethodByType(code: Code, t: Tables, typeName: string, name: string, file: string)
      returns (target: Option<Artifact>)
    requires AreTablesOf(t, code)
    ensures target == MethodByType(code, typeName, name, file)
  {
    target := MethodEntry(t, MethodKey(file, typeName, name));
    if target.Some? {
      return;
    }
    var names := ImportsIn(t, file).fromNames;
    var probe := (key: FileKey) => MethodEntry(t, MethodKey(key.file, key.name, name));
    ghost var lang, methods := code.profile(file), MethodsNamed(code.artifacts, name);
    assert names[0..] == names;
    for i := 0 to |names|
      invariant FromImports(names, typeName, StartAt(typeName), lang, code.aliases, methods)
             == FromImports(names[i..], typeName, StartAt(typeName), lang, code.aliases, methods)
    {
      assert names[i..][1..] == names[i + 1..];
      if names[i].name != typeName {
        continue;
      }
      var start := Key(names[i].mod, typeName);
      target := ProbeExpansion(start, code.profile(file), code.aliases, probe);
      SameEntriesSameHit(Expansion(start, code.aliases), code.profile(file), probe, MethodsNamed(code.artifacts, name));
      if target.Some? {
        return;
      }
    }
    return None;
  }

  method FindSingleton(code: Code, t: Tables, head: string, file: string) returns (bound: Option<Bound>)
    requires AreTablesOf(t, code)
    ensures bound == Singleton(code, head, file)
  {
    var names := ImportsIn(t, file).fromNames;
    var probe := Variables(code.moduleVars);
    assert names[0..] == names;
    for i := 0 to |names|
      invariant Singleton(code, head, file)
             == FromImports(names[i..], head, StartAt(head), code.profile(file), code.aliases, probe)
    {
      assert names[i..][1..] == names[i + 1..];
      if names[i].name != head {
        continue;
      }
      bound := ProbeExpansion(Key(names[i].mod, head), code.profile(file), code.aliases, probe);
      if bound.Some? {
        return;
      }
    }
    return None;
  }

  method FindOnSubmodule(code: Code, t: Tables, c: CallSite) returns (target: Option<Artifact>)
    requires AreTablesOf(t, code)
    ensures target == OnSubmodule(code, c)
  {
    var names, head := ImportsIn(t, c.file).fromNames, HeadPart(c.receiver);
    var sub := WithRest(head, RestPart(c.receiver));
    ghost var start, probe := StartBelow(sub, c.name), ListedIn(code.artifacts);
    assert names[0..] == names;
    for i := 0 to |names|
      invariant OnSubmodule(code, c)
             == FromImports(names[i..], head, start, code.profile(c.file), code.aliases, probe)
    {
      assert names[i..][0] == names[i] && names[i..][1..] == names[i + 1..];
      if head != names[i].name {
        continue;
      }
      assert start(names[i].mod) == Key(names[i].mod + "." + sub, c.name);
      target := FindInModule(code, t, names[i].mod + "." + sub, c.name, c.file);
      if target.Some? {
        return;
      }
    }
    return None;
  }

  // The steps for a receiver that is neither empty nor the object itself, in their order.
  method FindOnReceiver(code: Code, t: Tables, c: CallSite, enclosing: Artifact) returns (target: Option<Artifact>)
    requires AreTablesOf(t, code)
    ensures target == OnReceiver(code, c, enclosing)
  {
    var imports, head, rest := ImportsIn(t, c.file), HeadPart(c.receiver), RestPart(c.receiver);
    if FirstBare(imports.bare, c.receiver).Some? {
      target := FindInModule(code, t, c.receiver, c.name, c.file);
      if target.Some? {
        return;
      }
    }
    if head in imports.renamed {
      target := FindInModule(code, t, WithRest(imports.renamed[head], rest), c.name, c.file);
      return;
    }
    target := FindOnSubmodule(code, t, c);
    if target.Some? {
      return;
    }
    target := FindByHint(code, t, ParamHint(Get(code.params, enclosing.id, []), head), c);
    if target.Some? {
      return;
    }
    target := FindByHint(code, t, Get(code.moduleVars, FileKey(c.file, head), ""), c);
    if target.Some? {
      return;
    }
    var bound := FindSingleton(code, t, head, c.file);
    if bound.None? {
      return None;
    }
    target := MethodEntry(t, MethodKey(bound.value.file, bound.value.typeName, c.name));
    if target.None? {
      target := FindMethodByType(code, t, bound.value.typeName, c.name, c.file);
    }
  }

  method FindByHint(code: Code, t: Tables, hint: string, c: CallSite) returns (target: Option<Artifact>)
    requires AreTablesOf(t, code)
    ensures target == ByHint(code, hint, c)
  {
    if hint == "" {
      return None;
    }
    target := FindMethodByType(code, t, hint, c.name, c.file);
  }

  method FindTarget(code: Code, t: Tables, c: CallSite, enclosing: Artifact) returns (target: Option<Artifact>)
    requires AreTablesOf(t, code)
    ensures target == CallTarget(code, c, enclosing)
  {
    if c.name == "" {
      return None;
    }
    if c.receiver == "" {
      target := FindNamed(code, t, c.name, c.file);
      return;
    }
    var className := ClassOf(enclosing);
    if (c.receiver == "self" || c.receiver == "cls") && enclosing.kind == Method {
      return if className == "" then None else MethodEntry(t, MethodKey(enclosing.file, className, c.name));
    }
    if |c.chain| >= 2 && c.chain[0] == "self" && enclosing.kind == Method && className != "" {
      var attrs := Get(code.selfAttrs, ClassKey(enclosing.file, className), map[]);
      target := FindByHint(code, t, Get(attrs, c.chain[1], ""), c);
      if target.Some? {
        return;
      }
    }
    target := FindOnReceiver(code, t, c, enclosing);
  }

  method FindInjected(code: Code, t: Tables, c: CallSite) returns (target: Option<Artifact>)
    requires AreTablesOf(t, code)
    ensures target == InjectedTarget(code, c)
  {
    if (c.callee != "Depends" && !EndsWith(c.callee, ".Depends")) || !(NAME_MARK <= c.firstArg) {
      return None;
    }
    var name := if |c.firstArg| > |NAME_MARK| then c.firstArg[|NAME_MARK|..|c.firstArg| - 1] else "";
    target := FindNamed(code, t, name, c.file);
  }

  // What a call refers to, seen from the artifact around it; nothing outside of every artifact.
  function SiteTarget(code: Code, c: CallSite): Option<Artifact> {
    var caller := CallerOf(code.artifacts, c);
    if caller.None? then None else CallEdges.TargetOf(ResolverOf(code), c, caller.value)
  }

  lemma SiteIsSeenFrom(code: Code, c: CallSite, caller: Artifact)
    requires CallerOf(code.artifacts, c) == Some(caller)
    ensures SiteTarget(code, c)
         == if CallTarget(code, c, caller).Some? then CallTarget(code, c, caller) else InjectedTarget(code, c)
  {
  }

  method FindSite(code: Code, t: Tables, byFile: map<string, seq<Artifact>>, c: CallSite)
      returns (target: Option<Artifact>)
    requires AreTablesOf(t, code) && IndexesFiles(byFile, code.artifacts)
    ensures target == SiteTarget(code, c)
  {
    var ranges := if c.file in byFile then byFile[c.file] else [];
    assert ranges == CallEdges.InFile(code.artifacts, c.file);
    var caller := EnclosingArtifact(ranges, c.line);
    if caller.None? {
      return None;
    }
    SiteIsSeenFrom(code, c, caller.value);
    target := FindTarget(code, t, c, caller.value);
    if target.None? {
      target := FindInjected(code, t, c);
    }
  }

  function TargetIn(code: Code): CallSite -> Option<Artifact> {
    (c: CallSite) => SiteTarget(code, c)
  }

  // The tables are built once, then each call is looked up.
  method FindTargets(code: Code, calls: seq<CallSite>) returns (targets: seq<Option<Artifact>>)
    ensures |targets| == |calls|
    ensures forall i :: 0 <= i < |calls| ==> targets[i] == TargetIn(code)(calls[i])
  {
    var t := BuildTables(code);
    var byFile := IndexByFile(code.artifacts);
    ghost var found := TargetIn(code);
    targets := [];
    for i := 0 to |calls|
      invariant |targets| == i && forall j :: 0 <= j < i ==> targets[j] == found(calls[j])
    {
      var target := FindSite(code, t, byFile, calls[i]);
      targets := targets + [target];
    }
  }

  /******* When a bare name is found *******/

  // Some re-export of the imported pair leads to a definition in a candidate file.
  ghost predicate ModuleLeadsTo(code: Code, lang: Language, mod: string, name: string, a: Artifact) {
    exists key, candidate :: key in Expansion(Key(mod, name), code.aliases) && candidate in FilesOfKey(key, lang)
                             && Listed(code.artifacts, FileKey(candidate, key.name)) == Some(a)
  }

  ghost predicate Imported(code: Code, name: string, file: string, a: Artifact) {
    exists n :: n in ImportsOf(code.imports, file).fromNames && n.name == name
                && ModuleLeadsTo(code, code.profile(file), n.mod, name, a)
  }

  // A definition with this name that the file can see: its own, or one that an import leads to.
  ghost predicate Visible(code: Code, name: string, file: string, a: Artifact) {
    Listed(code.artifacts, FileKey(file, name)) == Some(a) || Imported(code, name, file, a)
  }

  lemma ImportedIsFoundExactlyWhen(code: Code, name: string, file: string)
    ensures var names := ImportsOf(code.imports, file).fromNames;
            var hit := FromImports(names, name, StartAt(name), code.profile(file), code.aliases,
                                   ListedIn(code.artifacts));
            && (hit.Some? ==> Imported(code, name, file, hit.value))
            && (hit.None? ==> forall a :: !Imported(code, name, file, a))
  {
    var names, lang, probe := ImportsOf(code.imports, file).fromNames, code.profile(file), ListedIn(code.artifacts);
    FromImportsFinds(names, name, StartAt(name), lang, code.aliases, probe);
    var hit := FromImports(names, name, StartAt(name), lang, code.aliases, probe);
    if hit.Some? {
      var n :| n in names && n.name == name && Probe(StartAt(name)(n.mod), lang, code.aliases, probe) == hit;
      ModuleHitIsLed(code, code.profile(file), n.mod, name);
    }
    if a :| Imported(code, name, file, a) {
      var n :| n in names && n.name == name && ModuleLeadsTo(code, code.profile(file), n.mod, name, a);
      LedIsHit(code, code.profile(file), n.mod, name, a);
    }
  }

  // A bare call is resolved exactly when some definition is visible, and then to a visible one; a
  // definition in the file itself wins.
  lemma NamedTargetIsFoundExactlyWhen(code: Code, name: string, file: string)
    ensures var target := NamedTarget(code, name, file);
            && (target.Some? <==> exists a :: Visible(code, name, file, a))
            && (target.Some? ==> Visible(code, name, file, target.value))
            && (Listed(code.artifacts, FileKey(file, name)).Some? ==>
                  target == Listed(code.artifacts, FileKey(file, name)))
  {
    ImportedIsFoundExactlyWhen(code, name, file);
    var own, target := Listed(code.artifacts, FileKey(file, name)), NamedTarget(code, name, file);
    if target.Some? {
      assert Visible(code, name, file, target.value);
    } else {
      forall a ensures !Visible(code, name, file, a) {
        assert own.None? && !Imported(code, name, file, a);
      }
    }
  }

  lemma ModuleHitIsLed(code: Code, lang: Language, mod: string, name: string)
    ensures var hit := InModule(code, lang, mod, name);
            hit.Some? ==> ModuleLeadsTo(code, lang, mod, name, hit.value)
  {
    var keys, probe := Expansion(Key(mod, name), code.aliases), ListedIn(code.artifacts);
    var hit := InModule(code, lang, mod, name);
    FirstKeyIsFirst(keys, lang, probe);
    if hit.Some? {
      var i :| 0 <= i < |keys| && hit == FirstFile(FilesOfKey(keys[i], lang), keys[i].name, probe);
      FirstFileIsFirst(FilesOfKey(keys[i], lang), keys[i].name, probe);
      assert keys[i] in keys;
    }
  }

  lemma LedIsHit(code: Code, lang: Language, mod: string, name: string, a: Artifact)
    requires ModuleLeadsTo(code, lang, mod, name, a)
    ensures InModule(code, lang, mod, name).Some?
  {
    var keys, probe := Expansion(Key(mod, name), code.aliases), ListedIn(code.artifacts);
    var key, candidate :|
      key in keys && candidate in FilesOfKey(key, lang) && probe(FileKey(candidate, key.name)) == Some(a);
    FirstKeyIsFirst(keys, lang, probe);
    assert HasEntry(key, lang, probe);
    var i :| 0 <= i < |keys| && keys[i] == key;
  }
}
