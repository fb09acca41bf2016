/**
  The places a call is looked for in.

  The steps of the resolver, whatever the receiver, come down to one list of places, on which the artifacts
  have no influence; the first place that has something decides.  So everything found is an input artifact,
  the edges drawn need no assumption, and two ways of reading the imports can be compared.
*/
module CallPlaces {
  import opened Wrappers
  import opened AliasExpansion
  import opened NameResolution
  import opened Artifacts
  import opened CallEdges
  import opened Attempts
  import opened CallTargets

  /******* What is tried *******/

  function FileKeys(files: seq<string>, name: string): seq<FileKey> {
    seq(|files|, i requires 0 <= i < |files| => FileKey(files[i], name))
  }

  function KeysTried(keys: seq<Key>, lang: Language): seq<FileKey> {
    if keys == [] then [] else FileKeys(FilesOfKey(keys[0], lang), keys[0].name) + KeysTried(keys[1..], lang)
  }

  // The candidate files of a pair and its re-exports.
  function Tried(start: Key, lang: Language, aliases: Aliases): seq<FileKey> {
    KeysTried(Expansion(start, aliases), lang)
  }

  function ImportsTried(names: seq<FromName>, name: string, start: string -> Key, lang: Language, aliases: Aliases)
    : seq<FileKey>
  {
    if names == [] then []
    else
      (if names[0].name == name then Tried(start(names[0].mod), lang, aliases) else [])
      + ImportsTried(names[1..], name, start, lang, aliases)
  }

  // Places without the class, and with it.
  function ByNames(keys: seq<FileKey>): seq<Attempt> {
    seq(|keys|, i requires 0 <= i < |keys| => ByName(keys[i].file, keys[i].name))
  }

  function ByClasses(keys: seq<FileKey>, name: string): seq<Attempt> {
    seq(|keys|, i requires 0 <= i < |keys| => ByClass(keys[i].file, keys[i].name, name))
  }

  function NamedAttempts(code: Code, name: string, file: string): seq<Attempt> {
    [ByName(file, name)]
    + ByNames(ImportsTried(ImportsOf(code.imports, file).fromNames, name, StartAt(name), code.profile(file),
                           code.aliases))
  }

  function TypeAttempts(code: Code, hint: string, name: string, file: string): seq<Attempt> {
    if hint == "" then []
    else
      [ByClass(file, hint, name)]
      + ByClasses(ImportsTried(ImportsOf(code.imports, file).fromNames, hint, StartAt(hint), code.profile(file),
                               code.aliases), name)
  }

  function ModuleAttempts(code: Code, lang: Language, mod: string, name: string): seq<Attempt> {
    ByNames(Tried(Key(mod, name), lang, code.aliases))
  }

  function SubmoduleAttempts(code: Code, c: CallSite): seq<Attempt> {
    var sub := WithRest(HeadPart(c.receiver), RestPart(c.receiver));
    ByNames(ImportsTried(ImportsOf(code.imports, c.file).fromNames, HeadPart(c.receiver), StartBelow(sub, c.name),
                         code.profile(c.file), code.aliases))
  }

  function SingletonAttempts(code: Code, c: CallSite): seq<Attempt> {
    var bound := Singleton(code, HeadPart(c.receiver), c.file);
    if bound.None? then []
    else
      [ByClass(bound.value.file, bound.value.typeName, c.name)]
      + TypeAttempts(code, bound.value.typeName, c.name, c.file)
  }

  function ReceiverAttempts(code: Code, c: CallSite, enclosing: Artifact): seq<Attempt> {
    var lang, imports := code.profile(c.file), ImportsOf(code.imports, c.file);
    var head, rest := HeadPart(c.receiver), RestPart(c.receiver);
    (if FirstBare(imports.bare, c.receiver).Some? then ModuleAttempts(code, lang, c.receiver, c.name) else [])
    + if head in imports.renamed then ModuleAttempts(code, lang, WithRest(imports.renamed[head], rest), c.name)
      else
        SubmoduleAttempts(code, c)
        + (TypeAttempts(code, ParamHint(Get(code.params, enclosing.id, []), head), c.name, c.file)
        + (TypeAttempts(code, Get(code.moduleVars, FileKey(c.file, head), ""), c.name, c.file)
        + SingletonAttempts(code, c)))
  }

  function AttributeAttempts(code: Code, c: CallSite, enclosing: Artifact): seq<Attempt> {
    if |c.chain| >= 2 && c.chain[0] == "self" && enclosing.kind == Method && ClassOf(enclosing) != "" then
      var attrs := Get(code.selfAttrs, ClassKey(enclosing.file, ClassOf(enclosing)), map[]);
      TypeAttempts(code, Get(attrs, c.chain[1], ""), c.name, c.file)
    else []
  }

  // Every place a call is looked for in, in order.  The artifacts have no say in it.
  function CallAttempts(code: Code, c: CallSite, enclosing: Artifact): seq<Attempt> {
    if c.name == "" then []
    else if c.receiver == "" then NamedAttempts(code, c.name, c.file)
    else if (c.receiver == "self" || c.receiver == "cls") && enclosing.kind == Method then
      if ClassOf(enclosing) == "" then [] else [ByClass(enclosing.file, ClassOf(enclosing), c.name)]
    else AttributeAttempts(code, c, enclosing) + ReceiverAttempts(code, c, enclosing)
  }

  function FirstHit<V>(keys: seq<FileKey>, probe: FileKey -> Option<V>): Option<V> {
    if keys == [] then None
    else if probe(keys[0]).Some? then probe(keys[0])
    else FirstHit(keys[1..], probe)
  }

  lemma {:induction false} FirstHitConcat<V>(a: seq<FileKey>, b: seq<FileKey>, probe: FileKey -> Option<V>)
    ensures FirstHit(a + b, probe) == if FirstHit(a, probe).Some? then FirstHit(a, probe) else FirstHit(b, probe)
  {
    if a == [] {
      assert a + b == b;
    } else {
      assert (a + b)[1..] == a[1..] + b;
      FirstHitConcat(a[1..], b, probe);
    }
  }

  lemma {:induction false} FilesAreTried<V>(files: seq<string>, name: string, probe: FileKey -> Option<V>)
    ensures FirstFile(files, name, probe) == FirstHit(FileKeys(files, name), probe)
  {
    if files != [] {
      assert FileKeys(files, name)[1..] == FileKeys(files[1..], name);
      FilesAreTried(files[1..], name, probe);
    }
  }

  lemma {:induction false} KeysAreTried<V>(keys: seq<Key>, lang: Language, probe: FileKey -> Option<V>)
    ensures FirstKey(keys, lang, probe) == FirstHit(KeysTried(keys, lang), probe)
  {
    if keys != [] {
      var files := FilesOfKey(keys[0], lang);
      FilesAreTried(files, keys[0].name, probe);
      KeysAreTried(keys[1..], lang, probe);
      FirstHitConcat(FileKeys(files, keys[0].name), KeysTried(keys[1..], lang), probe);
    }
  }

  lemma {:induction false} ImportsAreTried<V>(names: seq<FromName>, name: string, start: string -> Key,
      lang: Language, aliases: Aliases, probe: FileKey -> Option<V>)
    ensures FromImports(names, name, start, lang, aliases, probe)
         == FirstHit(ImportsTried(names, name, start, lang, aliases), probe)
  {
    if names != [] {
      ImportsAreTried(names[1..], name, start, lang, aliases, probe);
      KeysAreTried(Expansion(start(names[0].mod), aliases), lang, probe);
      FirstHitConcat(if names[0].name == name then Tried(start(names[0].mod), lang, aliases) else [],
                     ImportsTried(names[1..], name, start, lang, aliases), probe);
    }
  }

  lemma {:induction false} NamesAreListed(keys: seq<FileKey>, artifacts: seq<Artifact>)
    ensures FirstListed(ByNames(keys), artifacts) == FirstHit(keys, ListedIn(artifacts))
  {
    if keys != [] {
      var first := ByName(keys[0].file, keys[0].name);
      assert ByNames(keys) == [first] + ByNames(keys[1..]);
      FirstListedConcat([first], ByNames(keys[1..]), artifacts);
      FirstListedOfOne(first, artifacts);
      NamesAreListed(keys[1..], artifacts);
      assert FileKey(keys[0].file, keys[0].name) == keys[0];
    }
  }

  lemma {:induction false} ClassesAreListed(keys: seq<FileKey>, name: string, artifacts: seq<Artifact>)
    ensures FirstListed(ByClasses(keys, name), artifacts) == FirstHit(keys, MethodsNamed(artifacts, name))
  {
    if keys != [] {
      var first := ByClass(keys[0].file, keys[0].name, name);
      assert ByClasses(keys, name) == [first] + ByClasses(keys[1..], name);
      FirstListedConcat([first], ByClasses(keys[1..], name), artifacts);
      FirstListedOfOne(first, artifacts);
      ClassesAreListed(keys[1..], name, artifacts);
    }
  }

  lemma NamedIsFirstListed(code: Code, name: string, file: string)
    ensures NamedTarget(code, name, file) == FirstListed(NamedAttempts(code, name, file), code.artifacts)
  {
    var names, lang := ImportsOf(code.imports, file).fromNames, code.profile(file);
    var keys := ImportsTried(names, name, StartAt(name), lang, code.aliases);
    FirstListedConcat([ByName(file, name)], ByNames(keys), code.artifacts);
    FirstListedOfOne(ByName(file, name), code.artifacts);
    NamesAreListed(keys, code.artifacts);
    ImportsAreTried(names, name, StartAt(name), lang, code.aliases, ListedIn(code.artifacts));
  }

  lemma TypeIsFirstListed(code: Code, hint: string, c: CallSite)
    ensures ByHint(code, hint, c) == FirstListed(TypeAttempts(code, hint, c.name, c.file), code.artifacts)
  {
    if hint != "" {
      var names, lang := ImportsOf(code.imports, c.file).fromNames, code.profile(c.file);
      var keys, own := ImportsTried(names, hint, StartAt(hint), lang, code.aliases), ByClass(c.file, hint, c.name);
      FirstListedConcat([own], ByClasses(keys, c.name), code.artifacts);
      FirstListedOfOne(own, code.artifacts);
      ClassesAreListed(keys, c.name, code.artifacts);
      ImportsAreTried(names, hint, StartAt(hint), lang, code.aliases, MethodsNamed(code.artifacts, c.name));
    }
  }

  lemma ModuleIsFirstListed(code: Code, lang: Language, mod: string, name: string)
    ensures InModule(code, lang, mod, name) == FirstListed(ModuleAttempts(code, lang, mod, name), code.artifacts)
  {
    KeysAreTried(Expansion(Key(mod, name), code.aliases), lang, ListedIn(code.artifacts));
    NamesAreListed(Tried(Key(mod, name), lang, code.aliases), code.artifacts);
  }

  lemma SubmoduleIsFirstListed(code: Code, c: CallSite)
    ensures OnSubmodule(code, c) == FirstListed(SubmoduleAttempts(code, c), code.artifacts)
  {
    var names, head := ImportsOf(code.imports, c.file).fromNames, HeadPart(c.receiver);
    var start, lang := StartBelow(WithRest(head, RestPart(c.receiver)), c.name), code.profile(c.file);
    ImportsAreTried(names, head, start, lang, code.aliases, ListedIn(code.artifacts));
    NamesAreListed(ImportsTried(names, head, start, lang, code.aliases), code.artifacts);
  }

  lemma SingletonIsFirstListed(code: Code, c: CallSite)
    ensures OnSingleton(code, c) == FirstListed(SingletonAttempts(code, c), code.artifacts)
  {
    var bound := Singleton(code, HeadPart(c.receiver), c.file);
    if bound.Some? {
      var own := ByClass(bound.value.file, bound.value.typeName, c.name);
      BoundHasType(code, HeadPart(c.receiver), c.file);
      FirstListedConcat([own], TypeAttempts(code, bound.value.typeName, c.name, c.file), code.artifacts);
      FirstListedOfOne(own, code.artifacts);
      TypeIsFirstListed(code, bound.value.typeName, c);
    }
  }

  lemma BoundHasType(code: Code, head: string, file: string)
    ensures var bound := Singleton(code, head, file);
            bound.Some? ==> bound.value.typeName != ""
  {
    var names, lang, probe := ImportsOf(code.imports, file).fromNames, code.profile(file), Variables(code.moduleVars);
    FromImportsFinds(names, head, StartAt(head), lang, code.aliases, probe);
    var bound := Singleton(code, head, file);
    if bound.Some? {
      var n :| n in names && n.name == head && Probe(StartAt(head)(n.mod), lang, code.aliases, probe) == bound;
      var keys := Expansion(StartAt(head)(n.mod), code.aliases);
      FirstKeyIsFirst(keys, lang, probe);
      var i :| 0 <= i < |keys| && bound == FirstFile(FilesOfKey(keys[i], lang), keys[i].name, probe);
      FirstFileIsFirst(FilesOfKey(keys[i], lang), keys[i].name, probe);
    }
  }

  lemma OnReceiverIsFirstListed(code: Code, c: CallSite, enclosing: Artifact)
    ensures OnReceiver(code, c, enclosing) == FirstListed(ReceiverAttempts(code, c, enclosing), code.artifacts)
  {
    var lang, imports := code.profile(c.file), ImportsOf(code.imports, c.file);
    var head, rest := HeadPart(c.receiver), RestPart(c.receiver);
    var bare :=
      if FirstBare(imports.bare, c.receiver).Some? then ModuleAttempts(code, lang, c.receiver, c.name) else [];
    ModuleIsFirstListed(code, lang, c.receiver, c.name);
    if head in imports.renamed {
      var mod := WithRest(imports.renamed[head], rest);
      ModuleIsFirstListed(code, lang, mod, c.name);
      FirstListedConcat(bare, ModuleAttempts(code, lang, mod, c.name), code.artifacts);
    } else {
      var param := ParamHint(Get(code.params, enclosing.id, []), head);
      var variable := Get(code.moduleVars, FileKey(c.file, head), "");
      var byParam := TypeAttempts(code, param, c.name, c.file);
      var byVariable := TypeAttempts(code, variable, c.name, c.file);
      var last := SingletonAttempts(code, c);
      SubmoduleIsFirstListed(code, c);
      TypeIsFirstListed(code, param, c);
      TypeIsFirstListed(code, variable, c);
      SingletonIsFirstListed(code, c);
      FirstListedConcat(byVariable, last, code.artifacts);
      FirstListedConcat(byParam, byVariable + last, code.artifacts);
      FirstListedConcat(SubmoduleAttempts(code, c), byParam + (byVariable + last), code.artifacts);
      FirstListedConcat(bare, SubmoduleAttempts(code, c) + (byParam + (byVariable + last)), code.artifacts);
    }
  }

  // All the steps come down to this: the first place that has something decides.
  lemma CallTargetIsFirstListed(code: Code, c: CallSite, enclosing: Artifact)
    ensures CallTarget(code, c, enclosing) == FirstListed(CallAttempts(code, c, enclosing), code.artifacts)
  {
    if c.receiver == "" {
      NamedIsFirstListed(code, c.name, c.file);
    } else if (c.receiver == "self" || c.receiver == "cls") && enclosing.kind == Method {
      FirstListedOfOne(ByClass(enclosing.file, ClassOf(enclosing), c.name), code.artifacts);
    } else {
      AttributeIsFirstListed(code, c, enclosing);
      OnReceiverIsFirstListed(code, c, enclosing);
      FirstListedConcat(AttributeAttempts(code, c, enclosing), ReceiverAttempts(code, c, enclosing), code.artifacts);
    }
  }

  lemma AttributeIsFirstListed(code: Code, c: CallSite, enclosing: Artifact)
    ensures OnAttribute(code, c, enclosing) == FirstListed(AttributeAttempts(code, c, enclosing), code.artifacts)
  {
    if |c.chain| >= 2 {
      var attrs := Get(code.selfAttrs, ClassKey(enclosing.file, ClassOf(enclosing)), map[]);
      TypeIsFirstListed(code, Get(attrs, c.chain[1], ""), c);
    }
  }

  // A call is resolved exactly when some artifact answers at one of its places, and then to the artifact
  // listed last among those that answer at the first such place.
  lemma CallTargetIsFoundExactlyWhen(code: Code, c: CallSite, enclosing: Artifact)
    ensures var target, places := CallTarget(code, c, enclosing), CallAttempts(code, c, enclosing);
            && (target.Some? <==> exists a, t :: a in code.artifacts && t in places && Answers(a, t))
            && (target.Some? ==> exists i, j :: IsAnswer(places, code.artifacts, i, j)
                                                && code.artifacts[j] == target.value)
  {
    CallTargetIsFirstListed(code, c, enclosing);
    FoundExactlyWhen(CallAttempts(code, c, enclosing), code.artifacts);
  }

  /******* Every target is an input artifact *******/

  ghost predicate IsInput(code: Code, target: Option<Artifact>) {
    target.Some? ==> target.value in code.artifacts
  }

  lemma FirstListedIsInput(code: Code, places: seq<Attempt>)
    ensures IsInput(code, FirstListed(places, code.artifacts))
  {
    FirstListedIsFirst(places, code.artifacts);
    forall t ensures IsInput(code, Listing(code.artifacts, t)) {
      ListingIsLast(code.artifacts, t);
    }
  }

  lemma NamedTargetIsInput(code: Code, name: string, file: string)
    ensures IsInput(code, NamedTarget(code, name, file))
  {
    NamedIsFirstListed(code, name, file);
    FirstListedIsInput(code, NamedAttempts(code, name, file));
  }

  lemma CallTargetIsInput(code: Code, c: CallSite, enclosing: Artifact)
    ensures IsInput(code, CallTarget(code, c, enclosing))
  {
    CallTargetIsFirstListed(code, c, enclosing);
    FirstListedIsInput(code, CallAttempts(code, c, enclosing));
  }

  lemma {:induction false} AliasedAreInputs(code: Code, params: seq<Param>, file: string)
    ensures forall d :: d in AliasedBy(code, params, file) ==> IsInput(code, d.target)
  {
    if params != [] {
      var last := params[|params| - 1];
      AliasedAreInputs(code, params[..|params| - 1], file);
      var deps := if last.hint == "" then None else DepsBehind(code, last.hint, file);
      if deps.Some? {
        forall d | d in DepsOf(code, deps.value.names, deps.value.file, last.hint) ensures IsInput(code, d.target) {
          var i :| 0 <= i < |deps.value.names|
                   && DepsOf(code, deps.value.names, deps.value.file, last.hint)[i] == d;
          NamedTargetIsInput(code, deps.value.names[i], deps.value.file);
        }
      }
    }
  }

  lemma TargetsAreInputs(code: Code)
    ensures ResolvesInto(ResolverOf(code), code.artifacts)
  {
    var r := ResolverOf(code);
    forall c, e ensures IsInput(code, r.named(c, e)) {
      CallTargetIsInput(code, c, e);
    }
    forall c: CallSite ensures IsInput(code, r.injected(c)) {
      if |c.firstArg| > |NAME_MARK| {
        NamedTargetIsInput(code, c.firstArg[|NAME_MARK|..|c.firstArg| - 1], c.file);
      }
      NamedTargetIsInput(code, "", c.file);
    }
    forall a, d | d in r.aliased(a) ensures IsInput(code, d.target) {
      AliasedAreInputs(code, Get(code.params, a.id, []), a.file);
    }
  }

  // The edges drawn for a repository, with nothing assumed: every wanted pair but self-loops, once, and
  // both ends are input artifacts.
  lemma EdgesOfCodeAreExact(code: Code, calls: seq<CallSite>)
    ensures var edges := Edges(code.artifacts, ResolverOf(code), calls);
            && Proper(edges)
            && (forall e :: e in edges ==>
                  && e.caller in Ids(code.artifacts) && e.callee in Ids(code.artifacts)
                  && HasReason(code.artifacts, ResolverOf(code), calls, e))
            && forall a, b :: Linked(edges, a, b)
                 <==> a != b && Wanted(code.artifacts, ResolverOf(code), calls, a, b)
  {
    TargetsAreInputs(code);
    EdgesAreExact(code.artifacts, ResolverOf(code), calls);
  }
}
