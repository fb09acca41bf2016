/**
  What a call refers to, as rules over the records alone.

  The steps of the resolver are told here by what they look for and in which order, not by how they look; a
  call has exactly the target that the rules give it.
*/
module CallRules {
  import opened Wrappers
  import opened AliasExpansion
  import opened NameResolution
  import opened Artifacts
  import opened Text
  import opened CallEdges
  import opened Attempts
  import opened CallTargets
  import opened CallPlaces
  import opened Sorting

  /******* Definitions *******/

  // The artifact listed last under the name in the file.
  ghost predicate Defines(artifacts: seq<Artifact>, file: string, name: string, a: Artifact) {
    exists i ::
      && 0 <= i < |artifacts| && artifacts[i] == a && a.file == file && a.name == name
      && forall j :: i < j < |artifacts| ==> !(artifacts[j].file == file && artifacts[j].name == name)
  }

  // The last part of the method's id is `className.` and anything.
  ghost predicate InClass(a: Artifact, className: string) {
    && a.kind == Method && className != "" && '.' !in className && ':' !in className
    && exists before, rest :: IdParts(a.id, before, className, rest)
  }

  predicate IdParts(id: string, before: string, className: string, rest: string) {
    && id == before + className + "." + rest && ':' !in rest
    && (before == "" || before[|before| - 1] == ':')
  }

  ghost predicate IsMethodOf(a: Artifact, file: string, className: string, name: string) {
    a.file == file && a.name == name && InClass(a, className)
  }

  // The method listed last under the name in the class in the file.
  ghost predicate DefinesMethod(artifacts: seq<Artifact>, file: string, className: string, name: string, a: Artifact) {
    exists i ::
      && 0 <= i < |artifacts| && artifacts[i] == a && IsMethodOf(a, file, className, name)
      && forall j :: i < j < |artifacts| ==> !IsMethodOf(artifacts[j], file, className, name)
  }

  lemma ListedIsExact(artifacts: seq<Artifact>, file: string, name: string, a: Artifact)
    ensures Listed(artifacts, FileKey(file, name)) == Some(a) <==> Defines(artifacts, file, name, a)
  {
    ListingIsLast(artifacts, ByName(file, name));
    if Defines(artifacts, file, name, a) {
      var i :| && 0 <= i < |artifacts| && artifacts[i] == a && a.file == file && a.name == name
               && forall j :: i < j < |artifacts| ==> !(artifacts[j].file == file && artifacts[j].name == name);
      assert artifacts[i] in artifacts && Answers(a, ByName(file, name));
      assert forall j :: i < j < |artifacts| ==> !Answers(artifacts[j], ByName(file, name));
    }
  }

  lemma ClassIsExact(a: Artifact, className: string)
    requires className != ""
    ensures ClassOf(a) == className <==> InClass(a, className)
  {
    if a.kind == Method {
      if ClassOf(a) == className {
        IdHasParts(a, className);
      }
      if InClass(a, className) {
        var before, rest :| IdParts(a.id, before, className, rest);
        PartsGiveClass(a, before, className, rest);
      }
    }
  }

  lemma IdHasParts(a: Artifact, className: string)
    requires a.kind == Method && className != "" && ClassOf(a) == className
    ensures InClass(a, className)
  {
    MethodsHaveClassNames(a);
    var before, last := LastPart(a.id, ':');
    var rest := FirstPart(last, '.');
    PartsOfId(a.id, before, last, className, rest);
  }

  lemma PartsOfId(id: string, before: string, last: string, className: string, rest: string)
    requires id == before + last && ':' !in last && (before == "" || before[|before| - 1] == ':')
    requires last == className + ['.'] + rest
    ensures IdParts(id, before, className, rest)
  {
    assert forall c :: c in rest ==> c in last;
    assert before + (className + ['.'] + rest) == before + className + "." + rest;
  }

  lemma PartsGiveClass(a: Artifact, before: string, className: string, rest: string)
    requires a.kind == Method && className != "" && '.' !in className && ':' !in className
    requires IdParts(a.id, before, className, rest)
    ensures ClassOf(a) == className
  {
    var last := className + ['.'] + rest;
    assert a.id == before + last;
    SplitLast(before, last, ':');
    SplitFirst(className, rest, '.');
    assert last[|className|] == '.';
  }

  lemma MethodIsExact(artifacts: seq<Artifact>, file: string, className: string, name: string, a: Artifact)
    ensures ListedMethod(artifacts, MethodKey(file, className, name)) == Some(a)
       <==> DefinesMethod(artifacts, file, className, name, a)
  {
    var t := ByClass(file, className, name);
    ListingIsLast(artifacts, t);
    forall b ensures Answers(b, t) <==> IsMethodOf(b, file, className, name) {
      if className != "" {
        ClassIsExact(b, className);
      }
    }
    if DefinesMethod(artifacts, file, className, name, a) {
      var i :| && 0 <= i < |artifacts| && artifacts[i] == a && IsMethodOf(a, file, className, name)
               && forall j :: i < j < |artifacts| ==> !IsMethodOf(artifacts[j], file, className, name);
      assert artifacts[i] in artifacts;
    }
  }

  /******* Imports *******/

  ghost predicate ImportsName(facts: seq<Import>, file: string, mod: string, name: string) {
    name != "" && exists f :: f in facts && f.file == file && f.mod == mod && name in f.names
  }

  ghost predicate ImportsBare(facts: seq<Import>, file: string, mod: string) {
    exists f :: f in facts && f.file == file && f.mod == mod && f.names == [] && f.alias == ""
  }

  // `head` is what stands before the first dot of a dotted name.
  ghost predicate IsHead(dotted: string, head: string) {
    '.' !in head && (dotted == head || exists rest :: dotted == head + "." + rest)
  }

  // The last `import target as name` of the file.
  ghost predicate LastAlias(facts: seq<Import>, file: string, name: string, target: string) {
    exists i ::
      && 0 <= i < |facts| && IsAlias(facts[i], file, name) && facts[i].mod == target
      && forall j :: i < j < |facts| ==> !IsAlias(facts[j], file, name)
  }

  predicate IsAlias(f: Import, file: string, name: string) {
    f.file == file && f.names == [] && f.alias == name && name != ""
  }

  // What a name stands for: what it was last made an alias of; failing that, itself if it heads a bare import.
  ghost predicate StandsFor(facts: seq<Import>, file: string, name: string, target: string) {
    || LastAlias(facts, file, name, target)
    || (target == name && HeadsBare(facts, file, name) && forall f :: f in facts ==> !IsAlias(f, file, name))
  }

  ghost predicate HeadsBare(facts: seq<Import>, file: string, name: string) {
    exists mod :: ImportsBare(facts, file, mod) && IsHead(mod, name)
  }

  lemma {:induction false} NamedIsExact(mod: string, names: seq<string>, n: FromName)
    ensures n in Named(mod, names) <==> n.mod == mod && n.name in names && n.name != ""
  {
    if names != [] {
      NamedIsExact(mod, names[..|names| - 1], n);
      assert names == names[..|names| - 1] + [names[|names| - 1]];
    }
  }

  // The names a file imports, each with its module.
  lemma {:induction false} FromNamesAreExact(facts: seq<Import>, file: string, n: FromName)
    ensures n in FromNamesOf(facts, file) <==> ImportsName(facts, file, n.mod, n.name)
  {
    if facts != [] {
      var init, last := facts[..|facts| - 1], facts[|facts| - 1];
      FromNamesAreExact(init, file, n);
      NamedIsExact(last.mod, last.names, n);
      assert forall f :: f in facts <==> f in init || f == last;
    }
  }

  // They stand in the order of the imports, and within one import in its own.
  lemma {:induction false} FromNamesConcat(a: seq<Import>, b: seq<Import>, file: string)
    ensures FromNamesOf(a + b, file) == FromNamesOf(a, file) + FromNamesOf(b, file)
  {
    if b == [] {
      assert a + b == a;
    } else {
      assert (a + b)[..|a + b| - 1] == a + b[..|b| - 1];
      FromNamesConcat(a, b[..|b| - 1], file);
    }
  }

  lemma {:induction false} NamedConcat(mod: string, a: seq<string>, b: seq<string>)
    ensures Named(mod, a + b) == Named(mod, a) + Named(mod, b)
  {
    if b == [] {
      assert a + b == a;
    } else {
      assert (a + b)[..|a + b| - 1] == a + b[..|b| - 1];
      NamedConcat(mod, a, b[..|b| - 1]);
    }
  }

  lemma {:induction false} BareIsExact(facts: seq<Import>, file: string, mod: string)
    ensures mod in BareIn(facts, file) <==> ImportsBare(facts, file, mod)
  {
    if facts != [] {
      var init, last := facts[..|facts| - 1], facts[|facts| - 1];
      BareIsExact(init, file, mod);
      assert forall f :: f in facts <==> f in init || f == last;
    }
  }

  lemma HeadIsExact(dotted: string, head: string)
    ensures HeadOf(dotted) == head <==> IsHead(dotted, head)
  {
    if HeadOf(dotted) == head {
      PartsAreFree(dotted, '.');
      assert head in Split(dotted, '.');
      if '.' in dotted {
        var rest := FirstPart(dotted, '.');
        assert dotted == head + "." + rest;
      } else {
        SplitWithout(dotted, '.');
      }
    }
    if IsHead(dotted, head) {
      if dotted == head {
        SplitWithout(dotted, '.');
      } else {
        var rest :| dotted == head + "." + rest;
        SplitFirst(head, rest, '.');
        assert dotted == head + ['.'] + rest;
      }
    }
  }

  // The table of names holds exactly what each name stands for.
  lemma {:induction false} RenamedIsExact(facts: seq<Import>, file: string, name: string, target: string)
    ensures name in RenamedIn(facts, file) && RenamedIn(facts, file)[name] == target
       <==> StandsFor(facts, file, name, target)
  {
    if facts != [] {
      var init, last := facts[..|facts| - 1], facts[|facts| - 1];
      RenamedIsExact(init, file, name, target);
      RenamedIsExact(init, file, name, name);
      RenamedHasAliases(init, file, name);
      StandsForSnoc(init, last, file, name, target);
      assert facts == init + [last];
      HeadIsExact(last.mod, name);
    }
  }

  // Without an entry, the name is no alias and heads no bare import.
  lemma {:induction false} RenamedHasAliases(facts: seq<Import>, file: string, name: string)
    ensures name in RenamedIn(facts, file)
       <==> (exists f :: f in facts && IsAlias(f, file, name)) || HeadsBare(facts, file, name)
  {
    if facts != [] {
      var init, last := facts[..|facts| - 1], facts[|facts| - 1];
      assert forall f :: f in facts <==> f in init || f == last;
      RenamedHasAliases(init, file, name);
      HeadsBareSnoc(init, last, file, name);
      assert facts == init + [last];
      HeadIsExact(last.mod, name);
      assert (exists f :: f in facts && IsAlias(f, file, name))
        <==> (exists f :: f in init && IsAlias(f, file, name)) || IsAlias(last, file, name);
      var before := RenamedIn(init, file);
      assert RenamedIn(facts, file) == if last.file == file then Rename(before, last) else before;
    }
  }

  lemma HeadsBareSnoc(init: seq<Import>, last: Import, file: string, name: string)
    ensures HeadsBare(init + [last], file, name)
       <==> HeadsBare(init, file, name)
            || (last.file == file && last.names == [] && last.alias == "" && IsHead(last.mod, name))
  {
    assert forall f :: f in init + [last] <==> f in init || f == last;
    if mod :| ImportsBare(init, file, mod) && IsHead(mod, name) {
      assert ImportsBare(init + [last], file, mod);
    }
    if last.file == file && last.names == [] && last.alias == "" && IsHead(last.mod, name) {
      assert ImportsBare(init + [last], file, last.mod);
    }
    if mod :| ImportsBare(init + [last], file, mod) && IsHead(mod, name) {
      var f :| f in init + [last] && f.file == file && f.mod == mod && f.names == [] && f.alias == "";
      assert f in init ==> ImportsBare(init, file, mod);
    }
  }

  lemma StandsForSnoc(init: seq<Import>, last: Import, file: string, name: string, target: string)
    ensures StandsFor(init + [last], file, name, target)
       <==> if IsAlias(last, file, name) then target == last.mod
            else StandsFor(init, file, name, target)
                 || (target == name && last.file == file && last.names == [] && last.alias == ""
                     && IsHead(last.mod, name) && forall f :: f in init ==> !IsAlias(f, file, name))
  {
    var all := init + [last];
    assert forall f :: f in all <==> f in init || f == last;
    HeadsBareSnoc(init, last, file, name);
    LastAliasSnoc(init, last, file, name, target);
  }

  lemma LastAliasSnoc(init: seq<Import>, last: Import, file: string, name: string, target: string)
    ensures LastAlias(init + [last], file, name, target)
       <==> if IsAlias(last, file, name) then target == last.mod else LastAlias(init, file, name, target)
  {
    var all := init + [last];
    if IsAlias(last, file, name) {
      assert all[|init|] == last;
    } else {
      if i :| && 0 <= i < |init| && IsAlias(init[i], file, name) && init[i].mod == target
              && forall j :: i < j < |init| ==> !IsAlias(init[j], file, name) {
        assert all[i] == init[i];
      }
      if i :| && 0 <= i < |all| && IsAlias(all[i], file, name) && all[i].mod == target
              && forall j :: i < j < |all| ==> !IsAlias(all[j], file, name) {
        assert i < |init|;
        forall j | i < j < |init| ensures !IsAlias(init[j], file, name) {
          assert all[j] == init[j];
        }
      }
    }
  }

  /******* What an import leads to *******/

  // What a table says of a name in a file.
  type Says<!V> = (FileKey, V) -> bool

  ghost function DefinedIn(artifacts: seq<Artifact>): Says<Artifact> {
    (key: FileKey, a: Artifact) => Defines(artifacts, key.file, key.name, a)
  }

  // The name is that of a class, and it has this method.
  ghost function WithMethod(artifacts: seq<Artifact>, name: string): Says<Artifact> {
    (key: FileKey, a: Artifact) => DefinesMethod(artifacts, key.file, key.name, name, a)
  }

  ghost function BoundIn(moduleVars: map<FileKey, string>): Says<Bound> {
    (key: FileKey, b: Bound) =>
      key in moduleVars && moduleVars[key] != "" && b.file == key.file && b.typeName == moduleVars[key]
  }

  ghost function DepsIn(aliasDeps: map<FileKey, seq<string>>): Says<DepList> {
    (key: FileKey, d: DepList) =>
      key in aliasDeps && aliasDeps[key] != [] && d.file == key.file && d.names == aliasDeps[key]
  }

  ghost predicate Silent<V(!new)>(says: Says<V>, key: FileKey) {
    forall v :: !says(key, v)
  }

  // The first candidate file of the pair about which the table says something.
  ghost predicate SaysFirst<V(!new)>(says: Says<V>, key: Key, lang: Language, v: V) {
    var files := FilesOfKey(key, lang);
    exists k ::
      && 0 <= k < |files| && says(FileKey(files[k], key.name), v)
      && forall j :: 0 <= j < k ==> Silent(says, FileKey(files[j], key.name))
  }

  ghost predicate SilentOn<V(!new)>(says: Says<V>, key: Key, lang: Language) {
    forall file :: file in FilesOfKey(key, lang) ==> Silent(says, FileKey(file, key.name))
  }

  // The first of the pair's re-exports about which the table says something.
  ghost predicate LeadsTo<V(!new)>(says: Says<V>, start: Key, lang: Language, aliases: Aliases, v: V) {
    var keys := Expansion(start, aliases);
    exists i ::
      && 0 <= i < |keys| && SaysFirst(says, keys[i], lang, v)
      && forall j :: 0 <= j < i ==> SilentOn(says, keys[j], lang)
  }

  // The k-th import is the first of the name that leads to anything.
  ghost predicate FirstImport<V(!new)>(says: Says<V>, names: seq<FromName>, lang: Language, aliases: Aliases,
      name: string, suffix: string, sought: string, k: int, v: V) {
    && 0 <= k < |names| && names[k].name == name
    && LeadsTo(says, Key(names[k].mod + suffix, sought), lang, aliases, v)
    && forall j, u :: 0 <= j < k && names[j].name == name ==>
         !LeadsTo(says, Key(names[j].mod + suffix, sought), lang, aliases, u)
  }

  // The first import of the name in the file that leads to anything; what is looked for is `sought` in the
  // imported module, or in the submodule `suffix` of it.
  ghost predicate ImportLeadsTo<V(!new)>(says: Says<V>, code: Code, file: string, name: string, suffix: string,
      sought: string, v: V) {
    exists k :: FirstImport(says, FromNamesOf(code.imports, file), code.profile(file), code.aliases, name, suffix,
                            sought, k, v)
  }

  // A table that is looked up by a partial function.
  ghost predicate Tells<V(!new)>(probe: FileKey -> Option<V>, says: Says<V>) {
    forall key, v :: probe(key) == Some(v) <==> says(key, v)
  }

  lemma TablesTell(code: Code, name: string)
    ensures Tells(ListedIn(code.artifacts), DefinedIn(code.artifacts))
    ensures Tells(MethodsNamed(code.artifacts, name), WithMethod(code.artifacts, name))
    ensures Tells(Variables(code.moduleVars), BoundIn(code.moduleVars))
    ensures Tells(DepLists(code.aliasDeps), DepsIn(code.aliasDeps))
  {
    forall key: FileKey, a
      ensures ListedIn(code.artifacts)(key) == Some(a) <==> DefinedIn(code.artifacts)(key, a)
      ensures MethodsNamed(code.artifacts, name)(key) == Some(a) <==> WithMethod(code.artifacts, name)(key, a)
    {
      assert FileKey(key.file, key.name) == key;
      ListedIsExact(code.artifacts, key.file, key.name, a);
      MethodIsExact(code.artifacts, key.file, key.name, name, a);
    }
  }

  lemma ProbedFirst<V(!new)>(probe: FileKey -> Option<V>, says: Says<V>, key: Key, lang: Language, v: V)
    requires Tells(probe, says)
    ensures FirstFile(FilesOfKey(key, lang), key.name, probe) == Some(v) <==> SaysFirst(says, key, lang, v)
    ensures HasEntry(key, lang, probe) <==> !SilentOn(says, key, lang)
  {
    var files := FilesOfKey(key, lang);
    FirstFileIsFirst(files, key.name, probe);
    forall k: FileKey ensures probe(k).None? <==> Silent(says, k) {
      if probe(k).Some? {
        assert says(k, probe(k).value);
      }
    }
    if SaysFirst(says, key, lang, v) {
      var k :| && 0 <= k < |files| && says(FileKey(files[k], key.name), v)
               && forall j :: 0 <= j < k ==> Silent(says, FileKey(files[j], key.name));
      assert probe(FileKey(files[k], key.name)) == Some(v);
    }
  }

  lemma ProbeLeads<V(!new)>(probe: FileKey -> Option<V>, says: Says<V>, start: Key, lang: Language, aliases: Aliases,
      v: V)
    requires Tells(probe, says)
    ensures Probe(start, lang, aliases, probe) == Some(v) <==> LeadsTo(says, start, lang, aliases, v)
  {
    var keys := Expansion(start, aliases);
    FirstKeyIsFirst(keys, lang, probe);
    forall key ensures HasEntry(key, lang, probe) <==> !SilentOn(says, key, lang)
      ensures FirstFile(FilesOfKey(key, lang), key.name, probe) == Some(v) <==> SaysFirst(says, key, lang, v) {
      ProbedFirst(probe, says, key, lang, v);
      FirstFileHasEntry(key, lang, probe);
    }
    if LeadsTo(says, start, lang, aliases, v) {
      var i :| && 0 <= i < |keys| && SaysFirst(says, keys[i], lang, v)
               && forall j :: 0 <= j < i ==> SilentOn(says, keys[j], lang);
      FirstFileHasEntry(keys[i], lang, probe);
      OnlyFirstKey(keys, lang, probe, i);
    }
  }

  lemma {:induction false} OnlyFirstKey<V>(keys: seq<Key>, lang: Language, probe: FileKey -> Option<V>, i: nat)
    requires i < |keys| && HasEntry(keys[i], lang, probe) && forall j :: 0 <= j < i ==> !HasEntry(keys[j], lang, probe)
    ensures FirstKey(keys, lang, probe) == FirstFile(FilesOfKey(keys[i], lang), keys[i].name, probe)
  {
    FirstFileHasEntry(keys[0], lang, probe);
    if i > 0 {
      OnlyFirstKey(keys[1..], lang, probe, i - 1);
    }
  }

  lemma {:induction false} ImportsLead<V(!new)>(probe: FileKey -> Option<V>, says: Says<V>, names: seq<FromName>,
      lang: Language, aliases: Aliases, name: string, suffix: string, sought: string, start: string -> Key, v: V)
    requires Tells(probe, says) && forall mod :: start(mod) == Key(mod + suffix, sought)
    ensures FromImports(names, name, start, lang, aliases, probe) == Some(v)
       <==> exists k :: FirstImport(says, names, lang, aliases, name, suffix, sought, k, v)
  {
    if names != [] {
      var tail, first := names[1..], Key(names[0].mod + suffix, sought);
      ImportsLead(probe, says, tail, lang, aliases, name, suffix, sought, start, v);
      forall u ensures Probe(first, lang, aliases, probe) == Some(u) <==> LeadsTo(says, first, lang, aliases, u) {
        ProbeLeads(probe, says, first, lang, aliases, u);
      }
      var hit := Probe(first, lang, aliases, probe);
      if names[0].name == name && hit.Some? {
        FirstImportDecides(says, names, lang, aliases, name, suffix, sought, hit.value);
        assert FirstImport(says, names, lang, aliases, name, suffix, sought, 0, hit.value);
      } else {
        FirstImportPasses(says, names, lang, aliases, name, suffix, sought, v);
      }
    }
  }

  lemma FirstImportDecides<V(!new)>(says: Says<V>, names: seq<FromName>, lang: Language, aliases: Aliases,
      name: string, suffix: string, sought: string, v: V)
    requires names != [] && names[0].name == name
    requires forall u :: LeadsTo(says, Key(names[0].mod + suffix, sought), lang, aliases, u) <==> u == v
    ensures forall k, u :: FirstImport(says, names, lang, aliases, name, suffix, sought, k, u) <==> k == 0 && u == v
  {
    assert LeadsTo(says, Key(names[0].mod + suffix, sought), lang, aliases, v);
  }

  lemma FirstImportPasses<V(!new)>(says: Says<V>, names: seq<FromName>, lang: Language, aliases: Aliases,
      name: string, suffix: string, sought: string, v: V)
    requires names != []
    requires names[0].name == name ==>
               forall u :: !LeadsTo(says, Key(names[0].mod + suffix, sought), lang, aliases, u)
    ensures (exists k :: FirstImport(says, names, lang, aliases, name, suffix, sought, k, v))
       <==> exists k :: FirstImport(says, names[1..], lang, aliases, name, suffix, sought, k, v)
  {
    if k :| FirstImport(says, names, lang, aliases, name, suffix, sought, k, v) {
      forall j, u | 0 <= j < k - 1 && names[1..][j].name == name
        ensures !LeadsTo(says, Key(names[1..][j].mod + suffix, sought), lang, aliases, u) {
        assert names[1..][j] == names[j + 1];
      }
      assert FirstImport(says, names[1..], lang, aliases, name, suffix, sought, k - 1, v);
    }
    if k :| FirstImport(says, names[1..], lang, aliases, name, suffix, sought, k, v) {
      forall j, u | 0 <= j < k + 1 && names[j].name == name
        ensures !LeadsTo(says, Key(names[j].mod + suffix, sought), lang, aliases, u) {
        assert j > 0 ==> names[1..][j - 1] == names[j];
      }
      assert FirstImport(says, names, lang, aliases, name, suffix, sought, k + 1, v);
    }
  }

  lemma ImportsOfFileLead<V(!new)>(probe: FileKey -> Option<V>, says: Says<V>, code: Code, file: string, name: string,
      suffix: string, sought: string, start: string -> Key, v: V)
    requires Tells(probe, says) && forall mod :: start(mod) == Key(mod + suffix, sought)
    ensures FromImports(ImportsOf(code.imports, file).fromNames, name, start, code.profile(file), code.aliases, probe)
              == Some(v)
       <==> ImportLeadsTo(says, code, file, name, suffix, sought, v)
  {
    var names := FromNamesOf(code.imports, file);
    ImportsLead(probe, says, names, code.profile(file), code.aliases, name, suffix, sought, start, v);
  }

  /******* The rules *******/

  // A bare name means what the file defines, failing that what the first import of it leads to.
  ghost predicate NameMeans(code: Code, name: string, file: string, a: Artifact) {
    || Defines(code.artifacts, file, name, a)
    || ((forall b :: !Defines(code.artifacts, file, name, b))
        && ImportLeadsTo(DefinedIn(code.artifacts), code, file, name, "", name, a))
  }

  // A method of a type: that of the class in the file, failing that of the class the first import leads to.
  ghost predicate TypeMeans(code: Code, typeName: string, name: string, file: string, a: Artifact) {
    && typeName != ""
    && (|| DefinesMethod(code.artifacts, file, typeName, name, a)
        || ((forall b :: !DefinesMethod(code.artifacts, file, typeName, name, b))
            && ImportLeadsTo(WithMethod(code.artifacts, name), code, file, typeName, "", typeName, a)))
  }

  ghost predicate ModuleMeans(code: Code, mod: string, name: string, file: string, a: Artifact) {
    LeadsTo(DefinedIn(code.artifacts), Key(mod, name), code.profile(file), code.aliases, a)
  }

  lemma NameIsExact(code: Code, name: string, file: string, a: Artifact)
    ensures NamedTarget(code, name, file) == Some(a) <==> NameMeans(code, name, file, a)
  {
    var own := Listed(code.artifacts, FileKey(file, name));
    forall b ensures own == Some(b) <==> Defines(code.artifacts, file, name, b) {
      ListedIsExact(code.artifacts, file, name, b);
    }
    TablesTell(code, name);
    assert forall mod: string :: mod + "" == mod;
    ImportsOfFileLead(ListedIn(code.artifacts), DefinedIn(code.artifacts), code, file, name, "", name, StartAt(name),
                      a);
    if own.Some? {
      assert Defines(code.artifacts, file, name, own.value);
    }
  }

  lemma TypeIsExact(code: Code, hint: string, c: CallSite, a: Artifact)
    ensures ByHint(code, hint, c) == Some(a) <==> TypeMeans(code, hint, c.name, c.file, a)
  {
    var own := ListedMethod(code.artifacts, MethodKey(c.file, hint, c.name));
    forall b ensures own == Some(b) <==> DefinesMethod(code.artifacts, c.file, hint, c.name, b) {
      MethodIsExact(code.artifacts, c.file, hint, c.name, b);
    }
    TablesTell(code, c.name);
    assert forall mod: string :: mod + "" == mod;
    ImportsOfFileLead(MethodsNamed(code.artifacts, c.name), WithMethod(code.artifacts, c.name), code, c.file, hint, "",
                      hint, StartAt(hint), a);
    if own.Some? {
      assert DefinesMethod(code.artifacts, c.file, hint, c.name, own.value);
    }
  }

  lemma ModuleIsExact(code: Code, mod: string, name: string, file: string, a: Artifact)
    ensures InModule(code, code.profile(file), mod, name) == Some(a) <==> ModuleMeans(code, mod, name, file, a)
  {
    TablesTell(code, name);
    ProbeLeads(ListedIn(code.artifacts), DefinedIn(code.artifacts), Key(mod, name), code.profile(file), code.aliases,
               a);
  }

  /******* Calls on a receiver *******/

  // The receiver before and behind its first dot.
  ghost predicate Divides(receiver: string, head: string, rest: string) {
    '.' !in head && (receiver == head + "." + rest || (receiver == head && rest == ""))
  }

  // Without a dot that nothing follows.
  function Dotted(head: string, rest: string): string {
    if rest == "" then head else head + "." + rest
  }

  // The first parameter of the name has this type.
  ghost predicate HasHint(params: seq<Param>, name: string, hint: string) {
    exists i :: && 0 <= i < |params| && params[i].name == name && params[i].hint == hint
                && forall j :: 0 <= j < i ==> params[j].name != name
  }

  // `self.attr.m()`: by the type of the attribute in the class around the call.
  ghost predicate AttributeMeans(code: Code, c: CallSite, enclosing: Artifact, a: Artifact) {
    exists className ::
      && InClass(enclosing, className) && |c.chain| >= 2 && c.chain[0] == "self"
      && var class_ := ClassKey(enclosing.file, className);
         && class_ in code.selfAttrs && c.chain[1] in code.selfAttrs[class_]
         && TypeMeans(code, code.selfAttrs[class_][c.chain[1]], c.name, c.file, a)
  }

  // The receiver is a bare import, or below one.
  ghost predicate BareMeans(code: Code, c: CallSite, a: Artifact) {
    && (exists mod :: ImportsBare(code.imports, c.file, mod) && (c.receiver == mod || (mod + ".") <= c.receiver))
    && ModuleMeans(code, c.receiver, c.name, c.file, a)
  }

  ghost predicate AliasMeans(code: Code, c: CallSite, head: string, rest: string, a: Artifact) {
    exists target :: StandsFor(code.imports, c.file, head, target)
                     && ModuleMeans(code, Dotted(target, rest), c.name, c.file, a)
  }

  // `from mod import head; head.rest.m()`, when it is a submodule.
  ghost predicate SubmoduleMeans(code: Code, c: CallSite, head: string, rest: string, a: Artifact) {
    ImportLeadsTo(DefinedIn(code.artifacts), code, c.file, head, "." + Dotted(head, rest), c.name, a)
  }

  ghost predicate ParameterMeans(code: Code, c: CallSite, enclosing: Artifact, head: string, a: Artifact) {
    && enclosing.id in code.params
    && exists hint :: HasHint(code.params[enclosing.id], head, hint) && TypeMeans(code, hint, c.name, c.file, a)
  }

  ghost predicate VariableMeans(code: Code, c: CallSite, head: string, a: Artifact) {
    && FileKey(c.file, head) in code.moduleVars
    && TypeMeans(code, code.moduleVars[FileKey(c.file, head)], c.name, c.file, a)
  }

  // A variable of another module: its class there, failing that its type as this file sees it.
  ghost predicate SingletonMeans(code: Code, c: CallSite, head: string, a: Artifact) {
    exists b ::
      && ImportLeadsTo(BoundIn(code.moduleVars), code, c.file, head, "", head, b)
      && (|| DefinesMethod(code.artifacts, b.file, b.typeName, c.name, a)
          || ((forall x :: !DefinesMethod(code.artifacts, b.file, b.typeName, c.name, x))
              && TypeMeans(code, b.typeName, c.name, c.file, a)))
  }

  // The steps, in their order.
  ghost predicate StepMeans(k: int, code: Code, c: CallSite, enclosing: Artifact, head: string, rest: string,
      a: Artifact) {
    || (k == 0 && AttributeMeans(code, c, enclosing, a))
    || (k == 1 && BareMeans(code, c, a))
    || (k == 2 && AliasMeans(code, c, head, rest, a))
    || (k == 3 && SubmoduleMeans(code, c, head, rest, a))
    || (k == 4 && ParameterMeans(code, c, enclosing, head, a))
    || (k == 5 && VariableMeans(code, c, head, a))
    || (k == 6 && SingletonMeans(code, c, head, a))
  }

  // A step ends the search when it finds something; a name that stands for a module ends it in any case.
  ghost predicate StepEnds(k: int, code: Code, c: CallSite, enclosing: Artifact, head: string, rest: string) {
    || (exists a :: StepMeans(k, code, c, enclosing, head, rest, a))
    || (k == 2 && exists target :: StandsFor(code.imports, c.file, head, target))
  }

  ghost predicate ReceiverMeans(code: Code, c: CallSite, enclosing: Artifact, head: string, rest: string, a: Artifact) {
    exists k :: StepMeans(k, code, c, enclosing, head, rest, a)
                && forall j :: 0 <= j < k ==> !StepEnds(j, code, c, enclosing, head, rest)
  }

  // What a call means, seen from the artifact around it.
  ghost predicate CallMeans(code: Code, c: CallSite, enclosing: Artifact, a: Artifact) {
    c.name != "" &&
    if c.receiver == "" then NameMeans(code, c.name, c.file, a)
    else if c.receiver in {"self", "cls"} && enclosing.kind == Method then
      exists className ::
        InClass(enclosing, className) && DefinesMethod(code.artifacts, enclosing.file, className, c.name, a)
    else
      exists head, rest :: Divides(c.receiver, head, rest) && ReceiverMeans(code, c, enclosing, head, rest, a)
  }

  lemma {:induction false} HintIsExact(params: seq<Param>, name: string)
    ensures ParamHint(params, name) != "" ==> HasHint(params, name, ParamHint(params, name))
    ensures forall hint :: HasHint(params, name, hint) ==> ParamHint(params, name) == hint
    ensures (exists p :: p in params && p.name == name) <==> exists hint :: HasHint(params, name, hint)
  {
    if params != [] {
      var tail := params[1..];
      HintIsExact(tail, name);
      assert params == [params[0]] + tail;
      if params[0].name == name {
        assert HasHint(params, name, params[0].hint);
      } else {
        forall hint ensures HasHint(params, name, hint) <==> HasHint(tail, name, hint) {
          HintBehind(params, name, hint);
        }
      }
    }
  }

  lemma HintBehind(params: seq<Param>, name: string, hint: string)
    requires params != [] && params[0].name != name
    ensures HasHint(params, name, hint) <==> HasHint(params[1..], name, hint)
  {
    var tail := params[1..];
    if i :| 0 <= i < |tail| && tail[i].name == name && tail[i].hint == hint
            && forall j :: 0 <= j < i ==> tail[j].name != name {
      assert params[i + 1] == tail[i];
      forall j | 0 <= j < i + 1 ensures params[j].name != name {
        assert j > 0 ==> tail[j - 1] == params[j];
      }
    }
    if i :| 0 <= i < |params| && params[i].name == name && params[i].hint == hint
            && forall j :: 0 <= j < i ==> params[j].name != name {
      assert tail[i - 1] == params[i];
      forall j | 0 <= j < i - 1 ensures tail[j].name != name {
        assert params[j + 1] == tail[j];
      }
    }
  }

  lemma {:induction false} HeadAndRestAreExact(s: string, head: string, rest: string)
    ensures Divides(s, head, rest) <==> head == HeadPart(s) && rest == RestPart(s)
  {
    DotIsFirst(s);
    if '.' in s {
      assert s == s[..DotAt(s)] + "." + s[DotAt(s) + 1..];
    }
    if Divides(s, head, rest) {
      if s == head + "." + rest {
        assert s[|head|] == '.';
        assert forall i :: 0 <= i < |head| ==> s[i] == head[i];
        assert DotAt(s) == |head|;
      }
    }
  }

  lemma {:induction false} DotIsFirst(s: string)
    ensures DotAt(s) <= |s| && (DotAt(s) < |s| <==> '.' in s) && (DotAt(s) < |s| ==> s[DotAt(s)] == '.')
    ensures forall i :: 0 <= i < DotAt(s) ==> s[i] != '.'
  {
    if s != "" && s[0] != '.' {
      DotIsFirst(s[1..]);
      assert s == [s[0]] + s[1..];
    }
  }

  lemma {:induction false} BareIsFound(bare: seq<string>, receiver: string)
    ensures FirstBare(bare, receiver).Some?
       <==> exists mod :: mod in bare && (receiver == mod || (mod + ".") <= receiver)
  {
    if bare != [] {
      BareIsFound(bare[1..], receiver);
      assert forall mod :: mod in bare <==> mod == bare[0] || mod in bare[1..] by {
        assert bare == [bare[0]] + bare[1..];
      }
      var first := receiver == bare[0] || (bare[0] + ".") <= receiver;
      assert first ==> bare[0] in bare;
    }
  }

  /******* Each step does what its rule says *******/

  lemma AttributeIsExact(code: Code, c: CallSite, enclosing: Artifact, a: Artifact)
    ensures OnAttribute(code, c, enclosing) == Some(a) <==> AttributeMeans(code, c, enclosing, a)
  {
    var className := ClassOf(enclosing);
    forall name | name != "" ensures className == name <==> InClass(enclosing, name) {
      ClassIsExact(enclosing, name);
    }
    if |c.chain| >= 2 {
      var attrs := Get(code.selfAttrs, ClassKey(enclosing.file, className), map[]);
      TypeIsExact(code, Get(attrs, c.chain[1], ""), c, a);
    }
  }

  lemma BareIsExactly(code: Code, c: CallSite, a: Artifact)
    ensures FirstBare(ImportsOf(code.imports, c.file).bare, c.receiver).Some?
            && InModule(code, code.profile(c.file), c.receiver, c.name) == Some(a)
       <==> BareMeans(code, c, a)
  {
    var listed := BareIn(code.imports, c.file);
    BareIsFound(ImportsOf(code.imports, c.file).bare, c.receiver);
    SortProperties(listed, LongestFirst());
    forall mod ensures mod in ImportsOf(code.imports, c.file).bare <==> ImportsBare(code.imports, c.file, mod) {
      BareIsExact(code.imports, c.file, mod);
    }
    ModuleIsExact(code, c.receiver, c.name, c.file, a);
  }

  lemma StandsExactlyWhen(code: Code, c: CallSite)
    ensures var head, renamed := HeadPart(c.receiver), RenamedIn(code.imports, c.file);
            && (head in renamed <==> exists target :: StandsFor(code.imports, c.file, head, target))
            && forall target :: StandsFor(code.imports, c.file, head, target)
                           <==> head in renamed && renamed[head] == target
  {
    var head, renamed := HeadPart(c.receiver), RenamedIn(code.imports, c.file);
    forall target
      ensures head in renamed && renamed[head] == target <==> StandsFor(code.imports, c.file, head, target)
    {
      RenamedIsExact(code.imports, c.file, head, target);
    }
    if head in renamed {
      assert StandsFor(code.imports, c.file, head, renamed[head]);
    }
  }

  lemma AliasIsExact(code: Code, c: CallSite, a: Artifact)
    ensures var head, rest, renamed := HeadPart(c.receiver), RestPart(c.receiver), RenamedIn(code.imports, c.file);
            && (head in renamed ==>
                  (InModule(code, code.profile(c.file), WithRest(renamed[head], rest), c.name) == Some(a)
                   <==> AliasMeans(code, c, head, rest, a)))
            && (head !in renamed ==> !AliasMeans(code, c, head, rest, a))
  {
    var head, rest, renamed := HeadPart(c.receiver), RestPart(c.receiver), RenamedIn(code.imports, c.file);
    StandsExactlyWhen(code, c);
    if head in renamed {
      ModuleIsExact(code, WithRest(renamed[head], rest), c.name, c.file, a);
      assert WithRest(renamed[head], rest) == Dotted(renamed[head], rest);
    }
  }

  lemma SubmoduleIsExact(code: Code, c: CallSite, a: Artifact)
    ensures OnSubmodule(code, c) == Some(a)
       <==> SubmoduleMeans(code, c, HeadPart(c.receiver), RestPart(c.receiver), a)
  {
    var head, sub := HeadPart(c.receiver), WithRest(HeadPart(c.receiver), RestPart(c.receiver));
    TablesTell(code, c.name);
    forall mod: string ensures mod + "." + sub == mod + ("." + sub) {
    }
    assert sub == Dotted(head, RestPart(c.receiver));
    ImportsOfFileLead(ListedIn(code.artifacts), DefinedIn(code.artifacts), code, c.file, head, "." + sub, c.name,
                      StartBelow(sub, c.name), a);
  }

  lemma ParameterIsExact(code: Code, c: CallSite, enclosing: Artifact, a: Artifact)
    ensures var head := HeadPart(c.receiver);
            ByHint(code, ParamHint(Get(code.params, enclosing.id, []), head), c) == Some(a)
            <==> ParameterMeans(code, c, enclosing, head, a)
  {
    var head, params := HeadPart(c.receiver), Get(code.params, enclosing.id, []);
    HintIsExact(params, head);
    TypeIsExact(code, ParamHint(params, head), c, a);
  }

  lemma VariableIsExact(code: Code, c: CallSite, a: Artifact)
    ensures ByHint(code, Get(code.moduleVars, FileKey(c.file, HeadPart(c.receiver)), ""), c) == Some(a)
       <==> VariableMeans(code, c, HeadPart(c.receiver), a)
  {
    TypeIsExact(code, Get(code.moduleVars, FileKey(c.file, HeadPart(c.receiver)), ""), c, a);
  }

  lemma SingletonIsExact(code: Code, c: CallSite, a: Artifact)
    ensures OnSingleton(code, c) == Some(a) <==> SingletonMeans(code, c, HeadPart(c.receiver), a)
  {
    var head, bound := HeadPart(c.receiver), Singleton(code, HeadPart(c.receiver), c.file);
    TablesTell(code, c.name);
    assert forall mod: string :: mod + "" == mod;
    forall b ensures bound == Some(b) <==> ImportLeadsTo(BoundIn(code.moduleVars), code, c.file, head, "", head, b) {
      ImportsOfFileLead(Variables(code.moduleVars), BoundIn(code.moduleVars), code, c.file, head, "", head,
                        StartAt(head), b);
    }
    if bound.Some? {
      BoundIsExact(code, c, bound.value, a);
    }
  }

  lemma BoundIsExact(code: Code, c: CallSite, b: Bound, a: Artifact)
    requires Singleton(code, HeadPart(c.receiver), c.file) == Some(b)
    ensures OnSingleton(code, c) == Some(a)
       <==> || DefinesMethod(code.artifacts, b.file, b.typeName, c.name, a)
            || ((forall x :: !DefinesMethod(code.artifacts, b.file, b.typeName, c.name, x))
                && TypeMeans(code, b.typeName, c.name, c.file, a))
  {
    var own := ListedMethod(code.artifacts, MethodKey(b.file, b.typeName, c.name));
    forall x ensures own == Some(x) <==> DefinesMethod(code.artifacts, b.file, b.typeName, c.name, x) {
      MethodIsExact(code.artifacts, b.file, b.typeName, c.name, x);
    }
    BoundHasType(code, HeadPart(c.receiver), c.file);
    TypeIsExact(code, b.typeName, c, a);
    if own.Some? {
      assert DefinesMethod(code.artifacts, b.file, b.typeName, c.name, own.value);
    }
  }

  /******* The whole resolver does what the rules say *******/

  // What each step finds.
  function StepFinds(k: int, code: Code, c: CallSite, enclosing: Artifact): Option<Artifact> {
    var lang, imports := code.profile(c.file), ImportsOf(code.imports, c.file);
    var head, rest := HeadPart(c.receiver), RestPart(c.receiver);
    match k
    case 0 => OnAttribute(code, c, enclosing)
    case 1 => if FirstBare(imports.bare, c.receiver).Some? then InModule(code, lang, c.receiver, c.name) else None
    case 2 =>
      if head in imports.renamed then InModule(code, lang, WithRest(imports.renamed[head], rest), c.name) else None
    case 3 => OnSubmodule(code, c)
    case 4 => ByHint(code, ParamHint(Get(code.params, enclosing.id, []), head), c)
    case 5 => ByHint(code, Get(code.moduleVars, FileKey(c.file, head), ""), c)
    case 6 => OnSingleton(code, c)
    case _ => None
  }

  lemma StepIsExact(k: int, code: Code, c: CallSite, enclosing: Artifact, a: Artifact)
    ensures StepFinds(k, code, c, enclosing) == Some(a)
       <==> StepMeans(k, code, c, enclosing, HeadPart(c.receiver), RestPart(c.receiver), a)
  {
    match k
    case 0 => AttributeIsExact(code, c, enclosing, a);
    case 1 => BareIsExactly(code, c, a);
    case 2 => AliasIsExact(code, c, a);
    case 3 => SubmoduleIsExact(code, c, a);
    case 4 => ParameterIsExact(code, c, enclosing, a);
    case 5 => VariableIsExact(code, c, a);
    case 6 => SingletonIsExact(code, c, a);
    case _ =>
  }

  ghost predicate IsFirstStep(k: int, code: Code, c: CallSite, enclosing: Artifact, a: Artifact) {
    && StepFinds(k, code, c, enclosing) == Some(a)
    && (forall j :: 0 <= j < k ==> StepFinds(j, code, c, enclosing).None?)
    && (k > 2 ==> HeadPart(c.receiver) !in ImportsOf(code.imports, c.file).renamed)
  }

  // A receiver is resolved by the first step that finds something, unless a name that stands for a module ended
  // the search before.
  lemma ReceiverIsFirstStep(code: Code, c: CallSite, enclosing: Artifact, a: Artifact)
    ensures Or(OnAttribute(code, c, enclosing), OnReceiver(code, c, enclosing)) == Some(a)
       <==> exists k :: IsFirstStep(k, code, c, enclosing, a)
  {
    var renamed := HeadPart(c.receiver) in ImportsOf(code.imports, c.file).renamed;
    var target := Or(OnAttribute(code, c, enclosing), OnReceiver(code, c, enclosing));
    var s0, s1 := StepFinds(0, code, c, enclosing), StepFinds(1, code, c, enclosing);
    var s2 := StepFinds(2, code, c, enclosing);
    var s3, s4 := StepFinds(3, code, c, enclosing), StepFinds(4, code, c, enclosing);
    var s5, s6 := StepFinds(5, code, c, enclosing), StepFinds(6, code, c, enclosing);
    assert target == if s0.Some? then s0 else if s1.Some? then s1 else if renamed then s2
                     else if s3.Some? then s3 else if s4.Some? then s4 else if s5.Some? then s5 else s6;
    assert !renamed ==> s2.None?;
    var k := if s0.Some? then 0 else if s1.Some? then 1 else if renamed then 2
             else if s3.Some? then 3 else if s4.Some? then 4 else if s5.Some? then 5 else 6;
    assert target == StepFinds(k, code, c, enclosing);
    assert forall j :: 0 <= j < k ==> StepFinds(j, code, c, enclosing).None?;
    assert target == Some(a) ==> IsFirstStep(k, code, c, enclosing, a);
    if m :| IsFirstStep(m, code, c, enclosing, a) {
      assert 0 <= m <= 6;
      assert m == k;
    }
  }

  lemma ReceiverIsExact(code: Code, c: CallSite, enclosing: Artifact, a: Artifact)
    ensures Or(OnAttribute(code, c, enclosing), OnReceiver(code, c, enclosing)) == Some(a)
       <==> ReceiverMeans(code, c, enclosing, HeadPart(c.receiver), RestPart(c.receiver), a)
  {
    var head, rest := HeadPart(c.receiver), RestPart(c.receiver);
    ReceiverIsFirstStep(code, c, enclosing, a);
    forall k ensures IsFirstStep(k, code, c, enclosing, a)
                <==> StepMeans(k, code, c, enclosing, head, rest, a)
                     && forall j :: 0 <= j < k ==> !StepEnds(j, code, c, enclosing, head, rest) {
      FirstStepIsExact(k, code, c, enclosing, a);
    }
  }

  lemma StepEndsExactlyWhen(k: int, code: Code, c: CallSite, enclosing: Artifact)
    ensures StepEnds(k, code, c, enclosing, HeadPart(c.receiver), RestPart(c.receiver))
       <==> StepFinds(k, code, c, enclosing).Some?
            || (k == 2 && HeadPart(c.receiver) in ImportsOf(code.imports, c.file).renamed)
  {
    var head, rest, found := HeadPart(c.receiver), RestPart(c.receiver), StepFinds(k, code, c, enclosing);
    forall a ensures found == Some(a) <==> StepMeans(k, code, c, enclosing, head, rest, a) {
      StepIsExact(k, code, c, enclosing, a);
    }
    StandsExactlyWhen(code, c);
    if found.Some? {
      assert StepMeans(k, code, c, enclosing, head, rest, found.value);
    }
  }

  lemma FirstStepIsExact(k: int, code: Code, c: CallSite, enclosing: Artifact, a: Artifact)
    ensures var head, rest := HeadPart(c.receiver), RestPart(c.receiver);
            IsFirstStep(k, code, c, enclosing, a)
            <==> StepMeans(k, code, c, enclosing, head, rest, a)
                 && forall j :: 0 <= j < k ==> !StepEnds(j, code, c, enclosing, head, rest)
  {
    var head, rest := HeadPart(c.receiver), RestPart(c.receiver);
    StepIsExact(k, code, c, enclosing, a);
    forall j ensures StepEnds(j, code, c, enclosing, head, rest)
                <==> StepFinds(j, code, c, enclosing).Some?
                     || (j == 2 && head in ImportsOf(code.imports, c.file).renamed) {
      StepEndsExactlyWhen(j, code, c, enclosing);
    }
    if k > 2 && forall j :: 0 <= j < k ==> !StepEnds(j, code, c, enclosing, head, rest) {
      assert !StepEnds(2, code, c, enclosing, head, rest);
    }
  }

  // A call has exactly the target that the rules give it.
  lemma CallTargetIsExact(code: Code, c: CallSite, enclosing: Artifact, a: Artifact)
    ensures CallTarget(code, c, enclosing) == Some(a) <==> CallMeans(code, c, enclosing, a)
  {
    if c.receiver == "" {
      NameIsExact(code, c.name, c.file, a);
    } else if c.receiver in {"self", "cls"} && enclosing.kind == Method {
      OwnClassIsExact(code, c, enclosing, a);
    } else {
      ReceiverIsExact(code, c, enclosing, a);
      forall head, rest ensures Divides(c.receiver, head, rest)
                           <==> head == HeadPart(c.receiver) && rest == RestPart(c.receiver) {
        HeadAndRestAreExact(c.receiver, head, rest);
      }
    }
  }

  lemma OwnClassIsExact(code: Code, c: CallSite, enclosing: Artifact, a: Artifact)
    ensures OnOwnClass(code, c, enclosing) == Some(a)
       <==> exists className ::
              InClass(enclosing, className) && DefinesMethod(code.artifacts, enclosing.file, className, c.name, a)
  {
    var className := ClassOf(enclosing);
    forall name | name != "" ensures className == name <==> InClass(enclosing, name) {
      ClassIsExact(enclosing, name);
    }
    MethodIsExact(code.artifacts, enclosing.file, className, c.name, a);
  }

  /******* Dependencies handed to the framework *******/

  // `Depends(name)`, the argument written as a marked name.
  ghost predicate Injects(c: CallSite, name: string) {
    && (c.callee == "Depends" || exists before :: c.callee == before + ".Depends")
    && ((c.firstArg == "<name:" && name == "") || exists closing: char :: c.firstArg == "<name:" + name + [closing])
  }

  lemma InjectedIsExact(code: Code, c: CallSite, a: Artifact)
    ensures InjectedTarget(code, c) == Some(a)
       <==> exists name :: Injects(c, name) && NameMeans(code, name, c.file, a)
  {
    EndIsSuffix(c.callee, ".Depends");
    var arg, mark := c.firstArg, NAME_MARK;
    var name := if |arg| > |mark| then arg[|mark|..|arg| - 1] else "";
    NameIsExact(code, name, c.file, a);
    if mark <= arg {
      assert arg == mark + arg[|mark|..];
      if |arg| > |mark| {
        assert arg == mark + name + [arg[|arg| - 1]];
      }
    }
    forall other | Injects(c, other) ensures other == name && mark <= arg {
      if closing: char :| arg == "<name:" + other + [closing] {
        assert arg[..|mark|] == mark && arg[|mark|..|arg| - 1] == other;
      }
    }
  }

  lemma EndIsSuffix(s: string, suffix: string)
    ensures EndsWith(s, suffix) <==> exists before :: s == before + suffix
  {
    if EndsWith(s, suffix) {
      assert s == s[..|s| - |suffix|] + suffix;
    }
    if before :| s == before + suffix {
      assert s[|s| - |suffix|..] == suffix;
    }
  }

  // What a call site refers to, from the artifact around it: what the rules give it, failing that what it hands
  // to the framework.
  ghost predicate SiteMeans(code: Code, c: CallSite, a: Artifact) {
    exists caller ::
      && IsCaller(code.artifacts, c, caller)
      && (|| CallMeans(code, c, caller, a)
          || ((forall b :: !CallMeans(code, c, caller, b))
              && exists name :: Injects(c, name) && NameMeans(code, name, c.file, a)))
  }

  lemma SiteTargetIsExact(code: Code, c: CallSite, a: Artifact)
    ensures SiteTarget(code, c) == Some(a) <==> SiteMeans(code, c, a)
  {
    var caller := CallerOf(code.artifacts, c);
    forall x ensures caller == Some(x) <==> IsCaller(code.artifacts, c, x) {
      CallerIsExact(code.artifacts, c, x);
    }
    if caller.Some? {
      var named := CallTarget(code, c, caller.value);
      SiteIsSeenFrom(code, c, caller.value);
      InjectedIsExact(code, c, a);
      forall b ensures named == Some(b) <==> CallMeans(code, c, caller.value, b) {
        CallTargetIsExact(code, c, caller.value, b);
      }
      assert named.Some? ==> CallMeans(code, c, caller.value, named.value);
    }
  }

  // The functions listed behind a type alias: in the file, failing that where the first import of it leads.
  ghost predicate AliasLists(code: Code, typeName: string, file: string, d: DepList) {
    || DepsIn(code.aliasDeps)(FileKey(file, typeName), d)
    || (Silent(DepsIn(code.aliasDeps), FileKey(file, typeName))
        && ImportLeadsTo(DepsIn(code.aliasDeps), code, file, typeName, "", typeName, d))
  }

  lemma DepsAreExact(code: Code, typeName: string, file: string, d: DepList)
    ensures DepsBehind(code, typeName, file) == Some(d) <==> AliasLists(code, typeName, file, d)
  {
    TablesTell(code, "");
    assert forall mod: string :: mod + "" == mod;
    ImportsOfFileLead(DepLists(code.aliasDeps), DepsIn(code.aliasDeps), code, file, typeName, "", typeName,
                      StartAt(typeName), d);
    var own := DepLists(code.aliasDeps)(FileKey(file, typeName));
    assert own.Some? ==> DepsIn(code.aliasDeps)(FileKey(file, typeName), own.value);
  }

  // A parameter type with listed functions makes each of them, read in the file that lists them, a dependency.
  ghost predicate AliasMakes(code: Code, params: seq<Param>, file: string, target: Option<Artifact>, via: string) {
    exists d, name ::
      && via != "" && (exists p :: p in params && p.hint == via)
      && AliasLists(code, via, file, d) && name in d.names
      && forall a :: target == Some(a) <==> NameMeans(code, name, d.file, a)
  }

  lemma {:induction false} AliasedIsExact(code: Code, params: seq<Param>, file: string, dep: AliasDep)
    ensures dep in AliasedBy(code, params, file) <==> AliasMakes(code, params, file, dep.target, dep.via)
  {
    if params != [] {
      var init, last := params[..|params| - 1], params[|params| - 1];
      AliasedIsExact(code, init, file, dep);
      LastAliased(code, last, file, dep);
      assert params == init + [last];
      AliasMakesSnoc(code, init, last, file, dep.target, dep.via);
    }
  }

  lemma AliasMakesSnoc(code: Code, init: seq<Param>, last: Param, file: string, target: Option<Artifact>, via: string)
    ensures AliasMakes(code, init + [last], file, target, via)
       <==> AliasMakes(code, init, file, target, via) || AliasMakes(code, [last], file, target, via)
  {
    assert (exists p :: p in init + [last] && p.hint == via)
      <==> (exists p :: p in init && p.hint == via) || exists p :: p in [last] && p.hint == via by {
      assert forall p :: p in init + [last] <==> p in init || p in [last];
    }
  }

  lemma LastAliased(code: Code, p: Param, file: string, dep: AliasDep)
    ensures var deps := if p.hint == "" then None else DepsBehind(code, p.hint, file);
            deps.Some? && dep in DepsOf(code, deps.value.names, deps.value.file, p.hint)
            <==> AliasMakes(code, [p], file, dep.target, dep.via)
  {
    var deps := if p.hint == "" then None else DepsBehind(code, p.hint, file);
    forall d | p.hint != "" ensures deps == Some(d) <==> AliasLists(code, p.hint, file, d) {
      DepsAreExact(code, p.hint, file, d);
    }
    if deps.Some? {
      var d := deps.value;
      var listed := DepsOf(code, d.names, d.file, p.hint);
      forall name ensures NamedTarget(code, name, d.file) == dep.target
                     <==> forall a :: dep.target == Some(a) <==> NameMeans(code, name, d.file, a) {
        TargetIsMeant(code, name, d.file, dep.target);
      }
      if dep in listed {
        var i :| 0 <= i < |listed| && listed[i] == dep;
        assert d.names[i] in d.names && p in [p];
      }
      if AliasMakes(code, [p], file, dep.target, dep.via) {
        var name :| name in d.names && NamedTarget(code, name, d.file) == dep.target;
        var i :| 0 <= i < |d.names| && d.names[i] == name;
        assert listed[i] == AliasDep(dep.target, p.hint);
      }
    }
  }

  lemma TargetIsMeant(code: Code, name: string, file: string, target: Option<Artifact>)
    ensures NamedTarget(code, name, file) == target
       <==> forall a :: target == Some(a) <==> NameMeans(code, name, file, a)
  {
    forall a ensures NamedTarget(code, name, file) == Some(a) <==> NameMeans(code, name, file, a) {
      NameIsExact(code, name, file, a);
    }
    var named := NamedTarget(code, name, file);
    if named != target {
      if named.Some? {
        assert NameMeans(code, name, file, named.value);
      } else {
        assert !NameMeans(code, name, file, target.value);
      }
    }
  }
}
