/**
  Finding the artifact that an imported name stands for: import facts of aggregator files make the alias
  map, the alias map is expanded, and each expanded pair is looked up in its candidate files.
*/
module NameResolution {
  import opened Wrappers
  import opened AliasExpansion
  import opened ModulePath
  import opened Artifacts

  datatype Language = Language(sep: char, templates: seq<Template>)

  // `from <module> import <names>`, with the number of leading dots, or, if there are no names,
  // `import <module>`, with the alias given to it, "" for none.
  datatype Import = Import(file: string, mod: string, level: int, names: seq<string>, alias: string)

  datatype FileKey = FileKey(file: string, name: string)

  /******* The alias map *******/

  function PackageOf(fact: Import, lang: Language): string {
    ModuleOf(fact.file, lang.sep, lang.templates)
  }

  function TargetOf(fact: Import, lang: Language): string {
    TargetModule(fact.mod, fact.level, PackageOf(fact, lang), lang.sep)
  }

  // An aggregator file that fits a template, with a target that resolves to something.
  predicate Contributes(fact: Import, lang: Language, aggregates: string -> bool) {
    aggregates(fact.file) && PackageOf(fact, lang) != "" && TargetOf(fact, lang) != ""
  }

  // What `key` gains from the names of one import.
  function Gained(names: seq<string>, package: string, target: string, key: Key): seq<Key> {
    if names == [] then []
    else
      var name := names[|names| - 1];
      Gained(names[..|names| - 1], package, target, key)
      + if name != "" && key == Key(package, name) then [Key(target, name)] else []
  }

  // The re-exports of `key`, in the order of the import facts and their names.
  function Reexports(facts: seq<Import>, profile: string -> Language, aggregates: string -> bool, key: Key): seq<Key> {
    if facts == [] then []
    else
      var last := facts[|facts| - 1];
      var lang := profile(last.file);
      Reexports(facts[..|facts| - 1], profile, aggregates, key)
      + if Contributes(last, lang, aggregates)
            then Gained(last.names, PackageOf(last, lang), TargetOf(last, lang), key) else []
  }

  // The import makes `key` a re-export of `target`: it stands in an aggregator file whose module is the
  // package of the key, names the key's name, and its module, dots counted from that package, is the target's.
  ghost predicate Reexporting(fact: Import, profile: string -> Language, aggregates: string -> bool, key: Key,
      target: Key) {
    var lang := profile(fact.file);
    && aggregates(fact.file) && key.name in fact.names && key.name != "" && target.name == key.name
    && key.mod == ModuleOf(fact.file, lang.sep, lang.templates) && key.mod != ""
    && target.mod == TargetModule(fact.mod, fact.level, key.mod, lang.sep) && target.mod != ""
  }

  lemma {:induction false} GainedIsExact(names: seq<string>, package: string, target: string, key: Key, t: Key)
    ensures t in Gained(names, package, target, key)
       <==> key.name in names && key.name != "" && key.mod == package && t == Key(target, key.name)
  {
    if names != [] {
      GainedIsExact(names[..|names| - 1], package, target, key, t);
      assert names == names[..|names| - 1] + [names[|names| - 1]];
    }
  }

  lemma LastReexports(fact: Import, profile: string -> Language, aggregates: string -> bool, key: Key, t: Key)
    ensures var lang := profile(fact.file);
            Reexporting(fact, profile, aggregates, key, t)
            <==> && Contributes(fact, lang, aggregates)
                 && t in Gained(fact.names, PackageOf(fact, lang), TargetOf(fact, lang), key)
  {
    var lang := profile(fact.file);
    GainedIsExact(fact.names, PackageOf(fact, lang), TargetOf(fact, lang), key, t);
    assert Key(t.mod, t.name) == t;
  }

  // The re-exports of a pair are those that some import makes.
  lemma {:induction false} ReexportsAreExact(facts: seq<Import>, profile: string -> Language,
      aggregates: string -> bool, key: Key, t: Key)
    ensures t in Reexports(facts, profile, aggregates, key)
       <==> exists fact :: fact in facts && Reexporting(fact, profile, aggregates, key, t)
  {
    if facts != [] {
      var init, last := facts[..|facts| - 1], facts[|facts| - 1];
      ReexportsAreExact(init, profile, aggregates, key, t);
      var lang := profile(last.file);
      GainedIsExact(last.names, PackageOf(last, lang), TargetOf(last, lang), key, t);
      LastReexports(last, profile, aggregates, key, t);
      assert forall f :: f in facts <==> f in init || f == last by {
        assert facts == init + [last];
      }
    }
  }

  // They stand in the order of the imports.
  lemma {:induction false} ReexportsConcat(a: seq<Import>, b: seq<Import>, profile: string -> Language,
      aggregates: string -> bool, key: Key)
    ensures Reexports(a + b, profile, aggregates, key)
         == Reexports(a, profile, aggregates, key) + Reexports(b, profile, aggregates, key)
  {
    if b == [] {
      assert a + b == a;
    } else {
      assert (a + b)[..|a + b| - 1] == a + b[..|b| - 1];
      ReexportsConcat(a, b[..|b| - 1], profile, aggregates, key);
    }
  }

  // `dict.setdefault(key, []).append(target)`.
  function Append(aliases: Aliases, key: Key, target: Key): Aliases {
    aliases[key := Targets(aliases, key) + [target]]
  }

  method BuildAliasMap(facts: seq<Import>, profile: string -> Language, aggregates: string -> bool)
      returns (aliases: Aliases)
    ensures forall key :: Targets(aliases, key) == Reexports(facts, profile, aggregates, key)
  {
    aliases := map[];
    for i := 0 to |facts|
      invariant forall key :: Targets(aliases, key) == Reexports(facts[..i], profile, aggregates, key)
    {
      var fact := facts[i];
      var lang := profile(fact.file);
      var package := InitFileToModule(fact.file, lang.sep, lang.templates);
      var target := TargetModule(fact.mod, fact.level, package, lang.sep);
      forall key ensures Reexports(facts[..i + 1], profile, aggregates, key)
                      == Reexports(facts[..i], profile, aggregates, key)
                         + if Contributes(fact, lang, aggregates)
                           then Gained(fact.names, package, target, key) else [] {
        assert facts[..i + 1][..i] == facts[..i];
      }
      if !aggregates(fact.file) || package == "" || target == "" {
        continue;
      }
      aliases := AddReexports(aliases, fact.names, package, target);
    }
    assert facts[..|facts|] == facts;
  }

  lemma OneMoreName(names: seq<string>, k: nat, package: string, target: string, before: Aliases)
    requires k < |names|
    ensures forall key ::
      Targets(before, key) + Gained(names[..k + 1], package, target, key)
      == (Targets(before, key) + Gained(names[..k], package, target, key))
         + if names[k] != "" && key == Key(package, names[k]) then [Key(target, names[k])] else []
  {
    assert names[..k + 1][..k] == names[..k];
  }

  // The loop over the names of one import.
  method AddReexports(before: Aliases, names: seq<string>, package: string, target: string) returns (aliases: Aliases)
    ensures forall key :: Targets(aliases, key) == Targets(before, key) + Gained(names, package, target, key)
  {
    aliases := before;
    for k := 0 to |names|
      invariant forall key :: Targets(aliases, key) == Targets(before, key) + Gained(names[..k], package, target, key)
    {
      OneMoreName(names, k, package, target, before);
      if names[k] == "" {
        continue;
      }
      aliases := Append(aliases, Key(package, names[k]), Key(target, names[k]));
    }
    assert names[..|names|] == names;
  }

  /******* The lookup *******/

  // The artifact listed last under a file and a name.
  function Listed(artifacts: seq<Artifact>, key: FileKey): Option<Artifact> {
    if artifacts == [] then None
    else if FileKey(artifacts[|artifacts| - 1].file, artifacts[|artifacts| - 1].name) == key
          then Some(artifacts[|artifacts| - 1])
    else Listed(artifacts[..|artifacts| - 1], key)
  }

  method IndexByFileAndName(artifacts: seq<Artifact>) returns (index: map<FileKey, Artifact>)
    ensures forall key :: (if key in index then Some(index[key]) else None) == Listed(artifacts, key)
  {
    index := map[];
    for i := 0 to |artifacts|
      invariant forall key :: (if key in index then Some(index[key]) else None) == Listed(artifacts[..i], key)
    {
      assert artifacts[..i + 1][..i] == artifacts[..i];
      index := index[FileKey(artifacts[i].file, artifacts[i].name) := artifacts[i]];
    }
    assert artifacts[..|artifacts|] == artifacts;
  }

  // The first candidate file, and the first pair, for which a table has an entry.
  function FirstFile<V>(files: seq<string>, name: string, probe: FileKey -> Option<V>): Option<V> {
    if files == [] then None
    else if probe(FileKey(files[0], name)).Some? then probe(FileKey(files[0], name))
    else FirstFile(files[1..], name, probe)
  }

  function FilesOfKey(key: Key, lang: Language): seq<string> {
    CandidateFiles(key.mod, lang.sep, lang.templates)
  }

  function FirstKey<V>(keys: seq<Key>, lang: Language, probe: FileKey -> Option<V>): Option<V> {
    if keys == [] then None
    else
      var hit := FirstFile(FilesOfKey(keys[0], lang), keys[0].name, probe);
      if hit.Some? then hit else FirstKey(keys[1..], lang, probe)
  }

  // The walk over the re-exports of a pair.
  function Probe<V>(start: Key, lang: Language, aliases: Aliases, probe: FileKey -> Option<V>): Option<V> {
    FirstKey(Expansion(start, aliases), lang, probe)
  }

  method ProbeExpansion<V>(start: Key, lang: Language, aliases: Aliases, probe: FileKey -> Option<V>)
      returns (hit: Option<V>)
    ensures hit == Probe(start, lang, aliases, probe)
  {
    var keys := AliasExpansion.Expand(start, aliases);
    assert keys[0..] == keys;
    for i := 0 to |keys|
      invariant Probe(start, lang, aliases, probe) == FirstKey(keys[i..], lang, probe)
    {
      var files := CandidateFiles(keys[i].mod, lang.sep, lang.templates);
      assert keys[i..][1..] == keys[i + 1..] && files[0..] == files;
      for k := 0 to |files|
        invariant FirstFile(files, keys[i].name, probe) == FirstFile(files[k..], keys[i].name, probe)
      {
        hit := probe(FileKey(files[k], keys[i].name));
        if hit.Some? {
          return;
        }
        assert files[k..][1..] == files[k + 1..];
      }
    }
    return None;
  }

  lemma {:induction false} FirstFileIsFirst<V>(files: seq<string>, name: string, probe: FileKey -> Option<V>)
    ensures var hit := FirstFile(files, name, probe);
            if hit.None? then forall k :: 0 <= k < |files| ==> probe(FileKey(files[k], name)).None?
            else exists k :: 0 <= k < |files| && probe(FileKey(files[k], name)) == hit
                             && forall j :: 0 <= j < k ==> probe(FileKey(files[j], name)).None?
  {
    if files != [] && probe(FileKey(files[0], name)).None? {
      var rest := files[1..];
      FirstFileIsFirst(rest, name, probe);
      var hit := FirstFile(rest, name, probe);
      if hit.Some? {
        var k :| 0 <= k < |rest| && probe(FileKey(rest[k], name)) == hit
                 && forall j :: 0 <= j < k ==> probe(FileKey(rest[j], name)).None?;
        assert files[k + 1] == rest[k] && forall j :: 0 < j <= k ==> files[j] == rest[j - 1];
      } else {
        assert forall k :: 0 < k < |files| ==> files[k] == rest[k - 1];
      }
    }
  }

  // The pair has an entry in some candidate file of its module.
  ghost predicate HasEntry<V>(key: Key, lang: Language, probe: FileKey -> Option<V>) {
    exists file :: file in FilesOfKey(key, lang) && probe(FileKey(file, key.name)).Some?
  }

  lemma FirstFileHasEntry<V>(key: Key, lang: Language, probe: FileKey -> Option<V>)
    ensures FirstFile(FilesOfKey(key, lang), key.name, probe).Some? <==> HasEntry(key, lang, probe)
  {
    var files := FilesOfKey(key, lang);
    FirstFileIsFirst(files, key.name, probe);
    if file :| file in files && probe(FileKey(file, key.name)).Some? {
      var k :| 0 <= k < |files| && files[k] == file;
    }
  }

  // A walk finds something exactly when some pair has an entry, and then that of the first pair that has
  // one, in its first candidate file.
  lemma {:induction false} FirstKeyIsFirst<V>(keys: seq<Key>, lang: Language, probe: FileKey -> Option<V>)
    ensures var hit := FirstKey(keys, lang, probe);
            if hit.None? then forall i :: 0 <= i < |keys| ==> !HasEntry(keys[i], lang, probe)
            else exists i :: 0 <= i < |keys| && hit == FirstFile(FilesOfKey(keys[i], lang), keys[i].name, probe)
                             && forall j :: 0 <= j < i ==> !HasEntry(keys[j], lang, probe)
  {
    if keys != [] {
      FirstFileHasEntry(keys[0], lang, probe);
      var rest := keys[1..];
      FirstKeyIsFirst(rest, lang, probe);
      var hit := FirstKey(rest, lang, probe);
      assert forall i :: 0 < i < |keys| ==> keys[i] == rest[i - 1];
      if !HasEntry(keys[0], lang, probe) && hit.Some? {
        var i :| 0 <= i < |rest| && hit == FirstFile(FilesOfKey(rest[i], lang), rest[i].name, probe)
                 && forall j :: 0 <= j < i ==> !HasEntry(rest[j], lang, probe);
        assert keys[i + 1] == rest[i];
      }
    }
  }

  function ListedIn(artifacts: seq<Artifact>): FileKey -> Option<Artifact> {
    (key: FileKey) => Listed(artifacts, key)
  }

  function EntryOf(index: map<FileKey, Artifact>): FileKey -> Option<Artifact> {
    (key: FileKey) => if key in index then Some(index[key]) else None
  }

  lemma {:induction false} SameEntriesSameFile<V>(files: seq<string>, name: string, p: FileKey -> Option<V>,
      q: FileKey -> Option<V>)
    requires forall key :: p(key) == q(key)
    ensures FirstFile(files, name, p) == FirstFile(files, name, q)
  {
    if files != [] {
      SameEntriesSameFile(files[1..], name, p, q);
    }
  }

  lemma {:induction false} SameEntriesSameHit<V>(keys: seq<Key>, lang: Language, p: FileKey -> Option<V>,
      q: FileKey -> Option<V>)
    requires forall key :: p(key) == q(key)
    ensures FirstKey(keys, lang, p) == FirstKey(keys, lang, q)
  {
    if keys != [] {
      SameEntriesSameFile(FilesOfKey(keys[0], lang), keys[0].name, p, q);
      SameEntriesSameHit(keys[1..], lang, p, q);
    }
  }

  // The artifact that a module's name stands for.
  method LookupByModule(start: Key, lang: Language, aliases: Aliases, artifacts: seq<Artifact>,
      index: map<FileKey, Artifact>) returns (hit: Option<Artifact>)
    requires forall key :: (if key in index then Some(index[key]) else None) == Listed(artifacts, key)
    ensures hit == Probe(start, lang, aliases, ListedIn(artifacts))
  {
    hit := ProbeExpansion(start, lang, aliases, EntryOf(index));
    SameEntriesSameHit(Expansion(start, aliases), lang, EntryOf(index), ListedIn(artifacts));
  }

  // A hit is always a definition at most MAX_DEPTH re-exports away; and if no simple path of re-exports
  // is longer than that, a definition is found whenever any number of re-exports leads to one.
  lemma LookupFollowsReexports<V>(start: Key, lang: Language, aliases: Aliases, probe: FileKey -> Option<V>)
    ensures var hit := Probe(start, lang, aliases, probe);
            && (hit.Some? ==> exists key :: Within(aliases, start, key, MAX_DEPTH) && HasEntry(key, lang, probe))
            && (SimplePathsAreShort(aliases, start) ==>
                  (hit.Some? <==> exists key :: Reachable(aliases, start, key) && HasEntry(key, lang, probe)))
  {
    var keys := Expansion(start, aliases);
    FirstKeyIsFirst(keys, lang, probe);
    if i :| 0 <= i < |keys| && HasEntry(keys[i], lang, probe) {
      ExpansionStaysWithinDepth(start, aliases, keys[i]);
    }
    forall i | 0 <= i < |keys| ensures FirstFile(FilesOfKey(keys[i], lang), keys[i].name, probe).Some?
                                       <==> HasEntry(keys[i], lang, probe) {
      FirstFileHasEntry(keys[i], lang, probe);
    }
    if SimplePathsAreShort(aliases, start) {
      forall key ensures key in keys <==> Reachable(aliases, start, key) {
        ExpansionIsClosure(start, aliases, key);
      }
    }
  }
}
