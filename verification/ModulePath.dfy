/**
  Translating between dotted module names and file paths, driven by the templates of a language, and
  resolving relative imports.
*/
module ModulePath {
  import opened Wrappers
  import opened Text

  // `Around(prefix, suffix)` is the template prefix + "{module}" + suffix; a fixed one has no
  // placeholder.
  datatype Template = Around(prefix: string, suffix: string) | Fixed(path: string)

  function Expand(t: Template, base: string): string {
    match t
    case Around(prefix, suffix) => prefix + base + suffix
    case Fixed(path) => path
  }

  function CandidateFiles(name: string, sep: char, templates: seq<Template>): seq<string> {
    var cleaned := StripLeading(name, sep);
    if cleaned == "" then []
    else
      var base := Replace(cleaned, sep, '/');
      seq(|templates|, i requires 0 <= i < |templates| => Expand(templates[i], base))
  }

  // A template that the inverse looks at and that fits the file.
  predicate Fits(t: Template, file: string) {
    t.Around? && t.prefix == "" && EndsWith(file, t.suffix)
  }

  // The longest fitting suffix.
  function BestSuffix(file: string, templates: seq<Template>): Option<string> {
    if templates == [] then None
    else
      var best, t := BestSuffix(file, templates[..|templates| - 1]), templates[|templates| - 1];
      if Fits(t, file) && (best.None? || |t.suffix| > |best.value|) then Some(t.suffix) else best
  }

  function StemOf(file: string, suffix: string): string
    requires EndsWith(file, suffix)
  {
    file[..|file| - |suffix|]
  }

  lemma {:induction false} BestSuffixIsLongest(file: string, templates: seq<Template>)
    ensures BestSuffix(file, templates).None? <==> forall t :: t in templates ==> !Fits(t, file)
    ensures var best := BestSuffix(file, templates);
            best.Some? ==> EndsWith(file, best.value)
                           && (exists t :: t in templates && Fits(t, file) && t.suffix == best.value)
                           && forall t :: t in templates && Fits(t, file) ==> |t.suffix| <= |best.value|
  {
    if templates != [] {
      var n := |templates| - 1;
      BestSuffixIsLongest(file, templates[..n]);
      assert templates == templates[..n] + [templates[n]];
      assert templates[n] in templates;
      var best := BestSuffix(file, templates[..n]);
      if best.Some? {
        var t :| t in templates[..n] && Fits(t, file) && t.suffix == best.value;
        assert t in templates;
      }
    }
  }

  // "" if no template fits.
  function ModuleOf(file: string, sep: char, templates: seq<Template>): string {
    BestSuffixIsLongest(file, templates);
    var best := BestSuffix(file, templates);
    if best.None? then "" else Replace(StemOf(file, best.value), '/', sep)
  }

  // The file without the longest suffix that fits, slashes turned into separators; nothing if none fits.
  lemma ModuleIsExact(file: string, sep: char, templates: seq<Template>)
    ensures var name := ModuleOf(file, sep, templates);
            && (forall t :: IsLongest(t, file, templates) ==> IsRespelled(name, file[..|file| - |t.suffix|], sep))
            && ((forall t :: t in templates ==> !Strips(t, file)) ==> name == "")
  {
    BestSuffixIsLongest(file, templates);
    forall t: Template ensures Strips(t, file) <==> Fits(t, file) {
      if Fits(t, file) {
        assert file == file[..|file| - |t.suffix|] + t.suffix;
      }
    }
  }

  // The template is a star followed by what the file ends in.
  ghost predicate Strips(t: Template, file: string) {
    t.Around? && t.prefix == "" && exists stem :: file == stem + t.suffix
  }

  ghost predicate IsLongest(t: Template, file: string, templates: seq<Template>) {
    t in templates && Strips(t, file) && forall u :: u in templates && Strips(u, file) ==> |u.suffix| <= |t.suffix|
  }

  ghost predicate IsRespelled(name: string, stem: string, sep: char) {
    |name| == |stem| && forall i :: 0 <= i < |stem| ==> name[i] == if stem[i] == '/' then sep else stem[i]
  }

  method InitFileToModule(file: string, sep: char, templates: seq<Template>) returns (name: string)
    ensures name == ModuleOf(file, sep, templates)
  {
    var bestSuffix: int, bestBase := -1, "";
    for i := 0 to |templates|
      invariant var best := BestSuffix(file, templates[..i]);
                if best.None? then bestSuffix == -1
                else bestSuffix == |best.value| && EndsWith(file, best.value) && bestBase == StemOf(file, best.value)
    {
      assert templates[..i + 1][..i] == templates[..i];
      if templates[i].Fixed? || templates[i].prefix != "" {
        continue;
      }
      var suffix := templates[i].suffix;
      if !EndsWith(file, suffix) || |suffix| <= bestSuffix {
        continue;
      }
      bestSuffix := |suffix|;
      bestBase := file[..|file| - |suffix|];
    }
    assert templates[..|templates|] == templates;
    name := if bestSuffix < 0 then "" else Replace(bestBase, '/', sep);
  }

  /******* Round trips *******/

  predicate IsModuleName(name: string, sep: char) {
    name != "" && name[0] != sep && (sep != '/' ==> '/' !in name)
  }

  // No template fits the file with a longer suffix.
  ghost predicate LongestSuffix(file: string, suffix: string, templates: seq<Template>) {
    forall u :: u in templates && Fits(u, file) ==> |u.suffix| <= |suffix|
  }

  // A candidate of a module leads back to the module exactly when no longer suffix fits it too.
  lemma {:induction false} CandidateLeadsBackExactlyWhen(name: string, sep: char, templates: seq<Template>, t: Template)
    requires IsModuleName(name, sep) && t in templates && t.Around? && t.prefix == ""
    ensures var file := Expand(t, Replace(name, sep, '/'));
            && file in CandidateFiles(name, sep, templates)
            && (ModuleOf(file, sep, templates) == name <==> LongestSuffix(file, t.suffix, templates))
  {
    var base := Replace(name, sep, '/');
    var file := Expand(t, base);
    assert "" + base == base;
    assert file == base + t.suffix && Fits(t, file);
    var i :| 0 <= i < |templates| && templates[i] == t;
    assert CandidateFiles(name, sep, templates)[i] == file;
    BestSuffixIsLongest(file, templates);
    var best := BestSuffix(file, templates).value;
    if |best| == |t.suffix| {
      assert StemOf(file, best) == base;
      assert Replace(base, '/', sep) == name;
    } else {
      assert |best| > |t.suffix|;
      assert |ModuleOf(file, sep, templates)| < |name|;
    }
  }

  lemma {:induction false} StripShortens(s: string, c: char)
    ensures |StripLeading(s, c)| <= |s|
    ensures |StripLeading(s, c)| == |s| <==> s == "" || s[0] != c
    ensures |StripLeading(s, c)| == |s| ==> StripLeading(s, c) == s
  {
    if s != "" && s[0] == c {
      StripShortens(s[1..], c);
    }
  }

  // Replacing slashes and back restores a stem exactly when it holds no separator.
  lemma ReplaceRoundTrip(stem: string, sep: char)
    ensures Replace(Replace(stem, '/', sep), sep, '/') == stem <==> sep == '/' || sep !in stem
  {
    var back := Replace(Replace(stem, '/', sep), sep, '/');
    if sep != '/' && sep in stem {
      var i :| 0 <= i < |stem| && stem[i] == sep;
      assert back[i] == '/';
    } else if sep != '/' {
      assert forall i :: 0 <= i < |stem| ==> stem[i] != sep;
      assert back == stem;
    } else {
      assert back == stem;
    }
  }

  predicate CleanStem(stem: string, sep: char) {
    stem != "" && stem[0] != '/' && (sep == '/' || sep !in stem)
  }

  lemma CleanStemLeadsBack(stem: string, t: Template, sep: char, templates: seq<Template>)
    requires t in templates && t.Around? && t.prefix == "" && CleanStem(stem, sep)
    ensures stem + t.suffix in CandidateFiles(Replace(stem, '/', sep), sep, templates)
  {
    var name := Replace(stem, '/', sep);
    assert name[0] != sep;
    ReplaceRoundTrip(stem, sep);
    var i :| 0 <= i < |templates| && templates[i] == t;
    assert "" + stem + t.suffix == stem + t.suffix;
    assert CandidateFiles(name, sep, templates)[i] == stem + t.suffix;
  }

  // A candidate as long as the stem it was made from can only be the stem itself.
  lemma CandidateHasCleanStem(stem: string, best: string, sep: char, u: Template, templates: seq<Template>)
    requires u in templates && IsPlain(u) && LongestSuffix(stem + best, best, templates)
    requires StripLeading(Replace(stem, '/', sep), sep) != ""
    requires Expand(u, Replace(StripLeading(Replace(stem, '/', sep), sep), sep, '/')) == stem + best
    ensures CleanStem(stem, sep)
  {
    var name, file := Replace(stem, '/', sep), stem + best;
    var base := Replace(StripLeading(name, sep), sep, '/');
    StripShortens(name, sep);
    SuffixOfConcat(base, u.suffix);
    assert file == base + u.suffix && Fits(u, file);
    SameSplit(stem, best, base, u.suffix);
    CleanedStemIsClean(stem, sep);
  }

  lemma SuffixOfConcat(base: string, suffix: string)
    ensures "" + base + suffix == base + suffix
    ensures EndsWith(base + suffix, suffix)
  {
  }

  lemma SameSplit(a: string, b: string, c: string, d: string)
    requires a + b == c + d && |c| <= |a| && |d| <= |b|
    ensures a == c
  {
    assert |a + b| == |c + d|;
    assert (a + b)[..|a|] == a && (c + d)[..|c|] == c;
  }

  // Stripping and replacing back gives the stem only if there was nothing to strip.
  lemma CleanedStemIsClean(stem: string, sep: char)
    requires StripLeading(Replace(stem, '/', sep), sep) != ""
    requires Replace(StripLeading(Replace(stem, '/', sep), sep), sep, '/') == stem
    ensures CleanStem(stem, sep)
  {
    var name := Replace(stem, '/', sep);
    StripShortens(name, sep);
    ReplaceRoundTrip(stem, sep);
    assert stem != "" && name[0] == if stem[0] == '/' then sep else stem[0];
  }

  predicate IsPlain(t: Template) {
    t.Around? && t.prefix == ""
  }

  // Templates that the inverse does not look at: fixed ones, and those with text before the module.
  predicate MadeByAnother(file: string, name: string, sep: char, templates: seq<Template>) {
    StripLeading(name, sep) != ""
    && exists t :: t in templates && !IsPlain(t) && Expand(t, Replace(StripLeading(name, sep), sep, '/')) == file
  }

  lemma CandidatesAreExpansions(file: string, name: string, sep: char, templates: seq<Template>)
    ensures file in CandidateFiles(name, sep, templates)
       <==> StripLeading(name, sep) != ""
            && exists t :: t in templates && Expand(t, Replace(StripLeading(name, sep), sep, '/')) == file
  {
    var candidates := CandidateFiles(name, sep, templates);
    if file in candidates {
      var i :| 0 <= i < |candidates| && candidates[i] == file;
      assert templates[i] in templates;
    }
    if t :| StripLeading(name, sep) != "" && t in templates
            && Expand(t, Replace(StripLeading(name, sep), sep, '/')) == file {
      var i :| 0 <= i < |templates| && templates[i] == t;
      assert candidates[i] == file;
    }
  }

  // A fitting file is among the candidates of its module exactly when its stem is not empty, does not
  // start with a slash and holds no separator, or when a template that the inverse ignores happens to make
  // it.
  lemma FileIsCandidateOfItsModuleExactlyWhen(file: string, sep: char, templates: seq<Template>)
    requires BestSuffix(file, templates).Some?
    ensures EndsWith(file, BestSuffix(file, templates).value)
    ensures var name := ModuleOf(file, sep, templates);
            file in CandidateFiles(name, sep, templates)
            <==> || CleanStem(StemOf(file, BestSuffix(file, templates).value), sep)
                 || MadeByAnother(file, name, sep, templates)
  {
    BestSuffixIsLongest(file, templates);
    var best := BestSuffix(file, templates).value;
    var stem, name := StemOf(file, best), ModuleOf(file, sep, templates);
    assert file == stem + best;
    CandidatesAreExpansions(file, name, sep, templates);
    if CleanStem(stem, sep) {
      var t :| t in templates && Fits(t, file) && t.suffix == best;
      CleanStemLeadsBack(stem, t, sep, templates);
    }
    if file in CandidateFiles(name, sep, templates) && !MadeByAnother(file, name, sep, templates) {
      var u :| u in templates && Expand(u, Replace(StripLeading(name, sep), sep, '/')) == file;
      CandidateHasCleanStem(stem, best, sep, u, templates);
    }
  }

  /******* Relative imports *******/

  // The module an import names, seen from a package.
  function TargetModule(target: string, level: int, package: string, sep: char): string {
    var parts := Split(package, sep);
    if level <= 0 || level > |parts| then target
    else
      var anchor := Join(parts[..|parts| - level + 1], sep);
      if target != "" then anchor + [sep] + target else anchor
  }

  // One dot is the package itself.
  lemma OneDotIsThePackage(target: string, package: string, sep: char)
    ensures TargetModule(target, 1, package, sep) == if target == "" then package else package + [sep] + target
  {
    var parts := Split(package, sep);
    assert parts[..|parts|] == parts;
    JoinOfSplit(package, sep);
  }

  // Each further dot climbs to the parent package.
  lemma {:induction false} AnotherDotClimbs(target: string, level: int, package: string, leaf: string, sep: char)
    requires level >= 1 && sep !in leaf
    ensures TargetModule(target, level + 1, package + [sep] + leaf, sep) == TargetModule(target, level, package, sep)
  {
    SplitConcat(package, leaf, sep);
    SplitWithout(leaf, sep);
    var parts, longer := Split(package, sep), Split(package + [sep] + leaf, sep);
    assert longer == parts + [leaf];
    if level <= |parts| {
      assert longer[..|longer| - (level + 1) + 1] == parts[..|parts| - level + 1];
    }
  }

  // Without dots the target stands for itself.  Climbing higher than the package is deep does not fail, as
  // the language says it must, but falls back to the bare target; and a target is left bare in no other case.
  lemma ClimbingOutFallsBackExactlyWhen(target: string, level: int, package: string, sep: char)
    ensures level <= 0 || level > |Split(package, sep)| ==> TargetModule(target, level, package, sep) == target
    ensures target != "" && TargetModule(target, level, package, sep) == target ==>
              level <= 0 || level > |Split(package, sep)|
  {
    var parts := Split(package, sep);
    if 0 < level <= |parts| && target != "" {
      var anchor := Join(parts[..|parts| - level + 1], sep);
      assert |anchor + [sep] + target| > |target|;
    }
  }
}
