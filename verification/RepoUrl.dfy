/**
  The canonical form of a repository url, which keys the metadata rows.  The service canonicalises every
  url it is given, also those it has handed out in canonical form itself.
*/
module RepoUrl {
  import opened Wrappers
  import opened GithubWorld
  import opened Text

  predicate IsAlnum(c: char) {
    'A' <= c <= 'Z' || 'a' <= c <= 'z' || '0' <= c <= '9'
  }

  // A letter or digit, then letters, digits and `._-`.
  predicate IsSlug(s: string) {
    s != "" && IsAlnum(s[0]) && forall i :: 1 <= i < |s| ==> IsAlnum(s[i]) || s[i] in {'.', '_', '-'}
  }

  // `owner/name`.
  predicate IsSlugPair(s: string) {
    var parts := Split(s, '/');
    |parts| == 2 && IsSlug(parts[0]) && IsSlug(parts[1])
  }

  // The pattern's end anchor also matches before a final newline.
  predicate IsShortForm(s: string) {
    IsSlugPair(s) || (s != "" && s[|s| - 1] == '\n' && IsSlugPair(s[..|s| - 1]))
  }

  predicate Contains(s: string, part: string) {
    |part| <= |s| && (s[..|part|] == part || Contains(s[1..], part))
  }

  // Anything with a scheme, a host or a path in front is taken as it is.
  predicate IsVerbatim(s: string) {
    Contains(s, "://") || '@' in s || (s != "" && s[0] in {'/', '.', '~'})
  }

  function DropSuffix(s: string, suffix: string): string {
    if EndsWith(s, suffix) then s[..|s| - |suffix|] else s
  }

  function Trimmed(value: string): string {
    DropSuffix(StripTrailing(Strip(value), '/'), ".git")
  }

  // None stands for the error about an invalid repository.
  function Normalize(value: string): Option<Url> {
    var s := Trimmed(value);
    if IsVerbatim(s) then Some(s)
    else if IsShortForm(s) then Some("https://github.com/" + s)
    else None
  }

  // Nothing is left to trim.
  predicate IsTrimmed(s: string) {
    s != "" ==> !IsSpace(s[0]) && !IsSpace(s[|s| - 1]) && s[|s| - 1] != '/' && !EndsWith(s, ".git")
  }

  lemma {:induction false} TrimRightShortens(s: string)
    ensures TrimRight(s) <= s
    ensures |TrimRight(s)| == |s| <==> s == "" || !IsSpace(s[|s| - 1])
  {
    if s != "" && IsSpace(s[|s| - 1]) {
      TrimRightShortens(s[..|s| - 1]);
    }
  }

  lemma {:induction false} StripStartsClean(s: string)
    ensures |Strip(s)| <= |s|
    ensures |Strip(s)| == |s| ==> Strip(s) == s
    ensures |Strip(s)| == |s| <==> s == "" || (!IsSpace(s[0]) && !IsSpace(s[|s| - 1]))
    ensures Strip(s) != "" ==> !IsSpace(Strip(s)[0])
  {
    if s != "" && IsSpace(s[0]) {
      StripStartsClean(s[1..]);
    } else {
      TrimRightShortens(s);
    }
  }

  lemma {:induction false} StripTrailingShortens(s: string, c: char)
    ensures StripTrailing(s, c) <= s
    ensures |StripTrailing(s, c)| == |s| <==> s == "" || s[|s| - 1] != c
  {
    if s != "" && s[|s| - 1] == c {
      StripTrailingShortens(s[..|s| - 1], c);
    }
  }

  lemma TrimmedIsStableExactlyWhen(s: string)
    ensures |Trimmed(s)| <= |s|
    ensures Trimmed(s) == s <==> IsTrimmed(s)
    ensures Trimmed(s) != "" ==> !IsSpace(Trimmed(s)[0])
  {
    StripStartsClean(s);
    StripTrailingShortens(Strip(s), '/');
    if Trimmed(s) == s {
      assert |Strip(s)| == |s| && Strip(s) == s;
      assert |StripTrailing(s, '/')| == |s|;
    }
  }

  lemma ShortFormsAreNotVerbatim(s: string)
    requires IsShortForm(s)
    ensures IsVerbatim("https://github.com/" + s)
  {
    assert "https://github.com/" == "https" + "://" + "github.com/";
    SchemeIsVerbatim("https", "github.com/" + s);
    assert "https" + "://" + ("github.com/" + s) == "https://github.com/" + s;
  }

  lemma SchemeIsVerbatim(scheme: string, rest: string)
    ensures IsVerbatim(scheme + "://" + rest)
  {
    var url := scheme + "://" + rest;
    assert url[|scheme|..] == "://" + rest;
    assert url[|scheme|..][..3] == "://";
    ContainsAt(url, "://", |scheme|);
  }

  lemma {:induction false} ContainsAt(s: string, part: string, i: nat)
    requires i <= |s| && |part| <= |s[i..]| && s[i..][..|part|] == part
    ensures Contains(s, part)
  {
    if i > 0 {
      assert s[1..][i - 1..] == s[i..];
      ContainsAt(s[1..], part, i - 1);
    } else {
      assert s[0..] == s;
    }
  }

  lemma ShortFormShape(s: string)
    requires IsShortForm(s)
    ensures '/' in s && ':' !in s
  {
    if IsSlugPair(s) {
      SlugPairShape(s);
    } else {
      SlugPairShape(s[..|s| - 1]);
      assert s == s[..|s| - 1] + ['\n'];
    }
  }

  lemma SlugPairShape(s: string)
    requires IsSlugPair(s)
    ensures '/' in s && ':' !in s
  {
    var parts := Split(s, '/');
    JoinOfSplit(s, '/');
    assert parts[..1] == [parts[0]];
    assert s == parts[0] + ['/'] + parts[1];
    assert s[|parts[0]|] == '/';
  }

  lemma TrimmedIsPrefix(s: string)
    requires s == "" || !IsSpace(s[0])
    ensures Trimmed(s) <= s
  {
    TrimRightShortens(s);
    StripTrailingShortens(TrimRight(s), '/');
  }

  // The prefix of a canonical url is not taken for a short form of the same url.
  lemma PrefixIsNotShortForm(s: string, url: string)
    requires s <= url && url == "https://github.com/" + s
    ensures !IsShortForm(s)
  {
    assert |s| > 5 ==> s[5] == url[5];
    assert forall i :: 0 <= i < |s| && i < 5 ==> s[i] == "https"[i];
    if IsShortForm(s) {
      ShortFormShape(s);
    }
  }

  // A canonical url is its own canonical form exactly when it ends neither in a slash, nor in a space, nor
  // in ".git".  One that does, "https://host/x.git" from "https://host/x.git.git" for one, is sent on to
  // another url by every later call.
  lemma NormalizeIsStableExactlyWhen(value: string)
    requires Normalize(value).Some?
    ensures var url := Normalize(value).value;
            Normalize(url) == Some(url) <==> IsTrimmed(url)
  {
    var s, url := Trimmed(value), Normalize(value).value;
    TrimmedIsStableExactlyWhen(value);
    TrimmedIsStableExactlyWhen(url);
    if !IsVerbatim(s) {
      ShortFormsAreNotVerbatim(s);
    }
    TrimmedIsPrefix(url);
    if url == "https://github.com/" + Trimmed(url) {
      PrefixIsNotShortForm(Trimmed(url), url);
    }
  }

  lemma {:induction false} ContainsNeedsItsFirst(s: string, part: string)
    requires part != "" && part[0] !in s
    ensures !Contains(s, part)
  {
    if |part| <= |s| {
      assert s[0] in s && s[..|part|][0] == s[0];
      ContainsNeedsItsFirst(s[1..], part);
    }
  }

  lemma SlugEnds(s: string)
    requires IsSlug(s)
    ensures !IsSpace(s[0]) && !IsSpace(s[|s| - 1]) && s[0] !in {'/', '.', '~'} && s[|s| - 1] != '/'
    ensures '/' !in s && ':' !in s && '@' !in s
  {
    assert forall i :: 0 <= i < |s| ==> IsAlnum(s[i]) || s[i] in {'.', '_', '-'};
  }

  lemma SlugPair(owner: string, name: string)
    requires IsSlug(owner) && IsSlug(name)
    ensures IsSlugPair(owner + "/" + name) && !IsVerbatim(owner + "/" + name)
  {
    var s := owner + ['/'] + name;
    SlugEnds(owner);
    SlugEnds(name);
    SplitConcat(owner, name, '/');
    SplitWithout(owner, '/');
    SplitWithout(name, '/');
    assert s == owner + "/" + name && s[0] == owner[0];
    ContainsNeedsItsFirst(s, "://");
  }

  // The accepted spellings of one repository have one canonical form, which is stable.
  lemma SpellingsAgree(owner: string, name: string)
    requires IsSlug(owner) && IsSlug(name) && !EndsWith(name, ".git")
    ensures var url := "https://github.com/" + owner + "/" + name;
            && Normalize(owner + "/" + name) == Some(url) && Normalize(url) == Some(url)
            && Normalize(url + ".git") == Some(url) && Normalize(url + "/") == Some(url)
  {
    var s, url := owner + "/" + name, "https://github.com/" + owner + "/" + name;
    SlugPair(owner, name);
    SlugEnds(owner);
    SlugEnds(name);
    assert url == "https://github.com/" + s;
    ShortFormsAreNotVerbatim(s);
    NoGitAtTheEnd(owner + "/", name);
    NoGitAtTheEnd("https://github.com/" + owner + "/", name);
    assert s[|s| - 1] == url[|url| - 1] == name[|name| - 1] && s[0] == owner[0] && url[0] == 'h';
    TrimmedIsStableExactlyWhen(s);
    TrimmedIsStableExactlyWhen(url);
    TrimmedDrops(url);
  }

  lemma NoGitAtTheEnd(before: string, name: string)
    requires IsSlug(name) && !EndsWith(name, ".git") && before != "" && before[|before| - 1] == '/'
    ensures !EndsWith(before + name, ".git")
  {
    var s := before + name;
    if |name| >= 4 {
      assert s[|s| - 4..] == name[|name| - 4..];
    } else {
      assert forall i :: 0 <= i < 4 ==> ".git"[i] != '/';
      assert |s| >= 4 ==> s[|s| - 4..][3 - |name|] == '/';
    }
  }

  // A suffix that the service strips does not show.
  lemma TrimmedDrops(url: string)
    requires url != "" && IsTrimmed(url)
    ensures Trimmed(url + ".git") == url && Trimmed(url + "/") == url
  {
    var git, slash := url + ".git", url + "/";
    StripStartsClean(git);
    StripStartsClean(slash);
    StripTrailingShortens(git, '/');
    StripTrailingShortens(url, '/');
    assert git[|git| - 1] == 't' && git[|git| - 4..] == ".git" && git[..|git| - 4] == url;
    assert slash[..|slash| - 1] == url;
    assert StripTrailing(slash, '/') == StripTrailing(url, '/') == url;
  }

  // What a trimmed value becomes: itself if it has a scheme or an "@", or starts like a path; the url of
  // GitHub if it is an owner and a name with a slash between; nothing otherwise.
  lemma NormalizedIsExact(s: string)
    requires IsTrimmed(s)
    ensures HasScheme(s) || '@' in s || (s != "" && s[0] in {'/', '.', '~'}) ==> Normalize(s) == Some(s)
    ensures !(HasScheme(s) || '@' in s || (s != "" && s[0] in {'/', '.', '~'})) ==>
              Normalize(s) == if OwnerAndName(s) then Some("https://github.com/" + s) else None
  {
    TrimmedIsStableExactlyWhen(s);
    SchemeIsContained(s);
    if IsSlugPair(s) {
      var parts := Split(s, '/');
      JoinOfSplit(s, '/');
      assert parts[..1] == [parts[0]];
      assert s == parts[0] + ['/'] + parts[1];
      SlugsAreWords(parts[0]);
      SlugsAreWords(parts[1]);
      assert OwnerAndName(s);
    }
    if owner, name :| IsWord(owner) && IsWord(name) && s == owner + "/" + name {
      SlugsAreWords(owner);
      SlugsAreWords(name);
      SlugPair(owner, name);
    }
  }

  ghost predicate HasScheme(s: string) {
    exists before, rest :: s == before + "://" + rest
  }

  ghost predicate OwnerAndName(s: string) {
    exists owner, name :: IsWord(owner) && IsWord(name) && s == owner + "/" + name
  }

  // A letter or digit in front, and nothing but those, dots, underscores and hyphens.
  ghost predicate IsWord(s: string) {
    s != "" && s[0] !in {'.', '_', '-'}
    && forall c :: c in s ==> 'A' <= c <= 'Z' || 'a' <= c <= 'z' || '0' <= c <= '9' || c in {'.', '_', '-'}
  }

  lemma SlugsAreWords(s: string)
    ensures IsSlug(s) <==> IsWord(s)
  {
    if IsWord(s) {
      forall i | 0 <= i < |s| ensures IsAlnum(s[i]) || (i > 0 && s[i] in {'.', '_', '-'}) {
        assert s[i] in s;
      }
    }
  }

  lemma SchemeIsContained(s: string)
    ensures Contains(s, "://") <==> HasScheme(s)
  {
    if Contains(s, "://") {
      var i := PlaceOf(s, "://");
      assert s == s[..i] + "://" + s[i + 3..];
    }
    if before, rest :| s == before + "://" + rest {
      assert s[|before|..] == "://" + rest && s[|before|..][..3] == "://";
      ContainsAt(s, "://", |before|);
    }
  }

  lemma {:induction false} PlaceOf(s: string, part: string) returns (i: nat)
    requires Contains(s, part)
    ensures i + |part| <= |s| && s[i..i + |part|] == part
  {
    if s[..|part|] == part {
      i := 0;
    } else {
      var j := PlaceOf(s[1..], part);
      i := j + 1;
      assert s[i..i + |part|] == s[1..][j..j + |part|];
    }
  }

  // How `ensure_fresh` ends: `Invalid` stands for the ValueError about the url itself, which is not one of
  // the errors that the extraction survives.
  datatype FetchOutcome = Invalid | Answered(world: World, clone: Option<CloneResult>)

  function FetchUrl(w: World, value: string, git: Url -> GitReply): FetchOutcome {
    match Normalize(value)
    case None => Invalid
    case Some(url) => var (after, clone) := EnsureFresh(w, url, git(url)); Answered(after, clone)
  }

  // A registered url reaches its own row exactly when it is trimmed.  Otherwise the call is turned away as
  // invalid, or it is about another url: unless that one is registered too, the fetch fails and leaves
  // everything as it was.
  lemma RegisteredUrlIsFetchedExactlyWhen(w: World, value: string, path: Path, branch: string,
      git: Url -> GitReply)
    requires Normalize(value).Some?
    ensures var url := Normalize(value).value;
            var added := AddRepo(w, url, path, branch);
            && (IsTrimmed(url) <==> Normalize(url) == Some(url))
            && (IsTrimmed(url) ==>
                  var (after, clone) := EnsureFresh(added, url, git(url));
                  FetchUrl(added, url, git) == Answered(after, clone))
            && (!IsTrimmed(url) && Normalize(url).None? ==> FetchUrl(added, url, git) == Invalid)
            && (!IsTrimmed(url) && Normalize(url).Some? && Normalize(url).value !in w.rows ==>
                  FetchUrl(added, url, git) == Answered(added, None))
  {
    NormalizeIsStableExactlyWhen(value);
  }

  // A second ".git" is dropped by the next call, so the repository is looked for under a url that nobody
  // registered.
  lemma DoubledSuffixExample(rest: string)
    requires rest == "host/x/y"
    ensures var url := "https" + "://" + rest;
            Normalize(url + ".git" + ".git") == Some(url + ".git") && Normalize(url + ".git") == Some(url)
  {
    var url := "https" + "://" + rest;
    assert url[0] == 'h' && url[|url| - 1] == rest[7] == 'y';
    assert |url| >= 4 && url[|url| - 4..][3] == 'y' && ".git"[3] == 't';
    TwoGits(url);
    SchemeIsVerbatim("https", rest);
    SchemeIsVerbatim("https", rest + ".git");
    assert "https" + "://" + (rest + ".git") == url + ".git";
  }

  lemma TwoGits(url: string)
    requires url != "" && IsTrimmed(url)
    ensures Trimmed(url + ".git" + ".git") == url + ".git" && Trimmed(url + ".git") == url
  {
    var git := url + ".git";
    var twice := git + ".git";
    TrimmedDrops(url);
    StripStartsClean(twice);
    StripTrailingShortens(twice, '/');
    assert twice[|twice| - 1] == 't' && twice[|twice| - 4..] == ".git" && twice[..|twice| - 4] == git;
  }

  // Registered with owner and name given, as ".git" by its canonical form, a repository makes every later
  // extraction end in an error.
  lemma InvalidOnTheSecondCallExample()
    ensures Normalize(".git.git") == Some(".git") && Normalize(".git") == None
  {
    var git := ".git";
    var twice := git + git;
    assert twice == ".git.git" && git[0] == '.' && git[3] == 't';
    assert twice[|twice| - 1] == 't' && twice[0] == '.';
    StripStartsClean(git);
    StripStartsClean(twice);
    StripTrailingShortens(git, '/');
    StripTrailingShortens(twice, '/');
    assert Trimmed(git) == "" && Trimmed(twice) == git;
    assert Split("", '/') == [""];
  }
}
