/**
  Which edges the PL/SQL resolver draws, and which procedure a qualified call goes to, told from the trees
  and the artifacts alone.
*/
module OracleEdges {
  import opened Wrappers
  import opened Artifacts
  import opened EnclosingLookup
  import opened OracleCalls
  import opened Text

  /******* The procedure a qualified call goes to *******/

  ghost predicate IsFirstIn(artifacts: seq<Artifact>, pkg: string, name: string, i: int) {
    && 0 <= i < |artifacts| && InPackage(artifacts[i], pkg, name)
    && forall j :: 0 <= j < i ==> !InPackage(artifacts[j], pkg, name)
  }

  ghost predicate IsLastIn(artifacts: seq<Artifact>, repo: string, pkg: string, name: string, i: int) {
    && 0 <= i < |artifacts| && InPackage(artifacts[i], pkg, name) && artifacts[i].repo == repo
    && forall j :: i < j < |artifacts| ==> !(InPackage(artifacts[j], pkg, name) && artifacts[j].repo == repo)
  }

  // The first entry of the pair.
  function FirstEntry(entries: seq<PkgEntry>, pkg: string, name: string): Option<PkgEntry> {
    if entries == [] then None
    else if entries[0].key.pkg == pkg && entries[0].key.name == name then Some(entries[0])
    else FirstEntry(entries[1..], pkg, name)
  }

  lemma {:induction false} FirstEntryGivesId(entries: seq<PkgEntry>, pkg: string, name: string)
    ensures var e := FirstEntry(entries, pkg, name);
            FirstInAnyRepo(entries, pkg, name) == if e.Some? then Some(e.value.id) else None
  {
    if entries != [] {
      FirstEntryGivesId(entries[1..], pkg, name);
    }
  }

  // Setting a key changes the first entry of its own pair if that has the key, or if there was none.
  lemma {:induction false} FirstEntryOfSet(entries: seq<PkgEntry>, key: PkgKey, id: string, pkg: string, name: string)
    ensures var before := FirstEntry(entries, pkg, name);
            FirstEntry(Set(entries, key, id), pkg, name)
            == if key.pkg == pkg && key.name == name && (before.None? || before.value.key == key)
               then Some(PkgEntry(key, id)) else before
  {
    if entries != [] {
      FirstEntryOfSet(entries[1..], key, id, pkg, name);
    }
  }

  lemma {:induction false} GetOfSet(entries: seq<PkgEntry>, key: PkgKey, id: string, k: PkgKey)
    ensures Get(Set(entries, key, id), k) == if k == key then Some(id) else Get(entries, k)
  {
    if entries != [] {
      GetOfSet(entries[1..], key, id, k);
    }
  }

  // The index has under a key of a package the procedure listed last there.
  lemma {:induction false} OwnPackageIsExact(artifacts: seq<Artifact>, repo: string, pkg: string, name: string)
    ensures var hit := Get(IndexOf(artifacts).byPkg, PkgKey(repo, pkg, name));
            if hit.None? then forall i :: !IsLastIn(artifacts, repo, pkg, name, i)
            else exists i :: IsLastIn(artifacts, repo, pkg, name, i) && artifacts[i].id == hit.value
  {
    if artifacts != [] {
      var n := |artifacts| - 1;
      var init, last := artifacts[..n], artifacts[n];
      OwnPackageIsExact(init, repo, pkg, name);
      var key := PkgKey(last.repo, PkgFromId(last.id), Lower(last.name));
      GetOfSet(IndexOf(init).byPkg, key, last.id, PkgKey(repo, pkg, name));
      LastInSnoc(init, last, repo, pkg, name);
      assert artifacts == init + [last];
      if InPackage(last, pkg, name) && last.repo == repo {
        assert IsLastIn(artifacts, repo, pkg, name, n);
      }
    }
  }

  lemma LastInSnoc(init: seq<Artifact>, last: Artifact, repo: string, pkg: string, name: string)
    ensures !(InPackage(last, pkg, name) && last.repo == repo) ==>
              forall i :: IsLastIn(init + [last], repo, pkg, name, i) <==> IsLastIn(init, repo, pkg, name, i)
  {
    var all := init + [last];
    if !(InPackage(last, pkg, name) && last.repo == repo) {
      forall i ensures IsLastIn(all, repo, pkg, name, i) <==> IsLastIn(init, repo, pkg, name, i) {
        if IsLastIn(all, repo, pkg, name, i) {
          assert forall j :: i < j < |init| ==> init[j] == all[j];
        }
      }
    }
  }

  // Outside the own repository: the repository is that of the first procedure listed in the package, and the
  // procedure is the last one listed there.
  lemma {:induction false} AnyPackageIsExact(artifacts: seq<Artifact>, pkg: string, name: string)
    ensures var hit := FirstEntry(IndexOf(artifacts).byPkg, pkg, name);
            if hit.None? then forall i :: !IsFirstIn(artifacts, pkg, name, i)
            else exists i, l ::
              && IsFirstIn(artifacts, pkg, name, i) && IsLastIn(artifacts, artifacts[i].repo, pkg, name, l)
              && hit.value == PkgEntry(PkgKey(artifacts[i].repo, pkg, name), artifacts[l].id)
  {
    if artifacts != [] {
      var n := |artifacts| - 1;
      var init, last := artifacts[..n], artifacts[n];
      AnyPackageIsExact(init, pkg, name);
      var key := PkgKey(last.repo, PkgFromId(last.id), Lower(last.name));
      FirstEntryOfSet(IndexOf(init).byPkg, key, last.id, pkg, name);
      assert artifacts == init + [last];
      forall i | IsFirstIn(init, pkg, name, i) ensures IsFirstIn(artifacts, pkg, name, i) {
      }
      var before := FirstEntry(IndexOf(init).byPkg, pkg, name);
      if before.Some? {
        var i, l :|
          && IsFirstIn(init, pkg, name, i) && IsLastIn(init, init[i].repo, pkg, name, l)
          && before.value == PkgEntry(PkgKey(init[i].repo, pkg, name), init[l].id);
        LastInSnoc(init, last, init[i].repo, pkg, name);
        if InPackage(last, pkg, name) && last.repo == init[i].repo {
          assert IsLastIn(artifacts, last.repo, pkg, name, n);
        } else {
          assert IsLastIn(artifacts, artifacts[i].repo, pkg, name, l);
        }
      } else {
        forall i | 0 <= i < n ensures !InPackage(init[i], pkg, name) {
          NoneIsFirst(init, pkg, name, i);
        }
        if InPackage(last, pkg, name) {
          assert IsFirstIn(artifacts, pkg, name, n) && IsLastIn(artifacts, last.repo, pkg, name, n);
        }
      }
    }
  }

  lemma {:induction false} NoneIsFirst(artifacts: seq<Artifact>, pkg: string, name: string, i: nat)
    requires i < |artifacts| && forall j :: !IsFirstIn(artifacts, pkg, name, j)
    ensures !InPackage(artifacts[i], pkg, name)
  {
    forall j | 0 <= j < i ensures !InPackage(artifacts[j], pkg, name) {
      NoneIsFirst(artifacts, pkg, name, j);
    }
    assert !IsFirstIn(artifacts, pkg, name, i);
  }

  ghost predicate GoesTo(artifacts: seq<Artifact>, repo: string, pkg: string, name: string, target: Option<string>) {
    if exists i :: IsLastIn(artifacts, repo, pkg, name, i) then
      exists i :: IsLastIn(artifacts, repo, pkg, name, i) && target == Some(artifacts[i].id)
    else if exists i :: IsFirstIn(artifacts, pkg, name, i) then
      exists i, l :: IsFirstIn(artifacts, pkg, name, i) && IsLastIn(artifacts, artifacts[i].repo, pkg, name, l)
                     && target == Some(artifacts[l].id)
    else target == None
  }

  lemma PackageIsExact(artifacts: seq<Artifact>, repo: string, pkg: string, name: string)
    ensures var byPkg := IndexOf(artifacts).byPkg;
            var hit := Get(byPkg, PkgKey(repo, pkg, name));
            GoesTo(artifacts, repo, pkg, name, if hit.Some? && hit.value != "" then hit
                                               else FirstInAnyRepo(byPkg, pkg, name))
  {
    OwnPackageIsExact(artifacts, repo, pkg, name);
    AnyPackageIsExact(artifacts, pkg, name);
    FirstEntryGivesId(IndexOf(artifacts).byPkg, pkg, name);
    LocalLookup(artifacts, repo, pkg, name);
  }

  // A qualified call goes to the procedure of the package that its own repository lists last; failing that, to
  // the one listed last by the repository that lists one first.
  lemma QualifiedCallIsExact(callee: string, repo: string, artifacts: seq<Artifact>, pkg: string, name: string)
    requires callee != "" && NamesPair(callee, pkg, name)
    ensures var index := IndexOf(artifacts);
            GoesTo(artifacts, repo, pkg, name, ResolveCall(callee, repo, index.byName, index.byPkg))
  {
    var index := IndexOf(artifacts);
    PackageIsExact(artifacts, repo, pkg, name);
    QualifiedLookup(callee, repo, index.byName, index.byPkg, pkg, name);
  }

  // The package and the name in a qualified text.
  predicate NamesPair(text: string, pkg: string, name: string) {
    var parts := Split(Lower(text), '.');
    |parts| >= 2 && parts[|parts| - 2] == pkg && parts[|parts| - 1] == name
  }

  // The stub for a qualified text is a procedure of that package in the repository "external", for another
  // text one without a package; it keeps the whole text as its name.
  lemma StubIsExact(text: string, pkg: string, name: string)
    requires NamesPair(text, pkg, name) || (pkg == "" && '.' !in Lower(text) && name == Lower(text))
    ensures var stub := Stub(text);
            && stub.id == "proc:external:" + pkg + ":" + name && stub.repo == "external" && stub.kind == Procedure
            && stub.name == Lower(text) && stub.file == "external:" + Lower(text) && stub.start == stub.end == 1
            && stub.calls == stub.readsFrom == stub.writesTo == []
  {
    if '.' !in Lower(text) {
      SplitWithout(Lower(text), '.');
    }
    KeyOfText(text);
    ExternalIdIsSpelled(pkg, name);
  }

  lemma ExternalIdIsSpelled(pkg: string, name: string)
    requires Lower(name) == name
    ensures StubIdOf(pkg, name) == "proc:external:" + pkg + ":" + name
  {
    JoinOfFour("proc", "external", pkg, name, ':');
    assert "proc" + [':'] + "external" + [':'] == "proc:external:";
  }

  lemma QualifiedLookup(callee: string, repo: string, byName: map<NameKey, string>, byPkg: seq<PkgEntry>, pkg: string,
      name: string)
    requires callee != "" && NamesPair(callee, pkg, name)
    ensures var hit := Get(byPkg, PkgKey(repo, pkg, name));
            ResolveCall(callee, repo, byName, byPkg)
            == if hit.Some? && hit.value != "" then hit else FirstInAnyRepo(byPkg, pkg, name)
  {
  }

  /******* Lookups while stubs come in *******/

  // The pairs of the input stay in front as they were; behind them stand pairs that the input does not know,
  // under the ids of their stubs.
  ghost predicate Extends(index: Index, p: Pass) {
    && |index.byPkg| <= |p.byPkg| && p.byPkg[..|index.byPkg|] == index.byPkg
    && forall k :: |index.byPkg| <= k < |p.byPkg| ==> IsStubEntry(index, p.byPkg[k])
  }

  ghost predicate IsStubEntry(index: Index, e: PkgEntry) {
    && e.id == StubIdOf(e.key.pkg, e.key.name) && Lower(e.key.name) == e.key.name
    && !HasPair(index.byPkg, e.key.pkg, e.key.name)
  }

  // The stubs made so far and the entries behind those of the input are the same.
  ghost predicate Matches(index: Index, p: Pass) {
    && Extends(index, p)
    && (forall name :: !HasPair(index.byPkg, "", name))
    && (forall k :: |index.byPkg| <= k < |p.byPkg| ==> p.byPkg[k].id in Ids(p.extras))
    && (forall id :: id in Ids(p.extras) ==> exists k :: |index.byPkg| <= k < |p.byPkg| && p.byPkg[k].id == id)
  }

  lemma {:induction false} GetConcat(a: seq<PkgEntry>, b: seq<PkgEntry>, key: PkgKey)
    ensures Get(a + b, key) == if Get(a, key).Some? then Get(a, key) else Get(b, key)
  {
    if a == [] {
      assert a + b == b;
    } else {
      assert (a + b)[1..] == a[1..] + b;
      GetConcat(a[1..], b, key);
    }
  }

  lemma {:induction false} FirstConcat(a: seq<PkgEntry>, b: seq<PkgEntry>, pkg: string, name: string)
    ensures var first := FirstInAnyRepo(a, pkg, name);
            FirstInAnyRepo(a + b, pkg, name) == if first.Some? then first else FirstInAnyRepo(b, pkg, name)
  {
    if a == [] {
      assert a + b == b;
    } else {
      assert (a + b)[1..] == a[1..] + b;
      FirstConcat(a[1..], b, pkg, name);
    }
  }

  // A lookup that the input answers is answered the same way to the end; one that it does not answer finds the
  // stub of the pair, once there is one.
  lemma PairNow(index: Index, p: Pass, repo: string, pkg: string, name: string)
    requires Extends(index, p)
    ensures var key := PkgKey(repo, pkg, name);
            var before, own := Get(index.byPkg, key), Get(p.byPkg, key);
            var first, now := FirstInAnyRepo(index.byPkg, pkg, name), FirstInAnyRepo(p.byPkg, pkg, name);
            if HasPair(index.byPkg, pkg, name) then own == before && now == first
            else && before.None? && first.None? && (own.Some? ==> own == Some(StubIdOf(pkg, name)))
                 && now == if HasPair(p.byPkg, pkg, name) then Some(StubIdOf(pkg, name)) else None
  {
    var key := PkgKey(repo, pkg, name);
    var stubs := p.byPkg[|index.byPkg|..];
    assert p.byPkg == index.byPkg + stubs;
    forall e | e in stubs ensures e in p.byPkg && IsStubEntry(index, e) {
      var k :| 0 <= k < |stubs| && stubs[k] == e;
      assert p.byPkg[|index.byPkg| + k] == e;
    }
    GetConcat(index.byPkg, stubs, key);
    FirstConcat(index.byPkg, stubs, pkg, name);
    GetFinds(index.byPkg, key);
    GetFinds(stubs, key);
    FirstInAnyRepoFinds(index.byPkg, pkg, name);
    FirstInAnyRepoFinds(stubs, pkg, name);
    assert forall e :: e in p.byPkg <==> e in index.byPkg || e in stubs;
  }

  // What a text refers to: a procedure the input knows, or the stub of its name.
  function Meaning(index: Index, repo: string, text: string): string {
    var target := ResolveCall(text, repo, index.byName, index.byPkg);
    if target.Some? then target.value else StubId(text)
  }

  lemma ResolvedNow(index: Index, p: Pass, callee: string, repo: string)
    requires Extends(index, p) && callee != ""
    ensures var first := ResolveCall(callee, repo, index.byName, index.byPkg);
            var now := ResolveCall(callee, repo, index.byName, p.byPkg);
            && (first.Some? ==> now == first)
            && (now.Some? ==> now.value == Meaning(index, repo, callee))
            && (first.None? ==> (now.Some? <==>
                  exists pkg, name :: NamesPair(callee, pkg, name) && HasPair(p.byPkg, pkg, name)))
  {
    var parts := Split(Lower(callee), '.');
    UnresolvedHasNoPair(callee, repo, index.byName, index.byPkg);
    UnresolvedHasNoPair(callee, repo, index.byName, p.byPkg);
    if |parts| >= 2 {
      PairNow(index, p, repo, parts[|parts| - 2], parts[|parts| - 1]);
      assert NamesPair(callee, parts[|parts| - 2], parts[|parts| - 1]);
    }
  }

  /******* The pass *******/

  lemma {:induction false} NewKeyGoesLast(entries: seq<PkgEntry>, key: PkgKey, id: string)
    requires key !in Keys(entries)
    ensures Set(entries, key, id) == entries + [PkgEntry(key, id)]
  {
    if entries != [] {
      KeysOfCons(entries[0], entries[1..]);
      assert entries == [entries[0]] + entries[1..];
      NewKeyGoesLast(entries[1..], key, id);
    }
  }

  // Ids of stubs tell their pairs apart, unless a colon hides in one.
  lemma SameIdSamePair(p: string, n: string, pkg: string, name: string)
    requires StubIdOf(p, n) == StubIdOf(pkg, name) && Lower(n) == n && Lower(name) == name
    requires ':' !in pkg && ':' !in name
    ensures p == pkg && n == name
  {
    var front := "proc" + [':'] + "external" + [':'];
    StubIdEnds(front, p, n);
    StubIdEnds(front, pkg, name);
    SameEnd(front, p + [':'] + n, pkg + [':'] + name);
    OneColon(p, n, pkg, name);
  }

  lemma StubIdEnds(front: string, pkg: string, name: string)
    requires front == "proc" + [':'] + "external" + [':'] && Lower(name) == name
    ensures StubIdOf(pkg, name) == front + (pkg + [':'] + name)
  {
    JoinOfFour("proc", "external", pkg, name, ':');
    assert "proc" + [':'] + "external" + [':'] + pkg + [':'] + name == front + (pkg + [':'] + name);
  }

  lemma SameEnd(front: string, a: string, b: string)
    requires front + a == front + b
    ensures a == b
  {
    assert a == (front + a)[|front|..] && b == (front + b)[|front|..];
  }

  lemma OneColon(p: string, n: string, pkg: string, name: string)
    requires p + [':'] + n == pkg + [':'] + name && ':' !in pkg && ':' !in name
    ensures p == pkg && n == name
  {
    var whole := pkg + [':'] + name;
    assert whole[|pkg|] == ':' && whole[|p|] == ':';
    assert forall i :: |pkg| < i < |whole| ==> whole[i] == name[i - |pkg| - 1] && whole[i] in name;
    assert forall i :: 0 <= i < |pkg| ==> whole[i] == pkg[i] && whole[i] in pkg;
    assert |p| == |pkg|;
    assert p == whole[..|p|] && n == whole[|p| + 1..];
    assert pkg == whole[..|pkg|] && name == whole[|pkg| + 1..];
  }

  lemma KeyOfText(text: string)
    ensures var parts, key := Split(Lower(text), '.'), StubKey(text);
            && key == PkgKey("external", if |parts| >= 2 then parts[|parts| - 2] else "", parts[|parts| - 1])
            && Lower(key.name) == key.name && StubId(text) == StubIdOf(key.pkg, key.name)
            && (':' !in text ==> ':' !in key.pkg && ':' !in key.name)
  {
    var parts := Split(Lower(text), '.');
    PartsHoldNothingNew(Lower(text), '.');
    var name := parts[|parts| - 1];
    assert name in parts;
    assert forall c :: c in name ==> c in Lower(text);
    NothingToLower(text, name);
    if |parts| >= 2 {
      var pkg := parts[|parts| - 2];
      assert pkg in parts;
      assert forall c :: c in pkg ==> c in Lower(text);
      NothingToLower(text, pkg);
    }
  }

  // Made of characters of a lower-cased text.
  lemma NothingToLower(text: string, part: string)
    requires forall c :: c in part ==> c in Lower(text)
    ensures Lower(part) == part && (':' !in text ==> ':' !in part)
  {
    forall i | 0 <= i < |part| ensures Lower(part)[i] == part[i] && (part[i] == ':' ==> ':' in text) {
      assert part[i] in part;
      var j :| 0 <= j < |text| && Lower(text)[j] == part[i];
      assert text[j] in text;
    }
  }

  // A call statement that the input leaves unresolved has the pair under which its stub is indexed.
  ghost predicate StubbedIn(index: Index, repo: string, facts: seq<Fact>, pkg: string, name: string) {
    exists f :: f in facts && IsUnresolved(index, repo, f) && StubKey(f.text) == PkgKey("external", pkg, name)
  }

  ghost predicate Stubbed(index: Index, trees: seq<Tree>, pkg: string, name: string) {
    exists t :: t in trees && StubbedIn(index, t.repo, t.statements, pkg, name)
  }

  ghost predicate NoColonIn(facts: seq<Fact>) {
    forall f :: f in facts && IsCallStatement(f) ==> ':' !in f.text
  }

  lemma MaterializeMatches(index: Index, p: Pass, text: string, repo: string)
    requires Matches(index, p) && text != "" && ResolveCall(text, repo, index.byName, p.byPkg).None?
    requires ResolveCall(text, repo, index.byName, index.byPkg).None?
    ensures var q, key := Materialize(p, text), StubKey(text);
            && Matches(index, q)
            && (forall pkg, name :: HasPair(q.byPkg, pkg, name) ==>
                  HasPair(p.byPkg, pkg, name) || (pkg == key.pkg && name == key.name))
            && (forall pkg, name :: HasPair(p.byPkg, pkg, name) ==> HasPair(q.byPkg, pkg, name))
            && (':' !in text ==> HasPair(q.byPkg, key.pkg, key.name))
  {
    var key, id := StubKey(text), StubId(text);
    KeyOfText(text);
    UnresolvedHasNoPair(text, repo, index.byName, index.byPkg);
    UnresolvedHasNoPair(text, repo, index.byName, p.byPkg);
    assert !HasPair(index.byPkg, key.pkg, key.name);
    if id in Ids(p.extras) {
      var k :| |index.byPkg| <= k < |p.byPkg| && p.byPkg[k].id == id;
      var e := p.byPkg[k];
      if ':' !in text {
        SameIdSamePair(e.key.pkg, e.key.name, key.pkg, key.name);
        assert e in p.byPkg;
      }
    } else {
      NewPair(index, p, key, id);
      NewKeyGoesLast(p.byPkg, key, id);
      MadeMatches(index, p, text);
    }
  }

  lemma NewPair(index: Index, p: Pass, key: PkgKey, id: string)
    requires Matches(index, p) && !HasPair(index.byPkg, key.pkg, key.name)
    requires id == StubIdOf(key.pkg, key.name) && id !in Ids(p.extras)
    ensures !HasPair(p.byPkg, key.pkg, key.name) && key !in Keys(p.byPkg)
  {
    forall e | e in p.byPkg ensures !(e.key.pkg == key.pkg && e.key.name == key.name) {
      var k :| 0 <= k < |p.byPkg| && p.byPkg[k] == e;
      if k < |index.byPkg| {
        assert p.byPkg[..|index.byPkg|][k] == e && e in index.byPkg;
      }
    }
  }

  lemma MadeMatches(index: Index, p: Pass, text: string)
    requires Matches(index, p) && StubId(text) !in Ids(p.extras)
    requires !HasPair(index.byPkg, StubKey(text).pkg, StubKey(text).name)
    requires Materialize(p, text).byPkg == p.byPkg + [PkgEntry(StubKey(text), StubId(text))]
    ensures var q, key := Materialize(p, text), StubKey(text);
            && Matches(index, q)
            && forall pkg, name :: HasPair(q.byPkg, pkg, name)
                 <==> HasPair(p.byPkg, pkg, name) || (pkg == key.pkg && name == key.name)
  {
    var q, e := Materialize(p, text), PkgEntry(StubKey(text), StubId(text));
    KeyOfText(text);
    assert forall a :: a in q.extras <==> a in p.extras || a == Stub(text);
    assert Stub(text) in q.extras;
    assert Ids(q.extras) == Ids(p.extras) + {e.id};
    assert q.byPkg[..|index.byPkg|] == p.byPkg[..|index.byPkg|];
    forall id | id in Ids(q.extras) ensures exists k :: |index.byPkg| <= k < |q.byPkg| && q.byPkg[k].id == id {
      if id in Ids(p.extras) {
        var k :| |index.byPkg| <= k < |p.byPkg| && p.byPkg[k].id == id;
        assert q.byPkg[k].id == id;
      } else {
        assert q.byPkg[|p.byPkg|].id == id;
      }
    }
    assert forall x :: x in q.byPkg <==> x in p.byPkg || x == e;
  }

  // One statement: what it links, and whether its pair is known afterwards.
  lemma StatementMatches(index: Index, p: Pass, repo: string, f: Fact, items: seq<Artifact>)
    requires Matches(index, p)
    ensures var q := StatementStep(p, repo, f, index.byName, items);
            && Matches(index, q)
            && q.edges
               == p.edges + (if IsCallStatement(f) then LinkFrom(SourceOf(items, f), Meaning(index, repo, f.text))
                             else [])
            && (forall pkg, name :: HasPair(q.byPkg, pkg, name) ==>
                  HasPair(p.byPkg, pkg, name) || StubbedIn(index, repo, [f], pkg, name))
            && (forall pkg, name :: HasPair(p.byPkg, pkg, name) ==> HasPair(q.byPkg, pkg, name))
            && (NoColonIn([f]) ==>
                  forall pkg, name :: StubbedIn(index, repo, [f], pkg, name) ==> HasPair(q.byPkg, pkg, name))
  {
    assert f in [f];
    if IsCallStatement(f) {
      var q := StatementStep(p, repo, f, index.byName, items);
      ResolvedNow(index, p, f.text, repo);
      KeyOfText(f.text);
      if ResolveCall(f.text, repo, index.byName, p.byPkg).None? {
        MaterializeMatches(index, p, f.text, repo);
        assert q.byPkg == Materialize(p, f.text).byPkg && q.extras == Materialize(p, f.text).extras;
      } else {
        assert q.byPkg == p.byPkg && q.extras == p.extras;
      }
    }
  }

  ghost predicate Starts(items: seq<Artifact>, f: Fact, source: string) {
    EnclosingId(items, Query(f.file, f.line, f.repo)) == Some(source)
  }

  lemma {:induction false} StatementsMatch(index: Index, p: Pass, repo: string, facts: seq<Fact>, items: seq<Artifact>,
      link: Link)
    requires Matches(index, p)
    ensures var q := StatementSteps(p, repo, facts, index.byName, items);
            && Matches(index, q)
            && (link in q.edges <==> link in p.edges || StatementsDraw(index, repo, facts, items, link))
            && (forall pkg, name :: HasPair(q.byPkg, pkg, name) ==>
                  HasPair(p.byPkg, pkg, name) || StubbedIn(index, repo, facts, pkg, name))
            && (forall pkg, name :: HasPair(p.byPkg, pkg, name) ==> HasPair(q.byPkg, pkg, name))
            && (NoColonIn(facts) ==>
                  forall pkg, name :: StubbedIn(index, repo, facts, pkg, name) ==> HasPair(q.byPkg, pkg, name))
  {
    if facts != [] {
      var init, last := facts[..|facts| - 1], facts[|facts| - 1];
      assert facts == init + [last];
      assert forall f :: f in facts <==> f in init || f == last;
      StatementsMatch(index, p, repo, init, items, link);
      StatementMatches(index, StatementSteps(p, repo, init, index.byName, items), repo, last, items);
      SecondLookupNeverHelps(items, last);
      StatementsDrawSnoc(index, repo, init, last, items, link);
      forall pkg, name ensures StubbedIn(index, repo, facts, pkg, name)
                          <==> StubbedIn(index, repo, init, pkg, name) || StubbedIn(index, repo, [last], pkg, name) {
        assert last in [last];
      }
    }
  }

  // A call statement inside the source names the target, known or not.
  ghost predicate StatementsDraw(index: Index, repo: string, facts: seq<Fact>, items: seq<Artifact>, link: Link) {
    exists f :: f in facts && IsCallStatement(f) && Starts(items, f, link.source)
                && link.target == Meaning(index, repo, f.text)
  }

  lemma StatementsDrawSnoc(index: Index, repo: string, init: seq<Fact>, last: Fact, items: seq<Artifact>, link: Link)
    ensures StatementsDraw(index, repo, init + [last], items, link)
       <==> StatementsDraw(index, repo, init, items, link)
            || (IsCallStatement(last) && Starts(items, last, link.source)
                && link.target == Meaning(index, repo, last.text))
  {
    assert forall f :: f in init + [last] <==> f in init || f == last;
  }

  // A call inside the source names the target, which the input knows or `stubbed` has a stub for.
  ghost predicate CallsDraw(index: Index, p: Pass, repo: string, facts: seq<Fact>, items: seq<Artifact>, link: Link) {
    exists f :: f in facts && f.text != "" && Starts(items, f, link.source)
                && link.target == Meaning(index, repo, f.text)
                && (ResolveCall(f.text, repo, index.byName, index.byPkg).Some?
                    || exists pkg, name :: NamesPair(f.text, pkg, name) && HasPair(p.byPkg, pkg, name))
  }

  lemma {:induction false} CallsMatch(index: Index, p: Pass, repo: string, facts: seq<Fact>, items: seq<Artifact>,
      link: Link)
    requires Matches(index, p)
    ensures var q := CallSteps(p, repo, facts, index.byName, items);
            && q.byPkg == p.byPkg && q.extras == p.extras
            && (link in q.edges <==> link in p.edges || CallsDraw(index, p, repo, facts, items, link))
  {
    if facts != [] {
      var init, last := facts[..|facts| - 1], facts[|facts| - 1];
      assert facts == init + [last];
      CallsMatch(index, p, repo, init, items, link);
      var q := CallSteps(p, repo, init, index.byName, items);
      if last.text != "" {
        ResolvedNow(index, q, last.text, repo);
      }
      assert forall f :: f in facts <==> f in init || f == last;
    }
  }

  // The tree draws the link, the earlier trees having made their stubs: some call statement in it, or some call
  // whose procedure the input knows or an earlier tree has stubbed, stands in the source and names the target.
  ghost predicate TreeDraws(index: Index, earlier: seq<Tree>, t: Tree, items: seq<Artifact>, link: Link) {
    || StatementsDraw(index, t.repo, t.statements, items, link)
    || exists f :: f in t.calls && f.text != "" && Starts(items, f, link.source)
                   && link.target == Meaning(index, t.repo, f.text)
                   && (ResolveCall(f.text, t.repo, index.byName, index.byPkg).Some?
                       || exists pkg, name :: NamesPair(f.text, pkg, name) && Stubbed(index, earlier, pkg, name))
  }

  ghost predicate Drawn(index: Index, trees: seq<Tree>, items: seq<Artifact>, link: Link) {
    exists i :: DrawnAt(index, trees, items, link, i)
  }

  ghost predicate DrawnAt(index: Index, trees: seq<Tree>, items: seq<Artifact>, link: Link, i: int) {
    0 <= i < |trees| && TreeDraws(index, trees[..i], trees[i], items, link)
  }

  ghost predicate NoColons(trees: seq<Tree>) {
    forall t :: t in trees ==> NoColonIn(t.statements)
  }

  // The pairs known after some trees: those of the input, and those of the stubs.
  ghost predicate KnowsStubs(index: Index, p: Pass, trees: seq<Tree>) {
    && Matches(index, p)
    && (forall pkg, name :: HasPair(p.byPkg, pkg, name) ==>
          HasPair(index.byPkg, pkg, name) || Stubbed(index, trees, pkg, name))
    && (forall pkg, name :: HasPair(index.byPkg, pkg, name) ==> HasPair(p.byPkg, pkg, name))
    && (NoColons(trees) ==> forall pkg, name :: Stubbed(index, trees, pkg, name) ==> HasPair(p.byPkg, pkg, name))
  }

  lemma TreeKnowsStubs(index: Index, p: Pass, trees: seq<Tree>, t: Tree, items: seq<Artifact>, link: Link)
    requires KnowsStubs(index, p, trees)
    ensures var q := StatementSteps(CallSteps(p, t.repo, t.calls, index.byName, items), t.repo, t.statements,
                                    index.byName, items);
            KnowsStubs(index, q, trees + [t])
  {
    CallsMatch(index, p, t.repo, t.calls, items, link);
    var called := CallSteps(p, t.repo, t.calls, index.byName, items);
    StatementsMatch(index, called, t.repo, t.statements, items, link);
    assert forall u :: u in trees + [t] <==> u in trees || u == t;
  }

  lemma TreeLinks(index: Index, p: Pass, trees: seq<Tree>, t: Tree, items: seq<Artifact>, link: Link)
    requires KnowsStubs(index, p, trees)
    ensures var q := StatementSteps(CallSteps(p, t.repo, t.calls, index.byName, items), t.repo, t.statements,
                                    index.byName, items);
            && (link in q.edges ==> link in p.edges || TreeDraws(index, trees, t, items, link))
            && (link in p.edges || (NoColons(trees) && TreeDraws(index, trees, t, items, link)) ==> link in q.edges)
  {
    CallsMatch(index, p, t.repo, t.calls, items, link);
    var called := CallSteps(p, t.repo, t.calls, index.byName, items);
    StatementsMatch(index, called, t.repo, t.statements, items, link);
    if CallsDraw(index, p, t.repo, t.calls, items, link) {
      var f :| f in t.calls && f.text != "" && Starts(items, f, link.source)
               && link.target == Meaning(index, t.repo, f.text)
               && (ResolveCall(f.text, t.repo, index.byName, index.byPkg).Some?
                   || exists pkg, name :: NamesPair(f.text, pkg, name) && HasPair(p.byPkg, pkg, name));
      KnownPairIsResolved(index, f.text, t.repo);
    }
  }

  lemma KnownPairIsResolved(index: Index, text: string, repo: string)
    requires text != ""
    ensures forall pkg, name :: NamesPair(text, pkg, name) && HasPair(index.byPkg, pkg, name) ==>
              ResolveCall(text, repo, index.byName, index.byPkg).Some?
  {
    UnresolvedHasNoPair(text, repo, index.byName, index.byPkg);
  }

  lemma InputKnowsItself(artifacts: seq<Artifact>)
    ensures var index := IndexOf(artifacts);
            KnowsStubs(index, Pass(index.byPkg, [], []), [])
  {
    var index := IndexOf(artifacts);
    PackagesAreIndexed(artifacts);
    forall name ensures !HasPair(index.byPkg, "", name) {
      forall e | e in index.byPkg ensures e.key.pkg != "" {
        assert Declares(artifacts, e);
      }
    }
  }

  lemma {:induction false} TreesKnowStubs(artifacts: seq<Artifact>, trees: seq<Tree>)
    ensures KnowsStubs(IndexOf(artifacts), PassOver(trees, artifacts), trees)
  {
    if trees == [] {
      InputKnowsItself(artifacts);
    } else {
      var init, last := trees[..|trees| - 1], trees[|trees| - 1];
      TreesKnowStubs(artifacts, init);
      TreeKnowsStubs(IndexOf(artifacts), PassOver(init, artifacts), init, last, ById(artifacts), Link("", ""));
      assert trees == init + [last];
    }
  }

  // Every edge has a call or a call statement inside its source that names its target.  All such edges are
  // drawn, as long as no colon hides in the name of a procedure that a statement calls.
  lemma {:induction false} LinksAreExact(trees: seq<Tree>, artifacts: seq<Artifact>, link: Link)
    ensures var edges, index := PassOver(trees, artifacts).edges, IndexOf(artifacts);
            && (link in edges ==> Drawn(index, trees, ById(artifacts), link))
            && (NoColons(trees) && Drawn(index, trees, ById(artifacts), link) ==> link in edges)
  {
    if trees != [] {
      var n := |trees| - 1;
      var init, last, index := trees[..n], trees[n], IndexOf(artifacts);
      LinksAreExact(init, artifacts, link);
      TreesKnowStubs(artifacts, init);
      TreeLinks(index, PassOver(init, artifacts), init, last, ById(artifacts), link);
      assert forall t :: t in init ==> t in trees;
      DrawnSnoc(index, trees, ById(artifacts), link);
    }
  }

  lemma DrawnSnoc(index: Index, trees: seq<Tree>, items: seq<Artifact>, link: Link)
    requires trees != []
    ensures var n := |trees| - 1;
            Drawn(index, trees, items, link)
            <==> Drawn(index, trees[..n], items, link) || TreeDraws(index, trees[..n], trees[n], items, link)
  {
    var n := |trees| - 1;
    forall i | i < n ensures DrawnAt(index, trees, items, link, i) <==> DrawnAt(index, trees[..n], items, link, i) {
      DrawnEarlier(index, trees, items, link, i);
    }
    assert DrawnAt(index, trees, items, link, n) <==> TreeDraws(index, trees[..n], trees[n], items, link);
  }

  lemma DrawnEarlier(index: Index, trees: seq<Tree>, items: seq<Artifact>, link: Link, i: int)
    requires trees != [] && i < |trees| - 1
    ensures DrawnAt(index, trees, items, link, i) <==> DrawnAt(index, trees[..|trees| - 1], items, link, i)
  {
    if i >= 0 {
      assert trees[..|trees| - 1][..i] == trees[..i];
    }
  }
}
