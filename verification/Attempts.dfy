/**
  Looking something up by trying one place after another.

  A resolver asks for the artifact listed under a file and a name, or under a file, a class and a name, and
  takes the first place that has one.  Two lists of places are interchangeable, whatever the artifacts are,
  exactly when they agree on the places that can ever decide anything.
*/
module Attempts {
  import opened Wrappers
  import opened Artifacts
  import opened NameResolution
  import opened Text

  datatype MethodKey = MethodKey(file: string, className: string, name: string)

  // The class in the id of a method, whose last part is `Class.name`.
  function ClassOf(a: Artifact): string {
    if a.kind != Method then ""
    else
      var parts := Split(a.id, ':');
      var last := parts[|parts| - 1];
      if '.' in last then Split(last, '.')[0] else ""
  }

  predicate IsMethodAt(a: Artifact, key: MethodKey) {
    a.kind == Method && ClassOf(a) != "" && MethodKey(a.file, ClassOf(a), a.name) == key
  }

  // The method listed last under a file, a class and a name.
  function ListedMethod(artifacts: seq<Artifact>, key: MethodKey): Option<Artifact> {
    if artifacts == [] then None
    else if IsMethodAt(artifacts[|artifacts| - 1], key) then Some(artifacts[|artifacts| - 1])
    else ListedMethod(artifacts[..|artifacts| - 1], key)
  }

  // A place to look in.
  datatype Attempt = ByName(file: string, name: string) | ByClass(file: string, className: string, name: string)

  predicate Answers(a: Artifact, t: Attempt) {
    match t
    case ByName(file, name) => a.file == file && a.name == name
    case ByClass(file, className, name) => IsMethodAt(a, MethodKey(file, className, name))
  }

  function Listing(artifacts: seq<Artifact>, t: Attempt): Option<Artifact> {
    match t
    case ByName(file, name) => Listed(artifacts, FileKey(file, name))
    case ByClass(file, className, name) => ListedMethod(artifacts, MethodKey(file, className, name))
  }

  // What the first place that has something has.
  function FirstListed(places: seq<Attempt>, artifacts: seq<Artifact>): Option<Artifact> {
    if places == [] then None
    else
      var before := FirstListed(places[..|places| - 1], artifacts);
      if before.Some? then before else Listing(artifacts, places[|places| - 1])
  }

  // The artifact listed last among those that answer, and none only if none does.
  lemma {:induction false} ListingIsLast(artifacts: seq<Artifact>, t: Attempt)
    ensures var hit := Listing(artifacts, t);
            if hit.None? then forall a :: a in artifacts ==> !Answers(a, t)
            else exists i :: 0 <= i < |artifacts| && artifacts[i] == hit.value && Answers(hit.value, t)
                             && forall j :: i < j < |artifacts| ==> !Answers(artifacts[j], t)
  {
    if artifacts != [] {
      var init, last := artifacts[..|artifacts| - 1], artifacts[|artifacts| - 1];
      assert artifacts == init + [last];
      ListingIsLast(init, t);
      if Answers(last, t) {
        assert artifacts[|init|] == last;
      } else if Listing(init, t).Some? {
        var i :| 0 <= i < |init| && init[i] == Listing(init, t).value && Answers(init[i], t)
                 && forall j :: i < j < |init| ==> !Answers(init[j], t);
        assert artifacts[i] == init[i];
      }
    }
  }

  // The first place that is answered decides.
  ghost predicate IsFirstAnswered(places: seq<Attempt>, artifacts: seq<Artifact>, i: int) {
    && 0 <= i < |places| && Listing(artifacts, places[i]).Some?
    && forall j :: 0 <= j < i ==> Listing(artifacts, places[j]).None?
  }

  lemma {:induction false} FirstListedIsFirst(places: seq<Attempt>, artifacts: seq<Artifact>)
    ensures var hit := FirstListed(places, artifacts);
            if hit.None? then forall t :: t in places ==> Listing(artifacts, t).None?
            else exists i :: IsFirstAnswered(places, artifacts, i) && hit == Listing(artifacts, places[i])
  {
    if places != [] {
      var init, last := places[..|places| - 1], places[|places| - 1];
      assert places == init + [last];
      FirstListedIsFirst(init, artifacts);
      if FirstListed(init, artifacts).Some? {
        var i :| IsFirstAnswered(init, artifacts, i) && FirstListed(init, artifacts) == Listing(artifacts, init[i]);
        assert IsFirstAnswered(places, artifacts, i);
      } else if Listing(artifacts, last).Some? {
        forall j | 0 <= j < |init| ensures Listing(artifacts, places[j]).None? {
          assert places[j] in init;
        }
        assert IsFirstAnswered(places, artifacts, |init|);
      }
    }
  }

  // Something is found exactly when some artifact answers at some place, and then the one listed last among
  // those that answer at the first such place.
  lemma FoundExactlyWhen(places: seq<Attempt>, artifacts: seq<Artifact>)
    ensures var hit := FirstListed(places, artifacts);
            && (hit.Some? <==> exists a, t :: a in artifacts && t in places && Answers(a, t))
            && (hit.Some? ==> exists i, j :: IsAnswer(places, artifacts, i, j) && artifacts[j] == hit.value)
  {
    var hit := FirstListed(places, artifacts);
    FirstListedIsFirst(places, artifacts);
    forall t ensures Listing(artifacts, t).None? <==> forall a :: a in artifacts ==> !Answers(a, t) {
      ListingIsLast(artifacts, t);
    }
    if hit.Some? {
      var i :| IsFirstAnswered(places, artifacts, i) && hit == Listing(artifacts, places[i]);
      ListingIsLast(artifacts, places[i]);
      var j :| 0 <= j < |artifacts| && artifacts[j] == hit.value && Answers(hit.value, places[i])
               && forall l :: j < l < |artifacts| ==> !Answers(artifacts[l], places[i]);
      assert hit.value in artifacts && places[i] in places;
      assert IsAnswer(places, artifacts, i, j);
    }
  }

  // The j-th artifact is the last that answers at the i-th place, and none answers at a place before.
  ghost predicate IsAnswer(places: seq<Attempt>, artifacts: seq<Artifact>, i: int, j: int) {
    && 0 <= i < |places| && 0 <= j < |artifacts| && Answers(artifacts[j], places[i])
    && (forall l :: j < l < |artifacts| ==> !Answers(artifacts[l], places[i]))
    && (forall k, a :: 0 <= k < i && a in artifacts ==> !Answers(a, places[k]))
  }

  lemma {:induction false} FirstListedConcat(a: seq<Attempt>, b: seq<Attempt>, artifacts: seq<Artifact>)
    ensures FirstListed(a + b, artifacts)
         == if FirstListed(a, artifacts).Some? then FirstListed(a, artifacts) else FirstListed(b, artifacts)
  {
    if b == [] {
      assert a + b == a;
    } else {
      assert (a + b)[..|a + b| - 1] == a + b[..|b| - 1];
      FirstListedConcat(a, b[..|b| - 1], artifacts);
    }
  }

  lemma FirstListedOfOne(t: Attempt, artifacts: seq<Artifact>)
    ensures FirstListed([t], artifacts) == Listing(artifacts, t)
  {
    assert [t][..0] == [];
  }

  /******* The places that decide *******/

  // The id of a method can name the class: not empty, no colon, no dot.
  predicate CanBeClass(className: string) {
    className != "" && ':' !in className && '.' !in className
  }

  // Whatever answers at `t` answers at an earlier place already: at the same one, or, if it is a method, at
  // the name of the method in its file.
  predicate Covered(before: seq<Attempt>, t: Attempt) {
    t in before || (t.ByClass? && ByName(t.file, t.name) in before)
  }

  predicate CanDecide(before: seq<Attempt>, t: Attempt) {
    (t.ByClass? ==> CanBeClass(t.className)) && !Covered(before, t)
  }

  function Essential(places: seq<Attempt>): seq<Attempt> {
    if places == [] then []
    else
      var init, last := places[..|places| - 1], places[|places| - 1];
      Essential(init) + if CanDecide(Essential(init), last) then [last] else []
  }

  lemma MethodsHaveClassNames(a: Artifact)
    ensures ClassOf(a) != "" ==> CanBeClass(ClassOf(a))
  {
    if ClassOf(a) != "" {
      PartsAreFree(a.id, ':');
      var parts := Split(a.id, ':');
      var last := parts[|parts| - 1];
      assert last in parts;
      PartsAreFree(last, '.');
      assert Split(last, '.')[0] in Split(last, '.');
      PartsHoldNothingNew(last, '.');
    }
  }

  // What is left out of the essential places never answers first.
  lemma {:induction false} EssentialSuffices(places: seq<Attempt>, artifacts: seq<Artifact>)
    ensures FirstListed(Essential(places), artifacts) == FirstListed(places, artifacts)
  {
    if places != [] {
      var init, last := places[..|places| - 1], places[|places| - 1];
      var before := Essential(init);
      EssentialSuffices(init, artifacts);
      FirstListedConcat(before, if CanDecide(before, last) then [last] else [], artifacts);
      FirstListedOfOne(last, artifacts);
      if !CanDecide(before, last) && Listing(artifacts, last).Some? {
        AnsweredEarlier(before, last, artifacts);
      }
    }
  }

  lemma AnsweredEarlier(before: seq<Attempt>, t: Attempt, artifacts: seq<Artifact>)
    requires !CanDecide(before, t) && Listing(artifacts, t).Some?
    ensures FirstListed(before, artifacts).Some?
  {
    ListingIsLast(artifacts, t);
    FirstListedIsFirst(before, artifacts);
    var a := Listing(artifacts, t).value;
    MethodsHaveClassNames(a);
    var earlier := if t in before then t else ByName(t.file, t.name);
    assert Answers(a, earlier) && a in artifacts;
    ListingIsLast(artifacts, earlier);
  }

  /******* Telling two lists apart *******/

  // An artifact that answers at a place, and nowhere else if it can be helped.
  function Witness(t: Attempt): Artifact {
    match t
    case ByName(file, name) => Artifact("w", "", Function, name, file, 0, 0, [], [], [])
    case ByClass(file, className, name) =>
      Artifact(className + ['.'] + "w", "", Method, name, file, 0, 0, [], [], [])
  }

  lemma WitnessAnswers(t: Attempt, u: Attempt)
    requires t.ByClass? ==> CanBeClass(t.className)
    ensures Answers(Witness(t), u) <==> u == t || (t.ByClass? && u == ByName(t.file, t.name))
  {
    if t.ByClass? {
      var id := t.className + ['.'] + "w";
      SplitWithout(id, ':');
      SplitConcat(t.className, "w", '.');
      SplitWithout(t.className, '.');
      assert Split(id, '.')[0] == t.className;
      assert id[|t.className|] == '.';
      assert ClassOf(Witness(t)) == t.className;
    }
  }

  ghost predicate Decide(places: seq<Attempt>) {
    forall i :: 0 <= i < |places| ==> CanDecide(places[..i], places[i])
  }

  lemma {:induction false} EssentialDecide(places: seq<Attempt>)
    ensures Decide(Essential(places))
  {
    if places != [] {
      var init, last := places[..|places| - 1], places[|places| - 1];
      EssentialDecide(init);
      var before, all := Essential(init), Essential(places);
      forall i | 0 <= i < |all| ensures CanDecide(all[..i], all[i]) {
        if i < |before| {
          assert all[..i] == before[..i];
        } else {
          assert all[..i] == before;
        }
      }
    }
  }

  // Nothing that a witness answers lies among places that do not cover it.
  lemma WitnessIsNotEarlier(before: seq<Attempt>, t: Attempt)
    requires CanDecide(before, t)
    ensures forall u :: u in before ==> !Answers(Witness(t), u)
  {
    forall u | u in before ensures !Answers(Witness(t), u) {
      WitnessAnswers(t, u);
    }
  }

  // Artifacts for which a list that goes on with `t` finds something else than one that stops, or goes on
  // with `u`, after the same places.
  function Apart(t: Attempt, u: Attempt): seq<Artifact> {
    if t.ByName? then [Witness(u), Witness(t)] else [Witness(t), Witness(u)]
  }

  lemma ApartTellsApart(before: seq<Attempt>, t: Attempt, u: Attempt)
    requires CanDecide(before, t) && CanDecide(before, u) && t != u
    ensures FirstListed(before, Apart(t, u)).None?
    ensures Listing(Apart(t, u), t) == Some(Witness(t)) && Listing(Apart(t, u), u) == Some(Witness(u))
    ensures Witness(t) != Witness(u)
  {
    var artifacts := Apart(t, u);
    WitnessIsNotEarlier(before, t);
    WitnessIsNotEarlier(before, u);
    FirstListedIsFirst(before, artifacts);
    forall x | x in before ensures Listing(artifacts, x).None? {
      ListingIsLast(artifacts, x);
    }
    WitnessAnswers(t, t);
    WitnessAnswers(t, u);
    WitnessAnswers(u, u);
    WitnessAnswers(u, t);
    ListingIsLast(artifacts, t);
    ListingIsLast(artifacts, u);
  }

  lemma OneMorePlace(places: seq<Attempt>, i: nat, artifacts: seq<Artifact>)
    requires i < |places| && FirstListed(places[..i], artifacts).None? && Listing(artifacts, places[i]).Some?
    ensures FirstListed(places, artifacts) == Listing(artifacts, places[i])
  {
    assert places == (places[..i] + [places[i]]) + places[i + 1..];
    FirstListedConcat(places[..i], [places[i]], artifacts);
    FirstListedOfOne(places[i], artifacts);
    FirstListedConcat(places[..i] + [places[i]], places[i + 1..], artifacts);
  }

  // A longer list finds something that the shorter one does not.
  lemma LongerFindsMore(a: seq<Attempt>, b: seq<Attempt>)
    requires Decide(b) && a < b
    ensures FirstListed(a, [Witness(b[|a|])]) != FirstListed(b, [Witness(b[|a|])])
  {
    var t := b[|a|];
    var artifacts := [Witness(t)];
    assert b[..|a|] == a && CanDecide(b[..|a|], t);
    WitnessIsNotEarlier(a, t);
    FirstListedIsFirst(a, artifacts);
    forall x | x in a ensures Listing(artifacts, x).None? {
      ListingIsLast(artifacts, x);
    }
    WitnessAnswers(t, t);
    ListingIsLast(artifacts, t);
    OneMorePlace(b, |a|, artifacts);
  }

  lemma {:induction false} Fork(a: seq<Attempt>, b: seq<Attempt>) returns (k: nat)
    requires a != b
    ensures k <= |a| && k <= |b| && a[..k] == b[..k]
    ensures (k == |a| < |b|) || (k == |b| < |a|) || (k < |a| && k < |b| && a[k] != b[k])
  {
    k := 0;
    while k < |a| && k < |b| && a[k] == b[k]
      invariant k <= |a| && k <= |b| && a[..k] == b[..k]
    {
      assert a[..k + 1] == a[..k] + [a[k]] && b[..k + 1] == b[..k] + [b[k]];
      k := k + 1;
    }
  }

  lemma DifferentListsDiffer(a: seq<Attempt>, b: seq<Attempt>) returns (artifacts: seq<Artifact>)
    requires Decide(a) && Decide(b) && a != b
    ensures FirstListed(a, artifacts) != FirstListed(b, artifacts)
  {
    var k := Fork(a, b);
    if k == |a| {
      assert b[..k] == a[..k] == a;
      artifacts := [Witness(b[k])];
      LongerFindsMore(a, b);
    } else if k == |b| {
      assert a[..k] == b[..k] == b;
      artifacts := [Witness(a[k])];
      LongerFindsMore(b, a);
    } else {
      artifacts := Apart(a[k], b[k]);
      ApartTellsApart(a[..k], a[k], b[k]);
      OneMorePlace(a, k, artifacts);
      OneMorePlace(b, k, artifacts);
    }
  }

  // Two lists of places find the same in every list of artifacts exactly when their essential places are
  // the same.
  lemma SameFindsExactlyWhen(a: seq<Attempt>, b: seq<Attempt>)
    ensures (forall artifacts :: FirstListed(a, artifacts) == FirstListed(b, artifacts))
       <==> Essential(a) == Essential(b)
  {
    if Essential(a) == Essential(b) {
      forall artifacts ensures FirstListed(a, artifacts) == FirstListed(b, artifacts) {
        EssentialSuffices(a, artifacts);
        EssentialSuffices(b, artifacts);
      }
    } else {
      EssentialDecide(a);
      EssentialDecide(b);
      var artifacts := DifferentListsDiffer(Essential(a), Essential(b));
      EssentialSuffices(a, artifacts);
      EssentialSuffices(b, artifacts);
      assert FirstListed(a, artifacts) != FirstListed(b, artifacts);
    }
  }
}
