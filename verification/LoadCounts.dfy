/**
  The edge statistics of a load, told from the records alone.
*/
module LoadCounts {
  import opened GraphLoader

  // `sum(size(x) for x in items)`.
  function Total<T>(items: seq<T>, size: T -> nat): nat {
    if items == [] then 0 else size(items[0]) + Total(items[1..], size)
  }

  // How many items there are of which it holds.
  function HowMany<T>(items: seq<T>, holds: T -> bool): nat {
    if items == [] then 0
    else HowMany(items[..|items| - 1], holds) + if holds(items[|items| - 1]) then 1 else 0
  }

  lemma {:induction false} SizeOfFlatMap<T, U>(items: seq<T>, f: T -> seq<U>, size: T -> nat)
    requires forall x :: |f(x)| == size(x)
    ensures |FlatMap(items, f)| == Total(items, size)
  {
    if items != [] {
      SizeOfFlatMap(items[1..], f, size);
    }
  }

  // `1 if optional else 0`.
  function Given(optional: string): nat {
    if optional == "" then 0 else 1
  }

  /******* Naming the resolver's counts *******/

  lemma {:induction false} NamedIsExact(names: seq<string>, buckets: seq<Bucket>, name: string)
    requires |names| == |buckets|
    requires forall i, j :: 0 <= i < j < |names| ==> names[i] != names[j]
    ensures name in Named(map[], names, buckets) <==> name in names
    ensures forall k :: 0 <= k < |names| && names[k] == name ==>
                          CountAt(Named(map[], names, buckets), name) == |buckets[k].rows|
  {
    if names != [] {
      var n := |names| - 1;
      assert names == names[..n] + [names[n]];
      NamedIsExact(names[..n], buckets[..n], name);
    }
  }

  /******* Summing the suggestions per relation *******/

  function RowsUnder(groups: seq<Bucket>, name: string): nat {
    if groups == [] then 0
    else (if "LLM_" + groups[0].shape.rel == name then |groups[0].rows| else 0) + RowsUnder(groups[1..], name)
  }

  lemma {:induction false} RowsUnderSnoc(groups: seq<Bucket>, last: Bucket, name: string)
    ensures RowsUnder(groups + [last], name)
         == RowsUnder(groups, name) + if "LLM_" + last.shape.rel == name then |last.rows| else 0
  {
    if groups == [] {
      assert [last][1..] == [] && groups + [last] == [last];
    } else {
      assert (groups + [last])[1..] == groups[1..] + [last];
      RowsUnderSnoc(groups[1..], last, name);
    }
  }

  lemma {:induction false} SummedIsExact(stats: map<string, nat>, groups: seq<Bucket>, name: string)
    ensures CountAt(Summed(stats, groups), name) == CountAt(stats, name) + RowsUnder(groups, name)
    ensures name in Summed(stats, groups)
       <==> name in stats || HasName(groups, name)
  {
    if groups != [] {
      var n := |groups| - 1;
      assert groups == groups[..n] + [groups[n]];
      SummedIsExact(stats, groups[..n], name);
      RowsUnderSnoc(groups[..n], groups[n], name);
    }
  }

  function IsNamed(name: string): (Suggestion) -> bool {
    (s: Suggestion) => "LLM_" + s.rel == name
  }

  lemma {:induction false} AddingCountsOne(buckets: seq<Bucket>, s: Suggestion, name: string)
    ensures RowsUnder(AddTo(buckets, ShapeOf(s), SuggestedRow(s)), name)
         == RowsUnder(buckets, name) + if "LLM_" + s.rel == name then 1 else 0
  {
    var more := AddTo(buckets, ShapeOf(s), SuggestedRow(s));
    if buckets == [] {
      assert more[1..] == [];
    } else {
      assert more[1..] == if buckets[0].shape == ShapeOf(s) then buckets[1..]
                          else AddTo(buckets[1..], ShapeOf(s), SuggestedRow(s));
      if buckets[0].shape != ShapeOf(s) {
        AddingCountsOne(buckets[1..], s, name);
      }
    }
  }

  ghost predicate HasName(buckets: seq<Bucket>, name: string) {
    exists b :: b in buckets && name == "LLM_" + b.shape.rel
  }

  lemma HasNameConcat(a: seq<Bucket>, b: seq<Bucket>, name: string)
    ensures HasName(a + b, name) <==> HasName(a, name) || HasName(b, name)
  {
    assert forall x :: x in a + b <==> x in a || x in b;
  }

  lemma {:induction false} AddingNamesOne(buckets: seq<Bucket>, s: Suggestion, name: string)
    ensures HasName(AddTo(buckets, ShapeOf(s), SuggestedRow(s)), name)
       <==> HasName(buckets, name) || name == "LLM_" + s.rel
  {
    var more := AddTo(buckets, ShapeOf(s), SuggestedRow(s));
    if buckets == [] {
      OneHasName(more[0], name);
    } else {
      assert buckets == [buckets[0]] + buckets[1..] && more == [more[0]] + more[1..];
      HasNameConcat([buckets[0]], buckets[1..], name);
      HasNameConcat([more[0]], more[1..], name);
      OneHasName(buckets[0], name);
      OneHasName(more[0], name);
      if buckets[0].shape != ShapeOf(s) {
        AddingNamesOne(buckets[1..], s, name);
      }
    }
  }

  lemma OneHasName(b: Bucket, name: string)
    ensures HasName([b], name) <==> name == "LLM_" + b.shape.rel
  {
    assert b in [b];
  }

  lemma {:induction false} GroupsHoldEverySuggestion(suggestions: seq<Suggestion>, name: string)
    ensures RowsUnder(Grouped(suggestions), name) == HowMany(suggestions, IsNamed(name))
    ensures HasName(Grouped(suggestions), name)
       <==> exists s :: s in suggestions && name == "LLM_" + s.rel
  {
    if suggestions != [] {
      var n := |suggestions| - 1;
      var last := suggestions[n];
      assert suggestions == suggestions[..n] + [last];
      GroupsHoldEverySuggestion(suggestions[..n], name);
      AddingCountsOne(Grouped(suggestions[..n]), last, name);
      AddingNamesOne(Grouped(suggestions[..n]), last, name);
    }
  }

  /******* What the statistics say *******/

  lemma NoStatIsSuggested()
    ensures forall i, j :: 0 <= i < j < |STAT_NAMES()| ==> STAT_NAMES()[i] != STAT_NAMES()[j]
    ensures forall name :: name in STAT_NAMES() ==> forall rel: string :: name != "LLM_" + rel
  {
    assert forall name :: name in STAT_NAMES() ==> name[0] != 'L';
    assert forall rel: string :: ("LLM_" + rel)[0] == 'L';
  }

  // The statistics of a resolver statement are the rows of that statement, whatever was suggested.
  lemma StatOf(m: Merged, k: nat)
    requires k < 18
    ensures STAT_NAMES()[k] in EdgeStats(m) && EdgeStats(m)[STAT_NAMES()[k]] == |ResolvedEdges(m)[k].rows|
  {
    var name := STAT_NAMES()[k];
    NoStatIsSuggested();
    NamedIsExact(STAT_NAMES(), ResolvedEdges(m), name);
    SummedIsExact(Named(map[], STAT_NAMES(), ResolvedEdges(m)), Grouped(m.suggestions), name);
    GroupsHoldEverySuggestion(m.suggestions, name);
    assert HowMany(m.suggestions, IsNamed(name)) == 0 by {
      NoneOf(m.suggestions, IsNamed(name));
    }
  }

  lemma {:induction false} NoneOf<T>(items: seq<T>, holds: T -> bool)
    requires forall x :: x in items ==> !holds(x)
    ensures HowMany(items, holds) == 0
  {
    if items != [] {
      NoneOf(items[..|items| - 1], holds);
    }
  }

  // Each link of an artifact counts once in the statistics of its relation.
  lemma LinksAreCounted(m: Merged)
    ensures var stats := EdgeStats(m);
            && CountAt(stats, "EXPOSES") == Total(m.artifacts, (a: Artifact) => |a.connections|)
            && CountAt(stats, "CALLS") == Total(m.artifacts, (a: Artifact) => |a.calls|)
            && CountAt(stats, "READS") == Total(m.artifacts, (a: Artifact) => |a.readsFrom|)
            && CountAt(stats, "WRITES") == Total(m.artifacts, (a: Artifact) => |a.writesTo|)
            && CountAt(stats, "COVERS") == Total(m.tests, (t: Test) => |t.covers|)
  {
    StatOf(m, 6);
    StatOf(m, 7);
    StatOf(m, 8);
    StatOf(m, 9);
    StatOf(m, 2);
    SizeOfFlatMap(m.artifacts, Exposed, (a: Artifact) => |a.connections|);
    SizeOfFlatMap(m.artifacts, Called, (a: Artifact) => |a.calls|);
    SizeOfFlatMap(m.artifacts, TablesRead, (a: Artifact) => |a.readsFrom|);
    SizeOfFlatMap(m.artifacts, TablesWritten, (a: Artifact) => |a.writesTo|);
    SizeOfFlatMap(m.tests, Covered, (t: Test) => |t.covers|);
  }

  // So does each record with an optional reference, if it has one.
  lemma OptionsAreCounted(m: Merged)
    ensures var stats := EdgeStats(m);
            && CountAt(stats, "TARGETS") == Total(m.connections, (c: Connection) => Given(c.targetService))
            && CountAt(stats, "TARGETS_ENDPOINT") == Total(m.connections, (c: Connection) => Given(c.targetEndpoint))
            && CountAt(stats, "HANDLED_BY") == Total(m.endpoints, (e: Endpoint) => Given(e.handler))
            && CountAt(stats, "EXECUTES") == Total(m.queries, (q: Query) => Given(q.enclosing))
            && CountAt(stats, "MOCKS") == Total(m.mocks, (k: Mock) => Given(k.target))
  {
    StatOf(m, 4);
    StatOf(m, 5);
    StatOf(m, 13);
    StatOf(m, 14);
    StatOf(m, 17);
    SizeOfFlatMap(m.connections, TargetService, (c: Connection) => Given(c.targetService));
    SizeOfFlatMap(m.connections, TargetEndpoint, (c: Connection) => Given(c.targetEndpoint));
    SizeOfFlatMap(m.endpoints, Handler, (e: Endpoint) => Given(e.handler));
    SizeOfFlatMap(m.queries, Executor, (q: Query) => Given(q.enclosing));
    SizeOfFlatMap(m.mocks, Mocked, (k: Mock) => Given(k.target));
  }

  // And each record with a fixed reference.
  lemma MembersAreCounted(m: Merged)
    ensures var stats := EdgeStats(m);
            && CountAt(stats, "CONTAINS") == |m.artifacts|
            && CountAt(stats, "DEFINES") == |m.tests|
            && CountAt(stats, "INITIATES") == |m.connections|
            && CountAt(stats, "CONTAINS_ENDPOINT") == |m.endpoints|
            && CountAt(stats, "CONTAINS_DATA_MODEL") == |m.dataModels|
            && CountAt(stats, "CONTAINS_QUERY") == |m.queries|
            && CountAt(stats, "PRODUCES") == |m.producers|
            && CountAt(stats, "CONSUMES") == |m.consumers|
  {
    StatOf(m, 0);
    StatOf(m, 1);
    StatOf(m, 3);
    StatOf(m, 10);
    StatOf(m, 11);
    StatOf(m, 12);
    StatOf(m, 15);
    StatOf(m, 16);
    FlatMapOfOnes(m.artifacts, ArtifactInRepo);
    FlatMapOfOnes(m.tests, TestInRepo);
    FlatMapOfOnes(m.connections, Initiated);
    FlatMapOfOnes(m.endpoints, EndpointInRepo);
    FlatMapOfOnes(m.dataModels, DataModelInRepo);
    FlatMapOfOnes(m.queries, QueryInRepo);
    FlatMapOfOnes(m.producers, UsedTopic);
    FlatMapOfOnes(m.consumers, UsedTopic);
  }

  // Suggestions are counted per relation, whatever labels they join, under a name of their own.
  lemma SuggestionsAreCounted(m: Merged, rel: string)
    ensures CountAt(EdgeStats(m), "LLM_" + rel) == HowMany(m.suggestions, (s: Suggestion) => s.rel == rel)
    ensures "LLM_" + rel in EdgeStats(m) <==> exists s :: s in m.suggestions && s.rel == rel
  {
    var name := "LLM_" + rel;
    NoStatIsSuggested();
    NamedIsExact(STAT_NAMES(), ResolvedEdges(m), name);
    SummedIsExact(Named(map[], STAT_NAMES(), ResolvedEdges(m)), Grouped(m.suggestions), name);
    GroupsHoldEverySuggestion(m.suggestions, name);
    forall s: Suggestion ensures "LLM_" + s.rel == name <==> s.rel == rel {
      assert ("LLM_" + s.rel)[4..] == s.rel && name[4..] == rel;
    }
    SameCount(m.suggestions, IsNamed(name), (s: Suggestion) => s.rel == rel);
  }

  lemma {:induction false} SameCount<T>(items: seq<T>, p: T -> bool, q: T -> bool)
    requires forall x :: x in items ==> p(x) == q(x)
    ensures HowMany(items, p) == HowMany(items, q)
  {
    if items != [] {
      SameCount(items[..|items| - 1], p, q);
    }
  }
}
