/**
  Running the ingestion adapters by priority and merging what they return.

  The registry sorts by descending priority, isolates failures, and merges the results in that order;
  the merger keeps the first value it meets for an id and notes the others as conflicts.
*/
module PriorityMerge {
  import opened Wrappers
  import opened Sorting

  datatype Kind = Services | Connections | Artifacts | Endpoints | DataModels | Queries
                | Topics | Producers | Consumers | Mocks | Tests

  // The order in which the merger goes through a result.
  const KINDS: seq<Kind> := [Services, Connections, Artifacts, Endpoints, DataModels, Queries,
                             Topics, Producers, Consumers, Mocks, Tests]

  datatype Item = Item(id: string, value: string)

  datatype Result = Result(adapter: string, items: map<Kind, seq<Item>>)

  datatype Conflict = Conflict(kind: Kind, id: string, skipped: string)

  datatype Merged = Merged(buckets: map<Kind, map<string, Item>>, conflicts: seq<Conflict>)

  function ItemsOf(r: Result, kind: Kind): seq<Item> {
    if kind in r.items then r.items[kind] else []
  }

  function BucketOf(m: Merged, kind: Kind): map<string, Item> {
    if kind in m.buckets then m.buckets[kind] else map[]
  }

  /******* The merger *******/

  function Add(m: Merged, kind: Kind, adapter: string, item: Item): Merged {
    if item.id in BucketOf(m, kind)
    then if kind == Topics then m else m.(conflicts := m.conflicts + [Conflict(kind, item.id, adapter)])
    else m.(buckets := m.buckets[kind := BucketOf(m, kind)[item.id := item]])
  }

  function AddAll(m: Merged, kind: Kind, adapter: string, items: seq<Item>): Merged {
    if items == [] then m else Add(AddAll(m, kind, adapter, items[..|items| - 1]), kind, adapter, items[|items| - 1])
  }

  function AddKinds(m: Merged, r: Result, kinds: seq<Kind>): Merged {
    if kinds == [] then m
    else
      var kind := kinds[|kinds| - 1];
      AddAll(AddKinds(m, r, kinds[..|kinds| - 1]), kind, r.adapter, ItemsOf(r, kind))
  }

  function Merge(results: seq<Result>): Merged {
    if results == [] then Merged(map[], [])
    else AddKinds(Merge(results[..|results| - 1]), results[|results| - 1], KINDS)
  }

  class MergedResult {
    var buckets: map<Kind, map<string, Item>>
    var conflicts: seq<Conflict>

    constructor ()
      ensures State() == Merged(map[], [])
    {
      buckets, conflicts := map[], [];
    }

    ghost function State(): Merged
      reads this
    {
      Merged(buckets, conflicts)
    }

    method Accumulate(kind: Kind, items: seq<Item>, adapter: string)
      modifies this
      ensures State() == AddAll(old(State()), kind, adapter, items)
    {
      for i := 0 to |items|
        invariant State() == AddAll(old(State()), kind, adapter, items[..i])
      {
        assert items[..i + 1][..i] == items[..i];
        var bucket := if kind in buckets then buckets[kind] else map[];
        if items[i].id in bucket {
          if kind != Topics {
            conflicts := conflicts + [Conflict(kind, items[i].id, adapter)];
          }
          continue;
        }
        buckets := buckets[kind := bucket[items[i].id := items[i]]];
      }
      assert items[..|items|] == items;
    }
  }

  // The calls for the eleven kinds are one loop over their list.
  method MergeResults(results: seq<Result>) returns (merged: MergedResult)
    ensures fresh(merged) && merged.State() == Merge(results)
  {
    merged := new MergedResult();
    for i := 0 to |results|
      invariant fresh(merged) && merged.State() == Merge(results[..i])
    {
      assert results[..i + 1][..i] == results[..i];
      ghost var before := merged.State();
      for k := 0 to |KINDS|
        invariant fresh(merged) && merged.State() == AddKinds(before, results[i], KINDS[..k])
      {
        assert KINDS[..k + 1][..k] == KINDS[..k];
        var items := if KINDS[k] in results[i].items then results[i].items[KINDS[k]] else [];
        merged.Accumulate(KINDS[k], items, results[i].adapter);
      }
      assert KINDS[..|KINDS|] == KINDS;
    }
    assert results[..|results|] == results;
  }

  /******* What the merger keeps *******/

  function First(items: seq<Item>, id: string): Option<Item> {
    if items == [] then None
    else
      var before := First(items[..|items| - 1], id);
      if before.None? && items[|items| - 1].id == id then Some(items[|items| - 1]) else before
  }

  // All items of one kind, in the order in which the merger meets them.
  function Emitted(results: seq<Result>, kind: Kind): seq<Item> {
    if results == [] then [] else Emitted(results[..|results| - 1], kind) + ItemsOf(results[|results| - 1], kind)
  }

  // They are the items of that kind in some result, and stand in the order of the results.
  lemma {:induction false} EmittedIsExact(results: seq<Result>, kind: Kind, item: Item)
    ensures item in Emitted(results, kind) <==> exists r :: r in results && kind in r.items && item in r.items[kind]
  {
    if results != [] {
      var init, last := results[..|results| - 1], results[|results| - 1];
      assert results == init + [last];
      EmittedIsExact(init, kind, item);
    }
  }

  lemma {:induction false} EmittedConcat(a: seq<Result>, b: seq<Result>, kind: Kind)
    ensures Emitted(a + b, kind) == Emitted(a, kind) + Emitted(b, kind)
  {
    if b == [] {
      assert a + b == a;
    } else {
      var init, last := b[..|b| - 1], b[|b| - 1];
      assert (a + b)[..|a + b| - 1] == a + init && (a + b)[|a + b| - 1] == last;
      EmittedConcat(a, init, kind);
      var x, y, z := Emitted(a, kind), Emitted(init, kind), ItemsOf(last, kind);
      assert Emitted(b, kind) == y + z && Emitted(a + b, kind) == (x + y) + z;
    }
  }

  function Lookup(bucket: map<string, Item>, id: string): Option<Item> {
    if id in bucket then Some(bucket[id]) else None
  }

  function ConflictsOf(conflicts: seq<Conflict>, kind: Kind): nat {
    if conflicts == [] then 0
    else ConflictsOf(conflicts[..|conflicts| - 1], kind) + if conflicts[|conflicts| - 1].kind == kind then 1 else 0
  }

  // Bucket and conflicts of one kind account for the items seen so far.
  ghost predicate Accounts(m: Merged, kind: Kind, seen: seq<Item>) {
    && (forall id :: Lookup(BucketOf(m, kind), id) == First(seen, id))
    && ConflictsOf(m.conflicts, kind) + (if kind == Topics then 0 else |BucketOf(m, kind)|)
         == if kind == Topics then 0 else |seen|
  }

  lemma FirstSnoc(items: seq<Item>, item: Item, id: string)
    ensures First(items + [item], id) == if First(items, id).None? && item.id == id then Some(item)
          else First(items, id)
  {
    assert (items + [item])[..|items|] == items;
  }

  lemma AddAccounts(m: Merged, kind: Kind, adapter: string, item: Item, other: Kind, seen: seq<Item>)
    requires Accounts(m, other, seen)
    ensures Accounts(Add(m, kind, adapter, item), other, if other == kind then seen + [item] else seen)
  {
    ConflictsSnoc(m.conflicts, Conflict(kind, item.id, adapter), other);
    AddToBucket(m, kind, adapter, item, other);
    if other == kind {
      AddKeepsFirst(m, kind, adapter, item, seen);
    }
  }

  lemma AddToBucket(m: Merged, kind: Kind, adapter: string, item: Item, other: Kind)
    ensures BucketOf(Add(m, kind, adapter, item), other)
         == if other != kind || item.id in BucketOf(m, kind) then BucketOf(m, other)
            else BucketOf(m, kind)[item.id := item]
  {
  }

  lemma AddKeepsFirst(m: Merged, kind: Kind, adapter: string, item: Item, seen: seq<Item>)
    requires forall id :: Lookup(BucketOf(m, kind), id) == First(seen, id)
    ensures forall id :: Lookup(BucketOf(Add(m, kind, adapter, item), kind), id) == First(seen + [item], id)
  {
    var bucket := BucketOf(m, kind);
    var grown := BucketOf(Add(m, kind, adapter, item), kind);
    assert Lookup(bucket, item.id) == First(seen, item.id);
    AddToBucket(m, kind, adapter, item, kind);
    forall id ensures Lookup(grown, id) == First(seen + [item], id) {
      FirstSnoc(seen, item, id);
      assert Lookup(bucket, id) == First(seen, id);
    }
  }

  lemma ConflictsSnoc(conflicts: seq<Conflict>, c: Conflict, kind: Kind)
    ensures ConflictsOf(conflicts + [c], kind) == ConflictsOf(conflicts, kind) + if c.kind == kind then 1 else 0
  {
    assert (conflicts + [c])[..|conflicts|] == conflicts;
  }

  lemma {:induction false} AddAllAccounts(m: Merged, kind: Kind, adapter: string, items: seq<Item>, other: Kind,
      seen: seq<Item>)
    requires Accounts(m, other, seen)
    ensures Accounts(AddAll(m, kind, adapter, items), other, if other == kind then seen + items else seen)
  {
    if items == [] {
      assert seen + items == seen;
    } else {
      var init, last := items[..|items| - 1], items[|items| - 1];
      AddAllAccounts(m, kind, adapter, init, other, seen);
      var sofar := if other == kind then seen + init else seen;
      AddAccounts(AddAll(m, kind, adapter, init), kind, adapter, last, other, sofar);
      assert seen + init + [last] == seen + items;
    }
  }

  lemma {:induction false} AddKindsAccounts(m: Merged, r: Result, kinds: seq<Kind>, kind: Kind, seen: seq<Item>)
    requires Accounts(m, kind, seen)
    requires forall i, j :: 0 <= i < j < |kinds| ==> kinds[i] != kinds[j]
    ensures Accounts(AddKinds(m, r, kinds), kind, if kind in kinds then seen + ItemsOf(r, kind) else seen)
  {
    if kinds != [] {
      var init, last := kinds[..|kinds| - 1], kinds[|kinds| - 1];
      AddKindsAccounts(m, r, init, kind, seen);
      var sofar := if kind in init then seen + ItemsOf(r, kind) else seen;
      AddAllAccounts(AddKinds(m, r, init), last, r.adapter, ItemsOf(r, last), kind, sofar);
      assert kinds == init + [last];
    }
  }

  lemma KindsAreListed(kind: Kind)
    ensures kind in KINDS
    ensures forall i, j :: 0 <= i < j < |KINDS| ==> KINDS[i] != KINDS[j]
  {
    match kind
    case Services => assert KINDS[0] == kind;
    case Connections => assert KINDS[1] == kind;
    case Artifacts => assert KINDS[2] == kind;
    case Endpoints => assert KINDS[3] == kind;
    case DataModels => assert KINDS[4] == kind;
    case Queries => assert KINDS[5] == kind;
    case Topics => assert KINDS[6] == kind;
    case Producers => assert KINDS[7] == kind;
    case Consumers => assert KINDS[8] == kind;
    case Mocks => assert KINDS[9] == kind;
    case Tests => assert KINDS[10] == kind;
  }

  // For every kind: the first value emitted for an id is the one kept, and every item emitted is either
  // kept or a conflict.  Topics are deduplicated silently.
  lemma {:induction false} MergeAccountsForEverything(results: seq<Result>, kind: Kind)
    ensures Accounts(Merge(results), kind, Emitted(results, kind))
  {
    if results != [] {
      MergeAccountsForEverything(results[..|results| - 1], kind);
      KindsAreListed(kind);
      AddKindsAccounts(Merge(results[..|results| - 1]), results[|results| - 1], KINDS, kind,
                       Emitted(results[..|results| - 1], kind));
    }
  }

  /******* The registry *******/

  // What running the adapter yields: a result, or an exception.
  datatype Adapter = Adapter(name: string, priority: int, outcome: Option<Result>)

  datatype Registered = Registered(adapter: Adapter, enabled: bool)

  function Enabled(): Registered -> bool {
    (r: Registered) => r.enabled
  }

  function Succeeds(): Registered -> bool {
    (r: Registered) => r.adapter.outcome.Some?
  }

  // Descending priority as an ascending key.
  function Rank(): Registered -> int {
    (r: Registered) => -r.adapter.priority
  }

  function Ordered(adapters: seq<Registered>): seq<Registered> {
    Sort(Filter(adapters, Enabled()), Rank())
  }

  function ResultsOf(ordered: seq<Registered>): seq<Result> {
    if ordered == [] then []
    else
      var last := ordered[|ordered| - 1].adapter;
      ResultsOf(ordered[..|ordered| - 1]) + if last.outcome.Some? then [last.outcome.value] else []
  }

  function FailuresOf(ordered: seq<Registered>): set<string> {
    set r | r in ordered && r.adapter.outcome.None? :: r.adapter.name
  }

  lemma OneMoreOutcome(ordered: seq<Registered>, i: nat)
    requires i < |ordered|
    ensures var outcome := ordered[i].adapter.outcome;
            && ResultsOf(ordered[..i + 1]) == ResultsOf(ordered[..i]) + (if outcome.Some? then [outcome.value] else [])
            && FailuresOf(ordered[..i + 1])
               == FailuresOf(ordered[..i]) + if outcome.None? then {ordered[i].adapter.name} else {}
  {
    assert ordered[..i + 1][..i] == ordered[..i];
    assert forall r :: r in ordered[..i + 1] <==> r in ordered[..i] || r == ordered[i];
  }

  class RunReport {
    var results: seq<Result>
    var failures: set<string>
    var merged: MergedResult

    constructor ()
      ensures results == [] && failures == {} && fresh(merged)
    {
      results, failures := [], {};
      merged := new MergedResult();
    }

    // One adapter's outcome: what it returned, or its name among the failures.
    method Note(adapter: Adapter)
      modifies `results, `failures
      ensures results == old(results) + if adapter.outcome.Some? then [adapter.outcome.value] else []
      ensures failures == old(failures) + if adapter.outcome.None? then {adapter.name} else {}
    {
      match adapter.outcome {
        case Some(result) => results := results + [result];
        case None => failures := failures + {adapter.name};
      }
    }
  }

  class AdapterRegistry {
    // A dictionary by name, in registration order.
    var adapters: seq<Registered>

    ghost predicate Valid()
      reads this
    {
      forall i, j :: 0 <= i < j < |adapters| ==> adapters[i].adapter.name != adapters[j].adapter.name
    }

    constructor ()
      ensures Valid() && adapters == []
    {
      adapters := [];
    }

    // False stands for the error about a name already taken.
    method Register(adapter: Adapter, enabled: bool) returns (ok: bool)
      requires Valid()
      modifies this
      ensures Valid()
      ensures ok == !exists r :: r in old(adapters) && r.adapter.name == adapter.name
      ensures adapters == if ok then old(adapters) + [Registered(adapter, enabled)] else old(adapters)
    {
      if exists r :: r in adapters && r.adapter.name == adapter.name {
        return false;
      }
      adapters := adapters + [Registered(adapter, enabled)];
      return true;
    }

    // Enabling or disabling keeps the place in the order; false stands for an unknown name.
    method SetEnabled(name: string, enabled: bool) returns (ok: bool)
      requires Valid()
      modifies this
      ensures Valid() && |adapters| == |old(adapters)|
      ensures ok == exists r :: r in old(adapters) && r.adapter.name == name
      ensures forall i :: 0 <= i < |adapters| ==>
        adapters[i] == if old(adapters)[i].adapter.name == name then old(adapters)[i].(enabled := enabled)
              else old(adapters)[i]
    {
      for i := 0 to |adapters|
        invariant adapters == old(adapters)
        invariant forall j :: 0 <= j < i ==> adapters[j].adapter.name != name
      {
        if adapters[i].adapter.name == name {
          adapters := adapters[i := adapters[i].(enabled := enabled)];
          return true;
        }
      }
      return false;
    }

    // One adapter's exception does not stop the others.
    method RunAll() returns (report: RunReport)
      ensures fresh(report) && fresh(report.merged)
      ensures report.results == ResultsOf(Ordered(adapters))
      ensures report.failures == FailuresOf(Ordered(adapters))
      ensures report.merged.State() == Merge(ResultsOf(Ordered(adapters)))
    {
      report := new RunReport();
      var ordered := Sort(Filter(adapters, Enabled()), Rank());
      for i := 0 to |ordered|
        invariant report.results == ResultsOf(ordered[..i])
        invariant report.failures == FailuresOf(ordered[..i])
      {
        OneMoreOutcome(ordered, i);
        report.Note(ordered[i].adapter);
      }
      assert ordered[..|ordered|] == ordered;
      report.merged := MergeResults(report.results);
    }
  }

  /******* Failure isolation *******/

  lemma {:induction false} ResultsIgnoreFailures(ordered: seq<Registered>)
    ensures ResultsOf(Filter(ordered, Succeeds())) == ResultsOf(ordered)
  {
    if ordered != [] {
      var init, last := ordered[..|ordered| - 1], ordered[|ordered| - 1];
      ResultsIgnoreFailures(init);
      var kept := Filter(init, Succeeds());
      if last.adapter.outcome.Some? {
        assert Filter(ordered, Succeeds()) == kept + [last];
        assert (kept + [last])[..|kept|] == kept;
      } else {
        assert Filter(ordered, Succeeds()) == kept;
      }
    }
  }

  lemma {:induction false} FiltersCommute(adapters: seq<Registered>)
    ensures Filter(Filter(adapters, Enabled()), Succeeds()) == Filter(Filter(adapters, Succeeds()), Enabled())
  {
    if adapters != [] {
      var init, last := adapters[..|adapters| - 1], adapters[|adapters| - 1];
      FiltersCommute(init);
      var enabled, succeeded := Filter(init, Enabled()), Filter(init, Succeeds());
      if last.enabled && last.adapter.outcome.Some? {
        FilterSnoc(enabled, last, Succeeds());
        FilterSnoc(succeeded, last, Enabled());
      } else if last.enabled {
        FilterSnoc(enabled, last, Succeeds());
        assert Filter(adapters, Succeeds()) == succeeded;
      } else if last.adapter.outcome.Some? {
        FilterSnoc(succeeded, last, Enabled());
        assert Filter(adapters, Enabled()) == enabled;
      } else {
        assert Filter(adapters, Enabled()) == enabled && Filter(adapters, Succeeds()) == succeeded;
      }
    }
  }

  // The outcome is that of a registry holding only the adapters that do not fail.
  lemma FailuresAreIsolated(adapters: seq<Registered>)
    ensures ResultsOf(Ordered(adapters)) == ResultsOf(Ordered(Filter(adapters, Succeeds())))
  {
    ResultsIgnoreFailures(Ordered(adapters));
    SortFiltered(Filter(adapters, Enabled()), Rank(), Succeeds());
    FiltersCommute(adapters);
  }

  /******* Who wins *******/

  // The adapter is enabled, succeeds, and emits an item of this kind and id.
  predicate Offers(r: Registered, kind: Kind, id: string) {
    r.enabled && r.adapter.outcome.Some? && First(ItemsOf(r.adapter.outcome.value, kind), id).Some?
  }

  lemma {:induction false} FirstConcat(a: seq<Item>, b: seq<Item>, id: string)
    ensures First(a + b, id) == if First(a, id).Some? then First(a, id) else First(b, id)
  {
    if b == [] {
      assert a + b == a;
    } else {
      assert (a + b)[..|a + b| - 1] == a + b[..|b| - 1];
      FirstConcat(a, b[..|b| - 1], id);
    }
  }

  // The first of the adapters that offers the id.
  function FirstOfferer(ordered: seq<Registered>, kind: Kind, id: string): Option<Registered> {
    if ordered == [] then None
    else
      var before, last := FirstOfferer(ordered[..|ordered| - 1], kind, id), ordered[|ordered| - 1];
      if before.None? && Offers(last, kind, id) then Some(last) else before
  }

  lemma {:induction false} FirstOffererIsFirst(ordered: seq<Registered>, kind: Kind, id: string)
    ensures var first := FirstOfferer(ordered, kind, id);
            if first.None? then forall r :: r in ordered ==> !Offers(r, kind, id)
            else exists i :: 0 <= i < |ordered| && ordered[i] == first.value && Offers(ordered[i], kind, id)
                             && forall j :: 0 <= j < i ==> !Offers(ordered[j], kind, id)
  {
    if ordered != [] {
      var n := |ordered| - 1;
      var init := ordered[..n];
      FirstOffererIsFirst(init, kind, id);
      assert forall j :: 0 <= j < n ==> init[j] == ordered[j];
      var before := FirstOfferer(init, kind, id);
      if before.Some? {
        var i :| 0 <= i < n && init[i] == before.value && Offers(init[i], kind, id)
                 && forall j :: 0 <= j < i ==> !Offers(init[j], kind, id);
        assert ordered[i] == before.value;
      } else {
        assert forall j :: 0 <= j < n ==> init[j] in init;
      }
    }
  }

  function ValueOf(r: Registered, kind: Kind, id: string): Option<Item> {
    if r.adapter.outcome.Some? then First(ItemsOf(r.adapter.outcome.value, kind), id) else None
  }

  lemma OneMoreEmitter(ordered: seq<Registered>, kind: Kind, id: string)
    requires ordered != []
    ensures First(Emitted(ResultsOf(ordered), kind), id)
         == var before := First(Emitted(ResultsOf(ordered[..|ordered| - 1]), kind), id);
            if before.Some? then before else ValueOf(ordered[|ordered| - 1], kind, id)
  {
    var last, before := ordered[|ordered| - 1], ResultsOf(ordered[..|ordered| - 1]);
    if last.adapter.outcome.Some? {
      var result := last.adapter.outcome.value;
      assert ResultsOf(ordered) == before + [result];
      assert (before + [result])[..|before|] == before;
      FirstConcat(Emitted(before, kind), ItemsOf(result, kind), id);
    } else {
      assert ResultsOf(ordered) == before;
    }
  }

  // The first value emitted comes from the first of the ordered adapters that offers one.
  lemma {:induction false} FirstEmittedIsFirstOffered(ordered: seq<Registered>, kind: Kind, id: string)
    requires forall r :: r in ordered ==> r.enabled
    ensures First(Emitted(ResultsOf(ordered), kind), id)
         == var first := FirstOfferer(ordered, kind, id);
            if first.None? then None else ValueOf(first.value, kind, id)
    ensures FirstOfferer(ordered, kind, id).Some? ==> ValueOf(FirstOfferer(ordered, kind, id).value, kind, id).Some?
  {
    if ordered != [] {
      var init, last := ordered[..|ordered| - 1], ordered[|ordered| - 1];
      assert last in ordered && last.enabled;
      assert forall r :: r in init ==> r in ordered;
      FirstEmittedIsFirstOffered(init, kind, id);
      OneMoreEmitter(ordered, kind, id);
      assert Offers(last, kind, id) <==> ValueOf(last, kind, id).Some?;
      var before := FirstOfferer(init, kind, id);
      assert FirstOfferer(ordered, kind, id) == if before.None? && Offers(last, kind, id) then Some(last) else before;
    } else {
      assert ResultsOf(ordered) == [];
    }
  }

  // The value kept for an id is the first one of the winning adapter, and no other adapter that offers
  // the id has a higher priority, or the same priority and an earlier registration.
  ghost predicate Wins(adapters: seq<Registered>, kind: Kind, id: string, winner: Registered) {
    && winner in adapters && Offers(winner, kind, id)
    && forall r :: r in adapters && Offers(r, kind, id) ==>
         || r == winner || r.adapter.priority < winner.adapter.priority
         || (r.adapter.priority == winner.adapter.priority && Before(adapters, winner, r))
  }

  // Among the ordered adapters, the first that offers the id wins.
  lemma FirstOffererWins(adapters: seq<Registered>, kind: Kind, id: string, w: Registered)
    requires FirstOfferer(Ordered(adapters), kind, id) == Some(w)
    ensures Wins(adapters, kind, id, w)
  {
    var ordered := Ordered(adapters);
    OrderedIsSortedEnabled(adapters);
    FirstOffererIsFirst(ordered, kind, id);
    var i :| 0 <= i < |ordered| && ordered[i] == w && Offers(ordered[i], kind, id)
             && forall j :: 0 <= j < i ==> !Offers(ordered[j], kind, id);
    assert w in ordered;
    forall r | r in adapters && Offers(r, kind, id) && r != w
      ensures r.adapter.priority < w.adapter.priority
              || (r.adapter.priority == w.adapter.priority && Before(adapters, w, r))
    {
      assert r in ordered;
      var j :| 0 <= j < |ordered| && ordered[j] == r;
      assert i < j && Rank()(w) <= Rank()(r);
      if r.adapter.priority == w.adapter.priority {
        assert Before(ordered, w, r);
        SortIsStable(Filter(adapters, Enabled()), Rank(), w, r);
        FilterKeepsOrder(adapters, Enabled(), w, r);
      }
    }
  }

  lemma OrderedIsSortedEnabled(adapters: seq<Registered>)
    ensures Sorted(Ordered(adapters), Rank())
    ensures forall r :: r in Ordered(adapters) <==> r in adapters && r.enabled
  {
    SortProperties(Filter(adapters, Enabled()), Rank());
    FilterContents(adapters, Enabled());
  }

  lemma HighestPriorityWins(adapters: seq<Registered>, kind: Kind, id: string)
    ensures var kept := Lookup(BucketOf(Merge(ResultsOf(Ordered(adapters))), kind), id);
            && (kept.Some? <==> exists r :: r in adapters && Offers(r, kind, id))
            && (kept.Some? ==> exists w :: Wins(adapters, kind, id, w) && kept == ValueOf(w, kind, id))
  {
    var ordered := Ordered(adapters);
    MergeAccountsForEverything(ResultsOf(ordered), kind);
    OrderedIsSortedEnabled(adapters);
    FirstOffererIsFirst(ordered, kind, id);
    FirstEmittedIsFirstOffered(ordered, kind, id);
    var first := FirstOfferer(ordered, kind, id);
    if first.Some? {
      FirstOffererWins(adapters, kind, id, first.value);
      assert first.value in ordered;
    } else {
      forall r | r in adapters ensures !Offers(r, kind, id) {
        if r.enabled {
          assert r in ordered;
        }
      }
    }
  }
}
