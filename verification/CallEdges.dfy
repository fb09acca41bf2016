/**
  From call sites to call edges: the two passes of the function-call resolver and the record they keep
  in three places at once, the edge list, the set of seen pairs and the per-artifact callee lists.

  How a call site is resolved to a target is a parameter; the resolver's index tables hold input
  artifacts only, which is all that is asked of it.
*/
module CallEdges {
  import opened Wrappers
  import opened Artifacts
  import opened EnclosingLookup

  // A call as the grammar splits it: the text called, the receiver in front of the last dot, the name
  // behind it, the receiver's parts, and the first argument, names in it marked.
  datatype CallSite = CallSite(file: string, line: nat, callee: string, receiver: string, name: string,
                               chain: seq<string>, firstArg: string)

  datatype Edge = Edge(caller: string, callee: string, reason: string)

  // A dependency found behind the type of a parameter, and the name of that type.
  datatype AliasDep = AliasDep(target: Option<Artifact>, via: string)

  // `named` resolves a call seen from its enclosing artifact; `injected` recognises dependency
  // injection markers; `aliased` lists the dependencies behind an artifact's parameter types.
  datatype Resolver = Resolver(
    named: (CallSite, Artifact) -> Option<Artifact>,
    injected: CallSite -> Option<Artifact>,
    aliased: Artifact -> seq<AliasDep>)

  ghost predicate ResolvesInto(r: Resolver, artifacts: seq<Artifact>) {
    && (forall c, e :: r.named(c, e).Some? ==> r.named(c, e).value in artifacts)
    && (forall c :: r.injected(c).Some? ==> r.injected(c).value in artifacts)
    && (forall a, d :: d in r.aliased(a) && d.target.Some? ==> d.target.value in artifacts)
  }

  function InFile(artifacts: seq<Artifact>, file: string): (r: seq<Artifact>)
    ensures forall a :: a in r <==> a in artifacts && a.file == file
  {
    if artifacts == [] then []
    else
      var last := artifacts[|artifacts| - 1];
      assert artifacts == artifacts[..|artifacts| - 1] + [last];
      InFile(artifacts[..|artifacts| - 1], file) + if last.file == file then [last] else []
  }

  /******* What the passes propose *******/

  function CallerOf(artifacts: seq<Artifact>, c: CallSite): Option<Artifact> {
    Enclosing(InFile(artifacts, c.file), c.line)
  }

  function TargetOf(r: Resolver, c: CallSite, caller: Artifact): Option<Artifact> {
    var named := r.named(c, caller);
    if named.Some? then named else r.injected(c)
  }

  function FromCall(artifacts: seq<Artifact>, r: Resolver, c: CallSite): seq<Edge> {
    var caller := CallerOf(artifacts, c);
    if caller.None? then [] else
    var target := TargetOf(r, c, caller.value);
    if target.None? then [] else [Edge(caller.value.id, target.value.id, c.callee)]
  }

  function FromCalls(artifacts: seq<Artifact>, r: Resolver, calls: seq<CallSite>): seq<Edge> {
    if calls == [] then []
    else FromCalls(artifacts, r, calls[..|calls| - 1]) + FromCall(artifacts, r, calls[|calls| - 1])
  }

  function FromDep(fn: Artifact, d: AliasDep): seq<Edge> {
    if d.target.None? then [] else [Edge(fn.id, d.target.value.id, d.via)]
  }

  function FromDeps(fn: Artifact, deps: seq<AliasDep>): seq<Edge> {
    if deps == [] then [] else FromDeps(fn, deps[..|deps| - 1]) + FromDep(fn, deps[|deps| - 1])
  }

  function FromAliases(r: Resolver, artifacts: seq<Artifact>): seq<Edge> {
    if artifacts == [] then []
    else
      var fn := artifacts[|artifacts| - 1];
      FromAliases(r, artifacts[..|artifacts| - 1])
      + if fn.kind == Function || fn.kind == Method then FromDeps(fn, r.aliased(fn)) else []
  }

  /******* What is kept of the proposals *******/

  predicate Linked(edges: seq<Edge>, caller: string, callee: string) {
    exists e :: e in edges && e.caller == caller && e.callee == callee
  }

  function Keep(edges: seq<Edge>, e: Edge): seq<Edge> {
    if e.caller == e.callee || Linked(edges, e.caller, e.callee) then edges else edges + [e]
  }

  function KeepAll(edges: seq<Edge>, proposals: seq<Edge>): seq<Edge> {
    if proposals == [] then edges
    else Keep(KeepAll(edges, proposals[..|proposals| - 1]), proposals[|proposals| - 1])
  }

  function Edges(artifacts: seq<Artifact>, r: Resolver, calls: seq<CallSite>): seq<Edge> {
    KeepAll(KeepAll([], FromCalls(artifacts, r, calls)), FromAliases(r, artifacts))
  }

  function CalleesOf(edges: seq<Edge>, caller: string): seq<string> {
    if edges == [] then []
    else
      var e := edges[|edges| - 1];
      CalleesOf(edges[..|edges| - 1], caller) + if e.caller == caller then [e.callee] else []
  }

  // No pair twice, no self-loop.
  ghost predicate Proper(edges: seq<Edge>) {
    && (forall i, j :: 0 <= i < j < |edges| ==>
          edges[i].caller != edges[j].caller || edges[i].callee != edges[j].callee)
    && (forall e :: e in edges ==> e.caller != e.callee)
  }

  lemma LinkedSnoc(edges: seq<Edge>, e: Edge, a: string, b: string)
    ensures Linked(edges + [e], a, b) <==> Linked(edges, a, b) || (a == e.caller && b == e.callee)
  {
    if Linked(edges, a, b) {
      var x :| x in edges && x.caller == a && x.callee == b;
      assert x in edges + [e];
    }
    assert e in edges + [e];
  }

  lemma {:induction false} KeepAllIsExact(edges: seq<Edge>, proposals: seq<Edge>)
    requires Proper(edges)
    ensures var kept := KeepAll(edges, proposals);
            && Proper(kept)
            && (forall e :: e in kept ==> e in edges || e in proposals)
            && forall a, b :: Linked(kept, a, b) <==> Linked(edges, a, b) || (a != b && Linked(proposals, a, b))
  {
    if proposals != [] {
      var n := |proposals| - 1;
      var last := proposals[n];
      KeepAllIsExact(edges, proposals[..n]);
      var before := KeepAll(edges, proposals[..n]);
      assert proposals == proposals[..n] + [last];
      forall a, b ensures Linked(Keep(before, last), a, b)
            <==> Linked(before, a, b) || (a != b && a == last.caller && b == last.callee) {
        LinkedSnoc(before, last, a, b);
      }
      forall a, b ensures Linked(proposals, a, b)
            <==> Linked(proposals[..n], a, b) || (a == last.caller && b == last.callee) {
        LinkedSnoc(proposals[..n], last, a, b);
      }
    }
  }

  lemma {:induction false} FromCallsContents(artifacts: seq<Artifact>, r: Resolver, calls: seq<CallSite>, e: Edge)
    ensures e in FromCalls(artifacts, r, calls) <==> exists c :: c in calls && e in FromCall(artifacts, r, c)
  {
    if calls != [] {
      var n := |calls| - 1;
      var before, last := calls[..n], calls[n];
      FromCallsContents(artifacts, r, before, e);
      assert forall c :: c in calls <==> c in before || c == last by {
        assert calls == before + [last];
      }
      assert e in FromCalls(artifacts, r, calls)
        <==> e in FromCalls(artifacts, r, before) || e in FromCall(artifacts, r, last);
    }
  }

  lemma {:induction false} FromDepsContents(fn: Artifact, deps: seq<AliasDep>, e: Edge)
    ensures e in FromDeps(fn, deps) <==> exists d :: d in deps && e in FromDep(fn, d)
  {
    if deps != [] {
      var n := |deps| - 1;
      FromDepsContents(fn, deps[..n], e);
      assert deps == deps[..n] + [deps[n]];
      if e in FromDep(fn, deps[n]) {
        assert deps[n] in deps;
      }
      if e in FromDeps(fn, deps[..n]) {
        var d :| d in deps[..n] && e in FromDep(fn, d);
        assert d in deps;
      }
    }
  }

  ghost predicate ProposedByAlias(r: Resolver, fn: Artifact, e: Edge) {
    (fn.kind == Function || fn.kind == Method) && exists d :: d in r.aliased(fn) && e in FromDep(fn, d)
  }

  lemma {:induction false} FromAliasesContents(r: Resolver, artifacts: seq<Artifact>, e: Edge)
    ensures e in FromAliases(r, artifacts) <==> exists fn :: fn in artifacts && ProposedByAlias(r, fn, e)
  {
    if artifacts != [] {
      var n := |artifacts| - 1;
      var last := artifacts[n];
      FromAliasesContents(r, artifacts[..n], e);
      FromDepsContents(last, r.aliased(last), e);
      assert artifacts == artifacts[..n] + [last];
      if e in FromAliases(r, artifacts[..n]) {
        var fn :| fn in artifacts[..n] && ProposedByAlias(r, fn, e);
        assert fn in artifacts;
      }
      if ProposedByAlias(r, last, e) {
        assert last in artifacts;
      }
    }
  }

  /******* What edges are wanted *******/

  // The artifact around a call: of those in its file whose lines cover it the smallest, and of several as
  // small the first listed.
  ghost predicate IsCaller(artifacts: seq<Artifact>, c: CallSite, a: Artifact) {
    exists i ::
      && 0 <= i < |artifacts| && artifacts[i] == a && Surrounds(a, c)
      && (forall j :: 0 <= j < |artifacts| && Surrounds(artifacts[j], c) ==>
            a.end - a.start <= artifacts[j].end - artifacts[j].start)
      && (forall j :: 0 <= j < i && Surrounds(artifacts[j], c) ==>
            a.end - a.start < artifacts[j].end - artifacts[j].start)
  }

  predicate Surrounds(a: Artifact, c: CallSite) {
    a.file == c.file && a.start <= c.line <= a.end
  }

  // The call names the callee, or hands it to the framework when it names nothing known.
  ghost predicate CallWants(artifacts: seq<Artifact>, r: Resolver, c: CallSite, caller: string, callee: string) {
    exists a :: IsCaller(artifacts, c, a) && a.id == caller && RefersTo(r, c, a, callee)
  }

  predicate RefersTo(r: Resolver, c: CallSite, a: Artifact, callee: string) {
    || (r.named(c, a).Some? && r.named(c, a).value.id == callee)
    || (r.named(c, a).None? && r.injected(c).Some? && r.injected(c).value.id == callee)
  }

  // The callee is a dependency behind one of the caller's parameter types.
  predicate AliasWants(r: Resolver, fn: Artifact, d: AliasDep, caller: string, callee: string) {
    && (fn.kind == Function || fn.kind == Method) && d in r.aliased(fn)
    && fn.id == caller && d.target.Some? && d.target.value.id == callee
  }

  ghost predicate Wanted(artifacts: seq<Artifact>, r: Resolver, calls: seq<CallSite>, caller: string, callee: string) {
    || (exists c :: c in calls && CallWants(artifacts, r, c, caller, callee))
    || (exists fn, d :: fn in artifacts && AliasWants(r, fn, d, caller, callee))
  }

  // The edge gives the text of a call that wants it as its reason, or the type behind which it was found.
  ghost predicate HasReason(artifacts: seq<Artifact>, r: Resolver, calls: seq<CallSite>, e: Edge) {
    || (exists c :: c in calls && CallWants(artifacts, r, c, e.caller, e.callee) && e.reason == c.callee)
    || (exists fn, d :: fn in artifacts && AliasWants(r, fn, d, e.caller, e.callee) && e.reason == d.via)
  }

  function SurroundingLines(c: CallSite): Artifact -> bool {
    (a: Artifact) => Surrounds(a, c)
  }

  lemma {:induction false} SmallestInFile(artifacts: seq<Artifact>, c: CallSite)
    ensures CallerOf(artifacts, c) == Smallest(artifacts, SurroundingLines(c))
  {
    if artifacts != [] {
      var init, last := artifacts[..|artifacts| - 1], artifacts[|artifacts| - 1];
      SmallestInFile(init, c);
      var before, inFile := InFile(init, c.file), InFile(artifacts, c.file);
      assert Smallest(before, Covering(c.line)) == Smallest(init, SurroundingLines(c));
      if last.file == c.file {
        assert inFile == before + [last] && (before + [last])[..|before|] == before;
        assert Covering(c.line)(last) == SurroundingLines(c)(last);
      } else {
        assert inFile == before;
        assert !SurroundingLines(c)(last);
      }
    }
  }

  lemma CallerIsExact(artifacts: seq<Artifact>, c: CallSite, a: Artifact)
    ensures CallerOf(artifacts, c) == Some(a) <==> IsCaller(artifacts, c, a)
  {
    var covers, caller := SurroundingLines(c), CallerOf(artifacts, c);
    SmallestInFile(artifacts, c);
    SmallestIsFirstSmallest(artifacts, covers);
    CallerIsFirstSmallest(artifacts, c, a);
    OneFirstSmallest(artifacts, covers);
  }

  lemma CallerIsFirstSmallest(artifacts: seq<Artifact>, c: CallSite, a: Artifact)
    ensures IsCaller(artifacts, c, a)
       <==> exists i :: IsFirstSmallest(artifacts, SurroundingLines(c), i) && artifacts[i] == a
  {
  }

  lemma OneFirstSmallest(items: seq<Artifact>, covers: Artifact -> bool)
    ensures forall i, j :: IsFirstSmallest(items, covers, i) && IsFirstSmallest(items, covers, j) ==> i == j
  {
  }

  lemma CallProposes(artifacts: seq<Artifact>, r: Resolver, c: CallSite, e: Edge)
    ensures e in FromCall(artifacts, r, c)
       <==> CallWants(artifacts, r, c, e.caller, e.callee) && e.reason == c.callee
  {
    var caller := CallerOf(artifacts, c);
    if caller.Some? {
      CallerIsExact(artifacts, c, caller.value);
    }
    if CallWants(artifacts, r, c, e.caller, e.callee) {
      var a :| IsCaller(artifacts, c, a) && a.id == e.caller && RefersTo(r, c, a, e.callee);
      CallerIsExact(artifacts, c, a);
    }
  }

  lemma ProposedIsWanted(artifacts: seq<Artifact>, r: Resolver, calls: seq<CallSite>, e: Edge)
    ensures e in FromCalls(artifacts, r, calls) || e in FromAliases(r, artifacts)
       <==> HasReason(artifacts, r, calls, e)
  {
    FromCallsContents(artifacts, r, calls, e);
    FromAliasesContents(r, artifacts, e);
    forall c ensures e in FromCall(artifacts, r, c)
                <==> CallWants(artifacts, r, c, e.caller, e.callee) && e.reason == c.callee {
      CallProposes(artifacts, r, c, e);
    }
    if fn :| fn in artifacts && ProposedByAlias(r, fn, e) {
      var d :| d in r.aliased(fn) && e in FromDep(fn, d);
      assert AliasWants(r, fn, d, e.caller, e.callee);
    }
    if fn, d :| fn in artifacts && AliasWants(r, fn, d, e.caller, e.callee) && e.reason == d.via {
      assert e in FromDep(fn, d);
      assert ProposedByAlias(r, fn, e);
    }
  }

  lemma WantedHasReason(artifacts: seq<Artifact>, r: Resolver, calls: seq<CallSite>, a: string, b: string)
    ensures Wanted(artifacts, r, calls, a, b) <==> exists reason :: HasReason(artifacts, r, calls, Edge(a, b, reason))
  {
    if c :| c in calls && CallWants(artifacts, r, c, a, b) {
      assert HasReason(artifacts, r, calls, Edge(a, b, c.callee));
    }
    if fn, d :| fn in artifacts && AliasWants(r, fn, d, a, b) {
      assert HasReason(artifacts, r, calls, Edge(a, b, d.via));
    }
  }

  lemma WantedJoinInputs(artifacts: seq<Artifact>, r: Resolver, calls: seq<CallSite>, e: Edge)
    requires ResolvesInto(r, artifacts) && HasReason(artifacts, r, calls, e)
    ensures e.caller in Ids(artifacts) && e.callee in Ids(artifacts)
  {
    if c :| c in calls && CallWants(artifacts, r, c, e.caller, e.callee) {
      var a :| IsCaller(artifacts, c, a) && a.id == e.caller && RefersTo(r, c, a, e.callee);
      assert a in artifacts;
    } else {
      var fn, d :| fn in artifacts && AliasWants(r, fn, d, e.caller, e.callee);
      assert d.target.value in artifacts;
    }
  }

  // The edge list is exact: an edge for every wanted pair other than a self-loop, once; each gives its
  // reason, and both of its ends are input artifacts.
  lemma {:induction false} EdgesAreExact(artifacts: seq<Artifact>, r: Resolver, calls: seq<CallSite>)
    requires ResolvesInto(r, artifacts)
    ensures var edges := Edges(artifacts, r, calls);
            && Proper(edges)
            && (forall e :: e in edges ==>
                  e.caller in Ids(artifacts) && e.callee in Ids(artifacts) && HasReason(artifacts, r, calls, e))
            && forall a, b :: Linked(edges, a, b) <==> a != b && Wanted(artifacts, r, calls, a, b)
  {
    var edges := Edges(artifacts, r, calls);
    var fromCalls, fromAliases := FromCalls(artifacts, r, calls), FromAliases(r, artifacts);
    KeepAllIsExact([], fromCalls);
    KeepAllIsExact(KeepAll([], fromCalls), fromAliases);
    forall e | e in edges
      ensures e.caller in Ids(artifacts) && e.callee in Ids(artifacts) && HasReason(artifacts, r, calls, e)
    {
      ProposedIsWanted(artifacts, r, calls, e);
      WantedJoinInputs(artifacts, r, calls, e);
    }
    forall a, b ensures Linked(edges, a, b) <==> a != b && Wanted(artifacts, r, calls, a, b) {
      ProposalsAreWanted(artifacts, r, calls, a, b);
      assert !Linked([], a, b);
    }
  }

  lemma ProposalsAreWanted(artifacts: seq<Artifact>, r: Resolver, calls: seq<CallSite>, a: string, b: string)
    ensures Linked(FromCalls(artifacts, r, calls), a, b) || Linked(FromAliases(r, artifacts), a, b)
       <==> Wanted(artifacts, r, calls, a, b)
  {
    WantedHasReason(artifacts, r, calls, a, b);
    if Linked(FromCalls(artifacts, r, calls), a, b) {
      var e :| e in FromCalls(artifacts, r, calls) && e.caller == a && e.callee == b;
      ProposedIsWanted(artifacts, r, calls, e);
      assert e == Edge(a, b, e.reason);
    }
    if Linked(FromAliases(r, artifacts), a, b) {
      var e :| e in FromAliases(r, artifacts) && e.caller == a && e.callee == b;
      ProposedIsWanted(artifacts, r, calls, e);
      assert e == Edge(a, b, e.reason);
    }
    if reason :| HasReason(artifacts, r, calls, Edge(a, b, reason)) {
      ProposedIsWanted(artifacts, r, calls, Edge(a, b, reason));
    }
  }

  // The edges of the first calls stand in front, in the order they were found.
  lemma {:induction false} EdgesComeInOrder(artifacts: seq<Artifact>, r: Resolver, calls: seq<CallSite>, k: nat)
    requires k <= |calls|
    ensures KeepAll([], FromCalls(artifacts, r, calls[..k])) <= Edges(artifacts, r, calls)
  {
    CallsSplit(artifacts, r, calls, k);
    FirstAreKept(FromCalls(artifacts, r, calls[..k]), FromCalls(artifacts, r, calls[k..]), FromAliases(r, artifacts));
  }

  lemma {:induction false} CallsSplit(artifacts: seq<Artifact>, r: Resolver, calls: seq<CallSite>, k: nat)
    requires k <= |calls|
    ensures FromCalls(artifacts, r, calls) == FromCalls(artifacts, r, calls[..k]) + FromCalls(artifacts, r, calls[k..])
  {
    var front, back := calls[..k], calls[k..];
    CallsConcat(artifacts, r, front, back);
    assert calls == front + back;
  }

  lemma FirstAreKept(first: seq<Edge>, rest: seq<Edge>, more: seq<Edge>)
    ensures KeepAll([], first) <= KeepAll(KeepAll([], first + rest), more)
  {
    KeepAllConcat([], first, rest);
    KeepAllKeepsFront(KeepAll([], first), rest);
    KeepAllKeepsFront(KeepAll([], first + rest), more);
  }

  lemma {:induction false} KeepAllKeepsFront(edges: seq<Edge>, proposals: seq<Edge>)
    ensures edges <= KeepAll(edges, proposals)
  {
    if proposals != [] {
      KeepAllKeepsFront(edges, proposals[..|proposals| - 1]);
    }
  }

  lemma {:induction false} CallsConcat(artifacts: seq<Artifact>, r: Resolver, a: seq<CallSite>, b: seq<CallSite>)
    ensures FromCalls(artifacts, r, a + b) == FromCalls(artifacts, r, a) + FromCalls(artifacts, r, b)
  {
    if b == [] {
      assert a + b == a;
    } else {
      var init, last := b[..|b| - 1], b[|b| - 1];
      assert (a + b)[..|a + b| - 1] == a + init && (a + b)[|a + b| - 1] == last;
      CallsConcat(artifacts, r, a, init);
      var x, y, z := FromCalls(artifacts, r, a), FromCalls(artifacts, r, init), FromCall(artifacts, r, last);
      assert FromCalls(artifacts, r, b) == y + z && FromCalls(artifacts, r, a + b) == (x + y) + z;
    }
  }

  ghost predicate NoRepeats(ids: seq<string>) {
    forall i, j :: 0 <= i < j < |ids| ==> ids[i] != ids[j]
  }

  // A proper edge list gives callee lists without repetition, holding exactly the linked callees.
  lemma {:induction false} CalleesAreTheLinked(edges: seq<Edge>, caller: string)
    requires Proper(edges)
    ensures forall b :: b in CalleesOf(edges, caller) <==> Linked(edges, caller, b)
    ensures NoRepeats(CalleesOf(edges, caller))
  {
    if edges != [] {
      var n := |edges| - 1;
      assert edges == edges[..n] + [edges[n]];
      var before := CalleesOf(edges[..n], caller);
      CalleesAreTheLinked(edges[..n], caller);
      forall b ensures Linked(edges, caller, b)
            <==> Linked(edges[..n], caller, b) || (edges[n].caller == caller && edges[n].callee == b) {
        LinkedSnoc(edges[..n], edges[n], caller, b);
      }
      if edges[n].caller == caller {
        assert forall i :: 0 <= i < n ==> edges[i].caller != caller || edges[i].callee != edges[n].callee;
        assert !Linked(edges[..n], caller, edges[n].callee);
        assert edges[n].callee !in before;
        assert NoRepeats(before + [edges[n].callee]);
      } else {
        assert CalleesOf(edges, caller) == before;
      }
    }
  }

  /******* The resolver *******/

  // What `resolve` keeps while it runs.
  class Bookkeeping {
    var edges: seq<Edge>
    var seen: set<(string, string)>
    var callees: map<string, seq<string>>

    // The three records agree.
    ghost predicate Valid()
      reads this
    {
      && (forall a, b :: (a, b) in seen <==> Linked(edges, a, b))
      && (forall a :: a in callees ==> callees[a] == CalleesOf(edges, a))
    }

    constructor (ids: set<string>)
      ensures Valid() && edges == [] && callees.Keys == ids
    {
      edges, seen, callees := [], {}, map id | id in ids :: [];
    }

    method Record(e: Edge)
      requires Valid() && e.caller in callees
      modifies this
      ensures Valid() && edges == Keep(old(edges), e) && callees.Keys == old(callees).Keys
    {
      if e.caller == e.callee || (e.caller, e.callee) in seen {
        return;
      }
      ghost var before := edges;
      seen := seen + {(e.caller, e.callee)};
      callees := callees[e.caller := callees[e.caller] + [e.callee]];
      edges := edges + [e];
      assert edges[..|edges| - 1] == before;
      forall a, b ensures Linked(edges, a, b) <==> Linked(before, a, b) || (a == e.caller && b == e.callee) {
        LinkedSnoc(before, e, a, b);
      }
    }
  }

  datatype Resolution = Resolution(artifacts: seq<Artifact>, edges: seq<Edge>)

  // An artifact with callees gets them as its calls; one without keeps what it came with.
  function WithCalls(a: Artifact, edges: seq<Edge>): Artifact {
    if CalleesOf(edges, a.id) == [] then a else a.(calls := CalleesOf(edges, a.id))
  }

  // What becomes of an artifact: its calls are the wanted callees other than itself, none twice, if there is
  // any, and what it came with otherwise; nothing else about it changes.
  lemma ArtifactIsExact(artifacts: seq<Artifact>, r: Resolver, calls: seq<CallSite>, a: Artifact)
    requires ResolvesInto(r, artifacts)
    ensures var out := WithCalls(a, Edges(artifacts, r, calls));
            && out == a.(calls := out.calls)
            && if exists b :: b != a.id && Wanted(artifacts, r, calls, a.id, b) then
                 && NoRepeats(out.calls)
                 && forall b :: b in out.calls <==> b != a.id && Wanted(artifacts, r, calls, a.id, b)
               else out.calls == a.calls
  {
    var edges := Edges(artifacts, r, calls);
    EdgesAreExact(artifacts, r, calls);
    CalleesAreTheLinked(edges, a.id);
    if b :| b != a.id && Wanted(artifacts, r, calls, a.id, b) {
      assert b in CalleesOf(edges, a.id);
    } else if CalleesOf(edges, a.id) != [] {
      assert CalleesOf(edges, a.id)[0] in CalleesOf(edges, a.id);
    }
  }

  // Callees stand in the order of their edges.
  lemma {:induction false} CalleesConcat(a: seq<Edge>, b: seq<Edge>, caller: string)
    ensures CalleesOf(a + b, caller) == CalleesOf(a, caller) + CalleesOf(b, caller)
  {
    if b == [] {
      assert a + b == a;
    } else {
      assert (a + b)[..|a + b| - 1] == a + b[..|b| - 1];
      CalleesConcat(a, b[..|b| - 1], caller);
    }
  }

  ghost predicate IndexesFiles(byFile: map<string, seq<Artifact>>, artifacts: seq<Artifact>) {
    forall file :: (if file in byFile then byFile[file] else []) == InFile(artifacts, file)
  }

  method IndexByFile(artifacts: seq<Artifact>) returns (byFile: map<string, seq<Artifact>>)
    ensures IndexesFiles(byFile, artifacts)
  {
    byFile := map[];
    for i := 0 to |artifacts|
      invariant IndexesFiles(byFile, artifacts[..i])
    {
      var a := artifacts[i];
      assert artifacts[..i + 1][..i] == artifacts[..i];
      byFile := byFile[a.file := (if a.file in byFile then byFile[a.file] else []) + [a]];
    }
    assert artifacts[..|artifacts|] == artifacts;
  }

  method Resolve(artifacts: seq<Artifact>, r: Resolver, calls: seq<CallSite>) returns (res: Resolution)
    ensures res.edges == Edges(artifacts, r, calls)
    ensures |res.artifacts| == |artifacts|
    ensures forall i :: 0 <= i < |artifacts| ==> res.artifacts[i] == WithCalls(artifacts[i], res.edges)
  {
    var byFile := IndexByFile(artifacts);
    var book := new Bookkeeping(Ids(artifacts));
    EmitCallEdges(artifacts, byFile, r, calls, book);
    EmitAliasEdges(artifacts, r, book);
    var updated := Update(artifacts, book);
    res := Resolution(updated, book.edges);
  }

  method Update(artifacts: seq<Artifact>, book: Bookkeeping) returns (updated: seq<Artifact>)
    requires book.Valid() && book.callees.Keys == Ids(artifacts)
    ensures |updated| == |artifacts|
    ensures forall i :: 0 <= i < |artifacts| ==> updated[i] == WithCalls(artifacts[i], book.edges)
  {
    updated := [];
    for i := 0 to |artifacts|
      invariant |updated| == i && forall j :: 0 <= j < i ==> updated[j] == WithCalls(artifacts[j], book.edges)
    {
      var a := artifacts[i];
      assert a in artifacts && a.id in Ids(artifacts);
      var callees := book.callees[a.id];
      updated := updated + [if callees != [] then a.(calls := callees) else a];
    }
  }

  // The loop over the call facts.
  method EmitCallEdges(artifacts: seq<Artifact>, byFile: map<string, seq<Artifact>>, r: Resolver, calls: seq<CallSite>,
      book: Bookkeeping)
    requires book.Valid() && book.callees.Keys == Ids(artifacts)
    requires IndexesFiles(byFile, artifacts)
    modifies book
    ensures book.Valid() && book.callees.Keys == Ids(artifacts)
    ensures book.edges == KeepAll(old(book.edges), FromCalls(artifacts, r, calls))
  {
    for i := 0 to |calls|
      invariant book.Valid() && book.callees.Keys == Ids(artifacts)
      invariant book.edges == KeepAll(old(book.edges), FromCalls(artifacts, r, calls[..i]))
    {
      var c := calls[i];
      assert calls[..i + 1][..i] == calls[..i];
      ghost var before := FromCalls(artifacts, r, calls[..i]);
      assert FromCalls(artifacts, r, calls[..i + 1]) == before + FromCall(artifacts, r, c);
      KeepOneMore(old(book.edges), before, FromCall(artifacts, r, c));
      var ranges := if c.file in byFile then byFile[c.file] else [];
      var caller := EnclosingArtifact(ranges, c.line);
      if caller.None? {
        continue;
      }
      SmallestIsFirstSmallest(ranges, Covering(c.line));
      assert caller.value in artifacts && caller.value.id in Ids(artifacts);
      var target := r.named(c, caller.value);
      if target.None? {
        target := r.injected(c);
        if target.None? {
          continue;
        }
      }
      book.Record(Edge(caller.value.id, target.value.id, c.callee));
    }
    assert calls[..|calls|] == calls;
  }

  method EmitAliasEdges(artifacts: seq<Artifact>, r: Resolver, book: Bookkeeping)
    requires book.Valid() && book.callees.Keys == Ids(artifacts)
    modifies book
    ensures book.Valid() && book.callees.Keys == Ids(artifacts)
    ensures book.edges == KeepAll(old(book.edges), FromAliases(r, artifacts))
  {
    for i := 0 to |artifacts|
      invariant book.Valid() && book.callees.Keys == Ids(artifacts)
      invariant book.edges == KeepAll(old(book.edges), FromAliases(r, artifacts[..i]))
    {
      var fn := artifacts[i];
      assert artifacts[..i + 1][..i] == artifacts[..i];
      ghost var before := FromAliases(r, artifacts[..i]);
      if fn.kind != Function && fn.kind != Method {
        assert FromAliases(r, artifacts[..i + 1]) == before;
        continue;
      }
      assert fn in artifacts && fn.id in Ids(artifacts);
      EmitDependencyEdges(fn, r.aliased(fn), book);
      KeepAllConcat(old(book.edges), before, FromDeps(fn, r.aliased(fn)));
    }
    assert artifacts[..|artifacts|] == artifacts;
  }

  // The dependencies behind the parameter types of one artifact.
  method EmitDependencyEdges(fn: Artifact, deps: seq<AliasDep>, book: Bookkeeping)
    requires book.Valid() && fn.id in book.callees
    modifies book
    ensures book.Valid() && book.callees.Keys == old(book.callees.Keys)
    ensures book.edges == KeepAll(old(book.edges), FromDeps(fn, deps))
  {
    ghost var start := book.edges;
    for k := 0 to |deps|
      invariant book.Valid() && book.callees.Keys == old(book.callees.Keys)
      invariant book.edges == KeepAll(start, FromDeps(fn, deps[..k]))
    {
      assert deps[..k + 1][..k] == deps[..k];
      assert FromDeps(fn, deps[..k + 1]) == FromDeps(fn, deps[..k]) + FromDep(fn, deps[k]);
      KeepOneMore(start, FromDeps(fn, deps[..k]), FromDep(fn, deps[k]));
      if deps[k].target.None? {
        continue;
      }
      book.Record(Edge(fn.id, deps[k].target.value.id, deps[k].via));
    }
    assert deps[..|deps|] == deps;
  }

  lemma KeepOneMore(edges: seq<Edge>, proposals: seq<Edge>, more: seq<Edge>)
    requires |more| <= 1
    ensures KeepAll(edges, proposals + more)
         == if more == [] then KeepAll(edges, proposals) else Keep(KeepAll(edges, proposals), more[0])
  {
    if more == [] {
      assert proposals + more == proposals;
    } else {
      assert (proposals + more)[..|proposals|] == proposals;
    }
  }

  lemma {:induction false} KeepAllConcat(edges: seq<Edge>, a: seq<Edge>, b: seq<Edge>)
    ensures KeepAll(edges, a + b) == KeepAll(KeepAll(edges, a), b)
  {
    if b == [] {
      assert a + b == a;
    } else {
      assert (a + b)[..|a + b| - 1] == a + b[..|b| - 1];
      KeepAllConcat(edges, a, b[..|b| - 1]);
    }
  }
}
