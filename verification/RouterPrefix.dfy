/**
  Composing the URL prefix of a router that is mounted on other routers.

  The graph is built from two passes over the call facts; a prefix is then found by walking from a
  router to its parents.  Nothing keeps the parent map from being cyclic.
*/
module RouterPrefix {
  import opened Wrappers
  import opened Text

  datatype Router = Router(file: string, name: string)

  // A prefix and the call fact that declared it.
  datatype Own = Own(prefix: string, id: string)

  datatype Include = Include(parent: Router, prefix: string, id: string)

  datatype RouterGraph = RouterGraph(own: map<Router, Own>, parents: map<Router, Include>)

  // A contribution to a prefix, named by its call fact.
  datatype Piece = Piece(text: string, id: string)

  /******* The graph *******/

  // `parent.include_router(child, prefix=...)`, after the child reference has been resolved.
  datatype IncludeCall = IncludeCall(child: Router, edge: Include)

  // The last mount of a router, if there is one.
  function LastMount(calls: seq<IncludeCall>, child: Router): Option<Include> {
    if calls == [] then None
    else if calls[|calls| - 1].child == child then Some(calls[|calls| - 1].edge)
    else LastMount(calls[..|calls| - 1], child)
  }

  // Every mount of a router counts exactly when all of them name one parent and one prefix.
  lemma {:induction false} EveryMountCountsExactlyWhen(calls: seq<IncludeCall>, child: Router)
    ensures LastMount(calls, child).None? <==> forall c :: c in calls ==> c.child != child
    ensures LastMount(calls, child).Some? ==> IncludeCall(child, LastMount(calls, child).value) in calls
    ensures (forall c :: c in calls && c.child == child ==>
               var last := LastMount(calls, child);
               last.Some? && last.value.parent == c.edge.parent && last.value.prefix == c.edge.prefix)
       <==> forall c, d :: c in calls && d in calls && c.child == d.child == child ==>
              c.edge.parent == d.edge.parent && c.edge.prefix == d.edge.prefix
  {
    if calls != [] {
      var init, last := calls[..|calls| - 1], calls[|calls| - 1];
      assert forall c :: c in calls <==> c in init || c == last;
      EveryMountCountsExactlyWhen(init, child);
      assert last.child == child ==> IncludeCall(child, last.edge) == last;
    }
  }

  lemma SecondMountReplacesExample(child: Router, first: Include, second: Include)
    ensures LastMount([IncludeCall(child, first), IncludeCall(child, second)], child) == Some(second)
  {
  }

  // A router has one parent: a second mount of the same router replaces the first.
  method BuildParents(calls: seq<IncludeCall>) returns (parents: map<Router, Include>)
    ensures forall child :: child in parents <==> LastMount(calls, child).Some?
    ensures forall child :: child in parents ==> Some(parents[child]) == LastMount(calls, child)
  {
    parents := map[];
    for i := 0 to |calls|
      invariant forall child :: child in parents <==> LastMount(calls[..i], child).Some?
      invariant forall child :: child in parents ==> Some(parents[child]) == LastMount(calls[..i], child)
    {
      assert calls[..i + 1][..i] == calls[..i];
      parents := parents[calls[i].child := calls[i].edge];
    }
    assert calls[..|calls|] == calls;
  }

  /******* The walk *******/

  // The routers visited from `current` on: up the parents until there is none or one repeats.
  function Chain(g: RouterGraph, current: Router, visited: set<Router>): seq<Router>
    decreases g.parents.Keys - visited, current !in visited
  {
    if current in visited then []
    else if current !in g.parents then [current]
    else
      assert current in g.parents.Keys - visited && current !in g.parents.Keys - (visited + {current});
      [current] + Chain(g, g.parents[current].parent, visited + {current})
  }

  // What one router contributes, innermost first: its own prefix unless empty, then its mount.
  function PiecesOf(g: RouterGraph, r: Router): seq<Piece> {
    (if r in g.own && g.own[r].prefix != "" then [Piece(g.own[r].prefix, g.own[r].id)] else [])
    + (if r in g.parents then [Piece(g.parents[r].prefix, g.parents[r].id)] else [])
  }

  function Pieces(g: RouterGraph, chain: seq<Router>): seq<Piece> {
    if chain == [] then [] else Pieces(g, chain[..|chain| - 1]) + PiecesOf(g, chain[|chain| - 1])
  }

  // Concatenation from the last piece to the first.
  function Outermost(pieces: seq<Piece>): string {
    if pieces == [] then "" else pieces[|pieces| - 1].text + Outermost(pieces[..|pieces| - 1])
  }

  function Ids(pieces: seq<Piece>): seq<string> {
    seq(|pieces|, i requires 0 <= i < |pieces| => pieces[i].id)
  }

  lemma {:induction false} OutermostConcat(a: seq<Piece>, b: seq<Piece>)
    ensures Outermost(a + b) == Outermost(b) + Outermost(a)
    ensures Ids(a + b) == Ids(a) + Ids(b)
  {
    if b == [] {
      assert a + b == a;
    } else {
      var init, last := b[..|b| - 1], b[|b| - 1];
      assert (a + b)[..|a + b| - 1] == a + init;
      OutermostConcat(a, init);
      ConcatIsAssociative(last.text, Outermost(init), Outermost(a));
      assert Ids(a + b) == Ids(a) + Ids(b);
    }
  }

  // What the walk has put together after visiting `chain`.
  ghost predicate Composed(g: RouterGraph, chain: seq<Router>, prefix: string, derivation: seq<string>) {
    prefix == Outermost(Pieces(g, chain)) && derivation == Ids(Pieces(g, chain))
  }

  lemma VisitComposes(g: RouterGraph, chain: seq<Router>, r: Router, prefix: string, derivation: seq<string>)
    requires Composed(g, chain, prefix, derivation)
    ensures Composed(g, chain + [r], MountPrefix(g, r) + (OwnPrefix(g, r) + prefix),
                     derivation + OwnId(g, r) + MountId(g, r))
  {
    StepOfChain(g, chain, r);
  }

  lemma ChainUnfolds(g: RouterGraph, chain: seq<Router>, current: Router, visited: set<Router>)
    requires current !in visited
    ensures chain + Chain(g, current, visited)
         == chain + [current]
            + if current in g.parents then Chain(g, g.parents[current].parent, visited + {current}) else []
  {
    if current in g.parents {
      var rest := Chain(g, g.parents[current].parent, visited + {current});
      assert chain + ([current] + rest) == chain + [current] + rest;
    } else {
      assert chain + [current] + [] == chain + [current];
    }
  }

  // The prefix is the concatenation of the pieces named by the returned ids, outermost first.
  method ResolvePrefix(g: RouterGraph, start: Router) returns (prefix: string, derivation: seq<string>)
    ensures Composed(g, Chain(g, start, {}), prefix, derivation)
  {
    prefix, derivation := "", [];
    var visited: set<Router> := {};
    var current := start;
    ghost var chain: seq<Router> := [];
    while current !in visited
      invariant chain + Chain(g, current, visited) == Chain(g, start, {})
      invariant Composed(g, chain, prefix, derivation)
      decreases g.parents.Keys - visited
    {
      ghost var p, d := prefix, derivation;
      ChainUnfolds(g, chain, current, visited);
      VisitComposes(g, chain, current, prefix, derivation);
      visited := visited + {current};
      chain := chain + [current];
      if current in g.own {
        var own := g.own[current];
        if own.prefix != "" {
          prefix := own.prefix + prefix;
          derivation := derivation + [own.id];
        }
      }
      assert prefix == OwnPrefix(g, current) + p && derivation == d + OwnId(g, current);
      if current !in g.parents {
        assert prefix == MountPrefix(g, current) + prefix && derivation == derivation + MountId(g, current);
        break;
      }
      var parent := g.parents[current];
      assert current in g.parents.Keys - (visited - {current});
      if parent.prefix != "" {
        prefix := parent.prefix + prefix;
      }
      derivation := derivation + [parent.id];
      assert prefix == MountPrefix(g, current) + (OwnPrefix(g, current) + p);
      current := parent.parent;
    }
    assert chain == Chain(g, start, {});
  }

  function OwnPrefix(g: RouterGraph, r: Router): string {
    if r in g.own then g.own[r].prefix else ""
  }

  function MountPrefix(g: RouterGraph, r: Router): string {
    if r in g.parents then g.parents[r].prefix else ""
  }

  function OwnId(g: RouterGraph, r: Router): seq<string> {
    if r in g.own && g.own[r].prefix != "" then [g.own[r].id] else []
  }

  function MountId(g: RouterGraph, r: Router): seq<string> {
    if r in g.parents then [g.parents[r].id] else []
  }

  lemma PiecesOfOne(g: RouterGraph, r: Router)
    ensures Outermost(PiecesOf(g, r)) == MountPrefix(g, r) + OwnPrefix(g, r)
    ensures Ids(PiecesOf(g, r)) == OwnId(g, r) + MountId(g, r)
  {
    TwoPieces(PiecesOf(g, r));
    assert MountPrefix(g, r) + "" == MountPrefix(g, r) && "" + OwnPrefix(g, r) == OwnPrefix(g, r);
  }

  lemma StepOfChain(g: RouterGraph, chain: seq<Router>, r: Router)
    ensures Outermost(Pieces(g, chain + [r])) == MountPrefix(g, r) + (OwnPrefix(g, r) + Outermost(Pieces(g, chain)))
    ensures Ids(Pieces(g, chain + [r])) == Ids(Pieces(g, chain)) + OwnId(g, r) + MountId(g, r)
  {
    var before, here := Pieces(g, chain), PiecesOf(g, r);
    assert Pieces(g, chain + [r]) == before + here by {
      assert (chain + [r])[..|chain|] == chain;
    }
    OutermostConcat(before, here);
    PiecesOfOne(g, r);
    ConcatIsAssociative(MountPrefix(g, r), OwnPrefix(g, r), Outermost(before));
    ConcatIsAssociative(Ids(before), OwnId(g, r), MountId(g, r));
  }

  lemma ConcatIsAssociative<T>(a: seq<T>, b: seq<T>, c: seq<T>)
    ensures (a + b) + c == a + (b + c)
  {
  }

  lemma TwoPieces(pieces: seq<Piece>)
    ensures |pieces| == 0 ==> Outermost(pieces) == ""
    ensures |pieces| == 1 ==> Outermost(pieces) == pieces[0].text
    ensures |pieces| == 2 ==> Outermost(pieces) == pieces[1].text + pieces[0].text
  {
    if |pieces| == 2 {
      assert pieces[..1][..0] == [];
      assert Outermost(pieces[..1]) == pieces[0].text + "";
    }
  }

  /******* Termination bound and shape of the walk *******/

  // Whatever the parent map: no router twice, and at most one more step than there are parents.
  lemma {:induction false} ChainIsShort(g: RouterGraph, current: Router, visited: set<Router>)
    ensures var chain := Chain(g, current, visited);
            && |chain| <= |g.parents.Keys - visited| + 1
            && (forall r :: r in chain ==> r !in visited)
            && forall i, j :: 0 <= i < j < |chain| ==> chain[i] != chain[j]
    decreases g.parents.Keys - visited, current !in visited
  {
    if current !in visited && current in g.parents {
      var left := g.parents.Keys - visited;
      assert g.parents.Keys - (visited + {current}) == left - {current};
      ChainIsShort(g, g.parents[current].parent, visited + {current});
    }
  }

  // The chain starts at the router, follows the parents, and ends at a root or before a repetition.
  lemma {:induction false} ChainFollowsParents(g: RouterGraph, current: Router, visited: set<Router>)
    requires current !in visited
    ensures var chain := Chain(g, current, visited);
            && chain != [] && chain[0] == current
            && (forall i :: 0 <= i < |chain| - 1 ==>
                  chain[i] in g.parents && chain[i + 1] == g.parents[chain[i]].parent)
            && var last := chain[|chain| - 1];
               last in g.parents ==> g.parents[last].parent in visited || g.parents[last].parent in chain
    decreases g.parents.Keys - visited
  {
    if current in g.parents && g.parents[current].parent !in visited + {current} {
      assert current in g.parents.Keys - visited;
      ChainFollowsParents(g, g.parents[current].parent, visited + {current});
    }
  }

  /******* Meaning on acyclic chains *******/

  // `r` has a root at most `depth` mounts above it.
  predicate Rooted(g: RouterGraph, r: Router, depth: nat)
    decreases depth
  {
    r !in g.parents || (depth > 0 && Rooted(g, g.parents[r].parent, depth - 1))
  }

  // Nested mounts: the prefix of the parent, the mount's, the router's own.
  function Full(g: RouterGraph, r: Router, depth: nat): string
    requires Rooted(g, r, depth)
    decreases depth
  {
    if r !in g.parents then OwnPrefix(g, r)
    else Full(g, g.parents[r].parent, depth - 1) + g.parents[r].prefix + OwnPrefix(g, r)
  }

  // The visited routers are below `r`, so `r` has not been seen: on a rooted chain nothing repeats.
  ghost predicate AllDeeper(g: RouterGraph, visited: set<Router>, depth: nat) {
    forall v :: v in visited ==> !Rooted(g, v, depth)
  }

  lemma {:induction false} RootedIsMonotone(g: RouterGraph, r: Router, depth: nat, more: nat)
    requires Rooted(g, r, depth) && depth <= more
    ensures Rooted(g, r, more)
    decreases depth
  {
    if r in g.parents {
      RootedIsMonotone(g, g.parents[r].parent, depth - 1, more - 1);
    }
  }

  // Walking from a router with least depth `depth` to its root.
  lemma {:induction false} WalkComposesFull(g: RouterGraph, r: Router, depth: nat, visited: set<Router>)
    requires Rooted(g, r, depth) && AllDeeper(g, visited, depth)
    requires depth > 0 ==> !Rooted(g, r, depth - 1)
    ensures Outermost(Pieces(g, Chain(g, r, visited))) == Full(g, r, depth)
    decreases depth
  {
    assert r !in visited;
    if r in g.parents {
      var parent := g.parents[r].parent;
      forall v | v in visited + {r} ensures !Rooted(g, v, depth - 1) {
        if v in visited && Rooted(g, v, depth - 1) {
          RootedIsMonotone(g, v, depth - 1, depth);
        }
      }
      WalkComposesFull(g, parent, depth - 1, visited + {r});
      FirstOfChain(g, r, Chain(g, parent, visited + {r}));
    } else {
      FirstOfChain(g, r, []);
    }
  }

  lemma FirstOfChain(g: RouterGraph, r: Router, rest: seq<Router>)
    ensures Outermost(Pieces(g, [r] + rest))
         == Outermost(Pieces(g, rest)) + (MountPrefix(g, r) + OwnPrefix(g, r))
  {
    PiecesConcat(g, [r], rest);
    assert [r][..0] == [];
    assert Pieces(g, [r]) == Pieces(g, []) + PiecesOf(g, r) == PiecesOf(g, r);
    OutermostConcat(PiecesOf(g, r), Pieces(g, rest));
    PiecesOfOne(g, r);
  }

  lemma {:induction false} PiecesConcat(g: RouterGraph, a: seq<Router>, b: seq<Router>)
    ensures Pieces(g, a + b) == Pieces(g, a) + Pieces(g, b)
  {
    if b == [] {
      assert a + b == a;
    } else {
      assert (a + b)[..|a + b| - 1] == a + b[..|b| - 1];
      PiecesConcat(g, a, b[..|b| - 1]);
    }
  }

  lemma {:induction false} LeastDepth(g: RouterGraph, r: Router, depth: nat) returns (least: nat)
    requires Rooted(g, r, depth)
    ensures least <= depth && Rooted(g, r, least) && (least > 0 ==> !Rooted(g, r, least - 1))
  {
    if depth == 0 || !Rooted(g, r, depth - 1) {
      least := depth;
    } else {
      least := LeastDepth(g, r, depth - 1);
    }
  }

  lemma {:induction false} FullIgnoresDepth(g: RouterGraph, r: Router, depth: nat, more: nat)
    requires Rooted(g, r, depth) && Rooted(g, r, more)
    ensures Full(g, r, depth) == Full(g, r, more)
    decreases depth
  {
    if r in g.parents {
      FullIgnoresDepth(g, g.parents[r].parent, depth - 1, more - 1);
    }
  }

  // The mounts above a router end in a root exactly when the walk does.
  lemma RootedExactlyWhen(g: RouterGraph, r: Router)
    ensures var chain := Chain(g, r, {});
            chain != [] && (chain[|chain| - 1] !in g.parents <==> exists depth: nat :: Rooted(g, r, depth))
  {
    ChainFollowsParents(g, r, {});
    var chain := Chain(g, r, {});
    if chain[|chain| - 1] !in g.parents {
      RootGivesDepth(g, r, {});
      assert exists depth: nat :: Rooted(g, r, depth);
    }
    if exists depth: nat :: Rooted(g, r, depth) {
      var depth: nat :| Rooted(g, r, depth);
      var least := LeastDepth(g, r, depth);
      DepthGivesRoot(g, r, least, {});
    }
  }

  lemma {:induction false} RootGivesDepth(g: RouterGraph, r: Router, visited: set<Router>)
    requires r !in visited
    requires var chain := Chain(g, r, visited); chain != [] ==> chain[|chain| - 1] !in g.parents
    ensures Rooted(g, r, |Chain(g, r, visited)|)
    decreases g.parents.Keys - visited
  {
    if r in g.parents {
      assert r in g.parents.Keys - visited;
      RootGivesDepth(g, g.parents[r].parent, visited + {r});
    }
  }

  lemma {:induction false} DepthGivesRoot(g: RouterGraph, r: Router, depth: nat, visited: set<Router>)
    requires Rooted(g, r, depth) && AllDeeper(g, visited, depth)
    requires depth > 0 ==> !Rooted(g, r, depth - 1)
    ensures var chain := Chain(g, r, visited); chain != [] && chain[|chain| - 1] !in g.parents
    decreases depth
  {
    assert r !in visited;
    if r in g.parents {
      forall v | v in visited + {r} ensures !Rooted(g, v, depth - 1) {
        if v in visited && Rooted(g, v, depth - 1) {
          RootedIsMonotone(g, v, depth - 1, depth);
        }
      }
      DepthGivesRoot(g, g.parents[r].parent, depth - 1, visited + {r});
    }
  }

  // Whenever the mounts above a router end in a root, the walk returns their recursive meaning.
  lemma PrefixIsFull(g: RouterGraph, r: Router, depth: nat)
    requires Rooted(g, r, depth)
    ensures Outermost(Pieces(g, Chain(g, r, {}))) == Full(g, r, depth)
  {
    var least := LeastDepth(g, r, depth);
    WalkComposesFull(g, r, least, {});
    FullIgnoresDepth(g, r, least, depth);
  }

  /******* Joining path segments *******/

  // `part.strip("/")`.
  function StripSlashes(s: string): string {
    StripTrailing(StripLeading(s, '/'), '/')
  }

  // The segments that are left of a list of parts: stripped, and not empty.
  function Kept(parts: seq<string>): seq<string> {
    if parts == [] then []
    else
      var last := StripSlashes(parts[|parts| - 1]);
      Kept(parts[..|parts| - 1]) + if last == "" then [] else [last]
  }

  function Joined(parts: seq<string>): string {
    "/" + Join(Kept(parts), '/')
  }

  method JoinPaths(parts: seq<string>) returns (path: string)
    ensures path == Joined(parts)
  {
    var segments: seq<string> := [];
    for i := 0 to |parts|
      invariant segments == Kept(parts[..i])
    {
      assert parts[..i + 1][..i] == parts[..i];
      var segment := StripSlashes(parts[i]);
      if segment != "" {
        segments := segments + [segment];
      }
    }
    assert parts[..|parts|] == parts;
    path := "/" + Join(segments, '/');
  }

  predicate NoOuterSlash(s: string) {
    s != "" && s[0] != '/' && s[|s| - 1] != '/'
  }

  lemma {:induction false} TrailingSlashesGo(s: string)
    ensures var r := StripTrailing(s, '/');
            r != "" ==> r[0] == s[0] && r[|r| - 1] != '/'
    ensures StripTrailing(s, '/') <= s
  {
    if s != "" && s[|s| - 1] == '/' {
      TrailingSlashesGo(s[..|s| - 1]);
    }
  }

  lemma {:induction false} LeadingSlashesGo(s: string)
    ensures StripLeading(s, '/') != "" ==> StripLeading(s, '/')[0] != '/'
  {
    if s != "" && s[0] == '/' {
      LeadingSlashesGo(s[1..]);
    }
  }

  lemma {:induction false} KeptAreClean(parts: seq<string>)
    ensures forall s :: s in Kept(parts) ==> NoOuterSlash(s)
  {
    if parts != [] {
      var last := parts[|parts| - 1];
      KeptAreClean(parts[..|parts| - 1]);
      LeadingSlashesGo(last);
      TrailingSlashesGo(StripLeading(last, '/'));
    }
  }

  lemma {:induction false} KeptConcat(a: seq<string>, b: seq<string>)
    ensures Kept(a + b) == Kept(a) + Kept(b)
  {
    if b == [] {
      assert a + b == a;
    } else {
      assert (a + b)[..|a + b| - 1] == a + b[..|b| - 1];
      KeptConcat(a, b[..|b| - 1]);
    }
  }

  lemma {:induction false} JoinConcat(a: seq<string>, b: seq<string>)
    requires a != [] && b != []
    ensures Join(a + b, '/') == Join(a, '/') + "/" + Join(b, '/')
  {
    if |b| == 1 {
      assert (a + b)[..|a + b| - 1] == a;
    } else {
      var init, last := b[..|b| - 1], b[|b| - 1];
      assert (a + b)[..|a + b| - 1] == a + init;
      JoinConcat(a, init);
      assert Join(a, '/') + "/" + Join(init, '/') + "/" + last == Join(a, '/') + "/" + (Join(init, '/') + "/" + last);
    }
  }

  lemma {:induction false} JoinIsClean(segments: seq<string>)
    requires segments != [] && forall s :: s in segments ==> NoOuterSlash(s)
    ensures NoOuterSlash(Join(segments, '/'))
  {
    if |segments| > 1 {
      assert forall s :: s in segments[..|segments| - 1] ==> s in segments;
      JoinIsClean(segments[..|segments| - 1]);
      var last := segments[|segments| - 1];
      assert NoOuterSlash(last) && Join(segments, '/')[|Join(segments, '/')| - 1] == last[|last| - 1];
    }
  }

  lemma KeptOfJoined(parts: seq<string>)
    ensures Kept([Joined(parts)]) == if Kept(parts) == [] then [] else [Join(Kept(parts), '/')]
  {
    KeptAreClean(parts);
    var path := Joined(parts);
    var single: seq<string> := [path];
    assert single[..0] == [];
    assert Kept(single) == Kept(single[..0]) + if StripSlashes(path) == "" then [] else [StripSlashes(path)];
    assert path[1..] == Join(Kept(parts), '/');
    assert StripLeading(path, '/') == StripLeading(path[1..], '/');
    if Kept(parts) != [] {
      JoinIsClean(Kept(parts));
    }
  }

  // Joining is associative: a joined path may stand for the parts it came from.  In particular the
  // base path, the prefix and the route can be joined in any grouping.
  lemma JoinedIsAssociative(before: seq<string>, parts: seq<string>, after: seq<string>)
    ensures Joined(before + [Joined(parts)] + after) == Joined(before + parts + after)
  {
    KeptOfJoined(parts);
    KeptConcat(before + [Joined(parts)], after);
    KeptConcat(before, [Joined(parts)]);
    KeptConcat(before + parts, after);
    KeptConcat(before, parts);
    var x, y, z := Kept(before), Kept(parts), Kept(after);
    if y != [] {
      var nested, flat := x + [Join(y, '/')], x + y;
      assert Join(nested, '/') == Join(flat, '/') by {
        if x == [] {
          assert nested == [Join(y, '/')] && flat == y;
        } else {
          JoinConcat(x, [Join(y, '/')]);
          JoinConcat(x, y);
        }
      }
      if z == [] {
        assert nested + z == nested && flat + z == flat;
      } else {
        JoinConcat(nested, z);
        JoinConcat(flat, z);
      }
    } else {
      assert x + [] + z == x + y + z;
    }
  }
}
