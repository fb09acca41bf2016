/**
  Following re-exports.  An alias map sends a `(module, name)` pair to the pairs it re-exports; the
  expansion walks it depth first with an explicit stack, at most `MAX_DEPTH` hops deep.  The map may
  be cyclic.
*/
module AliasExpansion {
  datatype Key = Key(mod: string, name: string)

  type Aliases = map<Key, seq<Key>>

  datatype Entry = Entry(key: Key, depth: nat)

  const MAX_DEPTH: nat := 5

  function Targets(aliases: Aliases, key: Key): seq<Key> {
    if key in aliases then aliases[key] else []
  }

  function Pushed(keys: seq<Key>, depth: nat): seq<Entry> {
    seq(|keys|, i requires 0 <= i < |keys| => Entry(keys[i], depth))
  }

  // Whether popping `e` yields its key.
  predicate Visited(e: Entry, seen: set<Key>) {
    e.key !in seen && e.depth <= MAX_DEPTH
  }

  // The stack after `e` was popped off and visited.
  function Refilled(rest: seq<Entry>, e: Entry, aliases: Aliases): seq<Entry> {
    rest + Pushed(Targets(aliases, e.key), e.depth + 1)
  }

  // Each visit either uses up an unseen key of the map or pushes nothing.
  lemma VisitMakesProgress(rest: seq<Entry>, e: Entry, seen: set<Key>, aliases: Aliases)
    requires e.key !in seen
    ensures e.key in aliases ==> aliases.Keys - (seen + {e.key}) < aliases.Keys - seen
    ensures e.key !in aliases ==>
      aliases.Keys - (seen + {e.key}) == aliases.Keys - seen && Refilled(rest, e, aliases) == rest
  {
    if e.key in aliases {
      assert e.key in aliases.Keys - seen && e.key !in aliases.Keys - (seen + {e.key});
    }
  }

  // What the loop still yields from a given stack and set of seen keys.
  function Yields(stack: seq<Entry>, seen: set<Key>, aliases: Aliases): seq<Key>
    decreases aliases.Keys - seen, |stack|
  {
    if stack == [] then [] else
    var top, rest := stack[|stack| - 1], stack[..|stack| - 1];
    if !Visited(top, seen) then Yields(rest, seen, aliases)
    else
      VisitMakesProgress(rest, top, seen, aliases);
      [top.key] + Yields(Refilled(rest, top, aliases), seen + {top.key}, aliases)
  }

  function Expansion(start: Key, aliases: Aliases): seq<Key> {
    Yields([Entry(start, 0)], {}, aliases)
  }

  method Expand(start: Key, aliases: Aliases) returns (out: seq<Key>)
    ensures out == Expansion(start, aliases)
  {
    out := [];
    var seen: set<Key> := {};
    var stack := [Entry(start, 0)];
    while stack != []
      invariant out + Yields(stack, seen, aliases) == Expansion(start, aliases)
      decreases aliases.Keys - seen, |stack|
    {
      var top := stack[|stack| - 1];
      ghost var rest := stack[..|stack| - 1];
      stack := stack[..|stack| - 1];
      if top.key in seen || top.depth > MAX_DEPTH {
        continue;
      }
      VisitMakesProgress(rest, top, seen, aliases);
      seen := seen + {top.key};
      out := out + [top.key];
      if top.key in aliases {
        stack := stack + Pushed(aliases[top.key], top.depth + 1);
      }
      assert stack == Refilled(rest, top, aliases);
    }
  }

  /******* No key twice *******/

  lemma {:induction false} YieldsAreNew(stack: seq<Entry>, seen: set<Key>, aliases: Aliases)
    ensures forall k :: k in Yields(stack, seen, aliases) ==> k !in seen
    ensures IsSimple(Yields(stack, seen, aliases))
    decreases aliases.Keys - seen, |stack|
  {
    if stack != [] {
      var top, rest := stack[|stack| - 1], stack[..|stack| - 1];
      if !Visited(top, seen) {
        YieldsAreNew(rest, seen, aliases);
      } else {
        VisitMakesProgress(rest, top, seen, aliases);
        YieldsAreNew(Refilled(rest, top, aliases), seen + {top.key}, aliases);
        var later := Yields(Refilled(rest, top, aliases), seen + {top.key}, aliases);
        assert Yields(stack, seen, aliases) == [top.key] + later;
        assert top.key !in later;
      }
    }
  }

  lemma ExpansionHasNoDuplicates(start: Key, aliases: Aliases)
    ensures IsSimple(Expansion(start, aliases))
  {
    YieldsAreNew([Entry(start, 0)], {}, aliases);
  }

  /******* Only keys within the depth bound *******/

  // `to` can be reached from `from` in at most `hops` re-exports.
  ghost predicate Within(aliases: Aliases, from: Key, to: Key, hops: nat)
    decreases hops
  {
    from == to || (hops > 0 && exists next :: next in Targets(aliases, from) && Within(aliases, next, to, hops - 1))
  }

  ghost predicate Reachable(aliases: Aliases, from: Key, to: Key) {
    exists hops: nat :: Within(aliases, from, to, hops)
  }

  // Some stack entry still has the hops left to reach `k`.
  ghost predicate InReach(stack: seq<Entry>, aliases: Aliases, k: Key) {
    exists e :: e in stack && e.depth <= MAX_DEPTH && Within(aliases, e.key, k, MAX_DEPTH - e.depth)
  }

  lemma RefilledReach(rest: seq<Entry>, top: Entry, aliases: Aliases, k: Key)
    requires top.depth <= MAX_DEPTH && InReach(Refilled(rest, top, aliases), aliases, k)
    ensures InReach(rest + [top], aliases, k)
  {
    var e :| e in Refilled(rest, top, aliases) && e.depth <= MAX_DEPTH
          && Within(aliases, e.key, k, MAX_DEPTH - e.depth);
    if e in rest {
      assert e in rest + [top];
    } else {
      assert e.depth == top.depth + 1 && e.key in Targets(aliases, top.key);
      assert top in rest + [top];
    }
  }

  lemma {:induction false} YieldsAreWithinReach(stack: seq<Entry>, seen: set<Key>, aliases: Aliases, k: Key)
    requires k in Yields(stack, seen, aliases)
    ensures InReach(stack, aliases, k)
    decreases aliases.Keys - seen, |stack|
  {
    var top, rest := stack[|stack| - 1], stack[..|stack| - 1];
    assert stack == rest + [top];
    if !Visited(top, seen) {
      YieldsAreWithinReach(rest, seen, aliases, k);
      var e :| e in rest && e.depth <= MAX_DEPTH && Within(aliases, e.key, k, MAX_DEPTH - e.depth);
      assert e in stack;
    } else if k == top.key {
      assert top in stack;
    } else {
      VisitMakesProgress(rest, top, seen, aliases);
      YieldsAreWithinReach(Refilled(rest, top, aliases), seen + {top.key}, aliases, k);
      RefilledReach(rest, top, aliases, k);
    }
  }

  lemma ExpansionStaysWithinDepth(start: Key, aliases: Aliases, k: Key)
    requires k in Expansion(start, aliases)
    ensures Within(aliases, start, k, 5)
  {
    YieldsAreWithinReach([Entry(start, 0)], {}, aliases, k);
  }

  /******* When nothing reachable is missed *******/

  ghost predicate IsPath(aliases: Aliases, start: Key, path: seq<Key>) {
    && path != [] && path[0] == start
    && forall i :: 0 <= i < |path| - 1 ==> path[i + 1] in Targets(aliases, path[i])
  }

  ghost predicate IsSimple(path: seq<Key>) {
    forall i, j :: 0 <= i < j < |path| ==> path[i] != path[j]
  }

  ghost predicate SimplePathsAreShort(aliases: Aliases, start: Key) {
    forall path :: IsPath(aliases, start, path) && IsSimple(path) ==> |path| - 1 <= MAX_DEPTH
  }

  // Stack entry `e` was pushed at the end of `path`, whose other keys have all been yielded.
  ghost predicate Justifies(aliases: Aliases, start: Key, seen: set<Key>, path: seq<Key>, e: Entry) {
    && IsPath(aliases, start, path) && |path| - 1 == e.depth && path[|path| - 1] == e.key
    && IsSimple(path[..|path| - 1]) && forall k :: k in path[..|path| - 1] ==> k in seen
  }

  ghost predicate Justified(aliases: Aliases, start: Key, seen: set<Key>, paths: seq<seq<Key>>, stack: seq<Entry>) {
    |paths| == |stack| && forall i :: 0 <= i < |stack| ==> Justifies(aliases, start, seen, paths[i], stack[i])
  }

  // Whatever a yielded key re-exports is yielded or waiting on the stack.
  ghost predicate ClosedUpTo(aliases: Aliases, seen: set<Key>, stack: seq<Entry>) {
    forall k, t :: k in seen && t in Targets(aliases, k) ==> t in seen || exists e :: e in stack && e.key == t
  }

  // An entry whose key is unseen stands at the end of a simple path.
  lemma UnseenEndsSimplePath(aliases: Aliases, start: Key, seen: set<Key>, path: seq<Key>, e: Entry)
    requires Justifies(aliases, start, seen, path, e) && e.key !in seen
    ensures IsSimple(path)
  {
    var n := |path| - 1;
    forall i, j | 0 <= i < j < |path| ensures path[i] != path[j] {
      if j == n {
        assert path[i] in path[..n];
      } else {
        assert path[..n][i] != path[..n][j];
      }
    }
  }

  // The paths behind the entries pushed for the re-exports of `e`.
  lemma PushedAreJustified(aliases: Aliases, start: Key, seen: set<Key>, path: seq<Key>, e: Entry, i: nat)
    requires Justifies(aliases, start, seen, path, e) && e.key !in seen
    requires i < |Targets(aliases, e.key)|
    ensures Justifies(aliases, start, seen + {e.key}, path + [Targets(aliases, e.key)[i]],
                      Entry(Targets(aliases, e.key)[i], e.depth + 1))
  {
    UnseenEndsSimplePath(aliases, start, seen, path, e);
    var longer := path + [Targets(aliases, e.key)[i]];
    assert longer[..|longer| - 1] == path;
    forall k | k in path ensures k in seen + {e.key} {
      var j :| 0 <= j < |path| && path[j] == k;
      assert j < |path| - 1 ==> path[..|path| - 1][j] == k;
    }
  }

  // A visit keeps the paths behind the stack.
  lemma VisitKeepsJustified(rest: seq<Entry>, top: Entry, seen: set<Key>, aliases: Aliases, start: Key,
      paths: seq<seq<Key>>)
    returns (morePaths: seq<seq<Key>>)
    requires Justified(aliases, start, seen, paths, rest + [top]) && top.key !in seen
    ensures Justified(aliases, start, seen + {top.key}, morePaths, Refilled(rest, top, aliases))
  {
    var n, targets := |rest|, Targets(aliases, top.key);
    assert (rest + [top])[n] == top;
    var added := seq(|targets|, i requires 0 <= i < |targets| => paths[n] + [targets[i]]);
    morePaths := paths[..n] + added;
    var stack := Refilled(rest, top, aliases);
    forall i | 0 <= i < |stack| ensures Justifies(aliases, start, seen + {top.key}, morePaths[i], stack[i]) {
      if i < n {
        assert (rest + [top])[i] == stack[i];
      } else {
        PushedAreJustified(aliases, start, seen, paths[n], top, i - n);
      }
    }
  }

  lemma VisitKeepsClosed(rest: seq<Entry>, top: Entry, seen: set<Key>, aliases: Aliases)
    requires ClosedUpTo(aliases, seen, rest + [top])
    ensures ClosedUpTo(aliases, seen + {top.key}, Refilled(rest, top, aliases))
  {
    var stack, targets := Refilled(rest, top, aliases), Targets(aliases, top.key);
    forall k, t | k in seen + {top.key} && t in Targets(aliases, k)
      ensures t in seen + {top.key} || exists e :: e in stack && e.key == t
    {
      if k == top.key {
        var i :| 0 <= i < |targets| && targets[i] == t;
        assert stack[|rest| + i] == Entry(t, top.depth + 1);
      } else if t !in seen + {top.key} {
        var e :| e in rest + [top] && e.key == t;
        assert e in stack;
      }
    }
  }

  // An entry whose key has been yielded can be dropped.
  lemma DropKeepsInvariants(rest: seq<Entry>, top: Entry, seen: set<Key>, aliases: Aliases, start: Key,
      paths: seq<seq<Key>>)
    requires top.key in seen
    requires Justified(aliases, start, seen, paths, rest + [top]) && ClosedUpTo(aliases, seen, rest + [top])
    ensures Justified(aliases, start, seen, paths[..|rest|], rest) && ClosedUpTo(aliases, seen, rest)
  {
    forall i | 0 <= i < |rest| ensures Justifies(aliases, start, seen, paths[..|rest|][i], rest[i]) {
      assert (rest + [top])[i] == rest[i];
    }
    forall k, t | k in seen && t in Targets(aliases, k) && t !in seen ensures exists e :: e in rest && e.key == t {
      var e :| e in rest + [top] && e.key == t;
      assert e in rest;
    }
  }

  lemma VisitYieldsTop(rest: seq<Entry>, top: Entry, seen: set<Key>, aliases: Aliases)
    requires Visited(top, seen)
    ensures aliases.Keys - (seen + {top.key}) <= aliases.Keys
    ensures var later := Yields(Refilled(rest, top, aliases), seen + {top.key}, aliases);
            seen + (set y | y in Yields(rest + [top], seen, aliases)) == seen + {top.key} + set y | y in later
    ensures forall e :: e in rest ==> e in Refilled(rest, top, aliases)
  {
    VisitMakesProgress(rest, top, seen, aliases);
    var later := Yields(Refilled(rest, top, aliases), seen + {top.key}, aliases);
    assert (rest + [top])[..|rest|] == rest;
    assert Yields(rest + [top], seen, aliases) == [top.key] + later;
  }

  lemma {:induction false} ShortSimplePathsMissNothing(
      stack: seq<Entry>, seen: set<Key>, aliases: Aliases, start: Key, paths: seq<seq<Key>>)
    requires SimplePathsAreShort(aliases, start)
    requires Justified(aliases, start, seen, paths, stack) && ClosedUpTo(aliases, seen, stack)
    ensures var all := seen + set y | y in Yields(stack, seen, aliases);
            && ClosedUpTo(aliases, all, [])
            && forall e :: e in stack ==> e.key in all
    decreases aliases.Keys - seen, |stack|
  {
    if stack == [] {
      assert (set y | y in Yields(stack, seen, aliases)) == {};
      assert seen + {} == seen;
    } else {
      var n := |stack| - 1;
      var top, rest := stack[n], stack[..n];
      assert stack == rest + [top];
      assert Justifies(aliases, start, seen, paths[n], stack[n]);
      if top.key in seen {
        DropKeepsInvariants(rest, top, seen, aliases, start, paths);
        ShortSimplePathsMissNothing(rest, seen, aliases, start, paths[..n]);
      } else {
        UnseenEndsSimplePath(aliases, start, seen, paths[n], top);
        VisitMakesProgress(rest, top, seen, aliases);
        var morePaths := VisitKeepsJustified(rest, top, seen, aliases, start, paths);
        VisitKeepsClosed(rest, top, seen, aliases);
        ShortSimplePathsMissNothing(Refilled(rest, top, aliases), seen + {top.key}, aliases, start, morePaths);
        VisitYieldsTop(rest, top, seen, aliases);
      }
    }
  }

  lemma {:induction false} ClosedSetHoldsReachable(aliases: Aliases, all: set<Key>, from: Key, to: Key, hops: nat)
    requires ClosedUpTo(aliases, all, []) && from in all && Within(aliases, from, to, hops)
    ensures to in all
    decreases hops
  {
    if from != to {
      var next :| next in Targets(aliases, from) && Within(aliases, next, to, hops - 1);
      ClosedSetHoldsReachable(aliases, all, next, to, hops - 1);
    }
  }

  // If no simple path from the start is longer than the bound, cycles or not, the expansion is
  // exactly the set of keys reachable by re-exports.
  lemma ExpansionIsClosure(start: Key, aliases: Aliases, k: Key)
    requires SimplePathsAreShort(aliases, start)
    ensures k in Expansion(start, aliases) <==> Reachable(aliases, start, k)
  {
    if k in Expansion(start, aliases) {
      ExpansionStaysWithinDepth(start, aliases, k);
    }
    if Reachable(aliases, start, k) {
      var hops: nat :| Within(aliases, start, k, hops);
      ShortSimplePathsMissNothing([Entry(start, 0)], {}, aliases, start, [[start]]);
      var all := set y | y in Expansion(start, aliases);
      ClosedSetHoldsReachable(aliases, all, start, k, hops);
    }
  }

  /******* What is guaranteed for every map *******/

  lemma {:induction false} ShallowEntriesAreServed(stack: seq<Entry>, seen: set<Key>, aliases: Aliases, e: Entry)
    requires e in stack && e.depth <= MAX_DEPTH
    ensures e.key in seen || e.key in Yields(stack, seen, aliases)
    decreases aliases.Keys - seen, |stack|
  {
    var top, rest := stack[|stack| - 1], stack[..|stack| - 1];
    assert e == top || e in rest;
    if !Visited(top, seen) {
      if e != top {
        ShallowEntriesAreServed(rest, seen, aliases, e);
      }
    } else if e.key != top.key {
      VisitMakesProgress(rest, top, seen, aliases);
      assert e in Refilled(rest, top, aliases);
      ShallowEntriesAreServed(Refilled(rest, top, aliases), seen + {top.key}, aliases, e);
    }
  }

  // The start and its direct re-exports are always yielded, the start first.
  lemma DirectReexportsAreYielded(start: Key, aliases: Aliases, t: Key)
    requires t in Targets(aliases, start)
    ensures t in Expansion(start, aliases) && Expansion(start, aliases)[0] == start
  {
    var targets := Targets(aliases, start);
    var i :| 0 <= i < |targets| && targets[i] == t;
    var top := Entry(start, 0);
    var next := Refilled([], top, aliases);
    assert [top][..0] == [];
    VisitMakesProgress([], top, {}, aliases);
    assert Expansion(start, aliases) == [start] + Yields(next, {} + {start}, aliases);
    assert next[i] == Entry(t, 1);
    ShallowEntriesAreServed(next, {} + {start}, aliases, next[i]);
  }

  lemma {:induction false} WithinOneMore(aliases: Aliases, from: Key, to: Key, hops: nat, next: Key)
    requires Within(aliases, from, to, hops) && next in Targets(aliases, to)
    ensures Within(aliases, from, next, hops + 1)
    decreases hops
  {
    if from == to {
      assert Within(aliases, next, next, hops);
    } else {
      var k :| k in Targets(aliases, from) && Within(aliases, k, to, hops - 1);
      WithinOneMore(aliases, k, to, hops - 1, next);
    }
  }

  // For any map: nothing reachable is missed exactly when every re-export of a yielded key is yielded,
  // that is, when the bound never cut off a key that the walk did not meet otherwise.
  lemma NothingIsMissedExactlyWhen(start: Key, aliases: Aliases)
    ensures (forall k :: Reachable(aliases, start, k) ==> k in Expansion(start, aliases))
       <==> forall k, t :: k in Expansion(start, aliases) && t in Targets(aliases, k) ==> t in Expansion(start, aliases)
  {
    var found := Expansion(start, aliases);
    var all := set y | y in found;
    ShallowEntriesAreServed([Entry(start, 0)], {}, aliases, Entry(start, 0));
    if forall k, t :: k in found && t in Targets(aliases, k) ==> t in found {
      forall k | Reachable(aliases, start, k) ensures k in found {
        var hops: nat :| Within(aliases, start, k, hops);
        ClosedSetHoldsReachable(aliases, all, start, k, hops);
      }
    }
    if forall k :: Reachable(aliases, start, k) ==> k in found {
      forall k, t | k in found && t in Targets(aliases, k) ensures t in found {
        ExpansionStaysWithinDepth(start, aliases, k);
        WithinOneMore(aliases, start, k, MAX_DEPTH, t);
      }
    }
  }

  // Two hops are already too many: with a long detour explored first, a key two re-exports away is
  // missed.  `a` is first met at depth 5, so its own re-export is dropped at depth 6, and the direct
  // way to `a` comes too late.
  lemma TwoHopsCanBeMissed(aliases: Aliases, s: Key, a: Key, b: Key, c: Key, d: Key, e: Key, x: Key)
    requires IsSimple([s, a, b, c, d, e, x])
    requires aliases == map[s := [a, b], b := [c], c := [d], d := [e], e := [a], a := [x]]
    ensures Within(aliases, s, x, 2) && x !in Expansion(s, aliases)
  {
    var all := [s, a, b, c, d, e, x];
    assert all[0] == s && all[1] == a && all[2] == b && all[3] == c && all[4] == d && all[5] == e && all[6] == x;
    assert a in Targets(aliases, s) && x in Targets(aliases, a);
    assert Within(aliases, a, x, 1) by { assert Within(aliases, x, x, 0); }
    DetourIsExploredFirst(aliases, s, a, b, c, d, e, x);
  }

  lemma DetourIsExploredFirst(aliases: Aliases, s: Key, a: Key, b: Key, c: Key, d: Key, e: Key, x: Key)
    requires s != a && a !in {s, b, c, d, e} && b !in {s} && c !in {s, b} && d !in {s, b, c} && e !in {s, b, c, d}
    requires Targets(aliases, s) == [a, b] && Targets(aliases, a) == [x]
    requires Targets(aliases, b) == [c] && Targets(aliases, c) == [d] && Targets(aliases, d) == [e]
          && Targets(aliases, e) == [a]
    ensures Expansion(s, aliases) == [s] + ([b] + ([c] + ([d] + ([e] + ([a] + [])))))
  {
    var low := Entry(a, 1);
    assert [Entry(s, 0)][..0] == [] && Refilled([], Entry(s, 0), aliases) == [low, Entry(b, 1)];
    assert Expansion(s, aliases) == [s] + Yields([low, Entry(b, 1)], {} + {s}, aliases);
    Pop(low, b, 1, c, {} + {s}, aliases);
    Pop(low, c, 2, d, {} + {s} + {b}, aliases);
    Pop(low, d, 3, e, {} + {s} + {b} + {c}, aliases);
    Pop(low, e, 4, a, {} + {s} + {b} + {c} + {d}, aliases);
    Pop(low, a, 5, x, {} + {s} + {b} + {c} + {d} + {e}, aliases);
    DropBoth(low, Entry(x, 6), {} + {s} + {b} + {c} + {d} + {e} + {a}, aliases);
  }

  // One visit with a single re-export, above an entry that stays put.
  lemma Pop(low: Entry, key: Key, depth: nat, next: Key, seen: set<Key>, aliases: Aliases)
    requires key !in seen && depth <= MAX_DEPTH && Targets(aliases, key) == [next]
    ensures Yields([low, Entry(key, depth)], seen, aliases)
         == [key] + Yields([low, Entry(next, depth + 1)], seen + {key}, aliases)
  {
    assert [low, Entry(key, depth)][..1] == [low];
    assert Refilled([low], Entry(key, depth), aliases) == [low, Entry(next, depth + 1)];
  }

  lemma DropBoth(low: Entry, top: Entry, seen: set<Key>, aliases: Aliases)
    requires !Visited(low, seen) && !Visited(top, seen)
    ensures Yields([low, top], seen, aliases) == []
  {
    assert [low, top][..1] == [low] && [low][..0] == [];
    assert Yields([low], seen, aliases) == Yields([low][..0], seen, aliases);
  }
}
