/**
  The fact store of one repository: all facts, and two indexes that must agree with them.
*/
module FactTree {
  import opened Wrappers
  import opened Sorting

  datatype Kind = Symbol | ClassDef | Import | Call | Decorator | Assignment | OtherKind

  // `end` is absent where a grammar records no last line.
  datatype Fact = Fact(kind: Kind, file: string, line: int, end: Option<int>, payload: string)

  function OfKind(kind: Kind): Fact -> bool {
    (f: Fact) => f.kind == kind
  }

  function InFile(file: string): Fact -> bool {
    (f: Fact) => f.file == file
  }

  // What a query asks for.
  predicate Asked(kind: Option<Kind>, file: Option<string>, f: Fact) {
    (kind.Some? ==> f.kind == kind.value) && (file.Some? ==> f.file == file.value)
  }

  function Matches(kind: Option<Kind>, file: Option<string>): Fact -> bool {
    (f: Fact) => Asked(kind, file, f)
  }

  /******* Symbols after a line *******/

  function IsTarget(file: string, line: int): Fact -> bool {
    (f: Fact) => f.file == file && (f.kind == Symbol || f.kind == ClassDef) && f.line >= line
  }

  ghost predicate IsDefinitionFrom(f: Fact, file: string, line: int) {
    f.kind in {Symbol, ClassDef} && f.file == file && line <= f.line
  }

  // The first fact of those with the least line.
  function Nearest(facts: seq<Fact>, p: Fact -> bool): Option<Fact> {
    if facts == [] then None
    else
      var best, f := Nearest(facts[..|facts| - 1], p), facts[|facts| - 1];
      if p(f) && (best.None? || f.line < best.value.line) then Some(f) else best
  }

  ghost predicate IsFirstNearest(facts: seq<Fact>, p: Fact -> bool, i: int) {
    && 0 <= i < |facts| && p(facts[i])
    && (forall j :: 0 <= j < |facts| && p(facts[j]) ==> facts[i].line <= facts[j].line)
    && (forall j :: 0 <= j < i && p(facts[j]) ==> facts[i].line < facts[j].line)
  }

  lemma {:induction false} NearestIsFirstNearest(facts: seq<Fact>, p: Fact -> bool)
    ensures Nearest(facts, p).None? <==> forall f :: f in facts ==> !p(f)
    ensures Nearest(facts, p).Some? ==> exists i :: IsFirstNearest(facts, p, i) && facts[i] == Nearest(facts, p).value
  {
    if facts != [] {
      var n := |facts| - 1;
      NearestIsFirstNearest(facts[..n], p);
      var best := Nearest(facts[..n], p);
      assert facts == facts[..n] + [facts[n]];
      assert forall j :: 0 <= j < n ==> facts[..n][j] == facts[j];
      if best.Some? {
        var i :| IsFirstNearest(facts[..n], p, i) && facts[..n][i] == best.value;
        if p(facts[n]) && facts[n].line < best.value.line {
          assert IsFirstNearest(facts, p, n);
        } else {
          assert IsFirstNearest(facts, p, i);
        }
      } else if p(facts[n]) {
        forall j | 0 <= j < n ensures !p(facts[j]) {
          assert facts[j] in facts[..n];
        }
        assert IsFirstNearest(facts, p, n);
      }
    }
  }

  lemma NearestSnoc(facts: seq<Fact>, i: nat, p: Fact -> bool)
    requires i < |facts|
    ensures Nearest(facts[..i + 1], p)
         == var best := Nearest(facts[..i], p);
            if p(facts[i]) && (best.None? || facts[i].line < best.value.line) then Some(facts[i]) else best
  {
    assert facts[..i + 1][..i] == facts[..i];
  }

  // Looking only at the facts of the file gives the same answer.
  lemma {:induction false} NearestInFile(facts: seq<Fact>, file: string, line: int)
    ensures Nearest(Filter(facts, InFile(file)), IsTarget(file, line)) == Nearest(facts, IsTarget(file, line))
  {
    if facts != [] {
      var init, last := facts[..|facts| - 1], facts[|facts| - 1];
      NearestInFile(init, file, line);
      var kept := Filter(init, InFile(file));
      if last.file == file {
        assert Filter(facts, InFile(file)) == kept + [last];
        assert (kept + [last])[..|kept|] == kept;
      } else {
        assert Filter(facts, InFile(file)) == kept;
      }
    }
  }

  /******* Enclosing classes *******/

  // A class definition at or above the symbol whose end, when known, covers it.
  predicate Covers(f: Fact, symbol: Fact) {
    f.kind == ClassDef && f.file == symbol.file && f.line <= symbol.line && (f.end.None? || f.end.value >= symbol.line)
  }

  function StartsAbove(symbol: Fact): Fact -> bool {
    (f: Fact) => f.kind == ClassDef && f.line <= symbol.line
  }

  // Descending line as an ascending key.
  function Depth(): Fact -> int {
    (f: Fact) => -f.line
  }

  // The covering class that starts last.
  ghost predicate IsDeepest(facts: seq<Fact>, symbol: Fact, f: Fact) {
    f in facts && Covers(f, symbol) && forall g :: g in facts && Covers(g, symbol) ==> g.line <= f.line
  }

  // The classes of the symbol's file that start at or above it, the last to start first.
  function Candidates(facts: seq<Fact>, symbol: Fact): seq<Fact> {
    Sort(Filter(Filter(facts, InFile(symbol.file)), StartsAbove(symbol)), Depth())
  }

  lemma CandidatesAreAll(facts: seq<Fact>, symbol: Fact)
    ensures Sorted(Candidates(facts, symbol), Depth())
    ensures forall f :: f in Candidates(facts, symbol) <==>
      f in facts && f.file == symbol.file && f.kind == ClassDef && f.line <= symbol.line
  {
    var inFile := Filter(facts, InFile(symbol.file));
    FilterContents(facts, InFile(symbol.file));
    FilterContents(inFile, StartsAbove(symbol));
    SortProperties(Filter(inFile, StartsAbove(symbol)), Depth());
  }

  // The first covering class in descending order of lines is the deepest.
  lemma FirstCoveringIsDeepest(facts: seq<Fact>, sorted: seq<Fact>, symbol: Fact, i: nat)
    requires Sorted(sorted, Depth()) && i < |sorted| && Covers(sorted[i], symbol) && sorted[i] in facts
    requires forall f :: f in facts && Covers(f, symbol) ==> f in sorted
    requires forall j :: 0 <= j < i ==> !Covers(sorted[j], symbol)
    ensures IsDeepest(facts, symbol, sorted[i])
  {
    forall g | g in facts && Covers(g, symbol) ensures g.line <= sorted[i].line {
      var j :| 0 <= j < |sorted| && sorted[j] == g;
      assert j > i ==> Depth()(sorted[i]) <= Depth()(sorted[j]);
    }
  }

  ghost predicate NoneCovers(facts: seq<Fact>, symbol: Fact) {
    forall f :: f in facts ==> !Covers(f, symbol)
  }

  lemma NoneCoversSnoc(facts: seq<Fact>, i: nat, symbol: Fact)
    requires i < |facts| && NoneCovers(facts[..i], symbol) && !Covers(facts[i], symbol)
    ensures NoneCovers(facts[..i + 1], symbol)
  {
    assert facts[..i + 1] == facts[..i] + [facts[i]];
  }

  lemma CandidateCovers(facts: seq<Fact>, symbol: Fact, i: nat)
    requires i < |Candidates(facts, symbol)|
    ensures var f := Candidates(facts, symbol)[i];
            f in facts && (Covers(f, symbol) <==> f.end.None? || f.end.value >= symbol.line)
  {
    CandidatesAreAll(facts, symbol);
    assert Candidates(facts, symbol)[i] in Candidates(facts, symbol);
  }

  lemma NoCandidateNoClass(facts: seq<Fact>, symbol: Fact)
    requires NoneCovers(Candidates(facts, symbol), symbol)
    ensures NoneCovers(facts, symbol)
  {
    CandidatesAreAll(facts, symbol);
  }

  function CoversFrom(symbol: Fact, line: int): Fact -> bool {
    (f: Fact) => Covers(f, symbol) && f.line == line
  }

  // The first, in the order of the facts, of the covering classes that start last.
  ghost predicate IsFirstDeepest(facts: seq<Fact>, symbol: Fact, f: Fact) {
    && IsDeepest(facts, symbol, f)
    && var sameLine := Filter(facts, CoversFrom(symbol, f.line));
       sameLine != [] && sameLine[0] == f
  }

  // Of several classes that start on the deepest line, it is the one met first among all facts.
  lemma FirstCoveringIsFirst(facts: seq<Fact>, symbol: Fact, i: nat)
    requires i < |Candidates(facts, symbol)| && Covers(Candidates(facts, symbol)[i], symbol)
    requires forall j :: 0 <= j < i ==> !Covers(Candidates(facts, symbol)[j], symbol)
    ensures var f := Candidates(facts, symbol)[i];
            Filter(facts, CoversFrom(symbol, f.line)) != [] && Filter(facts, CoversFrom(symbol, f.line))[0] == f
  {
    var sorted := Candidates(facts, symbol);
    var p := CoversFrom(symbol, sorted[i].line);
    var inFile := Filter(facts, InFile(symbol.file));
    var found := Filter(facts, p);
    FilterTwice(inFile, StartsAbove(symbol), p, p);
    FilterTwice(facts, InFile(symbol.file), p, p);
    FilterContents(facts, p);
    SortOfSorted(found, Depth()) by {
      assert forall k :: 0 <= k < |found| ==> found[k] in found;
    }
    SortFiltered(Filter(inFile, StartsAbove(symbol)), Depth(), p);
    FilterStartsWith(sorted, p, i);
  }

  lemma FirstCandidateIsIt(facts: seq<Fact>, symbol: Fact, i: nat)
    requires i < |Candidates(facts, symbol)| && Covers(Candidates(facts, symbol)[i], symbol)
    requires NoneCovers(Candidates(facts, symbol)[..i], symbol)
    ensures IsFirstDeepest(facts, symbol, Candidates(facts, symbol)[i])
  {
    CandidatesAreAll(facts, symbol);
    assert Candidates(facts, symbol)[i] in Candidates(facts, symbol);
    forall j | 0 <= j < i ensures !Covers(Candidates(facts, symbol)[j], symbol) {
      assert Candidates(facts, symbol)[j] in Candidates(facts, symbol)[..i];
    }
    FirstCoveringIsDeepest(facts, Candidates(facts, symbol), symbol, i);
    FirstCoveringIsFirst(facts, symbol, i);
  }

  /******* The tree *******/

  ghost predicate KindIndexed(byKind: map<Kind, seq<Fact>>, all: seq<Fact>) {
    forall k :: (if k in byKind then byKind[k] else []) == Filter(all, OfKind(k))
  }

  ghost predicate FileIndexed(byFile: map<string, seq<Fact>>, all: seq<Fact>) {
    forall f :: (if f in byFile then byFile[f] else []) == Filter(all, InFile(f))
  }

  lemma KindIndexGrows(byKind: map<Kind, seq<Fact>>, all: seq<Fact>, fact: Fact)
    requires KindIndexed(byKind, all)
    ensures KindIndexed(byKind[fact.kind := (if fact.kind in byKind then byKind[fact.kind] else []) + [fact]],
                        all + [fact])
  {
    var grown := byKind[fact.kind := (if fact.kind in byKind then byKind[fact.kind] else []) + [fact]];
    forall k ensures (if k in grown then grown[k] else []) == Filter(all + [fact], OfKind(k)) {
      FilterSnoc(all, fact, OfKind(k));
      assert (if k in byKind then byKind[k] else []) == Filter(all, OfKind(k));
    }
  }

  lemma FileIndexGrows(byFile: map<string, seq<Fact>>, all: seq<Fact>, fact: Fact)
    requires FileIndexed(byFile, all)
    ensures FileIndexed(byFile[fact.file := (if fact.file in byFile then byFile[fact.file] else []) + [fact]],
                        all + [fact])
  {
    var grown := byFile[fact.file := (if fact.file in byFile then byFile[fact.file] else []) + [fact]];
    forall f ensures (if f in grown then grown[f] else []) == Filter(all + [fact], InFile(f)) {
      FilterSnoc(all, fact, InFile(f));
      assert (if f in byFile then byFile[f] else []) == Filter(all, InFile(f));
    }
  }

  class FactTree {
    var all: seq<Fact>
    var byKind: map<Kind, seq<Fact>>
    var byFile: map<string, seq<Fact>>

    // The indexes list, for every kind and every file, the facts of the tree in order.
    ghost predicate Valid()
      reads this
    {
      KindIndexed(byKind, all) && FileIndexed(byFile, all)
    }

    constructor ()
      ensures Valid() && all == []
    {
      all, byKind, byFile := [], map[], map[];
    }

    method Append(fact: Fact)
      requires Valid()
      modifies this
      ensures Valid() && all == old(all) + [fact]
    {
      var kinds := byKind[fact.kind := (if fact.kind in byKind then byKind[fact.kind] else []) + [fact]];
      var files := byFile[fact.file := (if fact.file in byFile then byFile[fact.file] else []) + [fact]];
      assert KindIndexed(kinds, all + [fact]) && FileIndexed(files, all + [fact]) by {
        KindIndexGrows(byKind, all, fact);
        FileIndexGrows(byFile, all, fact);
      }
      all, byKind, byFile := all + [fact], kinds, files;
    }

    method Extend(facts: seq<Fact>)
      requires Valid()
      modifies this
      ensures Valid() && all == old(all) + facts
    {
      for i := 0 to |facts|
        invariant Valid() && all == old(all) + facts[..i]
      {
        Append(facts[i]);
        assert facts[..i + 1] == facts[..i] + [facts[i]];
      }
      assert facts[..|facts|] == facts;
    }

    // Whichever index answers, the answer is the plain filter of all facts, in order.
    method Where(kind: Option<Kind>, file: Option<string>) returns (facts: seq<Fact>)
      requires Valid()
      ensures facts == Filter(all, Matches(kind, file))
      ensures forall f :: f in facts <==> f in all && kind in {None, Some(f.kind)} && file in {None, Some(f.file)}
    {
      FilterContents(all, Matches(kind, file));
      if kind.Some? && file.None? {
        FiltersAgree(all, OfKind(kind.value), Matches(kind, file));
        return if kind.value in byKind then byKind[kind.value] else [];
      }
      if file.Some? && kind.None? {
        FiltersAgree(all, InFile(file.value), Matches(kind, file));
        return if file.value in byFile then byFile[file.value] else [];
      }
      if kind.Some? && file.Some? {
        FilterTwice(all, OfKind(kind.value), InFile(file.value), Matches(kind, file));
        return Filter(if kind.value in byKind then byKind[kind.value] else [], InFile(file.value));
      }
      FilterOfAll(all, Matches(kind, file));
      return all;
    }

    method SymbolAt(file: string, line: int) returns (best: Option<Fact>)
      requires Valid()
      ensures best == Nearest(all, IsTarget(file, line))
      ensures best.Some? ==> best.value in all && IsDefinitionFrom(best.value, file, line)
      ensures forall f :: f in all && IsDefinitionFrom(f, file, line) ==> best.Some? && best.value.line <= f.line
    {
      NearestIsFirstNearest(all, IsTarget(file, line));
      best := None;
      var facts := if file in byFile then byFile[file] else [];
      assert forall i :: 0 <= i < |facts| ==> facts[i].file == file by {
        FilterContents(all, InFile(file));
        assert forall i :: 0 <= i < |facts| ==> facts[i] in facts;
      }
      for i := 0 to |facts|
        invariant best == Nearest(facts[..i], IsTarget(file, line))
      {
        NearestSnoc(facts, i, IsTarget(file, line));
        if facts[i].kind != Symbol && facts[i].kind != ClassDef {
          continue;
        }
        if facts[i].line < line {
          continue;
        }
        if best.None? || facts[i].line < best.value.line {
          best := Some(facts[i]);
        }
      }
      assert facts[..|facts|] == facts;
      NearestInFile(all, file, line);
    }

    method EnclosingClass(symbol: Fact) returns (deepest: Option<Fact>)
      requires Valid()
      ensures deepest.None? <==> NoneCovers(all, symbol)
      ensures deepest.Some? ==> IsFirstDeepest(all, symbol, deepest.value)
    {
      var inFile := if symbol.file in byFile then byFile[symbol.file] else [];
      assert inFile == Filter(all, InFile(symbol.file));
      var sorted := Sort(Filter(inFile, StartsAbove(symbol)), Depth());
      assert sorted == Candidates(all, symbol);
      for i := 0 to |sorted|
        invariant NoneCovers(sorted[..i], symbol)
      {
        CandidateCovers(all, symbol, i);
        if sorted[i].end.None? || sorted[i].end.value >= symbol.line {
          FirstCandidateIsIt(all, symbol, i);
          return Some(sorted[i]);
        }
        NoneCoversSnoc(sorted, i, symbol);
      }
      assert sorted[..|sorted|] == sorted;
      NoCandidateNoClass(all, symbol);
      return None;
    }
  }

  lemma {:induction false} FiltersAgree(facts: seq<Fact>, p: Fact -> bool, q: Fact -> bool)
    requires forall f :: p(f) <==> q(f)
    ensures Filter(facts, p) == Filter(facts, q)
  {
    if facts != [] {
      FiltersAgree(facts[..|facts| - 1], p, q);
    }
  }

  lemma {:induction false} FilterTwice(facts: seq<Fact>, p: Fact -> bool, q: Fact -> bool, both: Fact -> bool)
    requires forall f :: both(f) <==> p(f) && q(f)
    ensures Filter(Filter(facts, p), q) == Filter(facts, both)
  {
    if facts != [] {
      var init, last := facts[..|facts| - 1], facts[|facts| - 1];
      FilterTwice(init, p, q, both);
      if p(last) {
        FilterSnoc(Filter(init, p), last, q);
      } else {
        assert Filter(facts, p) == Filter(init, p);
      }
    }
  }

  lemma {:induction false} FilterOfAll(facts: seq<Fact>, p: Fact -> bool)
    requires forall f :: p(f)
    ensures Filter(facts, p) == facts
  {
    if facts != [] {
      FilterOfAll(facts[..|facts| - 1], p);
    }
  }
}
