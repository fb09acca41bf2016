/**
  Finding the artifact that a line of a file belongs to.

  Calls of the general resolver go to the smallest covering range.  The lookup for SQL and PL/SQL facts
  has a second tier, since some grammars record no end lines: failing a covering range of several
  lines, the latest declaration at or before the line.
*/
module EnclosingLookup {
  import opened Wrappers
  import opened Artifacts
  import opened Text

  /******* Best so far *******/

  // The first of the smallest ranges that satisfy `covers`.
  function Smallest(items: seq<Artifact>, covers: Artifact -> bool): Option<Artifact> {
    if items == [] then None
    else
      var best, a := Smallest(items[..|items| - 1], covers), items[|items| - 1];
      if covers(a) && (best.None? || Span(a) < Span(best.value)) then Some(a) else best
  }

  // The first of those that start last.
  function Latest(items: seq<Artifact>, before: Artifact -> bool): Option<Artifact> {
    if items == [] then None
    else
      var best, a := Latest(items[..|items| - 1], before), items[|items| - 1];
      if before(a) && (best.None? || a.start > best.value.start) then Some(a) else best
  }

  ghost predicate IsFirstSmallest(items: seq<Artifact>, covers: Artifact -> bool, i: int) {
    && 0 <= i < |items| && covers(items[i])
    && (forall j :: 0 <= j < |items| && covers(items[j]) ==> Span(items[i]) <= Span(items[j]))
    && (forall j :: 0 <= j < i && covers(items[j]) ==> Span(items[i]) < Span(items[j]))
  }

  ghost predicate IsFirstLatest(items: seq<Artifact>, before: Artifact -> bool, i: int) {
    && 0 <= i < |items| && before(items[i])
    && (forall j :: 0 <= j < |items| && before(items[j]) ==> items[j].start <= items[i].start)
    && (forall j :: 0 <= j < i && before(items[j]) ==> items[j].start < items[i].start)
  }

  // There is a smallest one exactly when something covers, and it is the first of them.
  lemma {:induction false} SmallestIsFirstSmallest(items: seq<Artifact>, covers: Artifact -> bool)
    ensures Smallest(items, covers).None? <==> forall a :: a in items ==> !covers(a)
    ensures Smallest(items, covers).Some? ==>
              exists i :: IsFirstSmallest(items, covers, i) && items[i] == Smallest(items, covers).value
  {
    if items != [] {
      var n := |items| - 1;
      SmallestIsFirstSmallest(items[..n], covers);
      var best := Smallest(items[..n], covers);
      assert items == items[..n] + [items[n]];
      if best.Some? {
        var i :| IsFirstSmallest(items[..n], covers, i) && items[..n][i] == best.value;
        assert items[i] == best.value;
        forall j | 0 <= j < n && covers(items[j]) ensures Span(items[i]) <= Span(items[j]) {
          assert items[..n][j] == items[j];
        }
        forall j | 0 <= j < i && covers(items[j]) ensures Span(items[i]) < Span(items[j]) {
          assert items[..n][j] == items[j];
        }
        if covers(items[n]) && Span(items[n]) < Span(best.value) {
          assert IsFirstSmallest(items, covers, n);
        } else {
          assert IsFirstSmallest(items, covers, i);
        }
      } else if covers(items[n]) {
        forall j | 0 <= j < n ensures !covers(items[j]) {
          assert items[j] in items[..n];
        }
        assert IsFirstSmallest(items, covers, n);
      }
    }
  }

  lemma {:induction false} LatestIsFirstLatest(items: seq<Artifact>, before: Artifact -> bool)
    ensures Latest(items, before).None? <==> forall a :: a in items ==> !before(a)
    ensures Latest(items, before).Some? ==>
              exists i :: IsFirstLatest(items, before, i) && items[i] == Latest(items, before).value
  {
    if items != [] {
      var n := |items| - 1;
      LatestIsFirstLatest(items[..n], before);
      var best := Latest(items[..n], before);
      assert items == items[..n] + [items[n]];
      if best.Some? {
        var i :| IsFirstLatest(items[..n], before, i) && items[..n][i] == best.value;
        assert items[i] == best.value;
        forall j | 0 <= j < n && before(items[j]) ensures items[j].start <= items[i].start {
          assert items[..n][j] == items[j];
        }
        forall j | 0 <= j < i && before(items[j]) ensures items[j].start < items[i].start {
          assert items[..n][j] == items[j];
        }
        if before(items[n]) && items[n].start > best.value.start {
          assert IsFirstLatest(items, before, n);
        } else {
          assert IsFirstLatest(items, before, i);
        }
      } else if before(items[n]) {
        forall j | 0 <= j < n ensures !before(items[j]) {
          assert items[j] in items[..n];
        }
        assert IsFirstLatest(items, before, n);
      }
    }
  }

  /******* What the best depends on *******/

  lemma {:induction false} SmallestCorresponds(a: seq<Artifact>, b: seq<Artifact>, covers: Artifact -> bool)
    requires |a| == |b|
    requires forall i :: 0 <= i < |a| ==> a[i].id == b[i].id && Span(a[i]) == Span(b[i]) && covers(a[i]) == covers(b[i])
    ensures var x, y := Smallest(a, covers), Smallest(b, covers);
            && (x.None? <==> y.None?)
            && (x.Some? ==> x.value.id == y.value.id && Span(x.value) == Span(y.value))
  {
    if a != [] {
      SmallestCorresponds(a[..|a| - 1], b[..|b| - 1], covers);
    }
  }

  lemma {:induction false} LatestCorresponds(a: seq<Artifact>, b: seq<Artifact>, before: Artifact -> bool)
    requires |a| == |b|
    requires forall i :: 0 <= i < |a| ==> a[i].id == b[i].id && a[i].start == b[i].start && before(a[i]) == before(b[i])
    ensures var x, y := Latest(a, before), Latest(b, before);
            && (x.None? <==> y.None?)
            && (x.Some? ==> x.value.id == y.value.id && x.value.start == y.value.start)
  {
    if a != [] {
      LatestCorresponds(a[..|a| - 1], b[..|b| - 1], before);
    }
  }

  lemma {:induction false} SmallestIgnores(items: seq<Artifact>, others: seq<Artifact>, covers: Artifact -> bool)
    requires forall a :: a in others ==> !covers(a)
    ensures Smallest(items + others, covers) == Smallest(items, covers)
  {
    if others == [] {
      assert items + others == items;
    } else {
      assert (items + others)[..|items + others| - 1] == items + others[..|others| - 1];
      assert others[|others| - 1] in others;
      SmallestIgnores(items, others[..|others| - 1], covers);
    }
  }

  lemma {:induction false} LatestIgnores(items: seq<Artifact>, others: seq<Artifact>, before: Artifact -> bool)
    requires forall a :: a in others ==> !before(a)
    ensures Latest(items + others, before) == Latest(items, before)
  {
    if others == [] {
      assert items + others == items;
    } else {
      assert (items + others)[..|items + others| - 1] == items + others[..|others| - 1];
      assert others[|others| - 1] in others;
      LatestIgnores(items, others[..|others| - 1], before);
    }
  }

  /******* Innermost range *******/

  function Covering(line: nat): Artifact -> bool {
    (a: Artifact) => a.start <= line <= a.end
  }

  function Enclosing(ranges: seq<Artifact>, line: nat): Option<Artifact> {
    Smallest(ranges, Covering(line))
  }

  // `ranges` are the artifacts of one file, in the order they were listed.
  method EnclosingArtifact(ranges: seq<Artifact>, line: nat) returns (best: Option<Artifact>)
    ensures best == Enclosing(ranges, line)
  {
    best := None;
    var bestSpan := 0;
    for i := 0 to |ranges|
      invariant best == Enclosing(ranges[..i], line)
      invariant best.Some? ==> bestSpan == Span(best.value)
    {
      assert ranges[..i + 1][..i] == ranges[..i];
      if ranges[i].start <= line <= ranges[i].end {
        var span := ranges[i].end - ranges[i].start;
        if best.None? || span < bestSpan {
          bestSpan := span;
          best := Some(ranges[i]);
        }
      }
    }
    assert ranges[..|ranges|] == ranges;
  }

  // Any two ranges are nested or disjoint.
  ghost predicate Laminar(ranges: seq<Artifact>) {
    forall a, b :: a in ranges && b in ranges ==>
      || (a.start <= b.start && b.end <= a.end) || (b.start <= a.start && a.end <= b.end)
      || a.end < b.start || b.end < a.start
  }

  // In nested code the result lies inside every range that covers the line.
  lemma EnclosingIsInnermost(ranges: seq<Artifact>, line: nat, a: Artifact)
    requires Laminar(ranges) && a in ranges && a.start <= line <= a.end
    ensures var best := Enclosing(ranges, line);
            best.Some? && best.value in ranges && best.value.start <= line <= best.value.end
            && a.start <= best.value.start && best.value.end <= a.end
  {
    SmallestIsFirstSmallest(ranges, Covering(line));
    assert Covering(line)(a);
    var i :| IsFirstSmallest(ranges, Covering(line), i) && ranges[i] == Enclosing(ranges, line).value;
    var j :| 0 <= j < |ranges| && ranges[j] == a;
    assert Span(ranges[i]) <= Span(ranges[j]);
  }

  /******* Two tiers *******/

  datatype Query = Query(file: string, line: nat, repo: string)

  function BaseName(path: string): string {
    if path == "" || path[|path| - 1] == '/' then ""
    else BaseName(path[..|path| - 1]) + [path[|path| - 1]]
  }

  // The base name is what stands behind the last slash.
  lemma {:induction false} BaseNameIsLastPart(path: string)
    ensures '/' !in BaseName(path)
    ensures exists before :: path == before + BaseName(path) && (before == "" || before[|before| - 1] == '/')
  {
    if path == "" || path[|path| - 1] == '/' {
      assert path == path + "";
    } else {
      var init, last := path[..|path| - 1], path[|path| - 1];
      BaseNameIsLastPart(init);
      var before :| init == before + BaseName(init) && (before == "" || before[|before| - 1] == '/');
      assert path == before + (BaseName(init) + [last]);
    }
  }

  predicate FileMatches(artifactFile: string, file: string) {
    || artifactFile == file || EndsWith(file, artifactFile) || EndsWith(artifactFile, file)
    || BaseName(artifactFile) == BaseName(file)
  }

  predicate Eligible(a: Artifact, q: Query) {
    a.repo == q.repo && a.kind in {Procedure, Function, Trigger, Method} && FileMatches(a.file, q.file)
  }

  // First tier: a range of several lines that covers the line.
  function CoveringLines(q: Query): Artifact -> bool {
    (a: Artifact) => Eligible(a, q) && Span(a) > 0 && a.start <= q.line <= a.end
  }

  // Second tier: anything else that starts at or before the line, multi-line ranges that ended
  // earlier included.
  function StartingBefore(q: Query): Artifact -> bool {
    (a: Artifact) => Eligible(a, q) && !(Span(a) > 0 && a.start <= q.line <= a.end) && a.start <= q.line
  }

  // An empty id counts as no id.
  function EnclosingId(items: seq<Artifact>, q: Query): Option<string> {
    var covering, before := Smallest(items, CoveringLines(q)), Latest(items, StartingBefore(q));
    if covering.Some? && covering.value.id != "" then Some(covering.value.id)
    else if before.Some? then Some(before.value.id) else None
  }

  method EnclosingArtifactId(items: seq<Artifact>, q: Query) returns (id: Option<string>)
    ensures id == EnclosingId(items, q)
  {
    var inRange: Option<string>, bestSpan: int := None, 0;
    var proximity: Option<string>, bestLine: int := None, -1;
    for i := 0 to |items|
      invariant var c := Smallest(items[..i], CoveringLines(q));
                if c.None? then inRange == None else inRange == Some(c.value.id) && bestSpan == Span(c.value)
      invariant var b := Latest(items[..i], StartingBefore(q));
                if b.None? then proximity == None && bestLine == -1
                else proximity == Some(b.value.id) && bestLine == b.value.start
    {
      var a := items[i];
      assert items[..i + 1][..i] == items[..i];
      if a.repo != q.repo || a.kind !in {Procedure, Function, Trigger, Method} || !FileMatches(a.file, q.file) {
        continue;
      }
      var span := a.end - a.start;
      if span > 0 && a.start <= q.line <= a.end {
        if inRange.None? || span < bestSpan {
          bestSpan, inRange := span, Some(a.id);
        }
      } else if a.start <= q.line && a.start > bestLine {
        bestLine, proximity := a.start, Some(a.id);
      }
    }
    assert items[..|items|] == items;
    id := if inRange.Some? && inRange.value != "" then inRange else proximity;
  }

  // What the id names: a covering range of several lines whenever there is one, the smallest and
  // first of them; otherwise the latest and first start at or before the line; nothing only if no
  // eligible artifact starts at or before the line.
  lemma EnclosingIdPrefersCovering(items: seq<Artifact>, q: Query)
    requires forall a :: a in items ==> a.id != ""
    ensures var id := EnclosingId(items, q);
            && (id.None? <==> forall a :: a in items && Eligible(a, q) ==> q.line < a.start)
            && (id.Some? ==> id.value in Ids(items))
            && ((exists a :: a in items && CoveringLines(q)(a)) ==>
                  exists i :: IsFirstSmallest(items, CoveringLines(q), i) && id == Some(items[i].id))
            && (id.Some? && (forall a :: a in items ==> !CoveringLines(q)(a)) ==>
                  exists i :: IsFirstLatest(items, StartingBefore(q), i) && id == Some(items[i].id))
  {
    SmallestIsFirstSmallest(items, CoveringLines(q));
    LatestIsFirstLatest(items, StartingBefore(q));
    forall a | a in items && Eligible(a, q) && a.start <= q.line
      ensures CoveringLines(q)(a) || StartingBefore(q)(a)
    {
    }
    var covering := Smallest(items, CoveringLines(q));
    if covering.Some? {
      var i :| IsFirstSmallest(items, CoveringLines(q), i) && items[i] == covering.value;
      assert CoveringLines(q)(items[i]) && items[i] in items;
    }
    var before := Latest(items, StartingBefore(q));
    if before.Some? {
      var i :| IsFirstLatest(items, StartingBefore(q), i) && items[i] == before.value;
      assert StartingBefore(q)(items[i]) && items[i] in items;
    }
  }

  /******* The same, told from files and lines *******/

  ghost predicate IsBaseName(name: string, path: string) {
    '/' !in name && exists before :: path == before + name && (before == "" || before[|before| - 1] == '/')
  }

  // One path ends in the other, or both have the same part behind their last slash.
  ghost predicate MayBeOneFile(a: string, b: string) {
    || (exists before :: a == before + b) || (exists before :: b == before + a)
    || exists name :: IsBaseName(name, a) && IsBaseName(name, b)
  }

  ghost predicate IsCandidate(a: Artifact, q: Query) {
    a.repo == q.repo && a.kind in {Procedure, Function, Trigger, Method} && MayBeOneFile(a.file, q.file)
  }

  ghost predicate IsAround(a: Artifact, q: Query) {
    IsCandidate(a, q) && a.start < a.end && a.start <= q.line <= a.end
  }

  // The first of the shortest around the line.
  ghost predicate IsInnermost(items: seq<Artifact>, q: Query, i: int) {
    && 0 <= i < |items| && IsAround(items[i], q)
    && forall j :: 0 <= j < |items| && IsAround(items[j], q) ==>
         items[i].end - items[i].start <= items[j].end - items[j].start
         && (j < i ==> items[i].end - items[i].start < items[j].end - items[j].start)
  }

  // The first of those that start last, at or before the line and not around it.
  ghost predicate IsLastBefore(items: seq<Artifact>, q: Query, i: int) {
    && 0 <= i < |items| && IsBefore(items[i], q)
    && forall j :: 0 <= j < |items| && IsBefore(items[j], q) ==>
         items[j].start <= items[i].start && (j < i ==> items[j].start < items[i].start)
  }

  ghost predicate IsBefore(a: Artifact, q: Query) {
    IsCandidate(a, q) && !IsAround(a, q) && a.start <= q.line
  }

  lemma {:induction false} OneBaseName(before: string, name: string)
    requires '/' !in name && (before == "" || before[|before| - 1] == '/')
    ensures BaseName(before + name) == name
  {
    if name == "" {
      assert before + name == before;
    } else {
      var init := name[..|name| - 1];
      assert (before + name)[..|before + name| - 1] == before + init;
      OneBaseName(before, init);
    }
  }

  lemma FilesMatch(a: string, b: string)
    ensures FileMatches(a, b) <==> MayBeOneFile(a, b)
  {
    EndsWithRest(a, b);
    EndsWithRest(b, a);
    BaseNameIs(BaseName(a), a);
    BaseNameIs(BaseName(b), b);
    forall name ensures IsBaseName(name, a) && IsBaseName(name, b) <==> name == BaseName(a) == BaseName(b) {
      BaseNameIs(name, a);
      BaseNameIs(name, b);
    }
  }

  lemma {:induction false} BaseNameIs(name: string, path: string)
    ensures IsBaseName(name, path) <==> name == BaseName(path)
  {
    BaseNameIsLastPart(path);
    if IsBaseName(name, path) {
      var before :| path == before + name && (before == "" || before[|before| - 1] == '/');
      OneBaseName(before, name);
    }
  }

  lemma EndsWithRest(s: string, suffix: string)
    ensures EndsWith(s, suffix) <==> exists before :: s == before + suffix
    ensures s == suffix ==> EndsWith(s, suffix)
  {
    if EndsWith(s, suffix) {
      assert s == s[..|s| - |suffix|] + suffix;
    }
  }

  // The id is that of the innermost artifact around the line, unless there is none or it has no id; then it
  // is that of the last one before the line.
  lemma EnclosingIdIsExact(items: seq<Artifact>, q: Query, id: string)
    ensures EnclosingId(items, q) == Some(id)
       <==> if exists i :: IsInnermost(items, q, i) && items[i].id != "" then
              id != "" && exists i :: IsInnermost(items, q, i) && items[i].id == id
            else exists i :: IsLastBefore(items, q, i) && items[i].id == id
  {
    var covering, before := CoveringLines(q), StartingBefore(q);
    forall a: Artifact ensures (covering(a) <==> IsAround(a, q)) && (before(a) <==> IsBefore(a, q)) {
      FilesMatch(a.file, q.file);
    }
    forall i ensures IsFirstSmallest(items, covering, i) <==> IsInnermost(items, q, i) {
    }
    forall i ensures IsFirstLatest(items, before, i) <==> IsLastBefore(items, q, i) {
    }
    SmallestIsFirstSmallest(items, covering);
    LatestIsFirstLatest(items, before);
    NothingIsInnermost(items, q);
  }

  lemma NothingIsInnermost(items: seq<Artifact>, q: Query)
    ensures forall i, j :: IsInnermost(items, q, i) && IsInnermost(items, q, j) ==> i == j
    ensures forall i, j :: IsLastBefore(items, q, i) && IsLastBefore(items, q, j) ==> i == j
  {
  }

  // What the second tier is documented for: declarations without an end line of their own.
  function WithoutEnd(q: Query): Artifact -> bool {
    (a: Artifact) => Eligible(a, q) && Span(a) <= 0 && a.start <= q.line
  }

  // The first of the latest starters has an end line, and it is before the statement.
  ghost predicate EndedStartsLast(items: seq<Artifact>, q: Query, i: int) {
    IsFirstLatest(items, StartingBefore(q), i) && Span(items[i]) > 0 && items[i].end < q.line
  }

  // The second tier does what it is documented for exactly when no artifact that has ended is the first of
  // the latest starters.
  lemma FallbackIsAsDocumentedExactlyWhen(items: seq<Artifact>, q: Query)
    ensures Latest(items, StartingBefore(q)) == Latest(items, WithoutEnd(q))
       <==> forall i :: !EndedStartsLast(items, q, i)
  {
    LatestIsFirstLatest(items, StartingBefore(q));
    LatestIsFirstLatest(items, WithoutEnd(q));
    var latest, documented := Latest(items, StartingBefore(q)), Latest(items, WithoutEnd(q));
    assert forall a :: WithoutEnd(q)(a) ==> StartingBefore(q)(a);
    if latest.Some? {
      var i :| IsFirstLatest(items, StartingBefore(q), i) && items[i] == latest.value;
      OneFirstLatest(items, StartingBefore(q), i);
      if Span(items[i]) > 0 {
        assert EndedStartsLast(items, q, i);
        assert documented.Some? ==> documented != latest;
      } else {
        assert IsFirstLatest(items, WithoutEnd(q), i);
        OneFirstLatest(items, WithoutEnd(q), i);
      }
    }
  }

  lemma OneFirstLatest(items: seq<Artifact>, before: Artifact -> bool, i: int)
    requires IsFirstLatest(items, before, i)
    ensures forall j :: IsFirstLatest(items, before, j) ==> j == i
  {
  }

  // A statement two lines below a function that has ended is still charged to it.
  lemma EndedFunctionExample(a: Artifact, q: Query)
    requires a.kind == Function && a.repo == q.repo && a.file == q.file && a.id != ""
    requires a.start == 1 && a.end == 3 && q.line == 5
    ensures EnclosingId([a], q) == Some(a.id)
  {
    assert Eligible(a, q);
    assert !CoveringLines(q)(a) && StartingBefore(q)(a);
    SmallestIsFirstSmallest([a], CoveringLines(q));
    LatestIsFirstLatest([a], StartingBefore(q));
    assert a in [a];
  }

  // Without the side condition on ids: whatever is returned is the id of some item.
  lemma EnclosingIdIsKnown(items: seq<Artifact>, q: Query)
    ensures EnclosingId(items, q).Some? ==> EnclosingId(items, q).value in Ids(items)
  {
    SmallestIsFirstSmallest(items, CoveringLines(q));
    LatestIsFirstLatest(items, StartingBefore(q));
  }
}
