/**
  Blanking regions of a source text without moving its lines.

  The Pro*C extractor blanks the EXEC SQL blocks before the C extractor runs, which blanks comments and
  literals in four passes of its own; line numbers are counted on the blanked text.  The regular
  expressions are not modelled: their matches are spans.
*/
module BlankSpans {
  import opened Sorting

  datatype Span = Span(start: nat, end: nat)

  // Spans of a text, as a regular expression yields them.
  predicate InBounds(spans: seq<Span>, text: string) {
    forall s :: s in spans ==> s.start <= s.end <= |text|
  }

  // `sorted(spans)`: by start, then by end.
  function Ordered(spans: seq<Span>): seq<Span> {
    Sort(Sort(spans, (s: Span) => s.end), (s: Span) => s.start)
  }

  function BlankChar(c: char): char {
    if c == '\n' then c else ' '
  }

  function Blank(s: string): string {
    seq(|s|, i requires 0 <= i < |s| => BlankChar(s[i]))
  }

  // A slice `text[from..to]` of the host language, empty when `to` lies before `from`.
  function Slice(text: string, from: nat, to: nat): string
    requires to <= |text|
  {
    if from <= to then text[from..to] else ""
  }

  // What the loop has put out after the spans, and where it stands.
  function Emitted(text: string, spans: seq<Span>): (string, nat)
    requires InBounds(spans, text)
    ensures Emitted(text, spans).1 <= |text|
  {
    if spans == [] then ("", 0)
    else
      var s := spans[|spans| - 1];
      var (out, last) := Emitted(text, spans[..|spans| - 1]);
      (out + Slice(text, last, s.start) + Blank(text[s.start..s.end]), s.end)
  }

  function Blanked(text: string, spans: seq<Span>): string
    requires InBounds(spans, text)
  {
    var (out, last) := Emitted(text, spans);
    out + text[last..]
  }

  lemma OrderedKeepsSpans(spans: seq<Span>)
    ensures forall s :: s in Ordered(spans) <==> s in spans
  {
    SortProperties(spans, (s: Span) => s.end);
    SortProperties(Sort(spans, (s: Span) => s.end), (s: Span) => s.start);
  }

  lemma EmittedOneMore(text: string, spans: seq<Span>, i: nat)
    requires InBounds(spans, text) && i < |spans|
    ensures spans[i].start <= spans[i].end <= |text|
    ensures var (out, last) := Emitted(text, spans[..i]);
            Emitted(text, spans[..i + 1])
            == (out + Slice(text, last, spans[i].start) + Blank(text[spans[i].start..spans[i].end]), spans[i].end)
  {
    assert spans[i] in spans;
    assert spans[..i + 1][..i] == spans[..i];
  }

  method BlankAll(text: string, spans: seq<Span>) returns (result: string)
    requires InBounds(spans, text)
    ensures InBounds(Ordered(spans), text) && result == Blanked(text, Ordered(spans))
  {
    OrderedKeepsSpans(spans);
    if spans == [] {
      assert text[0..] == text;
      return text;
    }
    var out, last := "", 0;
    var ordered := Ordered(spans);
    assert forall i :: 0 <= i < |ordered| ==> ordered[i] in ordered;
    for i := 0 to |ordered|
      invariant (out, last) == Emitted(text, ordered[..i])
    {
      EmittedOneMore(text, ordered, i);
      out := out + (if last <= ordered[i].start then text[last..ordered[i].start] else "");
      out := out + Blank(text[ordered[i].start..ordered[i].end]);
      last := ordered[i].end;
    }
    assert ordered[..|ordered|] == ordered;
    result := out + text[last..];
  }

  /******* Disjoint spans *******/

  predicate Disjoint(spans: seq<Span>) {
    forall i :: 0 <= i < |spans| - 1 ==> spans[i].end <= spans[i + 1].start
  }

  predicate Inside(spans: seq<Span>, i: int) {
    exists s :: s in spans && s.start <= i < s.end
  }

  // How far the spans reach back over each other.
  function Overlap(spans: seq<Span>): nat {
    if |spans| <= 1 then 0
    else
      var a, b := spans[|spans| - 2], spans[|spans| - 1];
      Overlap(spans[..|spans| - 1]) + if b.start < a.end then a.end - b.start else 0
  }

  lemma {:induction false} OverlapIsZeroExactlyWhen(spans: seq<Span>)
    ensures Overlap(spans) == 0 <==> Disjoint(spans)
  {
    if |spans| > 1 {
      var n := |spans| - 1;
      OverlapIsZeroExactlyWhen(spans[..n]);
      if Disjoint(spans) {
        assert forall i :: 0 <= i < n - 1 ==> spans[..n][i].end <= spans[..n][i + 1].start;
      }
      if Disjoint(spans[..n]) && spans[n - 1].end <= spans[n].start {
        forall i | 0 <= i < n ensures spans[i].end <= spans[i + 1].start {
          assert i < n - 1 ==> spans[..n][i].end <= spans[..n][i + 1].start;
        }
      }
    }
  }

  lemma {:induction false} EmittedLength(text: string, spans: seq<Span>)
    requires InBounds(spans, text)
    ensures |Emitted(text, spans).0| == Emitted(text, spans).1 + Overlap(spans)
  {
    if spans != [] {
      var n := |spans| - 1;
      assert spans[n] in spans;
      EmittedLength(text, spans[..n]);
      if n > 0 {
        assert Emitted(text, spans[..n]).1 == spans[n - 1].end;
      }
    }
  }

  // Overlapping spans lengthen the text by their overlap; the length is kept exactly when the ordered
  // spans are disjoint.
  lemma {:induction false} LengthIsKeptExactlyWhen(text: string, spans: seq<Span>)
    requires InBounds(spans, text)
    ensures |Blanked(text, spans)| == |text| + Overlap(spans)
    ensures |Blanked(text, spans)| == |text| <==> Disjoint(spans)
  {
    EmittedLength(text, spans);
    OverlapIsZeroExactlyWhen(spans);
  }

  // Disjoint spans are ascending, so none reaches past the end of the last.
  lemma SpansEndBefore(text: string, spans: seq<Span>, i: nat)
    requires InBounds(spans, text) && Disjoint(spans) && Emitted(text, spans).1 <= i
    ensures !Inside(spans, i)
  {
    LastEnd(text, spans);
    forall s | s in spans ensures s.end <= i {
      var j :| 0 <= j < |spans| && spans[j] == s;
      assert spans[|spans| - 1] in spans;
      if j < |spans| - 1 {
        DisjointIsApart(spans, j, |spans| - 1);
      }
    }
  }

  // One step: what was put out stays, the gap is copied, the span is blanked.
  lemma EmittedStep(text: string, before: seq<Span>, s: Span, i: nat)
    requires InBounds(before, text) && InBounds(before + [s], text)
    requires s.start <= s.end <= |text| && Emitted(text, before).1 <= s.start && i < s.end
    requires |Emitted(text, before).0| == Emitted(text, before).1
    ensures i < |Emitted(text, before + [s]).0|
    ensures Emitted(text, before + [s]).0[i]
         == if i < Emitted(text, before).1 then Emitted(text, before).0[i]
            else if i < s.start then text[i] else BlankChar(text[i])
  {
    var all := before + [s];
    assert all[..|all| - 1] == before && all[|all| - 1] == s;
    var (out, last) := Emitted(text, before);
    assert Emitted(text, all).0 == out + text[last..s.start] + Blank(text[s.start..s.end]);
    CopiedThenBlanked(text, out, s.start, s.end, i);
  }

  lemma CopiedThenBlanked(text: string, out: string, from: nat, to: nat, i: nat)
    requires |out| <= from <= to <= |text| && i < to
    ensures i < |out + text[|out|..from] + Blank(text[from..to])|
    ensures (out + text[|out|..from] + Blank(text[from..to]))[i]
         == if i < |out| then out[i] else if i < from then text[i] else BlankChar(text[i])
  {
    var blank := Blank(text[from..to]);
    if i >= from {
      assert text[from..to][i - from] == text[i];
      assert blank[i - from] == BlankChar(text[i]);
    }
  }

  lemma InsideStep(before: seq<Span>, s: Span, i: int)
    ensures Inside(before + [s], i) <==> Inside(before, i) || s.start <= i < s.end
  {
    if Inside(before, i) {
      var t :| t in before && t.start <= i < t.end;
      assert t in before + [s];
    }
    if s.start <= i < s.end {
      assert s in before + [s];
    }
  }

  lemma {:induction false} EmittedCharacters(text: string, spans: seq<Span>, i: nat)
    requires InBounds(spans, text) && Disjoint(spans) && i < Emitted(text, spans).1
    ensures i < |Emitted(text, spans).0|
    ensures Emitted(text, spans).0[i] == if Inside(spans, i) then BlankChar(text[i]) else text[i]
  {
    var n := |spans| - 1;
    var s, before := spans[n], spans[..n];
    assert spans == before + [s] && s in spans;
    LastEnd(text, before);
    EmittedLength(text, before);
    OverlapIsZeroExactlyWhen(before);
    EmittedStep(text, before, s, i);
    InsideStep(before, s, i);
    if i < Emitted(text, before).1 {
      EmittedCharacters(text, before, i);
    } else {
      SpansEndBefore(text, before, i);
    }
  }

  lemma LastEnd(text: string, spans: seq<Span>)
    requires InBounds(spans, text)
    ensures Emitted(text, spans).1 == if spans == [] then 0 else spans[|spans| - 1].end
  {
  }

  // Blanking disjoint spans keeps the length, every newline and everything outside the spans, and
  // leaves nothing but newlines and spaces inside them.
  lemma BlankingKeepsTheRest(text: string, spans: seq<Span>, i: nat)
    requires InBounds(spans, text) && Disjoint(spans) && i < |text|
    ensures |Blanked(text, spans)| == |text|
    ensures Blanked(text, spans)[i] == if Inside(spans, i) then BlankChar(text[i]) else text[i]
    ensures Blanked(text, spans)[i] == '\n' <==> text[i] == '\n'
  {
    LengthIsKeptExactlyWhen(text, spans);
    EmittedLength(text, spans);
    OverlapIsZeroExactlyWhen(spans);
    if i < Emitted(text, spans).1 {
      EmittedCharacters(text, spans, i);
    } else {
      SpansEndBefore(text, spans, i);
    }
  }

  /******* Spans in any order *******/

  predicate Apart(a: Span, b: Span) {
    a.end <= b.start || b.end <= a.start
  }

  // Any two spans lie apart, and one that is listed twice is empty.
  ghost predicate PairwiseDisjoint(spans: seq<Span>) {
    && (forall a, b :: a in spans && b in spans && a != b ==> Apart(a, b))
    && forall a :: a in spans && multiset(spans)[a] > 1 ==> a.end <= a.start
  }

  lemma OrderedIsAscending(spans: seq<Span>, i: nat, j: nat)
    requires i < j < |Ordered(spans)|
    ensures Precedes(Ordered(spans)[i], Ordered(spans)[j])
  {
    var start, end := (s: Span) => s.start, (s: Span) => s.end;
    var byEnd := Sort(spans, end);
    var ordered := Sort(byEnd, start);
    var a, b := ordered[i], ordered[j];
    SortProperties(spans, end);
    SortProperties(byEnd, start);
    assert start(a) <= start(b);
    if a.start == b.start {
      assert Before(ordered, a, b);
      SortIsStable(byEnd, start, a, b);
      var k, l :| 0 <= k < l < |byEnd| && byEnd[k] == a && byEnd[l] == b;
      assert end(a) <= end(b);
    }
  }

  lemma OrderedIsPermutation(spans: seq<Span>)
    ensures multiset(Ordered(spans)) == multiset(spans)
  {
    SortProperties(spans, (s: Span) => s.end);
    SortProperties(Sort(spans, (s: Span) => s.end), (s: Span) => s.start);
  }

  lemma {:induction false} DisjointIsApart(spans: seq<Span>, i: nat, j: nat)
    requires Disjoint(spans) && i < j < |spans| && forall s :: s in spans ==> s.start <= s.end
    ensures spans[i].end <= spans[j].start
  {
    if i + 1 < j {
      DisjointIsApart(spans, i, j - 1);
      assert spans[j - 1] in spans && spans[j - 1].end <= spans[j - 1 + 1].start;
    }
  }

  lemma {:induction false} TwoPlaces(spans: seq<Span>, a: Span) returns (i: nat, j: nat)
    requires multiset(spans)[a] > 1
    ensures i < j < |spans| && spans[i] == a && spans[j] == a
  {
    var init, last := spans[..|spans| - 1], spans[|spans| - 1];
    assert spans == init + [last];
    if multiset(init)[a] > 1 {
      i, j := TwoPlaces(init, a);
    } else {
      assert a in init;
      i :| 0 <= i < |init| && init[i] == a;
      j := |init|;
    }
  }

  lemma TwiceIsTwo(spans: seq<Span>, i: nat, j: nat)
    requires i < j < |spans| && spans[i] == spans[j]
    ensures multiset(spans)[spans[i]] > 1
  {
    assert spans == spans[..j] + [spans[j]] + spans[j + 1..];
    assert spans[..j][i] == spans[i];
  }

  lemma ApartAscending(a: Span, b: Span)
    requires a.start <= a.end && b.start <= b.end && Apart(a, b)
    requires Precedes(a, b)
    ensures a.end <= b.start
  {
  }

  lemma ApartMakesDisjoint(spans: seq<Span>)
    requires PairwiseDisjoint(spans) && forall s :: s in spans ==> s.start <= s.end
    ensures Disjoint(Ordered(spans))
  {
    OrderedKeepsSpans(spans);
    OrderedIsPermutation(spans);
    PermutedIsPairwise(spans, Ordered(spans));
    forall i | 0 <= i < |Ordered(spans)| - 1 ensures Precedes(Ordered(spans)[i], Ordered(spans)[i + 1]) {
      OrderedIsAscending(spans, i, i + 1);
    }
    AscendingIsDisjoint(Ordered(spans));
  }

  predicate Precedes(a: Span, b: Span) {
    a.start < b.start || (a.start == b.start && a.end <= b.end)
  }

  lemma AscendingIsDisjoint(spans: seq<Span>)
    requires PairwiseDisjoint(spans) && forall s :: s in spans ==> s.start <= s.end
    requires forall i :: 0 <= i < |spans| - 1 ==> Precedes(spans[i], spans[i + 1])
    ensures Disjoint(spans)
  {
    forall i | 0 <= i < |spans| - 1 ensures spans[i].end <= spans[i + 1].start {
      assert spans[i] in spans && spans[i + 1] in spans;
      NeighboursAreApart(spans, i);
    }
  }

  lemma PermutedIsPairwise(a: seq<Span>, b: seq<Span>)
    requires PairwiseDisjoint(a) && multiset(a) == multiset(b)
    ensures PairwiseDisjoint(b)
  {
    assert forall s :: s in a <==> s in multiset(a);
    assert forall s :: s in b <==> s in multiset(b);
  }

  lemma NeighboursAreApart(spans: seq<Span>, i: nat)
    requires PairwiseDisjoint(spans) && i + 1 < |spans|
    requires spans[i].start <= spans[i].end && spans[i + 1].start <= spans[i + 1].end
    requires Precedes(spans[i], spans[i + 1])
    ensures spans[i].end <= spans[i + 1].start
  {
    var a, b := spans[i], spans[i + 1];
    if a == b {
      TwiceIsTwo(spans, i, i + 1);
    } else {
      assert Apart(a, b);
      ApartAscending(a, b);
    }
  }

  lemma DisjointIsPairwise(spans: seq<Span>)
    requires Disjoint(spans) && forall s :: s in spans ==> s.start <= s.end
    ensures PairwiseDisjoint(spans)
  {
    forall a, b | a in spans && b in spans && a != b ensures Apart(a, b) {
      var i :| 0 <= i < |spans| && spans[i] == a;
      var j :| 0 <= j < |spans| && spans[j] == b;
      if i < j {
        DisjointIsApart(spans, i, j);
      } else {
        DisjointIsApart(spans, j, i);
      }
    }
    forall a | a in spans && multiset(spans)[a] > 1 ensures a.end <= a.start {
      var i, j := TwoPlaces(spans, a);
      DisjointIsApart(spans, i, j);
    }
  }

  // Sorted spans follow each other without overlap exactly when the given ones lie apart.
  lemma OrderedIsDisjointExactlyWhen(text: string, spans: seq<Span>)
    requires InBounds(spans, text)
    ensures Disjoint(Ordered(spans)) <==> PairwiseDisjoint(spans)
  {
    OrderedKeepsSpans(spans);
    OrderedIsPermutation(spans);
    if PairwiseDisjoint(spans) {
      ApartMakesDisjoint(spans);
    }
    if Disjoint(Ordered(spans)) {
      DisjointIsPairwise(Ordered(spans));
    }
  }

  // In whatever order the spans come: blanking keeps the length exactly when they lie apart.
  lemma BlankAllKeepsLengthExactlyWhen(text: string, spans: seq<Span>)
    requires InBounds(spans, text)
    ensures InBounds(Ordered(spans), text)
    ensures |Blanked(text, Ordered(spans))| == |text| <==> PairwiseDisjoint(spans)
  {
    OrderedKeepsSpans(spans);
    OrderedIsDisjointExactlyWhen(text, spans);
    LengthIsKeptExactlyWhen(text, Ordered(spans));
  }

  /******* Line numbers *******/

  function Newlines(s: string): nat {
    if s == "" then 0 else Newlines(s[..|s| - 1]) + if s[|s| - 1] == '\n' then 1 else 0
  }

  function LineOf(text: string, offset: nat): nat
    requires offset <= |text|
  {
    Newlines(text[..offset]) + 1
  }

  // Two texts with the same lines: every offset has the same line number in both.
  ghost predicate SameLines(a: string, b: string) {
    |a| == |b| && forall offset :: 0 <= offset <= |a| ==> LineOf(a, offset) == LineOf(b, offset)
  }

  lemma {:induction false} SameNewlinesSameCount(a: string, b: string)
    requires |a| == |b| && forall i :: 0 <= i < |a| ==> (a[i] == '\n' <==> b[i] == '\n')
    ensures Newlines(a) == Newlines(b)
  {
    if a != "" {
      SameNewlinesSameCount(a[..|a| - 1], b[..|b| - 1]);
    }
  }

  lemma BlankingKeepsLines(text: string, spans: seq<Span>)
    requires InBounds(spans, text) && Disjoint(spans)
    ensures SameLines(Blanked(text, spans), text)
  {
    var out := Blanked(text, spans);
    LengthIsKeptExactlyWhen(text, spans);
    forall offset | 0 <= offset <= |text| ensures LineOf(out, offset) == LineOf(text, offset) {
      forall i | 0 <= i < offset ensures out[i] == '\n' <==> text[i] == '\n' {
        BlankingKeepsTheRest(text, spans, i);
      }
      SameNewlinesSameCount(out[..offset], text[..offset]);
    }
  }

  /******* The Pro*C pipeline *******/

  // A pass replaces every match of a pattern: ascending disjoint spans of the text it is given.
  ghost predicate IsMatcher(matches: string -> seq<Span>) {
    forall text :: InBounds(matches(text), text) && Disjoint(matches(text))
  }

  function Substitute(text: string, matches: string -> seq<Span>): string {
    if InBounds(matches(text), text) then Blanked(text, matches(text)) else text
  }

  // Block comments, line comments, strings, characters: each pass over the result of the one before.
  function StripNoise(text: string, passes: seq<string -> seq<Span>>): string {
    if passes == [] then text
    else Substitute(StripNoise(text, passes[..|passes| - 1]), passes[|passes| - 1])
  }

  lemma {:induction false} StripNoiseKeepsLines(text: string, passes: seq<string -> seq<Span>>)
    requires forall p :: p in passes ==> IsMatcher(p)
    ensures SameLines(StripNoise(text, passes), text)
  {
    if passes != [] {
      var n := |passes| - 1;
      var before := StripNoise(text, passes[..n]);
      assert passes[n] in passes;
      StripNoiseKeepsLines(text, passes[..n]);
      BlankingKeepsLines(before, passes[n](before));
    }
  }

  // The text that C facts are read from, the EXEC SQL blocks blanked by `BlankAll` in whatever order they
  // are given: every line number counted on it is one of the original.
  lemma PipelineKeepsLines(text: string, sql: seq<Span>, passes: seq<string -> seq<Span>>)
    requires InBounds(sql, text) && PairwiseDisjoint(sql) && forall p :: p in passes ==> IsMatcher(p)
    ensures InBounds(Ordered(sql), text)
    ensures SameLines(StripNoise(Blanked(text, Ordered(sql)), passes), text)
  {
    OrderedKeepsSpans(sql);
    OrderedIsDisjointExactlyWhen(text, sql);
    BlankingKeepsLines(text, Ordered(sql));
    StripNoiseKeepsLines(Blanked(text, Ordered(sql)), passes);
  }

  // The line reported for a statement inside an EXEC SQL block: the line where the block starts plus the
  // newlines of the body before the statement.  The body starts after the words EXEC SQL, so the line is
  // right exactly when those words are on one line.
  lemma SqlLineIsRightExactlyWhen(text: string, block: nat, body: nat, statement: nat)
    requires block <= body <= statement <= |text|
    ensures LineOf(text, block) + Newlines(text[body..statement]) == LineOf(text, statement)
       <==> Newlines(text[block..body]) == 0
  {
    NewlinesConcat(text[..block], text[block..body]);
    NewlinesConcat(text[..body], text[body..statement]);
    assert text[..block] + text[block..body] == text[..body];
    assert text[..body] + text[body..statement] == text[..statement];
  }

  // A statement on the second line, of a block whose opening words stand on two lines, is reported on the
  // first.
  lemma SqlLineExample()
    ensures var text := "EXEC\nSQL SELECT a FROM t;";
            LineOf(text, 0) + Newlines(text[8..9]) == 1 && LineOf(text, 9) == 2
  {
    var text := "EXEC\nSQL SELECT a FROM t;";
    assert text[..0] == "" && text[8..9] == " " && text[..9] == "EXEC\n" + "SQL ";
    assert Newlines("") == 0;
    assert " "[..0] == "" && Newlines(" ") == 0;
    NewlinesConcat("EXEC\n", "SQL ");
    NewlinesConcat("EXEC", "\n");
    assert "EXEC" + "\n" == "EXEC\n" && "\n"[..0] == "";
    NoNewlines("EXEC");
    NoNewlines("SQL ");
  }

  // Of two overlapping spans the later one is put out from its own start, so text comes twice.
  lemma OverlapExample()
    ensures InBounds([Span(0, 2), Span(1, 3)], "abc") && Blanked("abc", [Span(0, 2), Span(1, 3)]) == "    "
  {
    var spans := [Span(0, 2), Span(1, 3)];
    assert spans[..1] == [Span(0, 2)] && [Span(0, 2)][..0] == [];
    assert Emitted("abc", [Span(0, 2)]) == ("" + "" + Blank("ab"), 2) by {
      assert "abc"[0..2] == "ab";
    }
    assert "abc"[1..3] == "bc" && Blank("ab") == "  " && Blank("bc") == "  ";
  }

  lemma {:induction false} NoNewlines(s: string)
    requires '\n' !in s
    ensures Newlines(s) == 0
  {
    if s != "" {
      assert s[|s| - 1] in s && forall c :: c in s[..|s| - 1] ==> c in s;
      NoNewlines(s[..|s| - 1]);
    }
  }

  lemma {:induction false} NewlinesConcat(a: string, b: string)
    ensures Newlines(a + b) == Newlines(a) + Newlines(b)
  {
    if b == "" {
      assert a + b == a;
    } else {
      assert (a + b)[..|a + b| - 1] == a + b[..|b| - 1];
      NewlinesConcat(a, b[..|b| - 1]);
    }
  }
}
