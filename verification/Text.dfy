/**
  String operations of the host language: splitting, joining, case, and the order of strings.
*/
module Text {
  // The parts after one more character.
  function Extend(parts: seq<string>, c: char, sep: char): (r: seq<string>)
    requires parts != []
    ensures r != []
  {
    if c == sep then parts + [""] else parts[..|parts| - 1] + [parts[|parts| - 1] + [c]]
  }

  function Split(s: string, sep: char): (parts: seq<string>)
    ensures parts != []
  {
    if s == "" then [""] else Extend(Split(s[..|s| - 1], sep), s[|s| - 1], sep)
  }

  function Join(parts: seq<string>, sep: char): string {
    if parts == [] then ""
    else if |parts| == 1 then parts[0]
    else Join(parts[..|parts| - 1], sep) + [sep] + parts[|parts| - 1]
  }

  function Replace(s: string, from: char, to: char): string {
    seq(|s|, i requires 0 <= i < |s| => if s[i] == from then to else s[i])
  }

  // `s` without the leading copies of `c`.
  function StripLeading(s: string, c: char): string {
    if s != "" && s[0] == c then StripLeading(s[1..], c) else s
  }

  // White space as `str.strip` of the host language understands it.
  predicate IsSpace(c: char) {
    || '\U{0009}' <= c <= '\U{000D}' || '\U{001C}' <= c <= '\U{0020}' || c == '\U{0085}' || c == '\U{00A0}'
    || c == '\U{1680}' || '\U{2000}' <= c <= '\U{200A}' || c == '\U{2028}' || c == '\U{2029}'
    || c == '\U{202F}' || c == '\U{205F}' || c == '\U{3000}'
  }

  // `s` without the spaces at its end.
  function TrimRight(s: string): string {
    if s != "" && IsSpace(s[|s| - 1]) then TrimRight(s[..|s| - 1]) else s
  }

  // `s` without the spaces at either end.
  function Strip(s: string): string {
    if s != "" && IsSpace(s[0]) then Strip(s[1..]) else TrimRight(s)
  }

  // `s` without the copies of `c` at its end.
  function StripTrailing(s: string, c: char): string {
    if s != "" && s[|s| - 1] == c then StripTrailing(s[..|s| - 1], c) else s
  }

  function Lower(s: string): string {
    seq(|s|, i requires 0 <= i < |s| => if 'A' <= s[i] <= 'Z' then (s[i] as int + 32) as char else s[i])
  }

  // No capital is left, and nothing but capitals has changed, each into its own small letter.
  lemma LowerIsExact(s: string)
    ensures |Lower(s)| == |s| && forall c :: c in Lower(s) ==> c < 'A' || 'Z' < c
    ensures forall i :: 0 <= i < |s| && Lower(s)[i] != s[i] ==>
              'A' <= s[i] <= 'Z' && Lower(s)[i] as int - 'a' as int == s[i] as int - 'A' as int
  {
  }

  predicate EndsWith(s: string, suffix: string) {
    |suffix| <= |s| && s[|s| - |suffix|..] == suffix
  }

  /******* Splitting and joining *******/

  lemma ExtendConcat(x: seq<string>, y: seq<string>, c: char, sep: char)
    requires y != []
    ensures Extend(x + y, c, sep) == x + Extend(y, c, sep)
  {
    assert (x + y)[..|x + y| - 1] == x + y[..|y| - 1];
  }

  lemma SplitSnoc(s: string, c: char, sep: char)
    ensures Split(s + [c], sep) == Extend(Split(s, sep), c, sep)
  {
    assert (s + [c])[..|s|] == s;
  }

  lemma {:induction false} SplitConcat(a: string, b: string, sep: char)
    ensures Split(a + [sep] + b, sep) == Split(a, sep) + Split(b, sep)
  {
    if b == "" {
      SplitSnoc(a, sep, sep);
      assert a + [sep] + b == a + [sep];
    } else {
      var init, last := b[..|b| - 1], b[|b| - 1];
      SplitConcat(a, init, sep);
      assert a + [sep] + b == (a + [sep] + init) + [last] && b == init + [last];
      SplitSnoc(a + [sep] + init, last, sep);
      SplitSnoc(init, last, sep);
      ExtendConcat(Split(a, sep), Split(init, sep), last, sep);
    }
  }

  lemma {:induction false} SplitWithout(s: string, sep: char)
    requires sep !in s
    ensures Split(s, sep) == [s]
  {
    if s != "" {
      var init, last := s[..|s| - 1], s[|s| - 1];
      assert s == init + [last] && last in s;
      assert forall c :: c in init ==> c in s;
      SplitWithout(init, sep);
      assert Split(init, sep) == [init] && [init][..0] == [];
      assert Extend([init], last, sep) == [init + [last]];
    }
  }

  lemma {:induction false} PartsAreFree(s: string, sep: char)
    ensures forall p :: p in Split(s, sep) ==> sep !in p && |p| <= |s|
    ensures |Split(s, sep)| >= 2 ==> forall p :: p in Split(s, sep) ==> |p| < |s|
  {
    if s != "" {
      PartsAreFree(s[..|s| - 1], sep);
      var parts := Split(s[..|s| - 1], sep);
      assert parts[|parts| - 1] in parts;
      assert forall p :: p in parts[..|parts| - 1] ==> p in parts;
    }
  }

  // Splitting undoes joining, when no part holds the separator.
  lemma {:induction false} SplitOfJoin(parts: seq<string>, sep: char)
    requires parts != [] && forall p :: p in parts ==> sep !in p
    ensures Split(Join(parts, sep), sep) == parts
  {
    var init, last := parts[..|parts| - 1], parts[|parts| - 1];
    assert last in parts && forall p :: p in init ==> p in parts;
    SplitWithout(last, sep);
    if |parts| > 1 {
      SplitOfJoin(init, sep);
      SplitConcat(Join(init, sep), last, sep);
    }
  }

  // Joining undoes splitting.
  lemma {:induction false} JoinOfSplit(s: string, sep: char)
    ensures Join(Split(s, sep), sep) == s
  {
    if s != "" {
      var init, last := s[..|s| - 1], s[|s| - 1];
      var parts := Split(init, sep);
      JoinOfSplit(init, sep);
      var longer := Extend(parts, last, sep);
      if last == sep {
        assert longer[..|longer| - 1] == parts;
        assert Join(parts, sep) + [sep] + "" == init + [last];
      } else {
        assert longer[..|longer| - 1] == parts[..|parts| - 1];
        if |parts| > 1 {
          var head := Join(parts[..|parts| - 1], sep) + [sep];
          assert head + (parts[|parts| - 1] + [last]) == (head + parts[|parts| - 1]) + [last];
        }
      }
      assert s == init + [last];
    }
  }

  lemma {:induction false} PartsHoldNothingNew(s: string, sep: char)
    ensures forall p, c :: p in Split(s, sep) && c in p ==> c in s
  {
    if s != "" {
      var init, last := s[..|s| - 1], s[|s| - 1];
      PartsHoldNothingNew(init, sep);
      assert s == init + [last];
      var parts := Split(init, sep);
      assert parts[|parts| - 1] in parts;
      assert forall p :: p in parts[..|parts| - 1] ==> p in parts;
    }
  }

  // What stands behind the last separator, and what stands before it, the separator included.
  lemma LastPart(s: string, sep: char) returns (before: string, last: string)
    ensures var parts := Split(s, sep);
            last == parts[|parts| - 1] && s == before + last && sep !in last
    ensures before == "" || before[|before| - 1] == sep
  {
    var parts := Split(s, sep);
    last := parts[|parts| - 1];
    JoinOfSplit(s, sep);
    PartsAreFree(s, sep);
    assert last in parts;
    before := if |parts| == 1 then "" else Join(parts[..|parts| - 1], sep) + [sep];
  }

  lemma SplitLast(before: string, last: string, sep: char)
    requires sep !in last && (before == "" || before[|before| - 1] == sep)
    ensures var parts := Split(before + last, sep);
            parts[|parts| - 1] == last
  {
    var whole := before + last;
    SplitWithout(last, sep);
    if before == "" {
      assert whole == last;
      assert Split(whole, sep) == [last];
    } else {
      var front := before[..|before| - 1];
      assert whole == front + [sep] + last by {
        assert before == front + [sep];
      }
      SplitConcat(front, last, sep);
      var parts := Split(front, sep);
      assert Split(whole, sep) == parts + [last];
      assert (parts + [last])[|parts + [last]| - 1] == last;
    }
  }

  lemma SplitFirst(head: string, rest: string, sep: char)
    requires sep !in head
    ensures Split(head + [sep] + rest, sep)[0] == head && Split(head, sep)[0] == head
  {
    SplitConcat(head, rest, sep);
    SplitWithout(head, sep);
  }

  // What stands behind the first separator.
  lemma FirstPart(s: string, sep: char) returns (rest: string)
    requires sep in s
    ensures s == Split(s, sep)[0] + [sep] + rest
  {
    var parts := Split(s, sep);
    JoinOfSplit(s, sep);
    if |parts| == 1 {
      PartsAreFree(s, sep);
      assert false;
    }
    rest := Join(parts[1..], sep);
    JoinHead(parts, sep);
  }

  lemma {:induction false} JoinHead(parts: seq<string>, sep: char)
    requires |parts| >= 2
    ensures Join(parts, sep) == parts[0] + [sep] + Join(parts[1..], sep)
  {
    var init := parts[..|parts| - 1];
    if |parts| > 2 {
      JoinHead(init, sep);
      assert init[1..] == parts[1..][..|parts| - 2];
      assert parts[1..][|parts| - 2] == parts[|parts| - 1];
      var tail, last := Join(init[1..], sep), parts[|parts| - 1];
      assert (parts[0] + [sep] + tail) + [sep] + last == parts[0] + [sep] + (tail + [sep] + last);
    } else {
      assert init == [parts[0]] && parts[1..] == [parts[1]];
    }
  }

  /******* The order of strings *******/

  predicate Less(a: string, b: string) {
    b != "" && (a == "" || a[0] < b[0] || (a[0] == b[0] && Less(a[1..], b[1..])))
  }

  lemma {:induction false} LessIsStrict(a: string, b: string)
    ensures !(Less(a, b) && Less(b, a)) && !Less(a, a)
    ensures a == b || Less(a, b) || Less(b, a)
  {
    if a != "" && b != "" {
      LessIsStrict(a[1..], b[1..]);
      assert a[0] == b[0] && a[1..] == b[1..] ==> a == [a[0]] + a[1..] == [b[0]] + b[1..] == b;
    }
    if a != "" {
      LessIsStrict(a[1..], a[1..]);
    }
  }

  lemma {:induction false} LessIsTransitive(a: string, b: string, c: string)
    requires Less(a, b) && Less(b, c)
    ensures Less(a, c)
  {
    if a != "" && a[0] == b[0] == c[0] {
      LessIsTransitive(a[1..], b[1..], c[1..]);
    }
  }

  ghost predicate Increasing(items: seq<string>) {
    forall i, j :: 0 <= i < j < |items| ==> Less(items[i], items[j])
  }

  // A string added to a sorted sequence without repetition.
  function InsertString(sorted: seq<string>, x: string): seq<string> {
    if sorted == [] then [x]
    else
      var last := sorted[|sorted| - 1];
      if last == x then sorted
      else if Less(last, x) then sorted + [x]
      else InsertString(sorted[..|sorted| - 1], x) + [last]
  }

  // `tuple(sorted(set(items)))`.
  function SortedSet(items: seq<string>): seq<string> {
    if items == [] then [] else InsertString(SortedSet(items[..|items| - 1]), items[|items| - 1])
  }

  lemma {:induction false} InsertStringKeeps(sorted: seq<string>, x: string)
    requires Increasing(sorted)
    ensures Increasing(InsertString(sorted, x))
    ensures forall y :: y in InsertString(sorted, x) <==> y in sorted || y == x
  {
    if sorted != [] {
      var init, last := sorted[..|sorted| - 1], sorted[|sorted| - 1];
      assert sorted == init + [last];
      LessIsStrict(last, x);
      if Less(last, x) {
        forall i | 0 <= i < |sorted| ensures Less(sorted[i], x) {
          if i < |sorted| - 1 {
            LessIsTransitive(sorted[i], last, x);
          }
        }
      } else if last != x {
        InsertStringKeeps(init, x);
        var inner := InsertString(init, x);
        forall i | 0 <= i < |inner| ensures Less(inner[i], last) {
          assert inner[i] in inner;
        }
      }
    }
  }

  lemma {:induction false} SortedSetKeeps(items: seq<string>)
    ensures Increasing(SortedSet(items))
    ensures forall y :: y in SortedSet(items) <==> y in items
  {
    if items != [] {
      SortedSetKeeps(items[..|items| - 1]);
      InsertStringKeeps(SortedSet(items[..|items| - 1]), items[|items| - 1]);
      assert items == items[..|items| - 1] + [items[|items| - 1]];
    }
  }

  lemma LastIsNotBefore(a: seq<string>)
    requires Increasing(a) && a != []
    ensures a == a[..|a| - 1] + [a[|a| - 1]] && a[|a| - 1] !in a[..|a| - 1]
  {
    LessIsStrict(a[|a| - 1], a[|a| - 1]);
  }

  lemma LastIsLargest(a: seq<string>, x: string)
    requires Increasing(a) && x in a
    ensures x == a[|a| - 1] || Less(x, a[|a| - 1])
  {
    var i :| 0 <= i < |a| && a[i] == x;
  }

  // An increasing sequence is determined by its members.
  lemma {:induction false} IncreasingIsUnique(a: seq<string>, b: seq<string>)
    requires Increasing(a) && Increasing(b) && forall y :: y in a <==> y in b
    ensures a == b
  {
    assert b != [] ==> b[0] in b;
    if a != [] {
      assert a[0] in b;
      var x, y := a[|a| - 1], b[|b| - 1];
      assert x in b && y in a;
      LastIsLargest(a, y);
      LastIsLargest(b, x);
      LessIsStrict(x, y);
      LastIsNotBefore(a);
      LastIsNotBefore(b);
      var p, q := a[..|a| - 1], b[..|b| - 1];
      forall z ensures z in p <==> z in q {
        assert z in a <==> z in p || z == x;
        assert z in b <==> z in q || z == y;
      }
      IncreasingIsUnique(p, q);
    }
  }

  lemma SortedSetIsCanonical(a: seq<string>, b: seq<string>)
    requires forall y :: y in a <==> y in b
    ensures SortedSet(a) == SortedSet(b)
  {
    SortedSetKeeps(a);
    SortedSetKeeps(b);
    IncreasingIsUnique(SortedSet(a), SortedSet(b));
  }

  ghost predicate SameMembers(s: set<string>, items: seq<string>) {
    forall x :: x in s <==> x in items
  }

  // `sorted(s)`, for a set with the members of a sequence.
  method SortSet(s: set<string>, ghost listed: seq<string>) returns (items: seq<string>)
    requires SameMembers(s, listed)
    ensures items == SortedSet(listed)
  {
    items := [];
    var left := s;
    while left != {}
      invariant left <= s && Increasing(items)
      invariant forall x :: x in items <==> x in s && x !in left
      decreases left
    {
      var x :| x in left;
      InsertStringKeeps(items, x);
      items := InsertString(items, x);
      left := left - {x};
    }
    SortedSetKeeps(listed);
    IncreasingIsUnique(items, SortedSet(listed));
  }
}
