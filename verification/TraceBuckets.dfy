/**
  Rolling up trace spans into buckets, one per source, target and endpoint.

  One pass over the spans refines a group-by: every number of a bucket is a count, a minimum or a
  maximum over the spans with its key, so it does not depend on their order.  The protocol and the
  kind of target do: they come from the first span.
*/
module TraceBuckets {
  import opened Wrappers

  // The callee of a span, "" if there is none, and whether it is a tracked service.
  datatype Target = Target(name: string, isService: bool)

  // A span with its target, endpoint and protocol already read off its tags; times are integers.
  datatype Span = Span(service: string, target: Target, endpoint: string, protocol: string, start: int, error: bool)

  datatype Key = Key(source: string, target: string, endpoint: string)

  datatype Bucket = Bucket(protocol: string, targetIsService: bool, count: nat, errors: nat, first: int, last: int)

  datatype Roll = Roll(seen: nat, skipped: nat, services: map<string, int>, buckets: map<Key, Bucket>)

  // A span that leaves its service.
  predicate Crosses(s: Span) {
    s.target.name != "" && s.target.name != s.service
  }

  function KeyOf(s: Span): Key {
    Key(s.service, s.target.name, s.endpoint)
  }

  predicate InBucket(s: Span, k: Key) {
    && s.service == k.source && s.target.name == k.target && s.endpoint == k.endpoint
    && k.target != "" && k.target != k.source
  }

  // Services seen in a span: the emitting one, and the target if it is a service.
  predicate Observes(s: Span, service: string) {
    s.service == service || (s.target.isService && s.target.name == service && service != "")
  }

  /******* The group-by *******/

  function Count(spans: seq<Span>, p: Span -> bool): nat {
    if spans == [] then 0
    else Count(spans[..|spans| - 1], p) + if p(spans[|spans| - 1]) then 1 else 0
  }

  function Skipped(): Span -> bool {
    (s: Span) => s.target.name == "" || s.target.name == s.service
  }

  function Members(k: Key): Span -> bool {
    (s: Span) => InBucket(s, k)
  }

  function Failures(k: Key): Span -> bool {
    (s: Span) => InBucket(s, k) && s.error
  }

  function FirstIn(spans: seq<Span>, k: Key): Option<Span> {
    if spans == [] then None
    else
      var before := FirstIn(spans[..|spans| - 1], k);
      if before.None? && InBucket(spans[|spans| - 1], k) then Some(spans[|spans| - 1]) else before
  }

  // `value` is attained by some member of the group and bounds all of them from below, or above.
  ghost predicate IsEarliest(spans: seq<Span>, k: Key, value: int) {
    && (exists s :: s in spans && InBucket(s, k) && s.start == value)
    && forall s :: s in spans && InBucket(s, k) ==> value <= s.start
  }

  ghost predicate IsLatest(spans: seq<Span>, k: Key, value: int) {
    && (exists s :: s in spans && InBucket(s, k) && s.start == value)
    && forall s :: s in spans && InBucket(s, k) ==> s.start <= value
  }

  ghost predicate IsLastSeen(spans: seq<Span>, service: string, value: int) {
    && (exists s :: s in spans && Observes(s, service) && s.start == value)
    && forall s :: s in spans && Observes(s, service) ==> s.start <= value
  }

  ghost predicate BucketOf(spans: seq<Span>, k: Key, b: Bucket) {
    && b.count == Count(spans, Members(k)) && b.errors == Count(spans, Failures(k))
    && IsEarliest(spans, k, b.first) && IsLatest(spans, k, b.last)
    && FirstIn(spans, k).Some?
    && b.protocol == FirstIn(spans, k).value.protocol && b.targetIsService == FirstIn(spans, k).value.target.isService
  }

  ghost predicate Summarizes(spans: seq<Span>, r: Roll) {
    && r.seen == |spans| && r.skipped == Count(spans, Skipped())
    && (forall k :: k in r.buckets <==> exists s :: s in spans && InBucket(s, k))
    && (forall k :: k in r.buckets ==> BucketOf(spans, k, r.buckets[k]))
    && (forall x :: x in r.services <==> exists s :: s in spans && Observes(s, x))
    && (forall x :: x in r.services ==> IsLastSeen(spans, x, r.services[x]))
  }

  /******* Sums over buckets *******/

  ghost function Total(buckets: map<Key, Bucket>): nat {
    if buckets == map[] then 0
    else
      var k :| k in buckets;
      buckets[k].count + Total(buckets - {k})
  }

  lemma {:induction false} TotalTakesOut(buckets: map<Key, Bucket>, k: Key)
    requires k in buckets
    ensures Total(buckets) == buckets[k].count + Total(buckets - {k})
    decreases |buckets|
  {
    var j :| j in buckets && Total(buckets) == buckets[j].count + Total(buckets - {j});
    if j != k {
      TotalTakesOut(buckets - {j}, k);
      TotalTakesOut(buckets - {k}, j);
      assert buckets - {j} - {k} == buckets - {k} - {j};
    }
  }

  lemma TotalOfUpdate(buckets: map<Key, Bucket>, k: Key, b: Bucket)
    ensures Total(buckets[k := b]) == Total(buckets) - (if k in buckets then buckets[k].count else 0) + b.count
  {
    TotalTakesOut(buckets[k := b], k);
    if k in buckets {
      TotalTakesOut(buckets, k);
      assert buckets[k := b] - {k} == buckets - {k};
    } else {
      assert buckets[k := b] - {k} == buckets;
    }
  }

  /******* The pass *******/

  method See(services: map<string, int>, name: string, start: int) returns (r: map<string, int>)
    ensures r == services[name := if name in services && services[name] > start then services[name] else start]
  {
    r := if name in services then services else services[name := start];
    r := r[name := if r[name] > start then r[name] else start];
  }

  // The body of the loop over the spans.
  method Absorb(r: Roll, s: Span) returns (after: Roll)
    ensures after == Grown(r, s)
  {
    var services := See(r.services, s.service, s.start);
    if s.target.name == "" || s.target.name == s.service {
      return Roll(r.seen + 1, r.skipped + 1, services, r.buckets);
    }
    if s.target.isService {
      services := See(services, s.target.name, s.start);
    }
    var k := Key(s.service, s.target.name, s.endpoint);
    var bucket := if k in r.buckets then r.buckets[k]
          else Bucket(s.protocol, s.target.isService, 0, 0, s.start, s.start);
    bucket := bucket.(count := bucket.count + 1);
    if s.error {
      bucket := bucket.(errors := bucket.errors + 1);
    }
    if s.start < bucket.first {
      bucket := bucket.(first := s.start);
    }
    if s.start > bucket.last {
      bucket := bucket.(last := s.start);
    }
    after := Roll(r.seen + 1, r.skipped, services, r.buckets[k := bucket]);
  }

  // The pass is the group-by, and no span is lost: each is skipped or counted in one bucket.
  method Parse(spans: seq<Span>) returns (r: Roll)
    ensures Summarizes(spans, r)
    ensures r.seen == r.skipped + Total(r.buckets)
  {
    r := Roll(0, 0, map[], map[]);
    for i := 0 to |spans|
      invariant Summarizes(spans[..i], r)
      invariant r.seen == r.skipped + Total(r.buckets)
    {
      ghost var before := r;
      r := Absorb(r, spans[i]);
      PassGrows(spans, i, before, r);
    }
    assert spans[..|spans|] == spans;
  }

  // One more span, as a function of the summary before.
  function Grown(r: Roll, s: Span): Roll {
    var target := s.target;
    var own := Later(r.services, s.service, s.start);
    if !Crosses(s) then Roll(r.seen + 1, r.skipped + 1, own, r.buckets)
    else
      Roll(r.seen + 1, r.skipped, if target.isService then Later(own, target.name, s.start) else own,
           r.buckets[KeyOf(s) := GrownBucket(r, s)])
  }

  function Later(services: map<string, int>, name: string, start: int): map<string, int> {
    services[name := if name in services && services[name] > start then services[name] else start]
  }

  function GrownBucket(r: Roll, s: Span): Bucket {
    var k := KeyOf(s);
    var b := if k in r.buckets then r.buckets[k] else Bucket(s.protocol, s.target.isService, 0, 0, s.start, s.start);
    Bucket(b.protocol, b.targetIsService, b.count + 1, b.errors + (if s.error then 1 else 0),
           if s.start < b.first then s.start else b.first, if s.start > b.last then s.start else b.last)
  }

  lemma PassGrows(spans: seq<Span>, i: nat, r: Roll, after: Roll)
    requires i < |spans| && Summarizes(spans[..i], r) && after == Grown(r, spans[i])
    requires r.seen == r.skipped + Total(r.buckets)
    ensures Summarizes(spans[..i + 1], after)
    ensures after.seen == after.skipped + Total(after.buckets)
  {
    assert spans[..i + 1] == spans[..i] + [spans[i]];
    SummaryGrows(spans[..i], spans[i], r, after);
    TotalGrows(r, spans[i]);
  }

  lemma TotalGrows(r: Roll, s: Span)
    ensures Total(Grown(r, s).buckets) == Total(r.buckets) + if Crosses(s) then 1 else 0
  {
    if Crosses(s) {
      TotalOfUpdate(r.buckets, KeyOf(s), GrownBucket(r, s));
    }
  }

  lemma CountSnoc(spans: seq<Span>, s: Span, p: Span -> bool)
    ensures Count(spans + [s], p) == Count(spans, p) + if p(s) then 1 else 0
  {
    assert (spans + [s])[..|spans|] == spans;
  }

  lemma FirstSnoc(spans: seq<Span>, s: Span, k: Key)
    ensures FirstIn(spans + [s], k)
         == if FirstIn(spans, k).None? && InBucket(s, k) then Some(s) else FirstIn(spans, k)
  {
    assert (spans + [s])[..|spans|] == spans;
  }

  lemma {:induction false} EmptyGroup(spans: seq<Span>, k: Key)
    requires forall s :: s in spans ==> !InBucket(s, k)
    ensures FirstIn(spans, k).None? && Count(spans, Members(k)) == 0 && Count(spans, Failures(k)) == 0
  {
    if spans != [] {
      EmptyGroup(spans[..|spans| - 1], k);
      assert spans[|spans| - 1] in spans;
    }
  }

  lemma BucketGrows(spans: seq<Span>, s: Span, r: Roll, k: Key)
    requires k in r.buckets ==> BucketOf(spans, k, r.buckets[k])
    requires k !in r.buckets ==> forall x :: x in spans ==> !InBucket(x, k)
    requires k in Grown(r, s).buckets
    ensures BucketOf(spans + [s], k, Grown(r, s).buckets[k])
  {
    var b := Grown(r, s).buckets[k];
    var all := spans + [s];
    CountSnoc(spans, s, Members(k));
    CountSnoc(spans, s, Failures(k));
    FirstSnoc(spans, s, k);
    assert s in all && forall x :: x in all <==> x in spans || x == s;
    if k in r.buckets {
      var x :| x in spans && InBucket(x, k) && x.start == r.buckets[k].first;
      var y :| y in spans && InBucket(y, k) && y.start == r.buckets[k].last;
      assert x in all && y in all;
      assert InBucket(s, k) || b == r.buckets[k];
      assert IsEarliest(all, k, b.first);
      assert IsLatest(all, k, b.last);
    } else {
      EmptyGroup(spans, k);
      assert InBucket(s, k) && b.first == b.last == s.start;
    }
  }

  lemma ServiceGrows(spans: seq<Span>, s: Span, r: Roll, x: string)
    requires x in r.services <==> exists y :: y in spans && Observes(y, x)
    requires x in r.services ==> IsLastSeen(spans, x, r.services[x])
    ensures var after := Grown(r, s).services;
            && (x in after <==> exists y :: y in spans + [s] && Observes(y, x))
            && (x in after ==> IsLastSeen(spans + [s], x, after[x]))
  {
    var after := Grown(r, s).services;
    var all := spans + [s];
    assert s in all && forall y :: y in all <==> y in spans || y == s;
    assert x in after <==> x in r.services || Observes(s, x);
    if x in r.services {
      var y :| y in spans && Observes(y, x) && y.start == r.services[x];
      assert y in all;
      assert Observes(s, x) || after[x] == r.services[x];
    }
  }

  lemma SummaryGrows(spans: seq<Span>, s: Span, r: Roll, after: Roll)
    requires Summarizes(spans, r) && after == Grown(r, s)
    ensures Summarizes(spans + [s], after)
  {
    CountSnoc(spans, s, Skipped());
    assert forall x :: x in spans + [s] <==> x in spans || x == s;
    forall k ensures k in after.buckets <==> exists x :: x in spans + [s] && InBucket(x, k) {
      if k in r.buckets {
        var x :| x in spans && InBucket(x, k);
        assert x in spans + [s];
      }
      assert s in spans + [s];
    }
    forall k | k in after.buckets ensures BucketOf(spans + [s], k, after.buckets[k]) {
      if k !in r.buckets {
        forall x | x in spans ensures !InBucket(x, k) {}
      }
      BucketGrows(spans, s, r, k);
    }
    forall x ensures (x in after.services <==> exists y :: y in spans + [s] && Observes(y, x))
                     && (x in after.services ==> IsLastSeen(spans + [s], x, after.services[x])) {
      ServiceGrows(spans, s, r, x);
    }
  }

  /******* Order does not matter *******/

  lemma {:induction false} CountPermutes(a: seq<Span>, b: seq<Span>, p: Span -> bool)
    requires multiset(a) == multiset(b)
    ensures Count(a, p) == Count(b, p)
  {
    if a == [] {
      assert |multiset(b)| == 0;
    } else {
      var s := a[|a| - 1];
      assert a == a[..|a| - 1] + [s];
      assert s in multiset(b);
      var i :| 0 <= i < |b| && b[i] == s;
      var rest := b[..i] + b[i + 1..];
      assert b == b[..i] + [s] + b[i + 1..];
      assert multiset(a) - multiset{s} == multiset(a[..|a| - 1]);
      assert multiset(b) - multiset{s} == multiset(rest);
      CountPermutes(a[..|a| - 1], rest, p);
      CountConcat(b[..i] + [s], b[i + 1..], p);
      CountSnoc(b[..i], s, p);
      CountConcat(b[..i], b[i + 1..], p);
    }
  }

  lemma {:induction false} CountConcat(a: seq<Span>, b: seq<Span>, p: Span -> bool)
    ensures Count(a + b, p) == Count(a, p) + Count(b, p)
  {
    if b == [] {
      assert a + b == a;
    } else {
      assert (a + b)[..|a + b| - 1] == a + b[..|b| - 1];
      CountConcat(a, b[..|b| - 1], p);
    }
  }

  lemma BucketIgnoresOrder(a: seq<Span>, b: seq<Span>, k: Key, x: Bucket, y: Bucket)
    requires multiset(a) == multiset(b) && BucketOf(a, k, x) && BucketOf(b, k, y)
    ensures x == y.(protocol := x.protocol, targetIsService := x.targetIsService)
  {
    CountPermutes(a, b, Members(k));
    CountPermutes(a, b, Failures(k));
    SameMembers(a, b);
  }

  lemma SameMembers(a: seq<Span>, b: seq<Span>)
    requires multiset(a) == multiset(b)
    ensures |a| == |b| && forall s :: s in a <==> s in b
  {
    assert forall s :: s in a <==> s in multiset(a);
    assert forall s :: s in b <==> s in multiset(b);
    assert |a| == |multiset(a)| && |b| == |multiset(b)|;
  }

  lemma SameKeys(a: seq<Span>, b: seq<Span>, ra: Roll, rb: Roll, k: Key)
    requires Summarizes(a, ra) && Summarizes(b, rb) && forall s :: s in a <==> s in b
    ensures k in ra.buckets <==> k in rb.buckets
  {
  }

  lemma SameLastSeen(a: seq<Span>, b: seq<Span>, ra: Roll, rb: Roll, x: string)
    requires Summarizes(a, ra) && Summarizes(b, rb) && forall s :: s in a <==> s in b
    ensures x in ra.services <==> x in rb.services
    ensures x in ra.services ==> ra.services[x] == rb.services[x]
  {
    if x in ra.services && x in rb.services {
      assert IsLastSeen(a, x, ra.services[x]) && IsLastSeen(b, x, rb.services[x]);
    }
  }

  lemma BucketsIgnoreOrder(a: seq<Span>, b: seq<Span>, ra: Roll, rb: Roll)
    requires multiset(a) == multiset(b) && Summarizes(a, ra) && Summarizes(b, rb)
    ensures ra.buckets.Keys == rb.buckets.Keys
    ensures forall k :: k in ra.buckets ==>
              ra.buckets[k] == rb.buckets[k].(protocol := ra.buckets[k].protocol,
                                              targetIsService := ra.buckets[k].targetIsService)
  {
    forall k ensures k in ra.buckets <==> k in rb.buckets {
      SameMembers(a, b);
      SameKeys(a, b, ra, rb, k);
    }
    forall k | k in ra.buckets
      ensures ra.buckets[k] == rb.buckets[k].(protocol := ra.buckets[k].protocol,
                                              targetIsService := ra.buckets[k].targetIsService)
    {
      BucketIgnoresOrder(a, b, k, ra.buckets[k], rb.buckets[k]);
    }
  }

  lemma ServicesIgnoreOrder(a: seq<Span>, b: seq<Span>, ra: Roll, rb: Roll)
    requires multiset(a) == multiset(b) && Summarizes(a, ra) && Summarizes(b, rb)
    ensures ra.services == rb.services
  {
    forall x ensures (x in ra.services <==> x in rb.services)
          && (x in ra.services ==> ra.services[x] == rb.services[x]) {
      SameMembers(a, b);
      SameLastSeen(a, b, ra, rb, x);
    }
  }

  // Spans in any order give the same totals, the same services and the same buckets up to protocol and
  // kind of target.
  lemma SummaryIgnoresOrder(a: seq<Span>, b: seq<Span>, ra: Roll, rb: Roll)
    requires multiset(a) == multiset(b) && Summarizes(a, ra) && Summarizes(b, rb)
    ensures ra.seen == rb.seen && ra.skipped == rb.skipped && ra.services == rb.services
    ensures ra.buckets.Keys == rb.buckets.Keys
    ensures forall k :: k in ra.buckets ==>
              ra.buckets[k] == rb.buckets[k].(protocol := ra.buckets[k].protocol,
                                              targetIsService := ra.buckets[k].targetIsService)
  {
    SameMembers(a, b);
    CountPermutes(a, b, Skipped());
    ServicesIgnoreOrder(a, b, ra, rb);
    BucketsIgnoreOrder(a, b, ra, rb);
  }

  lemma FirstOfTwo(a: Span, b: Span, k: Key, r: Roll)
    requires InBucket(a, k) && Summarizes([a, b], r)
    ensures k in r.buckets && r.buckets[k].protocol == a.protocol
  {
    assert a in [a, b];
    assert FirstIn([a, b], k) == Some(a) by {
      FirstSnoc([a], b, k);
      FirstSnoc([], a, k);
      assert [] + [a] == [a] && [a] + [b] == [a, b];
    }
    assert BucketOf([a, b], k, r.buckets[k]);
  }

  // The protocol is the first span's, so exchanging two spans can change it.
  lemma {:induction false} ProtocolDependsOnOrder(a: Span, b: Span, r: Roll, q: Roll)
    requires InBucket(a, KeyOf(a)) && InBucket(b, KeyOf(a)) && a.protocol != b.protocol
    requires Summarizes([a, b], r) && Summarizes([b, a], q)
    ensures KeyOf(a) in r.buckets && KeyOf(a) in q.buckets
    ensures r.buckets[KeyOf(a)].protocol == a.protocol && q.buckets[KeyOf(a)].protocol == b.protocol
  {
    FirstOfTwo(a, b, KeyOf(a), r);
    FirstOfTwo(b, a, KeyOf(a), q);
  }

  // The connections handed on: the buckets that reach the threshold.
  method Connections(r: Roll, minSpans: nat) returns (kept: map<Key, Bucket>)
    ensures forall k :: k in kept <==> k in r.buckets && r.buckets[k].count >= minSpans
    ensures forall k :: k in kept ==> kept[k] == r.buckets[k]
  {
    kept := map[];
    var left := r.buckets.Keys;
    while left != {}
      invariant left <= r.buckets.Keys
      invariant forall k :: k in kept <==> k in r.buckets && k !in left && r.buckets[k].count >= minSpans
      invariant forall k :: k in kept ==> kept[k] == r.buckets[k]
      decreases left
    {
      var k :| k in left;
      if r.buckets[k].count >= minSpans {
        kept := kept[k := r.buckets[k]];
      }
      left := left - {k};
    }
  }
}
