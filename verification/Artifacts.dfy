/**
  The code artifact record, and the tables that index artifacts by id.
*/
module Artifacts {
  datatype Kind = Procedure | Function | Trigger | Method | Class | Table

  // `start` and `end` are the first and the last line; grammars without end lines repeat the first.
  datatype Artifact = Artifact(id: string, repo: string, kind: Kind, name: string, file: string,
                               start: nat, end: nat, calls: seq<string>,
                               readsFrom: seq<string>, writesTo: seq<string>)

  function Span(a: Artifact): int {
    a.end - a.start
  }

  function Ids(artifacts: seq<Artifact>): set<string> {
    set a | a in artifacts :: a.id
  }

  ghost predicate DistinctIds(artifacts: seq<Artifact>) {
    forall i, j :: 0 <= i < j < |artifacts| ==> artifacts[i].id != artifacts[j].id
  }

  // The items of `{a.id: a for a in artifacts}`: a repeated id keeps its first place and its last
  // value.
  function ById(artifacts: seq<Artifact>): (items: seq<Artifact>)
    ensures DistinctIds(items) && Ids(items) == Ids(artifacts)
    ensures forall a :: a in items ==> a in artifacts
  {
    if artifacts == [] then []
    else
      var last, init := artifacts[|artifacts| - 1], artifacts[..|artifacts| - 1];
      assert artifacts == init + [last];
      assert Ids(artifacts) == Ids(init) + {last.id};
      Insert(ById(init), last)
  }

  function Insert(items: seq<Artifact>, a: Artifact): (r: seq<Artifact>)
    requires DistinctIds(items)
    ensures DistinctIds(r) && Ids(r) == Ids(items) + {a.id}
    ensures forall x :: x in r ==> x == a || x in items
  {
    if items == [] then [a]
    else if items[0].id == a.id then
      assert items == [items[0]] + items[1..];
      IdsOfCons(a, items[1..]);
      IdsOfCons(items[0], items[1..]);
      [a] + items[1..]
    else
      assert items == [items[0]] + items[1..];
      IdsOfCons(items[0], items[1..]);
      var rest := Insert(items[1..], a);
      IdsOfCons(items[0], rest);
      [items[0]] + rest
  }

  lemma IdsOfCons(a: Artifact, items: seq<Artifact>)
    ensures Ids([a] + items) == {a.id} + Ids(items)
    ensures DistinctIds([a] + items) <==> DistinctIds(items) && a.id !in Ids(items)
  {
    var all := [a] + items;
    assert forall x :: x in all <==> x == a || x in items;
    if DistinctIds(items) && a.id !in Ids(items) {
      StaysDistinct(a, items);
    }
    if DistinctIds(all) {
      WasDistinct(a, items);
    }
  }

  lemma StaysDistinct(a: Artifact, items: seq<Artifact>)
    requires DistinctIds(items) && a.id !in Ids(items)
    ensures DistinctIds([a] + items)
  {
    var all := [a] + items;
    forall i, j | 0 <= i < j < |all| ensures all[i].id != all[j].id {
      assert all[j] == items[j - 1] && all[j].id in Ids(items);
      assert i > 0 ==> all[i] == items[i - 1];
    }
  }

  lemma WasDistinct(a: Artifact, items: seq<Artifact>)
    requires DistinctIds([a] + items)
    ensures DistinctIds(items) && a.id !in Ids(items)
  {
    var all := [a] + items;
    forall i, j | 0 <= i < j < |items| ensures items[i].id != items[j].id {
      assert all[i + 1] == items[i] && all[j + 1] == items[j];
    }
    forall x | x in items ensures x.id != a.id {
      var j :| 0 <= j < |items| && items[j] == x;
      assert all[0] == a && all[j + 1] == x;
    }
  }

  // Records that agree on their ids.
  lemma SameIds(a: seq<Artifact>, b: seq<Artifact>)
    requires |a| == |b| && forall i :: 0 <= i < |a| ==> a[i].id == b[i].id
    ensures Ids(a) == Ids(b)
    ensures DistinctIds(a) <==> DistinctIds(b)
  {
    IdsArePlaced(a, b);
    IdsArePlaced(b, a);
    assert DistinctIds(a) ==> forall i, j :: 0 <= i < j < |b| ==> a[i].id != a[j].id;
    assert DistinctIds(b) ==> forall i, j :: 0 <= i < j < |a| ==> b[i].id != b[j].id;
  }

  lemma IdsArePlaced(a: seq<Artifact>, b: seq<Artifact>)
    requires |a| == |b| && forall i :: 0 <= i < |a| ==> a[i].id == b[i].id
    ensures Ids(a) <= Ids(b)
  {
    forall id | id in Ids(a) ensures id in Ids(b) {
      var x :| x in a && x.id == id;
      var i :| 0 <= i < |a| && a[i] == x;
      assert b[i] in b;
    }
  }

  lemma AppendedIdsAreDistinctExactlyWhen(a: seq<Artifact>, b: seq<Artifact>)
    requires DistinctIds(b)
    ensures DistinctIds(a + b) <==> DistinctIds(a) && Ids(b) !! Ids(a)
  {
    var all := a + b;
    if DistinctIds(all) {
      forall i, j | 0 <= i < j < |a| ensures a[i].id != a[j].id {
        assert all[i].id != all[j].id;
      }
      forall id | id in Ids(b) ensures id !in Ids(a) {
        var x :| x in b && x.id == id;
        var j :| 0 <= j < |b| && b[j] == x;
        assert all[|a| + j] == x;
        forall i | 0 <= i < |a| ensures a[i].id != id {
          assert all[i].id != all[|a| + j].id;
        }
      }
    }
    if DistinctIds(a) && Ids(b) !! Ids(a) {
      forall i, j | 0 <= i < j < |all| ensures all[i].id != all[j].id {
        if j < |a| {
          assert a[i].id != a[j].id;
        } else if i >= |a| {
          assert b[i - |a|].id != b[j - |a|].id;
        } else {
          assert a[i].id in Ids(a) && b[j - |a|].id in Ids(b);
        }
      }
    }
  }

  lemma {:induction false} InsertNew(items: seq<Artifact>, a: Artifact)
    requires DistinctIds(items) && a.id !in Ids(items)
    ensures Insert(items, a) == items + [a]
  {
    if items != [] {
      assert items == [items[0]] + items[1..];
      IdsOfCons(items[0], items[1..]);
      InsertNew(items[1..], a);
    }
  }

  lemma LastIsNew(init: seq<Artifact>, last: Artifact)
    requires DistinctIds(init + [last])
    ensures DistinctIds(init) && last.id !in Ids(init)
  {
    var all := init + [last];
    forall i, j | 0 <= i < j < |init| ensures init[i].id != init[j].id {
      assert all[i] == init[i] && all[j] == init[j];
    }
    forall a | a in init ensures a.id != last.id {
      var i :| 0 <= i < |init| && init[i] == a;
      assert all[i] == a && all[|init|] == last;
    }
  }

  // Indexing by id loses nothing when no id is repeated.
  lemma {:induction false} ByIdOfDistinct(artifacts: seq<Artifact>)
    requires DistinctIds(artifacts)
    ensures ById(artifacts) == artifacts
  {
    if artifacts != [] {
      var init, last := artifacts[..|artifacts| - 1], artifacts[|artifacts| - 1];
      assert artifacts == init + [last];
      LastIsNew(init, last);
      ByIdOfDistinct(init);
      InsertNew(init, last);
    }
  }
}
