/**
  Loading a merged result into a property graph with MATCH, MERGE and SET.

  All writes are upserts in a fixed order: nodes first, then the edges the resolvers found, then the
  edges a language model suggested.  Loading must be repeatable, also when a suggested edge rewrites
  the source and confidence of a resolved one, and sending the rows in batches must not show.
*/
module GraphLoad {
  import opened Wrappers

  type Props = map<string, string>

  datatype NodeKey = NodeKey(nodeLabel: string, id: string)

  datatype EdgeKey = EdgeKey(src: NodeKey, rel: string, dst: NodeKey)

  datatype Stamp = Stamp(source: string, confidence: real)

  // At most one node per label and id, as the uniqueness constraints demand, and at most one edge per
  // pair of nodes and type, as MERGE leaves it.
  datatype Graph = Graph(nodes: map<NodeKey, Props>, edges: map<EdgeKey, Stamp>)

  const RESOLVER := Stamp("resolver", 1.0)
  const LLM_SOURCE := "llm"
  const BATCH_SIZE: nat := 500

  datatype NodeRow = NodeRow(id: string, props: Props)

  // `stamp` is absent in resolver rows and then falls back to the resolver's.
  datatype EdgeRow = EdgeRow(src: string, dst: string, stamp: Option<Stamp>)

  datatype Write = PutNode(key: NodeKey, props: Props) | PutEdge(edge: EdgeKey, stamp: Stamp)

  // MERGE the node and add the row's properties over its old ones; MATCH both ends of an edge, and
  // only if they exist MERGE it and set its stamp.
  function Put(g: Graph, w: Write): Graph {
    match w
    case PutNode(key, props) =>
      g.(nodes := g.nodes[key := (if key in g.nodes then g.nodes[key] else map[]) + props])
    case PutEdge(key, stamp) =>
      if key.src in g.nodes && key.dst in g.nodes then g.(edges := g.edges[key := stamp]) else g
  }

  function PutAll(g: Graph, writes: seq<Write>): Graph {
    if writes == [] then g else Put(PutAll(g, writes[..|writes| - 1]), writes[|writes| - 1])
  }

  function NodeWrites(nodeLabel: string, rows: seq<NodeRow>): seq<Write> {
    seq(|rows|, i requires 0 <= i < |rows| => PutNode(NodeKey(nodeLabel, rows[i].id), rows[i].props))
  }

  function StampOf(row: EdgeRow): Stamp {
    if row.stamp.Some? then row.stamp.value else RESOLVER
  }

  function EdgeWrites(srcLabel: string, rel: string, dstLabel: string, rows: seq<EdgeRow>): seq<Write> {
    seq(|rows|, i requires 0 <= i < |rows| =>
      PutEdge(EdgeKey(NodeKey(srcLabel, rows[i].src), rel, NodeKey(dstLabel, rows[i].dst)), StampOf(rows[i])))
  }

  lemma {:induction false} PutAllConcat(g: Graph, a: seq<Write>, b: seq<Write>)
    ensures PutAll(g, a + b) == PutAll(PutAll(g, a), b)
  {
    if b == [] {
      assert a + b == a;
    } else {
      assert (a + b)[..|a + b| - 1] == a + b[..|b| - 1];
      PutAllConcat(g, a, b[..|b| - 1]);
    }
  }

  /******* Batches *******/

  function Flatten<T>(batches: seq<seq<T>>): seq<T> {
    if batches == [] then [] else Flatten(batches[..|batches| - 1]) + batches[|batches| - 1]
  }

  // Non-empty pieces of at most the batch size, all but the last of exactly that size, whose
  // concatenation is the input; their number is the rounded-up quotient the progress log divides by.
  method Chunks<T>(items: seq<T>, size: nat) returns (batches: seq<seq<T>>)
    requires size > 0
    ensures Flatten(batches) == items
    ensures forall i :: 0 <= i < |batches| ==> 0 < |batches[i]| <= size
    ensures forall i :: 0 <= i < |batches| - 1 ==> |batches[i]| == size
    ensures |batches| == (|items| + size - 1) / size
  {
    batches := [];
    var buf := [];
    for i := 0 to |items|
      invariant Flatten(batches) + buf == items[..i]
      invariant forall j :: 0 <= j < |batches| ==> |batches[j]| == size
      invariant |buf| < size
      invariant |batches| * size + |buf| == i
    {
      buf := buf + [items[i]];
      if |buf| >= size {
        assert (|batches| + 1) * size == |batches| * size + size;
        batches := batches + [buf];
        assert batches[..|batches| - 1] + [buf] == batches;
        buf := [];
      }
    }
    assert items[..|items|] == items;
    if buf != [] {
      BatchCount(|batches|, |buf|, size);
      batches := batches + [buf];
    } else {
      BatchCount(|batches|, 0, size);
    }
  }

  lemma BatchCount(full: nat, left: nat, size: nat)
    requires left < size
    ensures (full * size + left + size - 1) / size == if left == 0 then full else full + 1
  {
    var n := full * size + left + size - 1;
    var q := if left == 0 then full else full + 1;
    var r := if left == 0 then size - 1 else left - 1;
    assert n == q * size + r;
    QuotientIs(n, size, q, r);
  }

  lemma QuotientIs(n: int, d: int, q: int, r: int)
    requires d > 0 && 0 <= r < d && n == q * d + r
    ensures n / d == q
  {
    var e := q - n / d;
    assert e * d == n % d - r;
    MultipleBounds(e, d);
  }

  lemma MultipleBounds(e: int, d: int)
    requires d > 0
    ensures e >= 1 ==> e * d >= d
    ensures e <= -1 ==> e * d <= -d
  {
  }

  lemma {:induction false} WritesOfBatches(nodeLabel: string, batches: seq<seq<NodeRow>>, i: nat)
    requires i < |batches|
    ensures NodeWrites(nodeLabel, Flatten(batches[..i + 1]))
         == NodeWrites(nodeLabel, Flatten(batches[..i])) + NodeWrites(nodeLabel, batches[i])
  {
    assert batches[..i + 1][..i] == batches[..i];
    assert Flatten(batches[..i + 1]) == Flatten(batches[..i]) + batches[i];
  }

  lemma {:induction false} EdgeWritesOfBatches(srcLabel: string, rel: string, dstLabel: string,
      batches: seq<seq<EdgeRow>>, i: nat)
    requires i < |batches|
    ensures EdgeWrites(srcLabel, rel, dstLabel, Flatten(batches[..i + 1]))
         == EdgeWrites(srcLabel, rel, dstLabel, Flatten(batches[..i])) + EdgeWrites(srcLabel, rel, dstLabel, batches[i])
  {
    assert batches[..i + 1][..i] == batches[..i];
    assert Flatten(batches[..i + 1]) == Flatten(batches[..i]) + batches[i];
  }

  /******* Effect of node writes *******/

  ghost predicate AreNodes(writes: seq<Write>) {
    forall w :: w in writes ==> w.PutNode?
  }

  ghost predicate AreEdges(writes: seq<Write>) {
    forall w :: w in writes ==> w.PutEdge?
  }

  // All properties that the writes set on one node, later ones over earlier ones.
  function Update(writes: seq<Write>, key: NodeKey): Option<Props> {
    if writes == [] then None
    else
      var before, w := Update(writes[..|writes| - 1], key), writes[|writes| - 1];
      if w.PutNode? && w.key == key then Some((if before.Some? then before.value else map[]) + w.props) else before
  }

  function PropsAt(g: Graph, key: NodeKey): Props {
    if key in g.nodes then g.nodes[key] else map[]
  }

  lemma {:induction false} NodeEffect(g: Graph, writes: seq<Write>, key: NodeKey)
    requires AreNodes(writes)
    ensures var after := PutAll(g, writes);
            && after.edges == g.edges
            && (key in after.nodes <==> key in g.nodes || Update(writes, key).Some?)
            && (Update(writes, key).Some? ==> PropsAt(after, key) == PropsAt(g, key) + Update(writes, key).value)
            && (Update(writes, key).None? ==> PropsAt(after, key) == PropsAt(g, key))
  {
    if writes != [] {
      var n := |writes| - 1;
      NodeEffect(g, writes[..n], key);
      assert writes[n] in writes;
      var before := Update(writes[..n], key);
      if writes[n].key == key && before.Some? {
        assert PropsAt(g, key) + (before.value + writes[n].props) == (PropsAt(g, key) + before.value) + writes[n].props;
      } else if writes[n].key == key {
        assert map[] + writes[n].props == writes[n].props;
      }
    }
  }

  // Writing the nodes again changes nothing, whatever edges have been added in between.
  lemma NodesRestored(g: Graph, edges: map<EdgeKey, Stamp>, writes: seq<Write>)
    requires AreNodes(writes)
    ensures PutAll(PutAll(g, writes).(edges := edges), writes) == PutAll(g, writes).(edges := edges)
  {
    var once := PutAll(g, writes).(edges := edges);
    var twice := PutAll(once, writes);
    forall key ensures key in twice.nodes <==> key in once.nodes {
      NodeEffect(g, writes, key);
      NodeEffect(once, writes, key);
    }
    forall key | key in once.nodes ensures twice.nodes[key] == once.nodes[key] {
      NodeEffect(g, writes, key);
      NodeEffect(once, writes, key);
      if Update(writes, key).Some? {
        var base, update := PropsAt(g, key), Update(writes, key).value;
        assert (base + update) + update == base + update;
      }
    }
    NodeEffect(once, writes, NodeKey("", ""));
  }

  /******* Effect of edge writes *******/

  // The last stamp the writes give to an edge.
  function LastStamp(writes: seq<Write>, key: EdgeKey): Option<Stamp> {
    if writes == [] then None
    else
      var w := writes[|writes| - 1];
      if w.PutEdge? && w.edge == key then Some(w.stamp) else LastStamp(writes[..|writes| - 1], key)
  }

  predicate EndsExist(g: Graph, key: EdgeKey) {
    key.src in g.nodes && key.dst in g.nodes
  }

  function StampAt(g: Graph, key: EdgeKey): Option<Stamp> {
    if key in g.edges then Some(g.edges[key]) else None
  }

  // The last writer wins, and only where both ends exist.
  lemma {:induction false} EdgeEffect(g: Graph, writes: seq<Write>, key: EdgeKey)
    requires AreEdges(writes)
    ensures var after := PutAll(g, writes);
            && after.nodes == g.nodes
            && StampAt(after, key) == if EndsExist(g, key) && LastStamp(writes, key).Some? then LastStamp(writes, key)
                                      else StampAt(g, key)
  {
    if writes != [] {
      var n := |writes| - 1;
      EdgeEffect(g, writes[..n], key);
      assert writes[n] in writes;
    }
  }

  lemma GraphsAgree(a: Graph, b: Graph)
    requires a.nodes == b.nodes && forall key :: StampAt(a, key) == StampAt(b, key)
    ensures a == b
  {
    forall key ensures key in a.edges <==> key in b.edges {
      assert StampAt(a, key) == StampAt(b, key);
    }
    forall key | key in a.edges ensures a.edges[key] == b.edges[key] {
      assert StampAt(a, key) == StampAt(b, key);
    }
  }

  // Writing edges again changes nothing, although on the way a suggested edge loses its stamp to the
  // resolver row and gets it back.
  lemma EdgesTwice(g: Graph, writes: seq<Write>)
    requires AreEdges(writes)
    ensures PutAll(PutAll(g, writes), writes) == PutAll(g, writes)
  {
    var once := PutAll(g, writes);
    var twice := PutAll(once, writes);
    forall key ensures StampAt(twice, key) == StampAt(once, key) {
      EdgeEffect(g, writes, key);
      EdgeEffect(once, writes, key);
    }
    EdgeEffect(g, writes, AnyEdge());
    EdgeEffect(once, writes, AnyEdge());
    GraphsAgree(twice, once);
  }

  function AnyEdge(): EdgeKey {
    EdgeKey(NodeKey("", ""), "", NodeKey("", ""))
  }

  /******* Loading *******/

  // Nodes before edges: from any starting graph, loading twice is loading once.
  lemma LoadingIsIdempotent(g: Graph, nodes: seq<Write>, edges: seq<Write>)
    requires AreNodes(nodes) && AreEdges(edges)
    ensures PutAll(PutAll(g, nodes + edges), nodes + edges) == PutAll(g, nodes + edges)
  {
    var placed := PutAll(g, nodes);
    var once := PutAll(placed, edges);
    PutAllConcat(g, nodes, edges);
    PutAllConcat(once, nodes, edges);
    EdgeEffect(placed, edges, AnyEdge());
    NodesRestored(g, once.edges, nodes);
    assert once == placed.(edges := once.edges);
    EdgesTwice(placed, edges);
  }

  // The order matters: an edge sent before one of its ends is dropped the first time and written the
  // second time.
  lemma EdgesFirstIsNotIdempotent(a: NodeKey, b: NodeKey, rel: string)
    ensures var writes := [PutEdge(EdgeKey(a, rel, b), RESOLVER), PutNode(a, map[]), PutNode(b, map[])];
            var g := Graph(map[], map[]);
            PutAll(PutAll(g, writes), writes) != PutAll(g, writes)
  {
    var e, x, y := PutEdge(EdgeKey(a, rel, b), RESOLVER), PutNode(a, map[]), PutNode(b, map[]);
    var g := Graph(map[], map[]);
    ThreeWrites(g, e, x, y);
    var once := Graph(map[a := map[], b := map[]], map[]);
    assert Put(Put(Put(g, e), x), y).edges == map[];
    ThreeWrites(PutAll(g, [e, x, y]), e, x, y);
    assert EdgeKey(a, rel, b) in Put(Put(Put(PutAll(g, [e, x, y]), e), x), y).edges;
  }

  lemma ThreeWrites(g: Graph, a: Write, b: Write, c: Write)
    ensures PutAll(g, [a, b, c]) == Put(Put(Put(g, a), b), c)
  {
    assert [a, b, c][..2] == [a, b] && [a, b][..1] == [a] && [a][..0] == [];
    assert PutAll(g, [a]) == Put(PutAll(g, [a][..0]), a);
  }

  ghost predicate NoDanglingEdges(g: Graph) {
    forall key :: key in g.edges ==> EndsExist(g, key)
  }

  // Every edge that a load adds or restamps joins two nodes of the resulting graph, so a graph without
  // dangling edges stays one.
  lemma WrittenEdgesJoinNodes(g: Graph, nodes: seq<Write>, edges: seq<Write>)
    requires AreNodes(nodes) && AreEdges(edges)
    ensures var after := PutAll(g, nodes + edges);
            && (forall key :: StampAt(after, key) != StampAt(g, key) ==> EndsExist(after, key))
            && g.nodes.Keys <= after.nodes.Keys
            && (NoDanglingEdges(g) ==> NoDanglingEdges(after))
  {
    var placed := PutAll(g, nodes);
    var after := PutAll(placed, edges);
    PutAllConcat(g, nodes, edges);
    EdgeEffect(placed, edges, AnyEdge());
    forall key | StampAt(after, key) != StampAt(g, key) ensures EndsExist(after, key) {
      EdgeEffect(placed, edges, key);
      NodeEffect(g, nodes, key.src);
    }
    forall key | key in g.nodes ensures key in after.nodes {
      NodeEffect(g, nodes, key);
    }
    if NoDanglingEdges(g) {
      forall key | key in after.edges ensures EndsExist(after, key) {
        if StampAt(after, key) == StampAt(g, key) {
          assert EndsExist(g, key);
        }
      }
    }
  }

  // The edges that the writes create or restamp.
  function EdgesWritten(g: Graph, writes: seq<Write>): set<EdgeKey> {
    set w | w in writes && w.PutEdge? && EndsExist(g, w.edge) :: w.edge
  }

  lemma EdgesWrittenSnoc(g: Graph, init: seq<Write>, last: Write)
    ensures EdgesWritten(g, init + [last])
         == EdgesWritten(g, init) + if last.PutEdge? && EndsExist(g, last.edge) then {last.edge} else {}
  {
    assert forall w :: w in init + [last] <==> w in init || w == last;
  }

  ghost predicate NoEdgeTwice(writes: seq<Write>)
    requires AreEdges(writes)
  {
    forall i, j :: 0 <= i < j < |writes| ==> writes[i].edge != writes[j].edge
  }

  lemma NoEdgeTwiceSnoc(init: seq<Write>, last: Write)
    requires AreEdges(init + [last]) && AreEdges(init) && last.PutEdge?
    ensures NoEdgeTwice(init + [last]) <==> NoEdgeTwice(init) && forall w :: w in init ==> w.edge != last.edge
  {
    var all := init + [last];
    if NoEdgeTwice(all) {
      forall i, j | 0 <= i < j < |init| ensures init[i].edge != init[j].edge {
        assert all[i].edge != all[j].edge;
      }
      forall w | w in init ensures w.edge != last.edge {
        var i :| 0 <= i < |init| && init[i] == w;
        assert all[i].edge != all[|init|].edge;
      }
    }
  }

  lemma {:induction false} WritesAddTheirEdges(g: Graph, writes: seq<Write>)
    requires AreEdges(writes)
    ensures PutAll(g, writes).nodes == g.nodes
    ensures PutAll(g, writes).edges.Keys == g.edges.Keys + EdgesWritten(g, writes)
  {
    if writes != [] {
      var init, last := writes[..|writes| - 1], writes[|writes| - 1];
      assert writes == init + [last] && last in writes;
      assert forall w :: w in init ==> w in writes;
      WritesAddTheirEdges(g, init);
      EdgesWrittenSnoc(g, init, last);
    }
  }

  // One more row counts once more among the edges exactly when it lands and its edge is not there yet.
  lemma EdgesWrittenGrow(g: Graph, init: seq<Write>, last: Write)
    requires AreEdges(init) && last.PutEdge?
    ensures var before := EdgesWritten(g, init);
            |EdgesWritten(g, init + [last])|
            == |before| + if EndsExist(g, last.edge) && last.edge !in before then 1 else 0
  {
    EdgesWrittenSnoc(g, init, last);
    var before := EdgesWritten(g, init);
    assert last.edge in before ==> before + {last.edge} == before;
  }

  // The count reported for a batch of edges is the number of its rows.  The edges written are no more, and
  // as many exactly when every row finds both its ends and no edge is named by two rows.
  lemma {:induction false} EdgeCountIsExactWhen(g: Graph, writes: seq<Write>)
    requires AreEdges(writes)
    ensures |EdgesWritten(g, writes)| <= |writes|
    ensures |EdgesWritten(g, writes)| == |writes|
       <==> (forall w :: w in writes ==> EndsExist(g, w.edge)) && NoEdgeTwice(writes)
  {
    if writes != [] {
      var init, last := writes[..|writes| - 1], writes[|writes| - 1];
      assert writes == init + [last];
      assert forall w :: w in writes <==> w in init || w == last;
      EdgeCountIsExactWhen(g, init);
      EdgesWrittenGrow(g, init, last);
      NoEdgeTwiceSnoc(init, last);
      if forall w :: w in init ==> EndsExist(g, w.edge) {
        assert last.edge in EdgesWritten(g, init) <==> exists w :: w in init && w.edge == last.edge;
      }
    }
  }

  // Two rows that name one edge between nodes that exist: two are counted, one is written.
  lemma RepeatedRowExample(key: EdgeKey)
    ensures var g := Graph(map[key.src := map[], key.dst := map[]], map[]);
            var writes := [PutEdge(key, RESOLVER), PutEdge(key, RESOLVER)];
            |writes| == 2 && EdgesWritten(g, writes) == {key} && PutAll(g, writes).edges == map[key := RESOLVER]
  {
    var g := Graph(map[key.src := map[], key.dst := map[]], map[]);
    var w := PutEdge(key, RESOLVER);
    assert [w, w][..1] == [w] && [w][..0] == [];
    assert PutAll(g, [w]) == Put(g, w) && PutAll(g, [w, w]) == Put(Put(g, w), w);
  }

  // One row between nodes that do not exist: counted, not written.
  lemma DanglingRowExample()
    ensures var g := Graph(map[], map[]);
            var writes := EdgeWrites("CodeArtifact", "CALLS", "CodeArtifact", [EdgeRow("x", "y", None)]);
            |writes| == 1 && EdgesWritten(g, writes) == {} && PutAll(g, writes) == g
  {
    var writes := EdgeWrites("CodeArtifact", "CALLS", "CodeArtifact", [EdgeRow("x", "y", None)]);
    assert writes[..0] == [];
  }
}
