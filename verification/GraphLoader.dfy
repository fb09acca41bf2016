/**
  The loader itself: from a merged result to the ordered writes, batch by batch.
*/
module GraphLoader {
  import opened Wrappers
  import opened GraphLoad

  /******* The merged result, as far as nodes and edges are drawn from it *******/

  // `props` are the scalar properties shaped for the node, its id among them; "" is an absent id.
  datatype Service = Service(id: string, props: Props)
  datatype Artifact = Artifact(id: string, repo: string, connections: seq<string>, calls: seq<string>,
                               readsFrom: seq<string>, writesTo: seq<string>, props: Props)
  datatype Test = Test(id: string, repo: string, covers: seq<string>, props: Props)
  datatype Connection = Connection(id: string, source: string, targetService: string, targetEndpoint: string,
                                   props: Props)
  datatype Endpoint = Endpoint(id: string, repo: string, handler: string, props: Props)
  datatype DataModel = DataModel(id: string, repo: string, props: Props)
  datatype Query = Query(id: string, repo: string, enclosing: string, props: Props)
  datatype Topic = Topic(id: string, props: Props)
  datatype TopicUser = TopicUser(id: string, topic: string, props: Props)   // a Kafka producer or consumer
  datatype Mock = Mock(id: string, test: string, target: string, props: Props)
  datatype Suggestion = Suggestion(src: NodeKey, rel: string, dst: NodeKey, confidence: real)

  datatype Merged = Merged(
    services: seq<Service>, artifacts: seq<Artifact>, tests: seq<Test>, connections: seq<Connection>,
    endpoints: seq<Endpoint>, dataModels: seq<DataModel>, queries: seq<Query>, topics: seq<Topic>,
    producers: seq<TopicUser>, consumers: seq<TopicUser>, mocks: seq<Mock>, suggestions: seq<Suggestion>)

  function FlatMap<T, U>(items: seq<T>, f: T -> seq<U>): seq<U> {
    if items == [] then [] else f(items[0]) + FlatMap(items[1..], f)
  }

  function Row(src: string, dst: string): EdgeRow {
    EdgeRow(src, dst, None)
  }

  function Fan(src: string, targets: seq<string>): seq<EdgeRow> {
    seq(|targets|, i requires 0 <= i < |targets| => Row(src, targets[i]))
  }

  // A row only if the optional id is given.
  function RowIf(optional: string, row: EdgeRow): seq<EdgeRow> {
    if optional == "" then [] else [row]
  }

  /******* What each kind of record contributes *******/

  function ServiceNode(s: Service): seq<NodeRow> { [NodeRow(s.id, s.props)] }
  function ArtifactNode(a: Artifact): seq<NodeRow> { [NodeRow(a.id, a.props)] }
  function TestNode(t: Test): seq<NodeRow> { [NodeRow(t.id, t.props)] }
  function ConnectionNode(c: Connection): seq<NodeRow> { [NodeRow(c.id, c.props)] }
  function EndpointNode(e: Endpoint): seq<NodeRow> { [NodeRow(e.id, e.props)] }
  function DataModelNode(d: DataModel): seq<NodeRow> { [NodeRow(d.id, d.props)] }
  function QueryNode(q: Query): seq<NodeRow> { [NodeRow(q.id, q.props)] }
  function TopicNode(t: Topic): seq<NodeRow> { [NodeRow(t.id, t.props)] }
  function TopicUserNode(u: TopicUser): seq<NodeRow> { [NodeRow(u.id, u.props)] }
  function MockNode(k: Mock): seq<NodeRow> { [NodeRow(k.id, k.props)] }

  function ArtifactInRepo(a: Artifact): seq<EdgeRow> { [Row(a.repo, a.id)] }
  function TestInRepo(t: Test): seq<EdgeRow> { [Row(t.repo, t.id)] }
  function EndpointInRepo(e: Endpoint): seq<EdgeRow> { [Row(e.repo, e.id)] }
  function DataModelInRepo(d: DataModel): seq<EdgeRow> { [Row(d.repo, d.id)] }
  function QueryInRepo(q: Query): seq<EdgeRow> { [Row(q.repo, q.id)] }
  function Covered(t: Test): seq<EdgeRow> { Fan(t.id, t.covers) }
  function Exposed(a: Artifact): seq<EdgeRow> { Fan(a.id, a.connections) }
  function Called(a: Artifact): seq<EdgeRow> { Fan(a.id, a.calls) }
  function TablesRead(a: Artifact): seq<EdgeRow> { Fan(a.id, a.readsFrom) }
  function TablesWritten(a: Artifact): seq<EdgeRow> { Fan(a.id, a.writesTo) }
  function Initiated(c: Connection): seq<EdgeRow> { [Row(c.source, c.id)] }
  function TargetService(c: Connection): seq<EdgeRow> { RowIf(c.targetService, Row(c.id, c.targetService)) }
  function TargetEndpoint(c: Connection): seq<EdgeRow> { RowIf(c.targetEndpoint, Row(c.id, c.targetEndpoint)) }
  function Handler(e: Endpoint): seq<EdgeRow> { RowIf(e.handler, Row(e.id, e.handler)) }
  function Executor(q: Query): seq<EdgeRow> { RowIf(q.enclosing, Row(q.enclosing, q.id)) }
  function UsedTopic(u: TopicUser): seq<EdgeRow> { [Row(u.id, "topic:" + u.topic)] }
  function Mocked(k: Mock): seq<EdgeRow> { RowIf(k.target, Row(k.test, k.target)) }

  /******* The statements of a load, in the order of the calls *******/

  datatype NodeBatch = NodeBatch(nodeLabel: string, rows: seq<NodeRow>)

  // One statement shape per combination of labels and relationship type, with its rows.
  datatype Shape = Shape(srcLabel: string, rel: string, dstLabel: string)

  datatype Bucket = Bucket(shape: Shape, rows: seq<EdgeRow>)

  function NodeTable(m: Merged): seq<NodeBatch> {
    [
      NodeBatch("Service", FlatMap(m.services, ServiceNode)),
      NodeBatch("CodeArtifact", FlatMap(m.artifacts, ArtifactNode)),
      NodeBatch("TestCase", FlatMap(m.tests, TestNode)),
      NodeBatch("ExternalConnection", FlatMap(m.connections, ConnectionNode)),
      NodeBatch("Endpoint", FlatMap(m.endpoints, EndpointNode)),
      NodeBatch("DataModel", FlatMap(m.dataModels, DataModelNode)),
      NodeBatch("Query", FlatMap(m.queries, QueryNode)),
      NodeBatch("KafkaTopic", FlatMap(m.topics, TopicNode)),
      NodeBatch("KafkaProducer", FlatMap(m.producers, TopicUserNode)),
      NodeBatch("KafkaConsumer", FlatMap(m.consumers, TopicUserNode)),
      NodeBatch("Mock", FlatMap(m.mocks, MockNode))
    ]
  }

  function ResolvedEdges(m: Merged): seq<Bucket> {
    [
      Bucket(Shape("Service", "CONTAINS", "CodeArtifact"), FlatMap(m.artifacts, ArtifactInRepo)),
      Bucket(Shape("Service", "DEFINES", "TestCase"), FlatMap(m.tests, TestInRepo)),
      Bucket(Shape("TestCase", "COVERS", "CodeArtifact"), FlatMap(m.tests, Covered)),
      Bucket(Shape("Service", "INITIATES", "ExternalConnection"), FlatMap(m.connections, Initiated)),
      Bucket(Shape("ExternalConnection", "TARGETS", "Service"), FlatMap(m.connections, TargetService)),
      Bucket(Shape("ExternalConnection", "TARGETS_ENDPOINT", "Endpoint"), FlatMap(m.connections, TargetEndpoint)),
      Bucket(Shape("CodeArtifact", "EXPOSES", "ExternalConnection"), FlatMap(m.artifacts, Exposed)),
      Bucket(Shape("CodeArtifact", "CALLS", "CodeArtifact"), FlatMap(m.artifacts, Called)),
      Bucket(Shape("CodeArtifact", "READS", "CodeArtifact"), FlatMap(m.artifacts, TablesRead)),
      Bucket(Shape("CodeArtifact", "WRITES", "CodeArtifact"), FlatMap(m.artifacts, TablesWritten)),
      Bucket(Shape("Service", "CONTAINS", "Endpoint"), FlatMap(m.endpoints, EndpointInRepo)),
      Bucket(Shape("Service", "CONTAINS", "DataModel"), FlatMap(m.dataModels, DataModelInRepo)),
      Bucket(Shape("Service", "CONTAINS", "Query"), FlatMap(m.queries, QueryInRepo)),
      Bucket(Shape("Endpoint", "HANDLED_BY", "CodeArtifact"), FlatMap(m.endpoints, Handler)),
      Bucket(Shape("CodeArtifact", "EXECUTES", "Query"), FlatMap(m.queries, Executor)),
      Bucket(Shape("KafkaProducer", "PRODUCES", "KafkaTopic"), FlatMap(m.producers, UsedTopic)),
      Bucket(Shape("KafkaConsumer", "CONSUMES", "KafkaTopic"), FlatMap(m.consumers, UsedTopic)),
      Bucket(Shape("TestCase", "MOCKS", "CodeArtifact"), FlatMap(m.mocks, Mocked))
    ]
  }

  function TableWrites(table: seq<NodeBatch>): seq<Write> {
    if table == [] then []
    else NodeWrites(table[0].nodeLabel, table[0].rows) + TableWrites(table[1..])
  }

  function BucketWrites(buckets: seq<Bucket>): seq<Write> {
    if buckets == [] then []
    else
      EdgeWrites(buckets[0].shape.srcLabel, buckets[0].shape.rel, buckets[0].shape.dstLabel, buckets[0].rows)
      + BucketWrites(buckets[1..])
  }

  /******* Suggested edges, grouped by the shape of their statement *******/

  function ShapeOf(s: Suggestion): Shape {
    Shape(s.src.nodeLabel, s.rel, s.dst.nodeLabel)
  }

  function SuggestedRow(s: Suggestion): EdgeRow {
    EdgeRow(s.src.id, s.dst.id, Some(Stamp(LLM_SOURCE, s.confidence)))
  }

  function SuggestedWrite(s: Suggestion): Write {
    PutEdge(EdgeKey(s.src, s.rel, s.dst), Stamp(LLM_SOURCE, s.confidence))
  }

  // A dictionary in insertion order: append to the bucket of the shape, or open one at the end.
  function AddTo(buckets: seq<Bucket>, shape: Shape, row: EdgeRow): seq<Bucket> {
    if buckets == [] then [Bucket(shape, [row])]
    else if buckets[0].shape == shape then [buckets[0].(rows := buckets[0].rows + [row])] + buckets[1..]
    else [buckets[0]] + AddTo(buckets[1..], shape, row)
  }

  function Grouped(suggestions: seq<Suggestion>): seq<Bucket> {
    if suggestions == [] then []
    else
      var last := suggestions[|suggestions| - 1];
      AddTo(Grouped(suggestions[..|suggestions| - 1]), ShapeOf(last), SuggestedRow(last))
  }

  function SuggestedWrites(suggestions: seq<Suggestion>): seq<Write> {
    seq(|suggestions|, i requires 0 <= i < |suggestions| => SuggestedWrite(suggestions[i]))
  }

  lemma {:induction false} LastStampConcat(a: seq<Write>, b: seq<Write>, key: EdgeKey)
    ensures LastStamp(a + b, key) == if LastStamp(b, key).Some? then LastStamp(b, key) else LastStamp(a, key)
  {
    if b == [] {
      assert a + b == a;
    } else {
      assert (a + b)[..|a + b| - 1] == a + b[..|b| - 1];
      LastStampConcat(a, b[..|b| - 1], key);
    }
  }

  // Adding a suggestion to its bucket makes it the last write of its own edge and of no other.
  lemma {:induction false} AddingMakesItLast(buckets: seq<Bucket>, s: Suggestion, key: EdgeKey)
    requires forall i, j :: 0 <= i < j < |buckets| ==> buckets[i].shape != buckets[j].shape
    ensures var more := AddTo(buckets, ShapeOf(s), SuggestedRow(s));
            && LastStamp(BucketWrites(more), key)
                  == (if key == SuggestedWrite(s).edge then Some(SuggestedWrite(s).stamp)
                                                      else LastStamp(BucketWrites(buckets), key))
            && (forall b :: b in more ==> b.shape == ShapeOf(s) || exists c :: c in buckets && c.shape == b.shape)
            && forall i, j :: 0 <= i < j < |more| ==> more[i].shape != more[j].shape
  {
    var shape, row := ShapeOf(s), SuggestedRow(s);
    var own := EdgeWrites(shape.srcLabel, shape.rel, shape.dstLabel, [row]);
    assert own == [SuggestedWrite(s)];
    assert LastStamp(own, key) == if key == SuggestedWrite(s).edge then Some(SuggestedWrite(s).stamp) else None by {
      assert own[..0] == [];
    }
    if buckets == [] {
      assert [Bucket(shape, [row])][1..] == [];
      assert BucketWrites([Bucket(shape, [row])]) == own + [];
      assert own + [] == own;
    } else {
      var head, tail := buckets[0], buckets[1..];
      var headWrites := EdgeWrites(head.shape.srcLabel, head.shape.rel, head.shape.dstLabel, head.rows);
      LastStampConcat(headWrites, BucketWrites(tail), key);
      if head.shape == shape {
        var grown := head.(rows := head.rows + [row]);
        assert ([grown] + tail)[1..] == tail;
        assert EdgeWrites(shape.srcLabel, shape.rel, shape.dstLabel, grown.rows) == headWrites + own;
        LastStampConcat(headWrites, own, key);
        LastStampConcat(headWrites + own, BucketWrites(tail), key);
        if key == SuggestedWrite(s).edge {
          OtherShapesDoNotWrite(tail, key);
        }
      } else {
        var more := AddTo(tail, shape, row);
        AddingMakesItLast(tail, s, key);
        assert ([head] + more)[1..] == more;
        LastStampConcat(headWrites, BucketWrites(more), key);
      }
    }
  }

  lemma {:induction false} OtherShapesDoNotWrite(buckets: seq<Bucket>, key: EdgeKey)
    requires forall b :: b in buckets ==> b.shape != Shape(key.src.nodeLabel, key.rel, key.dst.nodeLabel)
    ensures LastStamp(BucketWrites(buckets), key).None?
  {
    if buckets != [] {
      var head := buckets[0];
      var headWrites := EdgeWrites(head.shape.srcLabel, head.shape.rel, head.shape.dstLabel, head.rows);
      OtherShapesDoNotWrite(buckets[1..], key);
      LastStampConcat(headWrites, BucketWrites(buckets[1..]), key);
      NotWritten(headWrites, key);
    }
  }

  lemma {:induction false} NotWritten(writes: seq<Write>, key: EdgeKey)
    requires forall w :: w in writes ==> w.PutEdge? ==> w.edge != key
    ensures LastStamp(writes, key).None?
  {
    if writes != [] {
      assert writes[|writes| - 1] in writes;
      NotWritten(writes[..|writes| - 1], key);
    }
  }

  lemma {:induction false} GroupingKeepsLastStamps(suggestions: seq<Suggestion>, key: EdgeKey)
    ensures LastStamp(BucketWrites(Grouped(suggestions)), key) == LastStamp(SuggestedWrites(suggestions), key)
    ensures var groups := Grouped(suggestions);
            forall i, j :: 0 <= i < j < |groups| ==> groups[i].shape != groups[j].shape
  {
    if suggestions != [] {
      var n := |suggestions| - 1;
      GroupingKeepsLastStamps(suggestions[..n], key);
      AddingMakesItLast(Grouped(suggestions[..n]), suggestions[n], key);
      assert SuggestedWrites(suggestions)[..n] == SuggestedWrites(suggestions[..n]);
    }
  }

  lemma {:induction false} BucketWritesAreEdges(buckets: seq<Bucket>)
    ensures AreEdges(BucketWrites(buckets))
  {
    if buckets != [] {
      BucketWritesAreEdges(buckets[1..]);
    }
  }

  // Grouping the suggestions by shape does not show: the graph is the one that their plain sequence
  // of writes gives.
  lemma GroupingIsInvisible(g: Graph, suggestions: seq<Suggestion>)
    ensures PutAll(g, BucketWrites(Grouped(suggestions))) == PutAll(g, SuggestedWrites(suggestions))
  {
    var grouped, plain := BucketWrites(Grouped(suggestions)), SuggestedWrites(suggestions);
    BucketWritesAreEdges(Grouped(suggestions));
    forall key ensures StampAt(PutAll(g, grouped), key) == StampAt(PutAll(g, plain), key) {
      GroupingKeepsLastStamps(suggestions, key);
      EdgeEffect(g, grouped, key);
      EdgeEffect(g, plain, key);
    }
    EdgeEffect(g, grouped, AnyEdge());
    EdgeEffect(g, plain, AnyEdge());
    GraphsAgree(PutAll(g, grouped), PutAll(g, plain));
  }

  /******* The whole load *******/

  function AllWrites(m: Merged): seq<Write> {
    TableWrites(NodeTable(m)) + (BucketWrites(ResolvedEdges(m)) + BucketWrites(Grouped(m.suggestions)))
  }

  lemma {:induction false} TableWritesAreNodes(table: seq<NodeBatch>)
    ensures AreNodes(TableWrites(table))
  {
    if table != [] {
      TableWritesAreNodes(table[1..]);
    }
  }

  function Loaded(g: Graph, m: Merged): Graph {
    PutAll(g, AllWrites(m))
  }

  // Re-running a load produces an identical graph, from any graph it starts on; every edge it writes
  // joins two existing nodes.
  lemma LoadTwiceIsLoadOnce(g: Graph, m: Merged)
    ensures Loaded(Loaded(g, m), m) == Loaded(g, m)
    ensures forall key :: StampAt(Loaded(g, m), key) != StampAt(g, key) ==> EndsExist(Loaded(g, m), key)
    ensures NoDanglingEdges(g) ==> NoDanglingEdges(Loaded(g, m))
  {
    var edges := BucketWrites(ResolvedEdges(m)) + BucketWrites(Grouped(m.suggestions));
    TableWritesAreNodes(NodeTable(m));
    BucketWritesAreEdges(ResolvedEdges(m));
    BucketWritesAreEdges(Grouped(m.suggestions));
    LoadingIsIdempotent(g, TableWrites(NodeTable(m)), edges);
    WrittenEdgesJoinNodes(g, TableWrites(NodeTable(m)), edges);
  }

  // An edge that was suggested carries the stamp of its last suggestion, whatever a resolver row or an
  // earlier load had set, provided both ends exist; any other edge is as the resolver rows leave it.
  lemma SuggestionsOverride(g: Graph, m: Merged, key: EdgeKey)
    ensures var after, suggested := Loaded(g, m), LastStamp(SuggestedWrites(m.suggestions), key);
            && (suggested.Some? && EndsExist(after, key) ==> StampAt(after, key) == suggested)
            && (suggested.None? ==>
                  StampAt(after, key)
                  == StampAt(PutAll(g, TableWrites(NodeTable(m)) + BucketWrites(ResolvedEdges(m))), key))
  {
    var nodes, resolved := TableWrites(NodeTable(m)), BucketWrites(ResolvedEdges(m));
    var llm := BucketWrites(Grouped(m.suggestions));
    PutAllConcat(g, nodes, resolved + llm);
    PutAllConcat(g, nodes, resolved);
    var placed := PutAll(g, nodes);
    PutAllConcat(placed, resolved, llm);
    BucketWritesAreEdges(ResolvedEdges(m));
    BucketWritesAreEdges(Grouped(m.suggestions));
    EdgeEffect(placed, resolved, key);
    EdgeEffect(PutAll(placed, resolved), llm, key);
    GroupingKeepsLastStamps(m.suggestions, key);
  }

  class Session {
    var graph: Graph

    constructor (graph: Graph)
      ensures this.graph == graph
    {
      this.graph := graph;
    }

    // One UNWIND statement over a batch of rows.
    method RunNodes(nodeLabel: string, batch: seq<NodeRow>)
      modifies this
      ensures graph == PutAll(old(graph), NodeWrites(nodeLabel, batch))
    {
      ghost var all := NodeWrites(nodeLabel, batch);
      for i := 0 to |batch|
        invariant graph == PutAll(old(graph), all[..i])
      {
        var key := NodeKey(nodeLabel, batch[i].id);
        var before := if key in graph.nodes then graph.nodes[key] else map[];
        graph := graph.(nodes := graph.nodes[key := before + batch[i].props]);
        assert all[..i + 1][..i] == all[..i];
      }
      assert all[..|batch|] == all;
    }

    method RunEdges(srcLabel: string, rel: string, dstLabel: string, batch: seq<EdgeRow>)
      modifies this
      ensures graph == PutAll(old(graph), EdgeWrites(srcLabel, rel, dstLabel, batch))
    {
      ghost var all := EdgeWrites(srcLabel, rel, dstLabel, batch);
      for i := 0 to |batch|
        invariant graph == PutAll(old(graph), all[..i])
      {
        var src, dst := NodeKey(srcLabel, batch[i].src), NodeKey(dstLabel, batch[i].dst);
        if src in graph.nodes && dst in graph.nodes {
          var stamp := if batch[i].stamp.Some? then batch[i].stamp.value else RESOLVER;
          graph := graph.(edges := graph.edges[EdgeKey(src, rel, dst) := stamp]);
        }
        assert all[..i + 1][..i] == all[..i];
      }
      assert all[..|batch|] == all;
    }
  }

  // Batched, yet the graph and the count are those of one unbatched pass.
  method MergeNodes(session: Session, nodeLabel: string, rows: seq<NodeRow>) returns (written: nat)
    modifies session
    ensures session.graph == PutAll(old(session.graph), NodeWrites(nodeLabel, rows))
    ensures written == |rows|
  {
    written := 0;
    var batches := Chunks(rows, BATCH_SIZE);
    for i := 0 to |batches|
      invariant session.graph == PutAll(old(session.graph), NodeWrites(nodeLabel, Flatten(batches[..i])))
      invariant written == |Flatten(batches[..i])|
    {
      session.RunNodes(nodeLabel, batches[i]);
      written := written + |batches[i]|;
      WritesOfBatches(nodeLabel, batches, i);
      PutAllConcat(old(session.graph), NodeWrites(nodeLabel, Flatten(batches[..i])), NodeWrites(nodeLabel, batches[i]));
    }
    assert batches[..|batches|] == batches;
  }

  method MergeEdges(session: Session, srcLabel: string, rel: string, dstLabel: string, rows: seq<EdgeRow>)
    returns (written: nat)
    modifies session
    ensures session.graph == PutAll(old(session.graph), EdgeWrites(srcLabel, rel, dstLabel, rows))
    ensures written == |rows|
  {
    written := 0;
    var batches := Chunks(rows, BATCH_SIZE);
    for i := 0 to |batches|
      invariant session.graph == PutAll(old(session.graph), EdgeWrites(srcLabel, rel, dstLabel, Flatten(batches[..i])))
      invariant written == |Flatten(batches[..i])|
    {
      session.RunEdges(srcLabel, rel, dstLabel, batches[i]);
      written := written + |batches[i]|;
      EdgeWritesOfBatches(srcLabel, rel, dstLabel, batches, i);
      PutAllConcat(old(session.graph), EdgeWrites(srcLabel, rel, dstLabel, Flatten(batches[..i])),
                   EdgeWrites(srcLabel, rel, dstLabel, batches[i]));
    }
    assert batches[..|batches|] == batches;
  }

  lemma {:induction false} TableWritesConcat(a: seq<NodeBatch>, b: seq<NodeBatch>)
    ensures TableWrites(a + b) == TableWrites(a) + TableWrites(b)
  {
    if a == [] {
      assert a + b == b;
    } else {
      assert (a + b)[1..] == a[1..] + b;
      TableWritesConcat(a[1..], b);
    }
  }

  lemma {:induction false} BucketWritesConcat(a: seq<Bucket>, b: seq<Bucket>)
    ensures BucketWrites(a + b) == BucketWrites(a) + BucketWrites(b)
  {
    if a == [] {
      assert a + b == b;
    } else {
      assert (a + b)[1..] == a[1..] + b;
      BucketWritesConcat(a[1..], b);
    }
  }

  method MergeTable(session: Session, table: seq<NodeBatch>) returns (counts: seq<nat>)
    modifies session
    ensures session.graph == PutAll(old(session.graph), TableWrites(table))
    ensures |counts| == |table| && forall i :: 0 <= i < |table| ==> counts[i] == |table[i].rows|
  {
    counts := [];
    for i := 0 to |table|
      invariant session.graph == PutAll(old(session.graph), TableWrites(table[..i]))
      invariant |counts| == i && forall j :: 0 <= j < i ==> counts[j] == |table[j].rows|
    {
      var written := MergeNodes(session, table[i].nodeLabel, table[i].rows);
      counts := counts + [written];
      var writes := NodeWrites(table[i].nodeLabel, table[i].rows);
      assert table[..i + 1] == table[..i] + [table[i]];
      TableWritesConcat(table[..i], [table[i]]);
      assert TableWrites([table[i]]) == writes;
      PutAllConcat(old(session.graph), TableWrites(table[..i]), writes);
    }
    assert table[..|table|] == table;
  }

  method MergeBuckets(session: Session, buckets: seq<Bucket>) returns (counts: seq<nat>)
    modifies session
    ensures session.graph == PutAll(old(session.graph), BucketWrites(buckets))
    ensures |counts| == |buckets| && forall i :: 0 <= i < |buckets| ==> counts[i] == |buckets[i].rows|
  {
    counts := [];
    for i := 0 to |buckets|
      invariant session.graph == PutAll(old(session.graph), BucketWrites(buckets[..i]))
      invariant |counts| == i && forall j :: 0 <= j < i ==> counts[j] == |buckets[j].rows|
    {
      var shape := buckets[i].shape;
      var written := MergeEdges(session, shape.srcLabel, shape.rel, shape.dstLabel, buckets[i].rows);
      counts := counts + [written];
      var writes := EdgeWrites(shape.srcLabel, shape.rel, shape.dstLabel, buckets[i].rows);
      assert buckets[..i + 1] == buckets[..i] + [buckets[i]];
      BucketWritesConcat(buckets[..i], [buckets[i]]);
      assert BucketWrites([buckets[i]]) == writes;
      PutAllConcat(old(session.graph), BucketWrites(buckets[..i]), writes);
    }
    assert buckets[..|buckets|] == buckets;
  }

  // `edges` has one entry for each resolver statement, under its name, and one for each relation suggested.
  datatype LoadStats = LoadStats(nodes: seq<nat>, edges: map<string, nat>)

  function STAT_NAMES(): seq<string> {
    ["CONTAINS", "DEFINES", "COVERS", "INITIATES", "TARGETS", "TARGETS_ENDPOINT", "EXPOSES", "CALLS", "READS",
     "WRITES", "CONTAINS_ENDPOINT", "CONTAINS_DATA_MODEL", "CONTAINS_QUERY", "HANDLED_BY", "EXECUTES", "PRODUCES",
     "CONSUMES", "MOCKS"]
  }

  function CountAt(stats: map<string, nat>, name: string): nat {
    if name in stats then stats[name] else 0
  }

  // `stats.edges[name] = count`, one statement after the other.
  function Named(stats: map<string, nat>, names: seq<string>, buckets: seq<Bucket>): map<string, nat>
    requires |names| == |buckets|
  {
    if names == [] then stats
    else
      var n := |names| - 1;
      Named(stats, names[..n], buckets[..n])[names[n] := |buckets[n].rows|]
  }

  // `stats.edges[key] = stats.edges.get(key, 0) + count`, one group after the other.
  function Summed(stats: map<string, nat>, groups: seq<Bucket>): map<string, nat> {
    if groups == [] then stats
    else
      var before, last := Summed(stats, groups[..|groups| - 1]), groups[|groups| - 1];
      var key := "LLM_" + last.shape.rel;
      before[key := CountAt(before, key) + |last.rows|]
  }

  function EdgeStats(m: Merged): map<string, nat> {
    Summed(Named(map[], STAT_NAMES(), ResolvedEdges(m)), Grouped(m.suggestions))
  }

  method Load(session: Session, m: Merged) returns (stats: LoadStats)
    modifies session
    ensures session.graph == Loaded(old(session.graph), m)
    ensures stats.nodes == [|m.services|, |m.artifacts|, |m.tests|, |m.connections|, |m.endpoints|, |m.dataModels|,
                            |m.queries|, |m.topics|, |m.producers|, |m.consumers|, |m.mocks|]
    ensures stats.edges == EdgeStats(m)
  {
    ghost var g := session.graph;
    var nodes := MergeRecords(session, m);
    var named := MergeResolved(session, m);
    var groups := Grouped(m.suggestions);
    var counts := MergeBuckets(session, groups);
    var summed := SumCounts(named, groups, counts);
    stats := LoadStats(nodes, summed);
    LoadedInSteps(g, m);
  }

  method MergeRecords(session: Session, m: Merged) returns (counts: seq<nat>)
    modifies session
    ensures session.graph == PutAll(old(session.graph), TableWrites(NodeTable(m)))
    ensures counts == [|m.services|, |m.artifacts|, |m.tests|, |m.connections|, |m.endpoints|, |m.dataModels|,
                       |m.queries|, |m.topics|, |m.producers|, |m.consumers|, |m.mocks|]
  {
    counts := MergeTable(session, NodeTable(m));
    NodeRowsAreCounted(m);
  }

  method MergeResolved(session: Session, m: Merged) returns (named: map<string, nat>)
    modifies session
    ensures session.graph == PutAll(old(session.graph), BucketWrites(ResolvedEdges(m)))
    ensures named == Named(map[], STAT_NAMES(), ResolvedEdges(m))
  {
    var counts := MergeBuckets(session, ResolvedEdges(m));
    named := NameCounts(ResolvedEdges(m), counts);
  }

  method NameCounts(buckets: seq<Bucket>, counts: seq<nat>) returns (stats: map<string, nat>)
    requires |STAT_NAMES()| == |buckets| == |counts| && forall i :: 0 <= i < |counts| ==> counts[i] == |buckets[i].rows|
    ensures stats == Named(map[], STAT_NAMES(), buckets)
  {
    stats := map[];
    var names := STAT_NAMES();
    for i := 0 to |counts|
      invariant stats == Named(map[], names[..i], buckets[..i])
    {
      assert names[..i + 1][..i] == names[..i] && buckets[..i + 1][..i] == buckets[..i];
      stats := stats[names[i] := counts[i]];
    }
    assert names[..|names|] == names && buckets[..|buckets|] == buckets;
  }

  method SumCounts(start: map<string, nat>, groups: seq<Bucket>, counts: seq<nat>) returns (stats: map<string, nat>)
    requires |groups| == |counts| && forall i :: 0 <= i < |counts| ==> counts[i] == |groups[i].rows|
    ensures stats == Summed(start, groups)
  {
    stats := start;
    for i := 0 to |groups|
      invariant stats == Summed(start, groups[..i])
    {
      assert groups[..i + 1][..i] == groups[..i];
      var key := "LLM_" + groups[i].shape.rel;
      stats := stats[key := CountAt(stats, key) + counts[i]];
    }
    assert groups[..|groups|] == groups;
  }

  lemma {:induction false} FlatMapOfOnes<T, U>(items: seq<T>, f: T -> seq<U>)
    requires forall x :: |f(x)| == 1
    ensures |FlatMap(items, f)| == |items|
  {
    if items != [] {
      FlatMapOfOnes(items[1..], f);
    }
  }

  lemma NodeRowsAreCounted(m: Merged)
    ensures var t := NodeTable(m);
            && |t| == 11 && |t[0].rows| == |m.services| && |t[1].rows| == |m.artifacts| && |t[2].rows| == |m.tests|
            && |t[3].rows| == |m.connections| && |t[4].rows| == |m.endpoints| && |t[5].rows| == |m.dataModels|
            && |t[6].rows| == |m.queries| && |t[7].rows| == |m.topics| && |t[8].rows| == |m.producers|
            && |t[9].rows| == |m.consumers| && |t[10].rows| == |m.mocks|
  {
    FlatMapOfOnes(m.services, ServiceNode);
    FlatMapOfOnes(m.artifacts, ArtifactNode);
    FlatMapOfOnes(m.tests, TestNode);
    FlatMapOfOnes(m.connections, ConnectionNode);
    FlatMapOfOnes(m.endpoints, EndpointNode);
    FlatMapOfOnes(m.dataModels, DataModelNode);
    FlatMapOfOnes(m.queries, QueryNode);
    FlatMapOfOnes(m.topics, TopicNode);
    FlatMapOfOnes(m.producers, TopicUserNode);
    FlatMapOfOnes(m.consumers, TopicUserNode);
    FlatMapOfOnes(m.mocks, MockNode);
  }

  lemma LoadedInSteps(g: Graph, m: Merged)
    ensures Loaded(g, m)
         == PutAll(PutAll(PutAll(g, TableWrites(NodeTable(m))), BucketWrites(ResolvedEdges(m))),
                   BucketWrites(Grouped(m.suggestions)))
  {
    var nodes, resolved := TableWrites(NodeTable(m)), BucketWrites(ResolvedEdges(m));
    var llm := BucketWrites(Grouped(m.suggestions));
    PutAllConcat(g, nodes, resolved + llm);
    PutAllConcat(PutAll(g, nodes), resolved, llm);
  }
}
