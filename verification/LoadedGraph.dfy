/**
  Which nodes and edges a load writes, told from the records alone.
*/
module LoadedGraph {
  import opened Wrappers
  import opened GraphLoad
  import opened GraphLoader

  /******* What the records ask for *******/

  // An edge for each membership, link and optional reference of a record.
  ghost predicate AsksContains(m: Merged, shape: Shape, src: string, dst: string) {
    && shape.srcLabel == "Service" && shape.rel == "CONTAINS"
    && (|| (shape.dstLabel == "CodeArtifact" && exists a :: a in m.artifacts && a.repo == src && a.id == dst)
        || (shape.dstLabel == "Endpoint" && exists e :: e in m.endpoints && e.repo == src && e.id == dst)
        || (shape.dstLabel == "DataModel" && exists d :: d in m.dataModels && d.repo == src && d.id == dst)
        || (shape.dstLabel == "Query" && exists q :: q in m.queries && q.repo == src && q.id == dst))
  }

  ghost predicate AsksOfTests(m: Merged, shape: Shape, src: string, dst: string) {
    || (shape == Shape("Service", "DEFINES", "TestCase") && exists t :: t in m.tests && t.repo == src && t.id == dst)
    || (shape == Shape("TestCase", "COVERS", "CodeArtifact") &&
        exists t :: t in m.tests && t.id == src && dst in t.covers)
    || (shape == Shape("TestCase", "MOCKS", "CodeArtifact") &&
        exists k :: k in m.mocks && k.test == src && k.target == dst && dst != "")
  }

  ghost predicate AsksOfConnections(m: Merged, shape: Shape, src: string, dst: string) {
    || (shape == Shape("Service", "INITIATES", "ExternalConnection") &&
        exists c :: c in m.connections && c.source == src && c.id == dst)
    || (shape == Shape("ExternalConnection", "TARGETS", "Service") &&
        exists c :: c in m.connections && c.id == src && c.targetService == dst && dst != "")
    || (shape == Shape("ExternalConnection", "TARGETS_ENDPOINT", "Endpoint") &&
        exists c :: c in m.connections && c.id == src && c.targetEndpoint == dst && dst != "")
  }

  ghost predicate AsksOfArtifacts(m: Merged, shape: Shape, src: string, dst: string) {
    || (shape == Shape("CodeArtifact", "EXPOSES", "ExternalConnection") &&
        exists a :: a in m.artifacts && a.id == src && dst in a.connections)
    || (shape == Shape("CodeArtifact", "CALLS", "CodeArtifact") &&
        exists a :: a in m.artifacts && a.id == src && dst in a.calls)
    || (shape == Shape("CodeArtifact", "READS", "CodeArtifact") &&
        exists a :: a in m.artifacts && a.id == src && dst in a.readsFrom)
    || (shape == Shape("CodeArtifact", "WRITES", "CodeArtifact") &&
        exists a :: a in m.artifacts && a.id == src && dst in a.writesTo)
  }

  ghost predicate AsksOfUsers(m: Merged, shape: Shape, src: string, dst: string) {
    || (shape == Shape("Endpoint", "HANDLED_BY", "CodeArtifact") &&
        exists e :: e in m.endpoints && e.id == src && e.handler == dst && dst != "")
    || (shape == Shape("CodeArtifact", "EXECUTES", "Query") &&
        exists q :: q in m.queries && q.enclosing == src && src != "" && q.id == dst)
    || (shape == Shape("KafkaProducer", "PRODUCES", "KafkaTopic") &&
        exists p :: p in m.producers && p.id == src && dst == "topic:" + p.topic)
    || (shape == Shape("KafkaConsumer", "CONSUMES", "KafkaTopic") &&
        exists c :: c in m.consumers && c.id == src && dst == "topic:" + c.topic)
  }

  // Some record asks for the edge.
  ghost predicate Asks(m: Merged, key: EdgeKey) {
    var shape, src, dst := Shape(key.src.nodeLabel, key.rel, key.dst.nodeLabel), key.src.id, key.dst.id;
    || AsksContains(m, shape, src, dst) || AsksOfTests(m, shape, src, dst) || AsksOfConnections(m, shape, src, dst)
    || AsksOfArtifacts(m, shape, src, dst) || AsksOfUsers(m, shape, src, dst)
  }

  ghost predicate Suggested(m: Merged, key: EdgeKey) {
    exists s :: s in m.suggestions && s.src == key.src && s.rel == key.rel && s.dst == key.dst
  }

  // Some record is this node, with these properties.
  ghost predicate IsRecord(m: Merged, key: NodeKey, props: Props) {
    IsCode(m, key, props) || IsPart(m, key, props) || IsKafkaOrMock(m, key, props)
  }

  ghost predicate IsCode(m: Merged, key: NodeKey, props: Props) {
    || (key.nodeLabel == "Service" && exists s :: s in m.services && s.id == key.id && s.props == props)
    || (key.nodeLabel == "CodeArtifact" && exists a :: a in m.artifacts && a.id == key.id && a.props == props)
    || (key.nodeLabel == "TestCase" && exists t :: t in m.tests && t.id == key.id && t.props == props)
    || (key.nodeLabel == "ExternalConnection" &&
        exists c :: c in m.connections && c.id == key.id && c.props == props)
  }

  ghost predicate IsPart(m: Merged, key: NodeKey, props: Props) {
    || (key.nodeLabel == "Endpoint" && exists e :: e in m.endpoints && e.id == key.id && e.props == props)
    || (key.nodeLabel == "DataModel" && exists d :: d in m.dataModels && d.id == key.id && d.props == props)
    || (key.nodeLabel == "Query" && exists q :: q in m.queries && q.id == key.id && q.props == props)
  }

  ghost predicate IsKafkaOrMock(m: Merged, key: NodeKey, props: Props) {
    || (key.nodeLabel == "KafkaTopic" && exists t :: t in m.topics && t.id == key.id && t.props == props)
    || (key.nodeLabel == "KafkaProducer" && exists p :: p in m.producers && p.id == key.id && p.props == props)
    || (key.nodeLabel == "KafkaConsumer" && exists c :: c in m.consumers && c.id == key.id && c.props == props)
    || (key.nodeLabel == "Mock" && exists k :: k in m.mocks && k.id == key.id && k.props == props)
  }

  /******* The rows of the statements *******/

  lemma {:induction false} InFlatMap<T, U>(items: seq<T>, f: T -> seq<U>, u: U)
    ensures u in FlatMap(items, f) <==> exists x :: x in items && u in f(x)
  {
    if items != [] {
      InFlatMap(items[1..], f, u);
      assert forall x :: x in items <==> x == items[0] || x in items[1..] by {
        assert items == [items[0]] + items[1..];
      }
    }
  }

  lemma FanRows(src: string, targets: seq<string>, row: EdgeRow)
    ensures row in Fan(src, targets) <==> row.src == src && row.stamp == None && row.dst in targets
  {
    if row.src == src && row.stamp == None && row.dst in targets {
      var i :| 0 <= i < |targets| && targets[i] == row.dst;
      assert Fan(src, targets)[i] == row;
    }
  }

  lemma {:induction false} FanFlat<T>(items: seq<T>, f: T -> seq<EdgeRow>, id: T -> string, targets: T -> seq<string>,
      src: string, dst: string)
    requires forall x :: f(x) == Fan(id(x), targets(x))
    ensures Row(src, dst) in FlatMap(items, f) <==> exists x :: x in items && id(x) == src && dst in targets(x)
  {
    InFlatMap(items, f, Row(src, dst));
    forall x ensures Row(src, dst) in f(x) <==> id(x) == src && dst in targets(x) {
      FanRows(id(x), targets(x), Row(src, dst));
    }
  }

  ghost predicate Wants(b: Bucket, key: EdgeKey) {
    b.shape == Shape(key.src.nodeLabel, key.rel, key.dst.nodeLabel) && Row(key.src.id, key.dst.id) in b.rows
  }

  function ShapeOfKey(key: EdgeKey): Shape {
    Shape(key.src.nodeLabel, key.rel, key.dst.nodeLabel)
  }

  lemma ContainsRows(m: Merged, key: EdgeKey)
    ensures var table := ResolvedEdges(m);
            AsksContains(m, ShapeOfKey(key), key.src.id, key.dst.id)
            <==> Wants(table[0], key) || Wants(table[10], key) || Wants(table[11], key) || Wants(table[12], key)
  {
    var row := Row(key.src.id, key.dst.id);
    InFlatMap(m.artifacts, ArtifactInRepo, row);
    InFlatMap(m.endpoints, EndpointInRepo, row);
    InFlatMap(m.dataModels, DataModelInRepo, row);
    InFlatMap(m.queries, QueryInRepo, row);
  }

  lemma TestRows(m: Merged, key: EdgeKey)
    ensures var table := ResolvedEdges(m);
            AsksOfTests(m, ShapeOfKey(key), key.src.id, key.dst.id)
            <==> Wants(table[1], key) || Wants(table[2], key) || Wants(table[17], key)
  {
    CoveredRows(m, key);
    InFlatMap(m.tests, TestInRepo, Row(key.src.id, key.dst.id));
    MockedRows(m, key);
  }

  lemma CoveredRows(m: Merged, key: EdgeKey)
    ensures Wants(ResolvedEdges(m)[2], key)
       <==> ShapeOfKey(key) == Shape("TestCase", "COVERS", "CodeArtifact")
            && exists t :: t in m.tests && t.id == key.src.id && key.dst.id in t.covers
  {
    FanFlat(m.tests, Covered, (t: Test) => t.id, (t: Test) => t.covers, key.src.id, key.dst.id);
  }

  lemma MockedRows(m: Merged, key: EdgeKey)
    ensures Wants(ResolvedEdges(m)[17], key)
       <==> ShapeOfKey(key) == Shape("TestCase", "MOCKS", "CodeArtifact")
            && exists k :: k in m.mocks && k.test == key.src.id && k.target == key.dst.id && key.dst.id != ""
  {
    InFlatMap(m.mocks, Mocked, Row(key.src.id, key.dst.id));
  }

  lemma ConnectionRows(m: Merged, key: EdgeKey)
    ensures var table := ResolvedEdges(m);
            AsksOfConnections(m, ShapeOfKey(key), key.src.id, key.dst.id)
            <==> Wants(table[3], key) || Wants(table[4], key) || Wants(table[5], key)
  {
    InFlatMap(m.connections, Initiated, Row(key.src.id, key.dst.id));
    ServiceRows(m, key);
    EndpointRows(m, key);
  }

  lemma ServiceRows(m: Merged, key: EdgeKey)
    ensures Wants(ResolvedEdges(m)[4], key)
       <==> ShapeOfKey(key) == Shape("ExternalConnection", "TARGETS", "Service")
            && key.dst.id != ""
            && exists c :: c in m.connections && c.id == key.src.id && c.targetService == key.dst.id
  {
    InFlatMap(m.connections, TargetService, Row(key.src.id, key.dst.id));
  }

  lemma EndpointRows(m: Merged, key: EdgeKey)
    ensures Wants(ResolvedEdges(m)[5], key)
       <==> ShapeOfKey(key) == Shape("ExternalConnection", "TARGETS_ENDPOINT", "Endpoint")
            && key.dst.id != ""
            && exists c :: c in m.connections && c.id == key.src.id && c.targetEndpoint == key.dst.id
  {
    InFlatMap(m.connections, TargetEndpoint, Row(key.src.id, key.dst.id));
  }

  lemma ArtifactRows(m: Merged, key: EdgeKey)
    ensures var table := ResolvedEdges(m);
            AsksOfArtifacts(m, ShapeOfKey(key), key.src.id, key.dst.id)
            <==> Wants(table[6], key) || Wants(table[7], key) || Wants(table[8], key) || Wants(table[9], key)
  {
    ExposedRows(m, key);
    CalledRows(m, key);
    ReadRows(m, key);
    WrittenRows(m, key);
  }

  lemma ExposedRows(m: Merged, key: EdgeKey)
    ensures Wants(ResolvedEdges(m)[6], key)
       <==> ShapeOfKey(key) == Shape("CodeArtifact", "EXPOSES", "ExternalConnection")
            && exists a :: a in m.artifacts && a.id == key.src.id && key.dst.id in a.connections
  {
    FanFlat(m.artifacts, Exposed, (a: Artifact) => a.id, (a: Artifact) => a.connections, key.src.id, key.dst.id);
  }

  lemma CalledRows(m: Merged, key: EdgeKey)
    ensures Wants(ResolvedEdges(m)[7], key)
       <==> ShapeOfKey(key) == Shape("CodeArtifact", "CALLS", "CodeArtifact")
            && exists a :: a in m.artifacts && a.id == key.src.id && key.dst.id in a.calls
  {
    FanFlat(m.artifacts, Called, (a: Artifact) => a.id, (a: Artifact) => a.calls, key.src.id, key.dst.id);
  }

  lemma ReadRows(m: Merged, key: EdgeKey)
    ensures Wants(ResolvedEdges(m)[8], key)
       <==> ShapeOfKey(key) == Shape("CodeArtifact", "READS", "CodeArtifact")
            && exists a :: a in m.artifacts && a.id == key.src.id && key.dst.id in a.readsFrom
  {
    FanFlat(m.artifacts, TablesRead, (a: Artifact) => a.id, (a: Artifact) => a.readsFrom, key.src.id, key.dst.id);
  }

  lemma WrittenRows(m: Merged, key: EdgeKey)
    ensures Wants(ResolvedEdges(m)[9], key)
       <==> ShapeOfKey(key) == Shape("CodeArtifact", "WRITES", "CodeArtifact")
            && exists a :: a in m.artifacts && a.id == key.src.id && key.dst.id in a.writesTo
  {
    FanFlat(m.artifacts, TablesWritten, (a: Artifact) => a.id, (a: Artifact) => a.writesTo, key.src.id, key.dst.id);
  }

  lemma UserRows(m: Merged, key: EdgeKey)
    ensures var table := ResolvedEdges(m);
            AsksOfUsers(m, ShapeOfKey(key), key.src.id, key.dst.id)
            <==> Wants(table[13], key) || Wants(table[14], key) || Wants(table[15], key) || Wants(table[16], key)
  {
    var row := Row(key.src.id, key.dst.id);
    InFlatMap(m.endpoints, Handler, row);
    InFlatMap(m.queries, Executor, row);
    InFlatMap(m.producers, UsedTopic, row);
    InFlatMap(m.consumers, UsedTopic, row);
  }

  lemma ResolvedAsks(m: Merged, key: EdgeKey)
    ensures (exists k :: 0 <= k < |ResolvedEdges(m)| && Wants(ResolvedEdges(m)[k], key)) <==> Asks(m, key)
  {
    ContainsRows(m, key);
    TestRows(m, key);
    ConnectionRows(m, key);
    ArtifactRows(m, key);
    UserRows(m, key);
  }

  // Resolver rows write their edges, and no others, with the resolver's stamp.
  lemma {:induction false} BucketsWrite(buckets: seq<Bucket>, key: EdgeKey)
    requires forall k :: 0 <= k < |buckets| ==> Plain(buckets[k].rows)
    ensures LastStamp(BucketWrites(buckets), key).Some?
       <==> exists k :: 0 <= k < |buckets| && Wants(buckets[k], key)
    ensures LastStamp(BucketWrites(buckets), key).Some? ==> LastStamp(BucketWrites(buckets), key) == Some(RESOLVER)
  {
    if buckets != [] {
      var head, tail := buckets[0], buckets[1..];
      var headWrites := EdgeWrites(head.shape.srcLabel, head.shape.rel, head.shape.dstLabel, head.rows);
      assert forall k :: 0 <= k < |tail| ==> tail[k] == buckets[k + 1];
      assert Plain(buckets[0].rows);
      BucketsWrite(tail, key);
      LastStampConcat(headWrites, BucketWrites(tail), key);
      RowsWrite(head.shape, head.rows, key);
      if k :| 0 <= k < |tail| && Wants(tail[k], key) {
        assert Wants(buckets[k + 1], key);
      }
      if k :| 0 <= k < |buckets| && Wants(buckets[k], key) {
        assert k > 0 ==> Wants(tail[k - 1], key);
      }
    }
  }

  lemma {:induction false} RowsWrite(shape: Shape, rows: seq<EdgeRow>, key: EdgeKey)
    requires Plain(rows)
    ensures var writes := EdgeWrites(shape.srcLabel, shape.rel, shape.dstLabel, rows);
            LastStamp(writes, key) == if Wants(Bucket(shape, rows), key) then Some(RESOLVER) else None
  {
    if rows != [] {
      var init, last := rows[..|rows| - 1], rows[|rows| - 1];
      var writes := EdgeWrites(shape.srcLabel, shape.rel, shape.dstLabel, rows);
      assert rows == init + [last] && last in rows;
      RowsWrite(shape, init, key);
      assert writes[..|rows| - 1] == EdgeWrites(shape.srcLabel, shape.rel, shape.dstLabel, init);
      assert last == Row(last.src, last.dst);
    }
  }

  predicate Plain(rows: seq<EdgeRow>) {
    forall row :: row in rows ==> row.stamp == None
  }

  lemma FanIsPlain<T>(items: seq<T>, f: T -> seq<EdgeRow>)
    requires forall x :: Plain(f(x))
    ensures Plain(FlatMap(items, f))
  {
    forall row | row in FlatMap(items, f) ensures row.stamp == None {
      InFlatMap(items, f, row);
    }
  }

  lemma ResolvedIsPlain(m: Merged)
    ensures forall k :: 0 <= k < |ResolvedEdges(m)| ==> Plain(ResolvedEdges(m)[k].rows)
  {
    FanIsPlain(m.artifacts, ArtifactInRepo);
    FanIsPlain(m.tests, TestInRepo);
    FanIsPlain(m.tests, Covered);
    FanIsPlain(m.connections, Initiated);
    FanIsPlain(m.connections, TargetService);
    FanIsPlain(m.connections, TargetEndpoint);
    FanIsPlain(m.artifacts, Exposed);
    FanIsPlain(m.artifacts, Called);
    FanIsPlain(m.artifacts, TablesRead);
    FanIsPlain(m.artifacts, TablesWritten);
    FanIsPlain(m.endpoints, EndpointInRepo);
    FanIsPlain(m.dataModels, DataModelInRepo);
    FanIsPlain(m.queries, QueryInRepo);
    FanIsPlain(m.endpoints, Handler);
    FanIsPlain(m.queries, Executor);
    FanIsPlain(m.producers, UsedTopic);
    FanIsPlain(m.consumers, UsedTopic);
    FanIsPlain(m.mocks, Mocked);
  }

  lemma {:induction false} SuggestionsWrite(suggestions: seq<Suggestion>, key: EdgeKey)
    ensures LastStamp(SuggestedWrites(suggestions), key).Some?
       <==> exists s :: s in suggestions && s.src == key.src && s.rel == key.rel && s.dst == key.dst
  {
    if suggestions != [] {
      var init, last := suggestions[..|suggestions| - 1], suggestions[|suggestions| - 1];
      assert suggestions == init + [last];
      SuggestionsWrite(init, key);
      assert SuggestedWrites(suggestions)[..|init|] == SuggestedWrites(init);
    }
  }

  /******* What a load writes *******/

  // After a load an edge is there exactly if it was before, or a record or a suggestion asks for it and both
  // its ends are there; one that no suggestion names carries the resolver's stamp if a record asks for it,
  // and is as it was otherwise.
  lemma LoadedEdgesAreExact(g: Graph, m: Merged, key: EdgeKey)
    ensures var after := Loaded(g, m);
            && (key in after.edges
                <==> key in g.edges || (EndsExist(after, key) && (Asks(m, key) || Suggested(m, key))))
            && (!Suggested(m, key) ==>
                  StampAt(after, key)
                  == if EndsExist(after, key) && Asks(m, key) then Some(RESOLVER) else StampAt(g, key))
  {
    var nodes, resolved := TableWrites(NodeTable(m)), BucketWrites(ResolvedEdges(m));
    var llm := BucketWrites(Grouped(m.suggestions));
    var placed := PutAll(g, nodes);
    PutAllConcat(g, nodes, resolved + llm);
    PutAllConcat(placed, resolved, llm);
    TableWritesAreNodes(NodeTable(m));
    BucketWritesAreEdges(ResolvedEdges(m));
    BucketWritesAreEdges(Grouped(m.suggestions));
    NodeEffect(g, nodes, key.src);
    EdgeEffect(placed, resolved, key);
    EdgeEffect(PutAll(placed, resolved), llm, key);
    ResolvedIsPlain(m);
    BucketsWrite(ResolvedEdges(m), key);
    ResolvedAsks(m, key);
    GroupingKeepsLastStamps(m.suggestions, key);
    SuggestionsWrite(m.suggestions, key);
  }

  // A batch of this label has the row.
  ghost predicate Places(b: NodeBatch, key: NodeKey, props: Props) {
    b.nodeLabel == key.nodeLabel && NodeRow(key.id, props) in b.rows
  }

  lemma CodeRows(m: Merged, key: NodeKey, props: Props)
    ensures var t := NodeTable(m);
            IsCode(m, key, props)
            <==> Places(t[0], key, props) || Places(t[1], key, props) || Places(t[2], key, props)
                 || Places(t[3], key, props)
  {
    var row := NodeRow(key.id, props);
    InFlatMap(m.services, ServiceNode, row);
    InFlatMap(m.artifacts, ArtifactNode, row);
    InFlatMap(m.tests, TestNode, row);
    InFlatMap(m.connections, ConnectionNode, row);
  }

  lemma PartRows(m: Merged, key: NodeKey, props: Props)
    ensures var t := NodeTable(m);
            IsPart(m, key, props)
            <==> Places(t[4], key, props) || Places(t[5], key, props) || Places(t[6], key, props)
  {
    var row := NodeRow(key.id, props);
    InFlatMap(m.endpoints, EndpointNode, row);
    InFlatMap(m.dataModels, DataModelNode, row);
    InFlatMap(m.queries, QueryNode, row);
  }

  lemma KafkaOrMockRows(m: Merged, key: NodeKey, props: Props)
    ensures var t := NodeTable(m);
            IsKafkaOrMock(m, key, props)
            <==> Places(t[7], key, props) || Places(t[8], key, props) || Places(t[9], key, props)
                 || Places(t[10], key, props)
  {
    var row := NodeRow(key.id, props);
    InFlatMap(m.topics, TopicNode, row);
    InFlatMap(m.producers, TopicUserNode, row);
    InFlatMap(m.consumers, TopicUserNode, row);
    InFlatMap(m.mocks, MockNode, row);
  }

  lemma RecordsArePlaced(m: Merged, key: NodeKey, props: Props)
    ensures TableSays(NodeTable(m), key, props) <==> IsRecord(m, key, props)
  {
    CodeRows(m, key, props);
    PartRows(m, key, props);
    KafkaOrMockRows(m, key, props);
    var t := NodeTable(m);
    if k :| 0 <= k < |t| && Places(t[k], key, props) {
      assert k in {0, 1, 2, 3, 4, 5, 6, 7, 8, 9, 10};
    }
  }

  ghost predicate TableSays(table: seq<NodeBatch>, key: NodeKey, props: Props) {
    exists k :: 0 <= k < |table| && Places(table[k], key, props)
  }

  lemma TableSplits(table: seq<NodeBatch>, key: NodeKey, props: Props)
    requires table != []
    ensures TableSays(table, key, props) <==> Places(table[0], key, props) || TableSays(table[1..], key, props)
  {
    var tail := table[1..];
    if k :| 0 <= k < |tail| && Places(tail[k], key, props) {
      assert Places(table[k + 1], key, props);
    }
    if k :| 0 <= k < |table| && Places(table[k], key, props) {
      assert k > 0 ==> Places(tail[k - 1], key, props);
    }
  }

  // If the rows of a node agree, they are its update; without rows there is none.
  lemma {:induction false} TableUpdates(table: seq<NodeBatch>, key: NodeKey, props: Props)
    requires forall other :: TableSays(table, key, other) ==> other == props
    ensures Update(TableWrites(table), key) == if TableSays(table, key, props) then Some(props) else None
  {
    if table != [] {
      var head, tail := table[0], table[1..];
      var writes := NodeWrites(head.nodeLabel, head.rows);
      forall other ensures TableSays(table, key, other) <==> Places(head, key, other) || TableSays(tail, key, other) {
        TableSplits(table, key, other);
      }
      TableUpdates(tail, key, props);
      RowsUpdate(head, key, props);
      UpdateConcat(writes, TableWrites(tail), key);
      assert props + props == props;
    }
  }

  lemma {:induction false} RowsUpdate(b: NodeBatch, key: NodeKey, props: Props)
    requires forall other :: Places(b, key, other) ==> other == props
    ensures Update(NodeWrites(b.nodeLabel, b.rows), key) == if Places(b, key, props) then Some(props) else None
    decreases |b.rows|
  {
    if b.rows != [] {
      var init, last := b.rows[..|b.rows| - 1], b.rows[|b.rows| - 1];
      var shorter := NodeBatch(b.nodeLabel, init);
      assert b.rows == init + [last];
      assert forall other :: Places(shorter, key, other) ==> Places(b, key, other);
      RowsUpdate(shorter, key, props);
      OneMoreRow(b, key);
      if NodeKey(b.nodeLabel, last.id) == key {
        assert last == NodeRow(key.id, last.props);
        assert Places(b, key, last.props);
        assert props + props == props && map[] + props == props;
      } else {
        assert Places(shorter, key, props) == Places(b, key, props);
      }
    }
  }

  lemma OneMoreRow(b: NodeBatch, key: NodeKey)
    requires b.rows != []
    ensures var init, last := b.rows[..|b.rows| - 1], b.rows[|b.rows| - 1];
            var before := Update(NodeWrites(b.nodeLabel, init), key);
            Update(NodeWrites(b.nodeLabel, b.rows), key)
            == if NodeKey(b.nodeLabel, last.id) == key
               then Some((if before.Some? then before.value else map[]) + last.props) else before
  {
    var n := |b.rows| - 1;
    assert NodeWrites(b.nodeLabel, b.rows)[..n] == NodeWrites(b.nodeLabel, b.rows[..n]);
  }

  // A node is updated exactly if it has a row.
  lemma {:induction false} TableTouches(table: seq<NodeBatch>, key: NodeKey)
    ensures Update(TableWrites(table), key).Some? <==> exists props :: TableSays(table, key, props)
  {
    if table != [] {
      var head, tail := table[0], table[1..];
      forall other ensures TableSays(table, key, other) <==> Places(head, key, other) || TableSays(tail, key, other) {
        TableSplits(table, key, other);
      }
      TableTouches(tail, key);
      RowsTouch(head, key);
      UpdateConcat(NodeWrites(head.nodeLabel, head.rows), TableWrites(tail), key);
    }
  }

  lemma {:induction false} RowsTouch(b: NodeBatch, key: NodeKey)
    ensures Update(NodeWrites(b.nodeLabel, b.rows), key).Some? <==> exists props :: Places(b, key, props)
    decreases |b.rows|
  {
    if b.rows != [] {
      var init, last := b.rows[..|b.rows| - 1], b.rows[|b.rows| - 1];
      var shorter := NodeBatch(b.nodeLabel, init);
      assert b.rows == init + [last];
      assert forall other :: Places(shorter, key, other) ==> Places(b, key, other);
      RowsTouch(shorter, key);
      assert NodeWrites(b.nodeLabel, b.rows)[..|init|] == NodeWrites(b.nodeLabel, init);
      assert last == NodeRow(last.id, last.props);
      assert NodeKey(b.nodeLabel, last.id) == key ==> Places(b, key, last.props);
      forall props ensures Places(b, key, props)
        <==> Places(shorter, key, props) || (NodeKey(b.nodeLabel, last.id) == key && props == last.props)
      {
      }
    }
  }

  lemma {:induction false} UpdateConcat(a: seq<Write>, b: seq<Write>, key: NodeKey)
    ensures var x, y := Update(a, key), Update(b, key);
            Update(a + b, key) == if x.None? then y else if y.None? then x else Some(x.value + y.value)
  {
    if b == [] {
      assert a + b == a;
    } else {
      var init, last := b[..|b| - 1], b[|b| - 1];
      assert (a + b)[..|a + b| - 1] == a + init;
      UpdateConcat(a, init, key);
      var x, y := Update(a, key), Update(init, key);
      if last.PutNode? && last.key == key && x.Some? {
        assert y.Some? ==> (x.value + y.value) + last.props == x.value + (y.value + last.props);
        assert map[] + last.props == last.props;
      }
    }
  }

  // After a load a node is there exactly if it was before or some record is it. Where its records agree, as
  // they do when ids are distinct, their properties stand over the ones it had; without a record it keeps its own.
  lemma LoadedNodesAreExact(g: Graph, m: Merged, key: NodeKey)
    ensures var after := Loaded(g, m);
            && (key in after.nodes <==> key in g.nodes || exists props :: IsRecord(m, key, props))
            && (forall props :: IsRecord(m, key, props) && (forall other :: IsRecord(m, key, other) ==> other == props)
                  ==> PropsAt(after, key) == PropsAt(g, key) + props)
            && ((forall props :: !IsRecord(m, key, props)) ==> PropsAt(after, key) == PropsAt(g, key))
  {
    NodesAfterLoad(g, m, key);
    RecordsTouch(m, key);
    forall props | IsRecord(m, key, props) && forall other :: IsRecord(m, key, other) ==> other == props
      ensures Update(TableWrites(NodeTable(m)), key) == Some(props)
    {
      RecordsUpdate(m, key, props);
    }
  }

  lemma NodesAfterLoad(g: Graph, m: Merged, key: NodeKey)
    ensures var after, update := Loaded(g, m), Update(TableWrites(NodeTable(m)), key);
            && (key in after.nodes <==> key in g.nodes || update.Some?)
            && PropsAt(after, key) == if update.Some? then PropsAt(g, key) + update.value else PropsAt(g, key)
  {
    var nodes := TableWrites(NodeTable(m));
    var edges := BucketWrites(ResolvedEdges(m)) + BucketWrites(Grouped(m.suggestions));
    PutAllConcat(g, nodes, edges);
    TableWritesAreNodes(NodeTable(m));
    BucketWritesAreEdges(ResolvedEdges(m));
    BucketWritesAreEdges(Grouped(m.suggestions));
    EdgeEffect(PutAll(g, nodes), edges, AnyEdge());
    NodeEffect(g, nodes, key);
  }

  lemma RecordsTouch(m: Merged, key: NodeKey)
    ensures Update(TableWrites(NodeTable(m)), key).Some? <==> exists props :: IsRecord(m, key, props)
  {
    TableTouches(NodeTable(m), key);
    forall props ensures TableSays(NodeTable(m), key, props) <==> IsRecord(m, key, props) {
      RecordsArePlaced(m, key, props);
    }
  }

  lemma RecordsUpdate(m: Merged, key: NodeKey, props: Props)
    requires forall other :: IsRecord(m, key, other) ==> other == props
    ensures Update(TableWrites(NodeTable(m)), key) == if IsRecord(m, key, props) then Some(props) else None
  {
    forall other ensures TableSays(NodeTable(m), key, other) <==> IsRecord(m, key, other) {
      RecordsArePlaced(m, key, other);
    }
    TableUpdates(NodeTable(m), key, props);
  }
}
