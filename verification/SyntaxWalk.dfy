/**
  Which call nodes the Python grammar visits.

  A recursive walker goes through blocks and definitions and hands everything else to an iterator
  that drives its own stack.  The two stop at different places: the iterator refuses to enter
  definitions and lambdas, counting on the walker to find the definitions.
*/
module SyntaxWalk {
  import opened Wrappers

  datatype Kind =
    | Module | Block | Compound        // Compound: if/for/while/with/try/match and their clauses
    | Function | Class | Decorated | Lambda
    | Call | Import | Other            // Other: assignments, expressions, every other named node

  // How a child hangs below its parent.
  datatype Field = Name | Parameters | Body | NoField

  // Tokens are the anonymous nodes: keywords and punctuation, without children.  `id` tells nodes
  // with equal content apart.
  datatype Node = Token(text: string) | Node(id: nat, kind: Kind, field: Field, children: seq<Node>)

  // The first child that hangs there by this field.
  ghost predicate IsFirstWith(children: seq<Node>, field: Field, i: int) {
    && 0 <= i < |children| && children[i].Node? && children[i].field == field
    && forall j :: 0 <= j < i && children[j].Node? ==> children[j].field != field
  }

  function ChildBy(children: seq<Node>, field: Field): (r: Option<Node>)
    ensures r.Some? ==> r.value in children && exists i :: IsFirstWith(children, field, i) && children[i] == r.value
    ensures r.None? ==> forall c :: c in children && c.Node? ==> c.field != field
  {
    if children == [] then None
    else if children[0].Node? && children[0].field == field then
      assert IsFirstWith(children, field, 0);
      Some(children[0])
    else
      var r := ChildBy(children[1..], field);
      FirstWithBehind(children, field);
      assert children == [children[0]] + children[1..];
      r
  }

  lemma FirstWithBehind(children: seq<Node>, field: Field)
    requires children != [] && !(children[0].Node? && children[0].field == field)
    ensures forall i :: IsFirstWith(children, field, i) <==> IsFirstWith(children[1..], field, i - 1)
    ensures forall i :: IsFirstWith(children[1..], field, i) ==> IsFirstWith(children, field, i + 1)
    ensures forall c :: c in children[1..] ==> c in children
  {
    forall i ensures IsFirstWith(children, field, i) <==> IsFirstWith(children[1..], field, i - 1) {
      if IsFirstWith(children, field, i) {
        forall j | 0 <= j < i - 1 && children[1..][j].Node? ensures children[1..][j].field != field {
          assert children[j + 1] == children[1..][j];
        }
      }
      if IsFirstWith(children[1..], field, i - 1) {
        forall j | 0 <= j < i && children[j].Node? ensures children[j].field != field {
          assert j > 0 ==> children[1..][j - 1] == children[j];
        }
      }
    }
    forall i | IsFirstWith(children[1..], field, i) ensures IsFirstWith(children, field, i + 1) {
      assert IsFirstWith(children[1..], field, (i + 1) - 1);
    }
  }

  // The named child behind which no named child stands.
  ghost predicate IsLastNamed(children: seq<Node>, i: int) {
    0 <= i < |children| && children[i].Node? && forall j :: i < j < |children| ==> children[j].Token?
  }

  function LastNamed(children: seq<Node>): (r: Option<Node>)
    ensures r.Some? ==> r.value in children && exists i :: IsLastNamed(children, i) && children[i] == r.value
    ensures r.None? ==> forall c :: c in children ==> c.Token?
  {
    if children == [] then None
    else if children[|children| - 1].Node? then
      assert IsLastNamed(children, |children| - 1);
      Some(children[|children| - 1])
    else
      var init := children[..|children| - 1];
      assert forall i :: IsLastNamed(children, i) <==> IsLastNamed(init, i);
      assert children == init + [children[|children| - 1]];
      LastNamed(init)
  }

  // The children a definition or a decorated one is read from, told by where they stand.
  ghost function NamedLast(children: seq<Node>): (r: Option<Node>)
    ensures r.Some? ==> r.value in children && r.value.Node?
  {
    if exists i :: IsLastNamed(children, i) then
      var i :| IsLastNamed(children, i);
      Some(children[i])
    else None
  }

  ghost function FirstWith(children: seq<Node>, field: Field): (r: Option<Node>)
    ensures r.Some? ==> r.value in children && r.value.Node?
  {
    if exists i :: IsFirstWith(children, field, i) then
      var i :| IsFirstWith(children, field, i);
      Some(children[i])
    else None
  }

  lemma PartsAreWhereTheyStand(children: seq<Node>, field: Field)
    ensures LastNamed(children) == NamedLast(children) && ChildBy(children, field) == FirstWith(children, field)
  {
    var last, part := LastNamed(children), ChildBy(children, field);
    if last.Some? {
      var i :| IsLastNamed(children, i) && children[i] == last.value;
      forall j | IsLastNamed(children, j) ensures j == i {
      }
    }
    if part.Some? {
      var i :| IsFirstWith(children, field, i) && children[i] == part.value;
      forall j | IsFirstWith(children, field, j) ensures j == i {
      }
    }
  }

  predicate StopsIterator(kind: Kind) {
    kind in {Function, Class, Lambda, Decorated}
  }

  function Size(n: Node): nat {
    match n
    case Token(_) => 1
    case Node(_, _, _, children) => 1 + Sizes(children)
  }

  function Sizes(nodes: seq<Node>): nat {
    if nodes == [] then 0 else Sizes(nodes[..|nodes| - 1]) + Size(nodes[|nodes| - 1])
  }

  /******* The iterator *******/

  // Popping the last pushed child first, the iterator goes through each node before its children
  // and through the children from the last to the first.
  function Iterated(n: Node): seq<Node>
    decreases n, 1
  {
    match n
    case Token(_) => []
    case Node(_, kind, _, children) =>
      (if kind == Call then [n] else []) + (if StopsIterator(kind) then [] else IteratedAll(children))
  }

  function IteratedAll(stack: seq<Node>): seq<Node>
    decreases stack, 0
  {
    if stack == [] then []
    else Iterated(stack[|stack| - 1]) + IteratedAll(stack[..|stack| - 1])
  }

  lemma {:induction false} IteratedAllConcat(a: seq<Node>, b: seq<Node>)
    ensures IteratedAll(a + b) == IteratedAll(b) + IteratedAll(a)
  {
    if b == [] {
      assert a + b == a;
    } else {
      var init, last := b[..|b| - 1], b[|b| - 1];
      assert (a + b)[..|a + b| - 1] == a + init;
      IteratedAllConcat(a, init);
      assert Iterated(last) + (IteratedAll(init) + IteratedAll(a))
          == (Iterated(last) + IteratedAll(init)) + IteratedAll(a);
    }
  }

  lemma {:induction false} SizesConcat(a: seq<Node>, b: seq<Node>)
    ensures Sizes(a + b) == Sizes(a) + Sizes(b)
  {
    if b == [] {
      assert a + b == a;
    } else {
      assert (a + b)[..|a + b| - 1] == a + b[..|b| - 1];
      SizesConcat(a, b[..|b| - 1]);
    }
  }

  method IterCalls(node: Node) returns (calls: seq<Node>)
    ensures calls == Iterated(node)
  {
    calls := [];
    var stack := [node];
    assert IteratedAll(stack) == Iterated(node) + IteratedAll(stack[..0]);
    while stack != []
      invariant calls + IteratedAll(stack) == Iterated(node)
      decreases Sizes(stack)
    {
      var n := stack[|stack| - 1];
      PopUnfolds(stack);
      ghost var done := calls;
      stack := stack[..|stack| - 1];
      if n.Token? {
        continue;
      }
      if n.kind == Call {
        calls := calls + [n];
      }
      ghost var rest := if StopsIterator(n.kind) then stack else stack + n.children;
      Regroup(done, if n.kind == Call then [n] else [], IteratedAll(rest));
      if n.kind in {Function, Class, Lambda, Decorated} {
        continue;
      }
      stack := stack + n.children;
    }
  }

  lemma Regroup(a: seq<Node>, b: seq<Node>, c: seq<Node>)
    ensures (a + b) + c == a + (b + c) && a + [] == a
  {
  }

  // One turn of the loop, on the stack.
  lemma PopUnfolds(stack: seq<Node>)
    requires stack != []
    ensures var n, rest := stack[|stack| - 1], stack[..|stack| - 1];
            && Sizes(rest) < Sizes(stack) && (n.Node? ==> Sizes(rest + n.children) < Sizes(stack))
            && IteratedAll(stack)
               == if n.Token? then IteratedAll(rest)
                  else (if n.kind == Call then [n] else [])
                       + IteratedAll(if StopsIterator(n.kind) then rest else rest + n.children)
  {
    var n, rest := stack[|stack| - 1], stack[..|stack| - 1];
    assert Sizes(stack) == Sizes(rest) + Size(n);
    assert IteratedAll(stack) == Iterated(n) + IteratedAll(rest);
    if n.Node? {
      IteratedAllConcat(rest, n.children);
      SizesConcat(rest, n.children);
    }
  }

  /******* The walker *******/

  // The calls visited by the walk of `nodes`, the children of some block.
  function Walked(nodes: seq<Node>): seq<Node>
    decreases nodes, 0
  {
    if nodes == [] then []
    else Walked(nodes[..|nodes| - 1]) + WalkedOne(nodes[|nodes| - 1])
  }

  function WalkedOne(n: Node): seq<Node>
    decreases n, 1
  {
    if n.Token? then [] else
    match n.kind
    case Import => []
    case Decorated =>
      var inner := LastNamed(n.children);
      if inner.Some? && (inner.value.kind == Function || inner.value.kind == Class) then Definition(inner.value) else []
    case Function => Definition(n)
    case Class => Definition(n)
    case Compound => Walked(n.children)
    case Block => Walked(n.children)
    case _ => Iterated(n)
  }

  function Definition(n: Node): seq<Node>
    requires n.Node? && (n.kind == Function || n.kind == Class)
    decreases n, 0
  {
    var params := if n.kind == Function then ChildBy(n.children, Parameters) else None;
    var body := ChildBy(n.children, Body);
    if ChildBy(n.children, Name).None? then []
    else
      (if params.Some? then Iterated(params.value) else []) + (if body.Some? then Walked(body.value.children) else [])
  }

  // The list of facts under construction, as far as calls are concerned.
  class CallFacts {
    var calls: seq<Node>

    constructor ()
      ensures calls == []
    {
      calls := [];
    }
  }

  method WalkBlock(node: Node, facts: CallFacts)
    requires node.Node?
    modifies facts
    ensures facts.calls == old(facts.calls) + Walked(node.children)
    decreases node, 1
  {
    for i := 0 to |node.children|
      invariant facts.calls == old(facts.calls) + Walked(node.children[..i])
    {
      var child := node.children[i];
      assert node.children[..i + 1][..i] == node.children[..i];
      assert Walked(node.children[..i + 1]) == Walked(node.children[..i]) + WalkedOne(child);
      if child.Token? {
        continue;
      }
      match child.kind {
        case Import =>
        case Decorated => HandleDecorated(child, facts);
        case Function => EmitDefinition(child, facts);
        case Class => EmitDefinition(child, facts);
        case Compound => WalkBlock(child, facts);
        case Block => WalkBlock(child, facts);
        case _ =>
          var calls := IterCalls(child);
          facts.calls := facts.calls + calls;
      }
    }
    assert node.children[..|node.children|] == node.children;
  }

  method HandleDecorated(node: Node, facts: CallFacts)
    requires node.Node? && node.kind == Decorated
    modifies facts
    ensures facts.calls == old(facts.calls) + WalkedOne(node)
    decreases node, 0
  {
    var inner := LastNamed(node.children);
    if inner.None? {
      return;
    }
    if inner.value.kind == Function || inner.value.kind == Class {
      EmitDefinition(inner.value, facts);
    }
  }

  // Calls in the defaults and annotations of a function.
  method EmitParameters(node: Node, facts: CallFacts)
    requires node.Node?
    modifies facts
    ensures var params := ChildBy(node.children, Parameters);
            facts.calls == old(facts.calls) + if params.Some? then Iterated(params.value) else []
  {
    var params := ChildBy(node.children, Parameters);
    if params.Some? {
      var calls := IterCalls(params.value);
      facts.calls := facts.calls + calls;
    }
  }

  lemma DefinitionUnfolds(n: Node, params: Option<Node>, body: Option<Node>)
    requires n.Node? && (n.kind == Function || n.kind == Class) && ChildBy(n.children, Name).Some?
    requires params == if n.kind == Function then ChildBy(n.children, Parameters) else None
    requires body == ChildBy(n.children, Body)
    ensures Definition(n)
         == (if params.Some? then Iterated(params.value) else [])
            + if body.Some? then Walked(body.value.children) else []
  {
  }

  // Functions and classes alike; only a function has its parameters searched.
  method EmitDefinition(node: Node, facts: CallFacts)
    requires node.Node? && (node.kind == Function || node.kind == Class)
    modifies facts
    ensures facts.calls == old(facts.calls) + Definition(node)
    decreases node, 0
  {
    var name := ChildBy(node.children, Name);
    if name.None? {
      return;
    }
    ghost var params := if node.kind == Function then ChildBy(node.children, Parameters) else None;
    if node.kind == Function {
      EmitParameters(node, facts);
    }
    var body := ChildBy(node.children, Body);
    DefinitionUnfolds(node, params, body);
    if body.Some? {
      WalkBlock(body.value, facts);
    }
  }

  // Statements are walked in their order.
  lemma {:induction false} WalkedConcat(a: seq<Node>, b: seq<Node>)
    ensures Walked(a + b) == Walked(a) + Walked(b)
  {
    if b == [] {
      assert a + b == a;
    } else {
      assert (a + b)[..|a + b| - 1] == a + b[..|b| - 1];
      WalkedConcat(a, b[..|b| - 1]);
    }
  }

  // Within one, a call comes before the calls in its arguments, and what stands to the right comes first.
  lemma IteratedInOrder(n: Node, k: nat)
    requires n.Node? && n.kind !in {Function, Class, Lambda, Decorated} && k <= |n.children|
    ensures Iterated(n)
         == (if n.kind == Call then [n] else []) + (IteratedAll(n.children[k..]) + IteratedAll(n.children[..k]))
  {
    assert n.children == n.children[..k] + n.children[k..];
    IteratedAllConcat(n.children[..k], n.children[k..]);
  }

  /******* The recursive meaning *******/

  predicate IsDefinition(n: Node) {
    n.Node? && (n.kind == Function || n.kind == Class)
  }

  // The calls below a node that are worth visiting, wherever definitions may stand: not those under
  // a lambda, a decorator, or a part of a definition other than its parameters and its body.
  ghost function Meant(n: Node): multiset<Node>
    decreases n, 1
  {
    if n.Token? then multiset{} else
    match n.kind
    case Lambda => multiset{}
    case Call => multiset{n} + MeantAll(n.children)
    case Function => MeantDefinition(n)
    case Class => MeantDefinition(n)
    case Decorated =>
      var inner := NamedLast(n.children);
      if inner.Some? && IsDefinition(inner.value) then MeantDefinition(inner.value) else multiset{}
    case _ => MeantAll(n.children)
  }

  ghost function MeantAll(nodes: seq<Node>): multiset<Node>
    decreases nodes, 0
  {
    if nodes == [] then multiset{} else MeantAll(nodes[..|nodes| - 1]) + Meant(nodes[|nodes| - 1])
  }

  ghost function MeantDefinition(n: Node): multiset<Node>
    requires IsDefinition(n)
    decreases n, 0
  {
    var params := FirstWith(n.children, Parameters);
    var body := FirstWith(n.children, Body);
    if FirstWith(n.children, Name).None? then multiset{}
    else
      (if n.kind == Function && params.Some? then Meant(params.value) else multiset{})
      + (if body.Some? then MeantAll(body.value.children) else multiset{})
  }

  /******* What is missed *******/

  // A definition met by the iterator is skipped and no walker ever comes back for it.
  ghost function MissedByIterator(n: Node): multiset<Node>
    decreases n, 1
  {
    if n.Token? then multiset{}
    else if n.kind in {Function, Class, Lambda, Decorated} then Meant(n)
    else MissedByIterators(n.children)
  }

  ghost function MissedByIterators(nodes: seq<Node>): multiset<Node>
    decreases nodes, 0
  {
    if nodes == [] then multiset{}
    else MissedByIterators(nodes[..|nodes| - 1]) + MissedByIterator(nodes[|nodes| - 1])
  }

  // The walker itself misses only what stands inside an import statement.
  ghost function Missed(nodes: seq<Node>): multiset<Node>
    decreases nodes, 0
  {
    if nodes == [] then multiset{} else Missed(nodes[..|nodes| - 1]) + MissedOne(nodes[|nodes| - 1])
  }

  ghost function MissedOne(n: Node): multiset<Node>
    decreases n, 1
  {
    if n.Token? then multiset{} else
    match n.kind
    case Import => MeantAll(n.children)
    case Decorated =>
      var inner := NamedLast(n.children);
      if inner.Some? && IsDefinition(inner.value) then MissedInDefinition(inner.value) else multiset{}
    case Function => MissedInDefinition(n)
    case Class => MissedInDefinition(n)
    case Compound => Missed(n.children)
    case Block => Missed(n.children)
    case _ => MissedByIterator(n)
  }

  ghost function MissedInDefinition(n: Node): multiset<Node>
    requires IsDefinition(n)
    decreases n, 0
  {
    var params := FirstWith(n.children, Parameters);
    var body := FirstWith(n.children, Body);
    if FirstWith(n.children, Name).None? then multiset{}
    else
      (if n.kind == Function && params.Some? then MissedByIterator(params.value) else multiset{})
      + (if body.Some? then Missed(body.value.children) else multiset{})
  }

  lemma {:induction false} IteratorAccount(n: Node)
    ensures multiset(Iterated(n)) + MissedByIterator(n) == Meant(n)
    decreases n, 1
  {
    if n.Token? {
      return;
    }
    if StopsIterator(n.kind) {
      assert Iterated(n) == [] && MissedByIterator(n) == Meant(n);
    } else {
      IteratorsAccount(n.children);
      var below := IteratedAll(n.children);
      assert Iterated(n) == (if n.kind == Call then [n] else []) + below;
      assert multiset(Iterated(n)) == (if n.kind == Call then multiset{n} else multiset{}) + multiset(below);
      assert MissedByIterator(n) == MissedByIterators(n.children);
    }
  }

  lemma {:induction false} IteratorsAccount(nodes: seq<Node>)
    ensures multiset(IteratedAll(nodes)) + MissedByIterators(nodes) == MeantAll(nodes)
    decreases nodes, 0
  {
    if nodes != [] {
      IteratorsAccount(nodes[..|nodes| - 1]);
      IteratorAccount(nodes[|nodes| - 1]);
    }
  }

  // For every tree, of whatever shape: visited plus missed is meant.
  lemma {:induction false} WalkAccount(nodes: seq<Node>)
    ensures multiset(Walked(nodes)) + Missed(nodes) == MeantAll(nodes)
    decreases nodes, 0
  {
    if nodes != [] {
      WalkAccount(nodes[..|nodes| - 1]);
      WalkOneAccount(nodes[|nodes| - 1]);
    }
  }

  lemma {:induction false} WalkOneAccount(n: Node)
    ensures multiset(WalkedOne(n)) + MissedOne(n) == Meant(n)
    decreases n, 1
  {
    if n.Node? {
      match n.kind
      case Import =>
      case Decorated =>
        PartsAreWhereTheyStand(n.children, Body);
        var inner := LastNamed(n.children);
        if inner.Some? && IsDefinition(inner.value) {
          DefinitionAccount(inner.value);
        }
      case Function => DefinitionAccount(n);
      case Class => DefinitionAccount(n);
      case Compound => WalkAccount(n.children);
      case Block => WalkAccount(n.children);
      case _ => IteratorAccount(n);
    }
  }

  lemma {:induction false} DefinitionAccount(n: Node)
    requires IsDefinition(n)
    ensures multiset(Definition(n)) + MissedInDefinition(n) == MeantDefinition(n)
    decreases n, 0
  {
    PartsAreWhereTheyStand(n.children, Name);
    PartsAreWhereTheyStand(n.children, Parameters);
    PartsAreWhereTheyStand(n.children, Body);
    var params := if n.kind == Function then ChildBy(n.children, Parameters) else None;
    var body := ChildBy(n.children, Body);
    if ChildBy(n.children, Name).Some? {
      var fromParams := if params.Some? then Iterated(params.value) else [];
      var fromBody := if body.Some? then Walked(body.value.children) else [];
      assert Definition(n) == fromParams + fromBody;
      var missedInParams := if params.Some? then MissedByIterator(params.value) else multiset{};
      var missedInBody := if body.Some? then Missed(body.value.children) else multiset{};
      if params.Some? {
        IteratorAccount(params.value);
      }
      if body.Some? {
        WalkAccount(body.value.children);
      }
      SumOfAccounts(multiset(fromParams), missedInParams, multiset(fromBody), missedInBody);
      assert MissedInDefinition(n) == missedInParams + missedInBody;
    }
  }

  lemma SumOfAccounts(a: multiset<Node>, b: multiset<Node>, c: multiset<Node>, d: multiset<Node>)
    ensures (a + c) + (b + d) == (a + b) + (c + d)
  {
  }

  // So the walk visits exactly the meant calls if and only if nothing is missed.
  lemma WalkIsCompleteExactlyWhen(nodes: seq<Node>)
    ensures multiset(Walked(nodes)) == MeantAll(nodes) <==> Missed(nodes) == multiset{}
  {
    WalkAccount(nodes);
  }

  /******* Trees of the grammar *******/

  // Definitions stand in blocks only, never below an expression, and imports hold no calls.
  ghost predicate NoDefinitions(n: Node)
    decreases n, 1
  {
    n.Token? || n.kind == Lambda || (n.kind !in {Function, Class, Decorated} && NoDefinitionsIn(n.children))
  }

  ghost predicate NoDefinitionsIn(nodes: seq<Node>)
    decreases nodes, 0
  {
    nodes == [] || (NoDefinitionsIn(nodes[..|nodes| - 1]) && NoDefinitions(nodes[|nodes| - 1]))
  }

  ghost predicate BlockShaped(nodes: seq<Node>)
    decreases nodes, 0
  {
    nodes == [] || (BlockShaped(nodes[..|nodes| - 1]) && StatementShaped(nodes[|nodes| - 1]))
  }

  ghost predicate StatementShaped(n: Node)
    decreases n, 1
  {
    n.Token? ||
    match n.kind
    case Import => MeantAll(n.children) == multiset{}
    case Decorated =>
      var inner := NamedLast(n.children);
      inner.Some? && IsDefinition(inner.value) ==> DefinitionShaped(inner.value)
    case Function => DefinitionShaped(n)
    case Class => DefinitionShaped(n)
    case Compound => BlockShaped(n.children)
    case Block => BlockShaped(n.children)
    case _ => NoDefinitions(n)
  }

  ghost predicate DefinitionShaped(n: Node)
    requires IsDefinition(n)
    decreases n, 0
  {
    var params := FirstWith(n.children, Parameters);
    var body := FirstWith(n.children, Body);
    (params.Some? ==> NoDefinitions(params.value)) && (body.Some? ==> BlockShaped(body.value.children))
  }

  lemma {:induction false} NothingMissedByIterator(n: Node)
    requires NoDefinitions(n)
    ensures MissedByIterator(n) == multiset{}
    decreases n, 1
  {
    if n.Node? && n.kind != Lambda {
      NothingMissedByIterators(n.children);
    }
  }

  lemma {:induction false} NothingMissedByIterators(nodes: seq<Node>)
    requires NoDefinitionsIn(nodes)
    ensures MissedByIterators(nodes) == multiset{}
    decreases nodes, 0
  {
    if nodes != [] {
      NothingMissedByIterators(nodes[..|nodes| - 1]);
      NothingMissedByIterator(nodes[|nodes| - 1]);
    }
  }

  lemma {:induction false} NothingMissed(nodes: seq<Node>)
    requires BlockShaped(nodes)
    ensures Missed(nodes) == multiset{}
    decreases nodes, 0
  {
    if nodes != [] {
      NothingMissed(nodes[..|nodes| - 1]);
      NothingMissedInOne(nodes[|nodes| - 1]);
    }
  }

  lemma {:induction false} NothingMissedInOne(n: Node)
    requires StatementShaped(n)
    ensures MissedOne(n) == multiset{}
    decreases n, 1
  {
    if n.Node? {
      match n.kind
      case Import =>
      case Decorated =>
        var inner := NamedLast(n.children);
        if inner.Some? && IsDefinition(inner.value) {
          NothingMissedInDefinition(inner.value);
        }
      case Function => NothingMissedInDefinition(n);
      case Class => NothingMissedInDefinition(n);
      case Compound => NothingMissed(n.children);
      case Block => NothingMissed(n.children);
      case _ => NothingMissedByIterator(n);
    }
  }

  lemma {:induction false} NothingMissedInDefinition(n: Node)
    requires IsDefinition(n) && DefinitionShaped(n)
    ensures MissedInDefinition(n) == multiset{}
    decreases n, 0
  {
    var params := FirstWith(n.children, Parameters);
    var body := FirstWith(n.children, Body);
    if params.Some? {
      NothingMissedByIterator(params.value);
    }
    if body.Some? {
      NothingMissed(body.value.children);
    }
  }

  // On trees of the grammar the walk visits exactly the meant calls.
  lemma WalkVisitsTheMeantCalls(nodes: seq<Node>)
    requires BlockShaped(nodes)
    ensures multiset(Walked(nodes)) == MeantAll(nodes)
  {
    WalkAccount(nodes);
    NothingMissed(nodes);
  }

  /******* No call twice *******/

  ghost function Below(n: Node): multiset<Node>
    decreases n, 1
  {
    match n
    case Token(_) => multiset{}
    case Node(_, _, _, children) => multiset{n} + BelowAll(children)
  }

  ghost function BelowAll(nodes: seq<Node>): multiset<Node>
    decreases nodes, 0
  {
    if nodes == [] then multiset{} else BelowAll(nodes[..|nodes| - 1]) + Below(nodes[|nodes| - 1])
  }

  lemma {:induction false} OneIsBelowAll(nodes: seq<Node>, a: Node)
    requires a in nodes
    ensures Below(a) <= BelowAll(nodes)
  {
    if a != nodes[|nodes| - 1] {
      OneIsBelowAll(nodes[..|nodes| - 1], a);
    }
  }

  lemma {:induction false} TwoAreBelowAll(nodes: seq<Node>, a: Node, b: Node)
    requires a in nodes && b in nodes && a != b
    ensures Below(a) + Below(b) <= BelowAll(nodes)
  {
    var init, last := nodes[..|nodes| - 1], nodes[|nodes| - 1];
    if a == last {
      OneIsBelowAll(init, b);
    } else if b == last {
      OneIsBelowAll(init, a);
    } else {
      TwoAreBelowAll(init, a, b);
    }
  }

  lemma {:induction false} MeantIsBelow(n: Node)
    ensures Meant(n) <= Below(n)
    decreases n, 1
  {
    if n.Node? {
      match n.kind
      case Lambda =>
      case Function => MeantDefinitionIsBelow(n);
      case Class => MeantDefinitionIsBelow(n);
      case Decorated =>
        var inner := NamedLast(n.children);
        if inner.Some? && IsDefinition(inner.value) {
          MeantDefinitionIsBelow(inner.value);
          OneIsBelowAll(n.children, inner.value);
        }
      case _ => MeantAllIsBelow(n.children);
    }
  }

  lemma {:induction false} MeantAllIsBelow(nodes: seq<Node>)
    ensures MeantAll(nodes) <= BelowAll(nodes)
    decreases nodes, 0
  {
    if nodes != [] {
      MeantAllIsBelow(nodes[..|nodes| - 1]);
      MeantIsBelow(nodes[|nodes| - 1]);
    }
  }

  lemma {:induction false} MeantDefinitionIsBelow(n: Node)
    requires IsDefinition(n)
    ensures MeantDefinition(n) <= Below(n)
    decreases n, 0
  {
    var params := if n.kind == Function then FirstWith(n.children, Parameters) else None;
    var body := FirstWith(n.children, Body);
    if params.Some? {
      MeantIsBelow(params.value);
    }
    if body.Some? {
      MeantAllIsBelow(body.value.children);
    }
    DefinitionPartsAreBelow(n, params, body);
  }

  lemma DefinitionPartsAreBelow(n: Node, params: Option<Node>, body: Option<Node>)
    requires IsDefinition(n) && body == FirstWith(n.children, Body)
    requires params == if n.kind == Function then FirstWith(n.children, Parameters) else None
    requires params.Some? ==> Meant(params.value) <= Below(params.value)
    requires body.Some? ==> MeantAll(body.value.children) <= Below(body.value)
    ensures MeantDefinition(n) <= Below(n)
  {
    if params.Some? && body.Some? {
      TwoAreBelowAll(n.children, params.value, body.value);
    } else if params.Some? {
      OneIsBelowAll(n.children, params.value);
    } else if body.Some? {
      OneIsBelowAll(n.children, body.value);
    }
  }

  // The ids of the named nodes; tokens have none and may repeat.
  ghost function IdsBelow(n: Node): multiset<nat>
    decreases n, 1
  {
    match n
    case Token(_) => multiset{}
    case Node(id, _, _, children) => multiset{id} + IdsBelowAll(children)
  }

  ghost function IdsBelowAll(nodes: seq<Node>): multiset<nat>
    decreases nodes, 0
  {
    if nodes == [] then multiset{} else IdsBelowAll(nodes[..|nodes| - 1]) + IdsBelow(nodes[|nodes| - 1])
  }

  lemma {:induction false} NodesHaveTheirIds(n: Node, x: Node)
    requires x.Node?
    ensures Below(n)[x] <= IdsBelow(n)[x.id]
    decreases n, 1
  {
    if n.Node? {
      AllNodesHaveTheirIds(n.children, x);
    }
  }

  lemma {:induction false} AllNodesHaveTheirIds(nodes: seq<Node>, x: Node)
    requires x.Node?
    ensures BelowAll(nodes)[x] <= IdsBelowAll(nodes)[x.id]
    decreases nodes, 0
  {
    if nodes != [] {
      AllNodesHaveTheirIds(nodes[..|nodes| - 1], x);
      NodesHaveTheirIds(nodes[|nodes| - 1], x);
    }
  }

  lemma {:induction false} TokensAreNotBelow(nodes: seq<Node>, x: Node)
    requires x.Token?
    ensures BelowAll(nodes)[x] == 0
    decreases nodes, 0
  {
    if nodes != [] {
      TokensAreNotBelow(nodes[..|nodes| - 1], x);
      var last := nodes[|nodes| - 1];
      if last.Node? {
        TokensAreNotBelow(last.children, x);
      }
    }
  }

  // In every tree whose named nodes are told apart by their ids, whatever its tokens, no call is visited
  // twice.
  lemma {:induction false} NoCallIsVisitedTwice(nodes: seq<Node>)
    requires forall id :: IdsBelowAll(nodes)[id] <= 1
    ensures forall i, j :: 0 <= i < j < |Walked(nodes)| ==> Walked(nodes)[i] != Walked(nodes)[j]
    ensures multiset(Walked(nodes)) <= BelowAll(nodes)
  {
    forall x ensures BelowAll(nodes)[x] <= 1 {
      if x.Node? {
        AllNodesHaveTheirIds(nodes, x);
      } else {
        TokensAreNotBelow(nodes, x);
      }
    }
    VisitedOnceWhereNodesAre(nodes);
  }

  // Two calls, each with its parentheses.
  lemma TwoCallsExample()
    ensures var open, close := Token("("), Token(")");
            var f := Node(1, Call, NoField, [open, close]);
            var g := Node(2, Call, NoField, [open, close]);
            Walked([f, g]) == [f, g] && forall id :: IdsBelowAll([f, g])[id] <= 1
  {
    var open, close := Token("("), Token(")");
    var f, g := Node(1, Call, NoField, [open, close]), Node(2, Call, NoField, [open, close]);
    assert [open, close][..1] == [open] && [open][..0] == [] && [f, g][..1] == [f] && [f][..0] == [];
    assert IteratedAll([open]) == [] && IteratedAll([open, close]) == [];
    assert Iterated(f) == [f] && Iterated(g) == [g];
    assert Walked([f]) == Walked([f][..0]) + [f];
    assert IdsBelowAll([open]) == multiset{} && IdsBelowAll([open, close]) == multiset{};
    assert IdsBelow(f) == multiset{1} && IdsBelow(g) == multiset{2};
    assert IdsBelowAll([f]) == multiset{1};
  }

  // No node counted twice below, none visited twice, and each visited node is a node of the tree.
  lemma VisitedOnceWhereNodesAre(nodes: seq<Node>)
    requires forall n :: BelowAll(nodes)[n] <= 1
    ensures forall i, j :: 0 <= i < j < |Walked(nodes)| ==> Walked(nodes)[i] != Walked(nodes)[j]
    ensures multiset(Walked(nodes)) <= BelowAll(nodes)
  {
    WalkAccount(nodes);
    MeantAllIsBelow(nodes);
    var calls := Walked(nodes);
    assert multiset(calls) <= BelowAll(nodes);
    forall i, j | 0 <= i < j < |calls| ensures calls[i] != calls[j] {
      assert calls == calls[..j] + [calls[j]] + calls[j + 1..];
      assert calls[..j][i] == calls[i];
      assert multiset(calls[..j])[calls[i]] >= 1;
      assert multiset(calls)[calls[j]] <= 1;
    }
  }
}
