/** Where a walk goes from a node, and what it leaves behind, stated from the definition and the
    form alone (workflow_runtime.go). */
module WorkflowBranches {
  import opened Wrappers
  import opened Text
  import opened Collections
  import opened WorkflowModel
  import opened WorkflowOrder
  import opened WorkflowRuntime
  import opened WorkflowWalk
  import opened WalkTheory
  import opened ApprovalPlans
  import opened BusinessMapping

  // ----- names and keys of a drawn node

  /** Edges name a node by its id, else its key, else its data key, else its position. */
  lemma NodeIsNamed(n: DefNode, i: nat)
    ensures n.id != "" ==> Identity(n, i) == n.id
    ensures n.id == "" && n.key != "" ==> Identity(n, i) == n.key
    ensures n.id == "" && n.key == "" && n.data.key != "" ==> Identity(n, i) == n.data.key
    ensures n.id == "" && n.key == "" && n.data.key == "" ==> Identity(n, i) == "node_" + Itoa(i + 1)
  {
  }

  /** The engine runs it under its data key, else its key, else its id; its type comes from its
      data first. */
  lemma NodeIsKeyed(n: DefNode)
    ensures n.data.key != "" ==> ExecKey(n) == n.data.key
    ensures n.data.key == "" && n.key != "" ==> ExecKey(n) == n.key
    ensures n.data.key == "" && n.key == "" && n.id != "" ==> ExecKey(n) == n.id
    ensures n.data.nodeType != "" ==> NodeType(n) == n.data.nodeType
    ensures n.data.nodeType == "" && n.typ != "" ==> NodeType(n) == n.typ
  {
    FirstOfThree(n.data.key, n.key, n.id);
    FirstOfThree(n.data.nodeType, n.typ, "action");
  }

  lemma FirstOfThree(a: string, b: string, c: string)
    ensures FirstNonEmpty([a, b, c]) == if a != "" then a else if b != "" then b else c
  {
    assert [a, b, c][1..] == [b, c] && [b, c][1..] == [c] && [c][1..] == [];
    assert FirstNonEmpty([c]) == c;
  }

  // ----- the first drawn edge

  /** The last node with an identity. */
  ghost predicate IsNode(spec: Spec, id: string, i: int) {
    && 0 <= i < |spec.nodes| && Identity(spec.nodes[i], i) == id
    && forall j :: i < j < |spec.nodes| ==> Identity(spec.nodes[j], j) != id
  }

  /** An edge drawn from a node that runs under key to one that runs under target. */
  ghost predicate Joins(spec: Spec, e: Edge, key: string, target: string) {
    exists i, j :: IsNode(spec, e.source, i) && IsNode(spec, e.target, j) &&
                   ExecKey(spec.nodes[i]) == key && ExecKey(spec.nodes[j]) == target
  }

  lemma NodeIsMapped(spec: Spec, id: string, i: nat)
    requires IsNode(spec, id, i)
    ensures id in KeyMap(spec.nodes) && KeyMap(spec.nodes)[id] == ExecKey(spec.nodes[i])
  {
    hide Identity, ExecKey;
    NodeMapUnique(spec.nodes, i);
  }

  lemma {:induction false} MappedIsNode(spec: Spec, id: string, n: nat) returns (i: nat)
    requires n <= |spec.nodes| && (exists k :: 0 <= k < n && Identity(spec.nodes[k], k) == id)
    requires forall k :: n <= k < |spec.nodes| ==> Identity(spec.nodes[k], k) != id
    ensures IsNode(spec, id, i)
  {
    hide Identity;
    if Identity(spec.nodes[n - 1], n - 1) == id {
      i := n - 1;
    } else {
      i := MappedIsNode(spec, id, n - 1);
    }
  }

  /** An edge is joined by key exactly as it is drawn by identity. */
  lemma JoinsByKey(spec: Spec, e: Edge, key: string, target: string)
    ensures var keys := KeyMap(spec.nodes);
            Joins(spec, e, key, target) <==>
            e.source in keys && e.target in keys && keys[e.source] == key && keys[e.target] == target
  {
    hide Identity, ExecKey;
    var keys := KeyMap(spec.nodes);
    if Joins(spec, e, key, target) {
      var i, j :| IsNode(spec, e.source, i) && IsNode(spec, e.target, j) &&
                  ExecKey(spec.nodes[i]) == key && ExecKey(spec.nodes[j]) == target;
      NodeIsMapped(spec, e.source, i);
      NodeIsMapped(spec, e.target, j);
    }
    if e.source in keys && e.target in keys {
      assert e.source in NodeMap(spec.nodes).Keys && e.target in NodeMap(spec.nodes).Keys;
      var i := MappedIsNode(spec, e.source, |spec.nodes|);
      var j := MappedIsNode(spec, e.target, |spec.nodes|);
      NodeIsMapped(spec, e.source, i);
      NodeIsMapped(spec, e.target, j);
    }
  }

  lemma {:induction false} FirstOfEdgeMap(edges: seq<Edge>, keys: map<string, string>, k: nat, key: string)
    requires k < |edges| && edges[k].source in keys && edges[k].target in keys && keys[edges[k].source] == key
    requires forall i :: 0 <= i < k ==>
      !(edges[i].source in keys && edges[i].target in keys && keys[edges[i].source] == key)
    ensures var out := Out(EdgeMap(edges, keys), key); out != [] && out[0] == keys[edges[k].target]
  {
    var n := |edges| - 1;
    if k < n {
      FirstOfEdgeMap(edges[..n], keys, k, key);
    } else {
      NothingOut(edges[..n], keys, key);
    }
  }

  lemma {:induction false} NothingOut(edges: seq<Edge>, keys: map<string, string>, key: string)
    requires forall e :: e in edges ==> !(e.source in keys && e.target in keys && keys[e.source] == key)
    ensures Out(EdgeMap(edges, keys), key) == []
  {
    if edges != [] {
      NothingOut(edges[..|edges| - 1], keys, key);
    }
  }

  /** The first edge drawn from a node is the one the engine takes. */
  lemma FirstDrawnEdge(spec: Spec, k: nat, key: string, target: string)
    requires spec.nodes != [] && k < |spec.edges| && Joins(spec, spec.edges[k], key, target)
    requires forall i, t :: 0 <= i < k ==> !Joins(spec, spec.edges[i], key, t)
    ensures FirstOutgoing(ParsedGraph(Some(spec)), key) == target
  {
    hide Joins, EdgeMap, KeyMap, OrderedNodes, RuntimeNodes;
    var keys := KeyMap(spec.nodes);
    JoinsByKey(spec, spec.edges[k], key, target);
    forall i | 0 <= i < k
      ensures !(spec.edges[i].source in keys && spec.edges[i].target in keys && keys[spec.edges[i].source] == key)
    {
      if spec.edges[i].source in keys && spec.edges[i].target in keys {
        JoinsByKey(spec, spec.edges[i], key, keys[spec.edges[i].target]);
        assert !Joins(spec, spec.edges[i], key, keys[spec.edges[i].target]);
      }
    }
    FirstOfEdgeMap(spec.edges, keys, k, key);
    assert ParsedGraph(Some(spec)).outgoing == EdgeMap(spec.edges, keys);
  }

  /** Where edges are drawn, but none from a node, the walk ends there. */
  lemma NoDrawnEdge(spec: Spec, key: string)
    requires spec.nodes != [] && spec.edges != []
    requires forall e, t :: e in spec.edges ==> !Joins(spec, e, key, t)
    ensures FirstOutgoing(ParsedGraph(Some(spec)), key) == ""
  {
    hide Joins, EdgeMap, KeyMap, OrderedNodes, RuntimeNodes;
    var keys := KeyMap(spec.nodes);
    forall e | e in spec.edges
      ensures !(e.source in keys && e.target in keys && keys[e.source] == key)
    {
      if e.source in keys && e.target in keys {
        JoinsByKey(spec, e, key, keys[e.target]);
        assert !Joins(spec, e, key, keys[e.target]);
      }
    }
    NothingOut(spec.edges, keys, key);
    assert ParsedGraph(Some(spec)).outgoing == EdgeMap(spec.edges, keys);
  }

  // ----- the branch a condition takes

  /** The condition reads default, or is not blank and holds in the form. */
  ghost predicate Holds(c: Condition, form: Form) {
    var text := if c.expression != "" then c.expression else c.expr;
    EqualFold(Trim(text), "default") || (Trim(text) != "" && form(Trim(text)))
  }

  lemma ConditionText(c: Condition)
    ensures FirstNonEmpty([c.expression, c.expr]) == if c.expression != "" then c.expression else c.expr
  {
    assert [c.expression, c.expr][1..] == [c.expr] && [c.expr][1..] == [];
    assert FirstNonEmpty([c.expr]) == c.expr;
  }

  lemma ResolveFirst(conditions: seq<Condition>, otherwise: string, form: Form)
    requires conditions != []
    ensures ResolveCondition(conditions, otherwise, form) ==
            if Holds(conditions[0], form) then conditions[0].target
            else ResolveCondition(conditions[1..], otherwise, form)
  {
    hide Upper, TrimLeft, TrimRight;
    ConditionText(conditions[0]);
  }

  lemma {:induction false} FirstHolding(conditions: seq<Condition>, i: nat, otherwise: string, form: Form)
    requires i < |conditions| && Holds(conditions[i], form) && forall j :: 0 <= j < i ==> !Holds(conditions[j], form)
    ensures ResolveCondition(conditions, otherwise, form) == conditions[i].target
  {
    hide Holds, ResolveCondition;
    ResolveFirst(conditions, otherwise, form);
    if i > 0 {
      assert !Holds(conditions[0], form);
      assert conditions[1..][i - 1] == conditions[i];
      FirstHolding(conditions[1..], i - 1, otherwise, form);
    }
  }

  lemma {:induction false} NoneHolds(conditions: seq<Condition>, otherwise: string, form: Form)
    requires forall j :: 0 <= j < |conditions| ==> !Holds(conditions[j], form)
    ensures ResolveCondition(conditions, otherwise, form) == otherwise
  {
    hide EqualFold, Trim;
    if conditions != [] {
      ConditionText(conditions[0]);
      assert !Holds(conditions[0], form);
      NoneHolds(conditions[1..], otherwise, form);
    }
  }

  /** The target a condition node chooses: that of the first condition that holds, else the default. */
  ghost predicate Chosen(config: NodeConfig, form: Form, target: string) {
    || (exists i :: 0 <= i < |config.conditions| && FirstToHold(config.conditions, form, i) &&
                    config.conditions[i].target == target)
    || ((forall j :: 0 <= j < |config.conditions| ==> !Holds(config.conditions[j], form)) &&
        config.defaultTarget == target)
  }

  ghost predicate FirstToHold(conditions: seq<Condition>, form: Form, i: int) {
    0 <= i < |conditions| && Holds(conditions[i], form) && forall j :: 0 <= j < i ==> !Holds(conditions[j], form)
  }

  /** Some target is chosen, and it is the one the code computes. */
  lemma ChosenIsResolved(config: NodeConfig, form: Form, target: string)
    ensures Chosen(config, form, target) <==> target == ResolveCondition(config.conditions, config.defaultTarget, form)
  {
    hide Holds, ResolveCondition;
    var conditions := config.conditions;
    if forall j :: 0 <= j < |conditions| ==> !Holds(conditions[j], form) {
      NoneHolds(conditions, config.defaultTarget, form);
    } else {
      var some :| 0 <= some < |conditions| && Holds(conditions[some], form);
      var i := FirstHolds(conditions, form, some);
      FirstHolding(conditions, i, config.defaultTarget, form);
      assert FirstToHold(conditions, form, i);
      forall k | FirstToHold(conditions, form, k)
        ensures k == i
      {
      }
    }
  }

  lemma FirstHolds(conditions: seq<Condition>, form: Form, some: nat) returns (i: nat)
    requires some < |conditions| && Holds(conditions[some], form)
    ensures i <= some && FirstToHold(conditions, form, i)
  {
    hide Holds;
    i := 0;
    while !Holds(conditions[i], form)
      invariant i <= some && forall j :: 0 <= j < i ==> !Holds(conditions[j], form)
      decreases some - i
    {
      i := i + 1;
    }
  }

  /** At a condition node the walk goes to the chosen target, or along the first edge if that is
      blank; at any other node but approvals and ends, along the first edge. */
  lemma WalkTakesBranch(g: Graph, nodes: seq<RtNode>, form: Form, i: nat, target: string)
    requires DistinctKeys(nodes) && i < |nodes| && nodes[i].key != ""
    requires nodes[i].nodeType != "approval" && nodes[i].nodeType != "end"
    ensures nodes[i].nodeType == "condition" && Chosen(nodes[i].config, form, target) ==>
              MoveAt(g, nodes, form, nodes[i].key) ==
              Go(if target == "" then FirstOutgoing(g, nodes[i].key) else target)
    ensures nodes[i].nodeType != "condition" ==>
              MoveAt(g, nodes, form, nodes[i].key) == Go(FirstOutgoing(g, nodes[i].key))
  {
    hide FirstOutgoing, Chosen, ResolveCondition;
    ChosenIsResolved(nodes[i].config, form, target);
    DistinctIndex(nodes, i);
  }

  lemma DistinctIndex(nodes: seq<RtNode>, i: nat)
    requires DistinctKeys(nodes) && i < |nodes|
    ensures IndexOf(nodes, nodes[i].key) == Some(i)
  {
  }

  // ----- what a walk leaves behind

  function MarkedOne(nodes: seq<RtNode>, key: string): (r: seq<RtNode>)
    ensures |r| == |nodes|
  {
    var index := IndexOf(nodes, key);
    if index.Some? then WithStatus(nodes, index.value, APPROVED) else nodes
  }

  lemma MarkedOneAt(nodes: seq<RtNode>, key: string, i: nat)
    requires DistinctKeys(nodes) && i < |nodes|
    ensures MarkedOne(nodes, key)[i] ==
            nodes[i].(status := if nodes[i].key == key then "APPROVED" else nodes[i].status)
  {
  }

  lemma MarkPassedFirst(nodes: seq<RtNode>, keys: seq<string>)
    requires keys != []
    ensures MarkPassed(nodes, keys) == MarkPassed(MarkedOne(nodes, keys[0]), keys[1..])
  {
    hide IndexOf, WithStatus;
  }

  lemma {:induction false} MarkedAt(nodes: seq<RtNode>, keys: seq<string>, i: nat)
    requires DistinctKeys(nodes) && i < |nodes|
    ensures MarkPassed(nodes, keys)[i].status == if nodes[i].key in keys then "APPROVED" else nodes[i].status
    decreases |keys|
  {
    if keys != [] {
      hide MarkPassed, MarkedOne;
      var next := MarkedOne(nodes, keys[0]);
      forall k | 0 <= k < |nodes|
        ensures next[k].key == nodes[k].key
      {
        MarkedOneAt(nodes, keys[0], k);
      }
      MarkedOneAt(nodes, keys[0], i);
      MarkPassedFirst(nodes, keys);
      MarkedAt(next, keys[1..], i);
      assert nodes[i].key in keys <==> nodes[i].key == keys[0] || nodes[i].key in keys[1..];
    }
  }

  /** The status of a node after a successful walk: APPROVED if the walk passed it; where it halted,
      RUNNING at an approval, and at an end REJECTED if that is the status decided there, else
      APPROVED; any other node keeps its own. */
  ghost predicate MarkedBy(before: RtNode, after: RtNode, passed: seq<string>, halt: string, status: string) {
    if before.key in passed then after.status == "APPROVED"
    else if before.key != halt then after.status == before.status
    else if before.nodeType == "approval" then after.status == "RUNNING"
    else after.status == if status == "REJECTED" then "REJECTED" else "APPROVED"
  }

  lemma WalkMarks(
      g: Graph, plan: Plan, start: string, status: string, business: string, form: Form, n: nat, passed: seq<string>,
      i: nat)
    requires DistinctKeys(plan.nodes) && i < |plan.nodes| && plan.nodes[i].key != ""
    requires HaltsFirstAt(Moves(g, plan.nodes, form), start, n)
    requires |passed| == n && forall k :: 0 <= k < n ==> passed[k] == At(Moves(g, plan.nodes, form), start, k)
    requires Advance(g, plan, start, status, business, form).Ok?
    ensures var p := Advance(g, plan, start, status, business, form).value;
            |p.nodes| == |plan.nodes| &&
            MarkedBy(plan.nodes[i], p.nodes[i], passed, At(Moves(g, plan.nodes, form), start, n), p.instanceStatus)
  {
    hide Advance, HaltsFirstAt, Moves, At, MarkPassed, Preferred, IndexOf, Outcome;
    PlanIsOutcomeAtFirstHalt(g, plan, start, status, business, form, n, passed);
    var halt := At(Moves(g, plan.nodes, form), start, n);
    var marked := MarkPassed(plan.nodes, passed);
    MarkedAt(plan.nodes, passed, i);
    HaltIsNotPassed(Moves(g, plan.nodes, form), start, n, passed);
    SameShapeIndex(marked, plan.nodes, plan.nodes[i].key);
    DistinctIndex(plan.nodes, i);
    OutcomeMarks(plan.(businessStatus := business, nodes := marked), halt, Preferred(status), i);
  }

  lemma HaltIsNotPassed(move: string -> Move, start: string, n: nat, passed: seq<string>)
    requires HaltsFirstAt(move, start, n) && |passed| == n && forall k :: 0 <= k < n ==> passed[k] == At(move, start, k)
    ensures At(move, start, n) !in passed
  {
    forall k | 0 <= k < n
      ensures passed[k] != At(move, start, n)
    {
      assert !HaltsAt(move, start, k) && HaltsAt(move, start, n);
    }
  }

  lemma OutcomeMarks(plan: Plan, halt: string, preferred: string, i: nat)
    requires i < |plan.nodes| && plan.nodes[i].key != "" && Outcome(plan, halt, preferred).Ok?
    requires IndexOf(plan.nodes, plan.nodes[i].key) == Some(i)
    ensures var p := Outcome(plan, halt, preferred).value;
            && |p.nodes| == |plan.nodes|
            && p.nodes[i].status ==
               if plan.nodes[i].key != halt then plan.nodes[i].status
               else if plan.nodes[i].nodeType == "approval" then "RUNNING"
               else if p.instanceStatus == "REJECTED" then "REJECTED" else "APPROVED"
  {
  }
}
