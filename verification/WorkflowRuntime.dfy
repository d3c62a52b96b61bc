/** Running a workflow graph: parsing it into runtime nodes, and walking it from a node until
    an approval, an end, a dead end or an error (workflow_runtime.go). */
module WorkflowRuntime {
  import opened Wrappers
  import opened Text
  import opened Collections
  import opened WorkflowModel
  import opened WorkflowOrder

  const WAITING := "WAITING"
  const RUNNING := "RUNNING"
  const PENDING := "PENDING"
  const APPROVED := "APPROVED"
  const REJECTED := "REJECTED"

  datatype RtNode = RtNode(
    key: string, name: string, nodeType: string, assignee: string, status: string, stepIndex: int, config: NodeConfig)

  datatype Plan = Plan(
    nodes: seq<RtNode>, instanceStatus: string, businessStatus: string, currentNodeKey: string, currentStep: int)

  datatype Graph = Graph(nodes: seq<RtNode>, outgoing: map<string, seq<string>>)

  /** Which condition expressions hold for the submitted form. */
  type Form = string -> bool

  datatype PlanError =
    | CycleAt(key: string)
    | TargetNotFound(key: string)
    | CurrentNotFound(key: string)
    | NotRunning(key: string)
    | ActionNotAllowed(action: string)
    | CommentRequired(action: string)

  // ----- parsing a definition

  function ApprovalCount(nodes: seq<DefNode>): nat {
    if nodes == [] then 0
    else
      var n := |nodes| - 1;
      ApprovalCount(nodes[..n]) + if NodeType(nodes[n]) == "approval" then 1 else 0
  }

  /** Approvals are numbered in order; every other node has step -1. */
  function RuntimeNodes(ordered: seq<DefNode>): (r: seq<RtNode>)
    ensures |r| == |ordered|
    ensures forall i :: 0 <= i < |r| ==> r[i] == RtNode(
      ExecKey(ordered[i]), ExecName(ordered[i]), NodeType(ordered[i]), ordered[i].data.assignee, WAITING,
      if NodeType(ordered[i]) == "approval" then ApprovalCount(ordered[..i]) else -1, ordered[i].data.config)
  {
    seq(|ordered|, i requires 0 <= i < |ordered| => RtNode(
      ExecKey(ordered[i]), ExecName(ordered[i]), NodeType(ordered[i]), ordered[i].data.assignee, WAITING,
      if NodeType(ordered[i]) == "approval" then ApprovalCount(ordered[..i]) else -1, ordered[i].data.config))
  }

  function KeyMap(nodes: seq<DefNode>): (m: map<string, string>)
    ensures forall id :: id in m ==> m[id] != ""
  {
    map id | id in NodeMap(nodes) :: ExecKey(NodeMap(nodes)[id])
  }

  function AddEdge(outgoing: map<string, seq<string>>, source: string, target: string): map<string, seq<string>> {
    outgoing[source := Out(outgoing, source) + [target]]
  }

  /** Edges between known nodes, by key, in edge order. */
  function EdgeMap(edges: seq<Edge>, keys: map<string, string>): map<string, seq<string>> {
    if edges == [] then map[]
    else
      var m, last := EdgeMap(edges[..|edges| - 1], keys), edges[|edges| - 1];
      if last.source in keys && last.target in keys then AddEdge(m, keys[last.source], keys[last.target]) else m
  }

  /** The chain that stands in for a missing edge list. */
  function ChainMap(nodes: seq<RtNode>): map<string, seq<string>> {
    if |nodes| < 2 then map[]
    else AddEdge(ChainMap(nodes[..|nodes| - 1]), nodes[|nodes| - 2].key, nodes[|nodes| - 1].key)
  }

  function ParsedGraph(raw: Option<Spec>): (g: Graph)
    ensures |g.nodes| == |OrderedNodes(Effective(raw))|
  {
    var spec := Effective(raw);
    var nodes := RuntimeNodes(OrderedNodes(spec));
    Graph(nodes, if spec.edges == [] then ChainMap(nodes) else EdgeMap(spec.edges, KeyMap(spec.nodes)))
  }

  function FirstOutgoing(g: Graph, key: string): string {
    if Out(g.outgoing, key) == [] then "" else Out(g.outgoing, key)[0]
  }

  method NumberNodes(ordered: seq<DefNode>) returns (nodes: seq<RtNode>)
    ensures nodes == RuntimeNodes(ordered)
  {
    hide ExecKey, ExecName, NodeType;
    nodes := [];
    var approvalIndex := 0;
    for i := 0 to |ordered|
      invariant approvalIndex == ApprovalCount(ordered[..i])
      invariant nodes == RuntimeNodes(ordered)[..i]
    {
      var n := ordered[i];
      var node := RtNode(ExecKey(n), ExecName(n), NodeType(n), n.data.assignee, WAITING, -1, n.data.config);
      assert ordered[..i + 1][..i] == ordered[..i];
      if node.nodeType == "approval" {
        node := node.(stepIndex := approvalIndex);
        approvalIndex := approvalIndex + 1;
      }
      nodes := nodes + [node];
    }
  }

  method KeysByIdentity(nodes: seq<DefNode>) returns (keys: map<string, string>)
    ensures keys == KeyMap(nodes)
  {
    keys := map[];
    for i := 0 to |nodes|
      invariant keys == KeyMap(nodes[..i])
    {
      assert nodes[..i + 1][..i] == nodes[..i];
      keys := keys[Identity(nodes[i], i) := ExecKey(nodes[i])];
    }
    assert nodes[..|nodes|] == nodes;
  }

  method ConnectEdges(edges: seq<Edge>, keys: map<string, string>) returns (outgoing: map<string, seq<string>>)
    requires forall id :: id in keys ==> keys[id] != ""
    ensures outgoing == EdgeMap(edges, keys)
  {
    outgoing := map[];
    for i := 0 to |edges|
      invariant outgoing == EdgeMap(edges[..i], keys)
    {
      assert edges[..i + 1][..i] == edges[..i];
      var source := if edges[i].source in keys then keys[edges[i].source] else "";
      var target := if edges[i].target in keys then keys[edges[i].target] else "";
      if source == "" || target == "" {
        continue;
      }
      outgoing := AddEdge(outgoing, source, target);
    }
    assert edges[..|edges|] == edges;
  }

  method ConnectChain(nodes: seq<RtNode>) returns (outgoing: map<string, seq<string>>)
    ensures outgoing == ChainMap(nodes)
  {
    outgoing := map[];
    if |nodes| < 2 {
      return;
    }
    for i := 0 to |nodes| - 1
      invariant outgoing == ChainMap(nodes[..i + 1])
    {
      assert nodes[..i + 2][..i + 1] == nodes[..i + 1];
      outgoing := AddEdge(outgoing, nodes[i].key, nodes[i + 1].key);
    }
    assert nodes[..|nodes|] == nodes;
  }

  method ParseGraph(raw: Option<Spec>) returns (g: Graph)
    ensures g == ParsedGraph(raw)
  {
    var spec := if raw.Some? && raw.value.nodes != [] then raw.value else DEFAULT_SPEC;
    var ordered := OrderNodes(spec);
    var nodes := NumberNodes(ordered);
    var keys := KeysByIdentity(spec.nodes);
    var outgoing := ConnectEdges(spec.edges, keys);
    if |spec.edges| == 0 {
      outgoing := ConnectChain(nodes);
    }
    g := Graph(nodes, outgoing);
  }

  // ----- nodes by key

  function KeysOf(nodes: seq<RtNode>): set<string> {
    set i | 0 <= i < |nodes| :: nodes[i].key
  }

  /** The first node with a key. */
  function IndexOf(nodes: seq<RtNode>, key: string): (r: Option<nat>)
    ensures r.Some? ==> r.value < |nodes| && nodes[r.value].key == key && forall i :: 0 <= i < r.value ==>
            nodes[i].key != key
    ensures r.None? ==> forall i :: 0 <= i < |nodes| ==> nodes[i].key != key
  {
    if nodes == [] then None
    else if nodes[0].key == key then Some(0)
    else
      var rest := IndexOf(nodes[1..], key);
      if rest.Some? then Some(rest.value + 1) else None
  }

  method NodeIndex(nodes: seq<RtNode>, key: string) returns (index: int, ok: bool)
    ensures ok == IndexOf(nodes, key).Some? && index == if ok then IndexOf(nodes, key).value else -1
  {
    for i := 0 to |nodes|
      invariant forall j :: 0 <= j < i ==> nodes[j].key != key
    {
      if nodes[i].key == key {
        return i, true;
      }
    }
    return -1, false;
  }

  /** Equal up to status. */
  ghost predicate SameShape(a: seq<RtNode>, b: seq<RtNode>) {
    |a| == |b| && forall i :: 0 <= i < |a| ==> a[i] == b[i].(status := a[i].status)
  }

  lemma {:induction false} SameShapeIndex(a: seq<RtNode>, b: seq<RtNode>, key: string)
    requires SameShape(a, b)
    ensures IndexOf(a, key) == IndexOf(b, key) && KeysOf(a) == KeysOf(b)
  {
    assert forall k :: 0 <= k < |a| ==> a[k].key == b[k].key;
    if a != [] {
      SameShapeIndex(a[1..], b[1..], key);
    }
  }

  function WithStatus(nodes: seq<RtNode>, index: nat, status: string): (r: seq<RtNode>)
    requires index < |nodes|
    ensures SameShape(r, nodes) && KeysOf(r) == KeysOf(nodes)
  {
    var r := nodes[index := nodes[index].(status := status)];
    assert forall k :: 0 <= k < |r| ==> r[k].key == nodes[k].key;
    r
  }

  // ----- one successor step

  function ResolveCondition(conditions: seq<Condition>, defaultTarget: string, form: Form): string {
    if conditions == [] then defaultTarget
    else
      var c := conditions[0];
      var expression := FirstNonEmpty([c.expression, c.expr]);
      if EqualFold(Trim(expression), "default") then c.target
      else if !Blank(expression) && form(Trim(expression)) then c.target
      else ResolveCondition(conditions[1..], defaultTarget, form)
  }

  method ConditionTarget(config: NodeConfig, form: Form) returns (target: string)
    ensures target == ResolveCondition(config.conditions, config.defaultTarget, form)
  {
    for i := 0 to |config.conditions|
      invariant ResolveCondition(config.conditions, config.defaultTarget, form) ==
                ResolveCondition(config.conditions[i..], config.defaultTarget, form)
    {
      var c := config.conditions[i];
      var expression := FirstNonEmpty([c.expression, c.expr]);
      if EqualFold(Trim(expression), "default") {
        return c.target;
      }
      if !Blank(expression) && form(Trim(expression)) {
        return c.target;
      }
    }
    return config.defaultTarget;
  }

  /** Where the walk goes after a node it passes through. */
  function Successor(g: Graph, node: RtNode, form: Form): string {
    if node.nodeType == "condition" then
      var target := ResolveCondition(node.config.conditions, node.config.defaultTarget, form);
      if target == "" then FirstOutgoing(g, node.key) else target
    else FirstOutgoing(g, node.key)
  }

  // ----- the walk

  function EndStatus(node: RtNode, preferred: string): string {
    if node.config.finalStatus != "" then node.config.finalStatus
    else if preferred == REJECTED then REJECTED
    else APPROVED
  }

  function ReachEnd(plan: Plan, index: nat, preferred: string): Plan
    requires index < |plan.nodes|
  {
    var node := plan.nodes[index];
    var status := EndStatus(node, preferred);
    Plan(WithStatus(plan.nodes, index, if status == REJECTED then REJECTED else APPROVED),
         status,
         if node.config.finalBusinessStatus != "" then node.config.finalBusinessStatus else plan.businessStatus,
         "",
         if node.stepIndex >= 0 then node.stepIndex else plan.currentStep)
  }

  function ReachApproval(plan: Plan, index: nat, preferred: string): Plan
    requires index < |plan.nodes|
  {
    plan.(nodes := WithStatus(plan.nodes, index, RUNNING), instanceStatus := preferred,
          currentNodeKey := plan.nodes[index].key, currentStep := plan.nodes[index].stepIndex)
  }

  function AdvanceFrom(g: Graph, plan: Plan, key: string, preferred: string, form: Form, visited: set<string>)
      : (r: Result<Plan, PlanError>)
    decreases KeysOf(plan.nodes) - visited
  {
    if key == "" then Ok(plan.(instanceStatus := preferred, currentNodeKey := ""))
    else if key in visited then Err(CycleAt(key))
    else
      match IndexOf(plan.nodes, key)
      case None => Err(TargetNotFound(key))
      case Some(index) =>
        var node := plan.nodes[index];
        if node.nodeType == "approval" then Ok(ReachApproval(plan, index, preferred))
        else if node.nodeType == "end" then Ok(ReachEnd(plan, index, preferred))
        else
          assert key in KeysOf(plan.nodes);
          AdvanceFrom(g, plan.(nodes := WithStatus(plan.nodes, index, APPROVED)),
                      Successor(g, node, form), preferred, form, visited + {key})
  }

  function Preferred(status: string): string {
    if status == "" then PENDING else status
  }

  function Advance(g: Graph, plan: Plan, start: string, status: string, business: string, form: Form)
      : Result<Plan, PlanError>
  {
    AdvanceFrom(g, plan.(businessStatus := business), start, Preferred(status), form, {})
  }

  /** The loop of advanceApprovalPlan. It enters its body at most once per key, plus once. */
  method AdvancePlan(g: Graph, start: Plan, startKey: string, status: string, business: string, form: Form)
      returns (r: Result<Plan, PlanError>, ghost rounds: nat)
    ensures r == Advance(g, start, startKey, status, business, form)
    ensures rounds <= |KeysOf(start.nodes)| + 1
  {
    hide ResolveCondition, FirstOutgoing, Out;
    var preferred := if status == "" then PENDING else status;
    var plan := start.(businessStatus := business);
    var visited: set<string> := {};
    var current := startKey;
    rounds := 0;
    while current != ""
      invariant KeysOf(plan.nodes) == KeysOf(start.nodes) && visited <= KeysOf(start.nodes) && rounds == |visited|
      invariant Advance(g, start, startKey, status, business, form) ==
                AdvanceFrom(g, plan, current, preferred, form, visited)
      decreases KeysOf(start.nodes) - visited
    {
      SubsetCardinality(visited, KeysOf(start.nodes));
      rounds := rounds + 1;
      if current in visited {
        return Err(CycleAt(current)), rounds;
      }
      visited := visited + {current};
      var index, ok := NodeIndex(plan.nodes, current);
      if !ok {
        return Err(TargetNotFound(current)), rounds;
      }
      var node := plan.nodes[index];
      assert current in KeysOf(plan.nodes);
      if node.nodeType == "approval" {
        plan := plan.(nodes := WithStatus(plan.nodes, index, RUNNING), currentNodeKey := node.key,
                      currentStep := node.stepIndex, instanceStatus := preferred);
        return Ok(plan), rounds;
      } else if node.nodeType == "condition" {
        plan := plan.(nodes := WithStatus(plan.nodes, index, APPROVED));
        current := ConditionTarget(node.config, form);
        if current == "" {
          current := FirstOutgoing(g, node.key);
        }
      } else if node.nodeType == "end" {
        var final := node.config.finalStatus;
        if final == "" {
          if preferred == REJECTED {
            final := REJECTED;
          } else {
            final := APPROVED;
          }
        }
        plan := plan.(instanceStatus := final, currentNodeKey := "");
        if node.stepIndex >= 0 {
          plan := plan.(currentStep := node.stepIndex);
        }
        if final == REJECTED {
          plan := plan.(nodes := WithStatus(plan.nodes, index, REJECTED));
        } else {
          plan := plan.(nodes := WithStatus(plan.nodes, index, APPROVED));
        }
        if node.config.finalBusinessStatus != "" {
          plan := plan.(businessStatus := node.config.finalBusinessStatus);
        }
        return Ok(plan), rounds;
      } else {
        plan := plan.(nodes := WithStatus(plan.nodes, index, APPROVED));
        current := FirstOutgoing(g, node.key);
      }
    }
    SubsetCardinality(visited, KeysOf(start.nodes));
    return Ok(plan.(instanceStatus := preferred, currentNodeKey := "")), rounds;
  }
}
