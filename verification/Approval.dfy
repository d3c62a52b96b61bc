/** An approval instance: submitting it, acting on it, and what every run keeps
    (handler.go, approval_runtime_handler.go, approval_runtime_store.go). */
module Approval {
  import opened Wrappers
  import opened Text
  import opened WorkflowModel
  import opened WorkflowOrder
  import opened WorkflowRuntime
  import opened ApprovalPlans
  import opened BusinessMapping

  /** A row of the action log; "" stands for a NULL node key. */
  datatype LogRow = LogRow(fromKey: string, toKey: string, stepIndex: int, actor: int, action: string)

  datatype Instance = Instance(
    status: string, businessStatus: string, currentNodeKey: string, currentStep: int,
    nodes: seq<RtNode>, log: seq<LogRow>)

  datatype Request = Request(action: string, comment: Option<string>, actor: int)

  /** What a request reads outside the instance: which assignees the actor matches, the row the
      mapping query returned, whether the business adapter refuses, and the definition as it is now. */
  datatype Env = Env(matches: string -> bool, row: Option<Row>, adapterFails: bool, definition: Option<Spec>)

  datatype ApprovalError =
    | TitleRequired
    | WorkflowRequired
    | WorkflowUnavailable
    | PlanFailed(error: PlanError)
    | DuplicateNodeKey
    | UnknownAction
    | AlreadyProcessed
    | AssigneeMismatch
    | AdapterRefused

  // ----- submitting

  predicate HasKey(nodes: seq<RtNode>, key: string) {
    exists i :: 0 <= i < |nodes| && nodes[i].key == key
  }

  function Submitted(g: Graph, form: Form): Result<Instance, ApprovalError> {
    match StartPlan(g, form)
    case Err(e) => Err(PlanFailed(e))
    case Ok(plan) =>
      if exists i, j :: 0 <= i < j < |plan.nodes| && plan.nodes[i].key == plan.nodes[j].key then Err(DuplicateNodeKey)
      else Ok(Instance(plan.instanceStatus, "", plan.currentNodeKey, plan.currentStep, plan.nodes, []))
  }

  /** Inserts under a unique (instance, node key) constraint. */
  method InsertNodeRows(nodes: seq<RtNode>) returns (rows: seq<RtNode>, ok: bool)
    ensures ok <==> DistinctKeys(nodes)
    ensures ok ==> rows == nodes
  {
    rows := [];
    for i := 0 to |nodes|
      invariant rows == nodes[..i] && DistinctKeys(nodes[..i])
    {
      if HasKey(rows, nodes[i].key) {
        assert exists j :: 0 <= j < i && nodes[j].key == nodes[i].key;
        return rows, false;
      }
      rows := rows + [nodes[i]];
      assert nodes[..i + 1] == nodes[..i] + [nodes[i]];
    }
    assert nodes[..|nodes|] == nodes;
    ok := true;
  }

  // ----- acting

  /** UPDATE ... WHERE node_key = key. */
  function UpdateRow(rows: seq<RtNode>, key: string, status: string): (r: seq<RtNode>)
    ensures |r| == |rows|
  {
    seq(|rows|, i requires 0 <= i < |rows| => if rows[i].key == key then rows[i].(status := status) else rows[i])
  }

  function UpdateRows(rows: seq<RtNode>, nodes: seq<RtNode>): (r: seq<RtNode>)
    ensures |r| == |rows|
  {
    if nodes == [] then rows
    else UpdateRow(UpdateRows(rows, nodes[..|nodes| - 1]), nodes[|nodes| - 1].key, nodes[|nodes| - 1].status)
  }

  method UpdateNodeRows(rows: seq<RtNode>, nodes: seq<RtNode>) returns (updated: seq<RtNode>)
    ensures updated == UpdateRows(rows, nodes)
  {
    updated := rows;
    for i := 0 to |nodes|
      invariant updated == UpdateRows(rows, nodes[..i])
    {
      assert nodes[..i + 1][..i] == nodes[..i];
      updated := UpdateRow(updated, nodes[i].key, nodes[i].status);
    }
    assert nodes[..|nodes|] == nodes;
  }

  function AfterPlan(s: Instance, node: RtNode, req: Request, env: Env, plan: Plan): Result<Instance, ApprovalError> {
    match Transition(plan, env.row, env.adapterFails)
    case None => Err(AdapterRefused)
    case Some((status, business)) =>
      Ok(Instance(status, if business == "" then s.businessStatus else business, plan.currentNodeKey, plan.currentStep,
                  UpdateRows(s.nodes, plan.nodes),
                  s.log + [LogRow(s.currentNodeKey, plan.currentNodeKey, node.stepIndex, req.actor, req.action)]))
  }

  /** One action of the graph engine on the current node. */
  function RuntimeStep(g: Graph, form: Form, s: Instance, req: Request, env: Env): Result<Instance, ApprovalError>
    requires IndexOf(s.nodes, s.currentNodeKey).Some?
  {
    var node := s.nodes[IndexOf(s.nodes, s.currentNodeKey).value];
    if !env.matches(node.assignee) then Err(AssigneeMismatch)
    else
      match ActionPlan(g, s.nodes, s.currentNodeKey, req.action, req.comment, form)
      case Err(e) => Err(PlanFailed(e))
      case Ok(plan) => AfterPlan(s, node, req, env, plan)
  }

  function ApprovalAssignees(nodes: seq<DefNode>): seq<string> {
    if nodes == [] then []
    else
      var n := nodes[|nodes| - 1];
      ApprovalAssignees(nodes[..|nodes| - 1]) + if NodeType(n) == "approval" then [n.data.assignee] else []
  }

  /** The assignees of the approval steps of a definition, in order; [] when it is missing. */
  function RuntimeSteps(definition: Option<Spec>): seq<string> {
    if definition.None? || definition.value.nodes == [] then []
    else ApprovalAssignees(OrderedNodes(definition.value))
  }

  method LoadSteps(definition: Option<Spec>) returns (steps: seq<string>)
    ensures steps == RuntimeSteps(definition)
  {
    if definition.None? || definition.value.nodes == [] {
      return [];
    }
    var ordered := OrderNodes(definition.value);
    steps := [];
    for i := 0 to |ordered|
      invariant steps == ApprovalAssignees(ordered[..i])
    {
      assert ordered[..i + 1][..i] == ordered[..i];
      if NodeType(ordered[i]) == "approval" {
        steps := steps + [ordered[i].data.assignee];
      }
    }
    assert ordered[..|ordered|] == ordered;
  }

  /** The older engine: an action moves a counter over the approval steps. */
  function CounterStep(step: int, count: nat, action: string): (string, int) {
    if action != "APPROVE" then (REJECTED, step)
    else if count == 0 || step + 1 >= count then (APPROVED, step)
    else (PENDING, step + 1)
  }

  function LegacyStep(s: Instance, req: Request, env: Env): Result<Instance, ApprovalError> {
    var steps := RuntimeSteps(env.definition);
    if 0 <= s.currentStep < |steps| && !env.matches(steps[s.currentStep]) then Err(AssigneeMismatch)
    else
      var (status, step) := CounterStep(s.currentStep, |steps|, req.action);
      Ok(s.(status := status, currentStep := step,
            log := s.log + [LogRow("", "", s.currentStep, req.actor, req.action)]))
  }

  function Step(g: Graph, form: Form, s: Instance, req: Request, env: Env): Result<Instance, ApprovalError> {
    if req.action != "APPROVE" && req.action != "REJECT" then Err(UnknownAction)
    else if s.status != PENDING then Err(AlreadyProcessed)
    else if s.currentNodeKey != "" && IndexOf(s.nodes, s.currentNodeKey).Some? then RuntimeStep(g, form, s, req, env)
    else LegacyStep(s, req, env)
  }

  /** A successful step becomes the new state; a failed one is rolled back. */
  predicate Committed(r: Result<Instance, ApprovalError>, before: Instance, after: Instance,
      error: Option<ApprovalError>) {
    match r
    case Ok(next) => after == next && error == None
    case Err(e) => after == before && error == Some(e)
  }

  class ApprovalInstance {
    const snapshot: Option<Spec>
    const form: Form
    var status: string
    var businessStatus: string
    var currentNodeKey: string
    var currentStep: int
    var nodes: seq<RtNode>
    var log: seq<LogRow>

    constructor (snapshot: Option<Spec>, form: Form, plan: Plan, rows: seq<RtNode>)
      ensures this.snapshot == snapshot && this.form == form
      ensures State() == Instance(plan.instanceStatus, "", plan.currentNodeKey, plan.currentStep, rows, [])
    {
      this.snapshot, this.form := snapshot, form;
      status, businessStatus, currentNodeKey, currentStep := plan.instanceStatus, "", plan.currentNodeKey,
          plan.currentStep;
      nodes, log := rows, [];
    }

    function State(): Instance
      reads this
    {
      Instance(status, businessStatus, currentNodeKey, currentStep, nodes, log)
    }

    /** Writes a plan: log row, node rows, business transition, instance row. */
    method Persist(node: RtNode, req: Request, env: Env, plan: Plan) returns (error: Option<ApprovalError>)
      modifies this
      ensures Committed(AfterPlan(old(State()), node, req, env, plan), old(State()), State(), error)
    {
      hide UpdateRows, Trim;
      var row := LogRow(currentNodeKey, plan.currentNodeKey, node.stepIndex, req.actor, req.action);
      var updated := UpdateNodeRows(nodes, plan.nodes);
      var transition := Transition(plan, env.row, env.adapterFails);
      if transition.None? {
        return Some(AdapterRefused);
      }
      log := log + [row];
      nodes := updated;
      if transition.value.1 != "" {
        businessStatus := transition.value.1;
      }
      status, currentStep, currentNodeKey := transition.value.0, plan.currentStep, plan.currentNodeKey;
      return None;
    }

    /** The graph engine's part of an action. */
    method ActOnNode(req: Request, env: Env) returns (error: Option<ApprovalError>)
      requires IndexOf(nodes, currentNodeKey).Some?
      modifies this
      ensures Committed(RuntimeStep(ParsedGraph(snapshot), form, old(State()), req, env), old(State()), State(), error)
    {
      var index, _ := NodeIndex(nodes, currentNodeKey);
      var node := nodes[index];
      if !env.matches(node.assignee) {
        return Some(AssigneeMismatch);
      }
      var planned := BuildActionPlan(snapshot, nodes, currentNodeKey, req.action, req.comment, form);
      if planned.Err? {
        return Some(PlanFailed(planned.error));
      }
      error := Persist(node, req, env, planned.value);
    }

    /** The older engine's part of an action. */
    method ActOnCounter(req: Request, env: Env) returns (error: Option<ApprovalError>)
      modifies this
      ensures Committed(LegacyStep(old(State()), req, env), old(State()), State(), error)
    {
      var steps := LoadSteps(env.definition);
      if 0 <= currentStep < |steps| && !env.matches(steps[currentStep]) {
        return Some(AssigneeMismatch);
      }
      var nextStatus, nextStep := REJECTED, currentStep;
      if req.action == "APPROVE" {
        if |steps| == 0 || currentStep + 1 >= |steps| {
          nextStatus := APPROVED;
        } else {
          nextStatus, nextStep := PENDING, currentStep + 1;
        }
      }
      log := log + [LogRow("", "", currentStep, req.actor, req.action)];
      status, currentStep := nextStatus, nextStep;
      return None;
    }

    method Act(req: Request, env: Env) returns (error: Option<ApprovalError>)
      modifies this
      ensures Committed(Step(ParsedGraph(snapshot), form, old(State()), req, env), old(State()), State(), error)
    {
      if req.action != "APPROVE" && req.action != "REJECT" {
        return Some(UnknownAction);
      }
      if status != PENDING {
        return Some(AlreadyProcessed);
      }
      if currentNodeKey != "" {
        var _, ok := NodeIndex(nodes, currentNodeKey);
        if ok {
          error := ActOnNode(req, env);
          return;
        }
      }
      error := ActOnCounter(req, env);
    }
  }

  /** workflow is the definition of the active approval workflow with that id, if there is one. */
  method Submit(title: string, workflowId: int, workflow: Option<Option<Spec>>, form: Form)
      returns (r: Result<ApprovalInstance, ApprovalError>)
    ensures title == "" ==> r == Err(TitleRequired)
    ensures title != "" && workflowId == 0 ==> r == Err(WorkflowRequired)
    ensures title != "" && workflowId != 0 && workflow.None? ==> r == Err(WorkflowUnavailable)
    ensures title != "" && workflowId != 0 && workflow.Some? ==>
              match Submitted(ParsedGraph(workflow.value), form)
              case Err(e) => r == Err(e)
              case Ok(s) =>
                && r.Ok? && fresh(r.value) && r.value.State() == s
                && r.value.snapshot == workflow.value && r.value.form == form
  {
    hide StartPlan, ParsedGraph;
    if title == "" {
      return Err(TitleRequired);
    }
    if workflowId == 0 {
      return Err(WorkflowRequired);
    }
    if workflow.None? {
      return Err(WorkflowUnavailable);
    }
    var planned := BuildStartPlan(workflow.value, form);
    if planned.Err? {
      return Err(PlanFailed(planned.error));
    }
    var rows, ok := InsertNodeRows(planned.value.nodes);
    if !ok {
      return Err(DuplicateNodeKey);
    }
    var instance := new ApprovalInstance(workflow.value, form, planned.value, rows);
    return Ok(instance);
  }
}
