/** The older step counter and the graph engine agree on every single path from a start to an end. */
module LegacyRefinement {
  import opened Wrappers
  import opened Collections
  import opened WorkflowModel
  import opened WorkflowOrder
  import opened WorkflowRuntime
  import opened ApprovalPlans
  import opened BusinessMapping
  import opened Approval
  import opened ApprovalRuns
  import opened ApprovalStatus

  // ----- definitions that are one path

  /** Nodes in path order: a start, then neither starts nor ends, then an end; no node is configured. */
  ghost predicate PathNodes(path: seq<DefNode>) {
    && |path| >= 2
    && NodeType(path[0]) == "start" && NodeType(path[|path| - 1]) == "end"
    && (forall i :: 0 < i < |path| - 1 ==> NodeType(path[i]) != "start" && NodeType(path[i]) != "end")
    && (forall i :: 0 <= i < |path| ==> path[i].data.config == NO_CONFIG)
    && (forall i, j :: 0 <= i < j < |path| ==> ExecKey(path[i]) != ExecKey(path[j]))
    && ApprovalCount(path) >= 1
  }

  /** A definition whose edges, drawn in any order, join its nodes, listed in any order, into one
      path; or one without edges, whose nodes are listed in path order. order[i] is the position
      in the definition of the i-th node of the path. */
  ghost predicate PathSpec(spec: Spec, order: seq<nat>) {
    && |order| == |spec.nodes| && Distinct(order) && (forall i :: 0 <= i < |order| ==> order[i] < |spec.nodes|)
    && Distinct(NodeIds(spec))
    && PathNodes(InOrder(spec.nodes, order))
    && if spec.edges == [] then forall i :: 0 <= i < |order| ==> order[i] == i
       else Distinct(spec.edges) && forall e :: e in spec.edges <==> ChainEdge(spec, order, e)
  }

  function InOrder(nodes: seq<DefNode>, order: seq<nat>): (r: seq<DefNode>)
    requires forall i :: 0 <= i < |order| ==> order[i] < |nodes|
    ensures |r| == |order| && forall i :: 0 <= i < |order| ==> r[i] == nodes[order[i]]
  {
    seq(|order|, i requires 0 <= i < |order| => nodes[order[i]])
  }

  ghost predicate ChainEdge(spec: Spec, order: seq<nat>, e: Edge)
    requires forall i :: 0 <= i < |order| ==> order[i] < |spec.nodes|
  {
    exists i :: 0 <= i < |order| - 1 && e == ChainEdgeAt(spec, order, i)
  }

  ghost function ChainEdgeAt(spec: Spec, order: seq<nat>, i: int): Edge
    requires forall i :: 0 <= i < |order| ==> order[i] < |spec.nodes|
    requires 0 <= i < |order| - 1
  {
    Edge(NodeIds(spec)[order[i]], NodeIds(spec)[order[i + 1]])
  }

  // ----- the graph such a definition is parsed into

  /** The number of approvals before position i. */
  function Before(nodes: seq<RtNode>, i: nat): nat
    requires i <= |nodes|
  {
    if i == 0 then 0 else Before(nodes, i - 1) + if nodes[i - 1].nodeType == "approval" then 1 else 0
  }

  ghost predicate PathAt(g: Graph, i: nat)
    requires i < |g.nodes|
  {
    var n := g.nodes[i];
    && n.key != "" && n.config == NO_CONFIG && n.status == WAITING
    && (n.nodeType == "start" <==> i == 0) && (n.nodeType == "end" <==> i == |g.nodes| - 1)
    && n.stepIndex == (if n.nodeType == "approval" then Before(g.nodes, i) else -1)
    && (i < |g.nodes| - 1 ==> FirstOutgoing(g, n.key) == g.nodes[i + 1].key)
  }

  /** A graph that is one path with at least one approval. */
  ghost predicate PathGraph(g: Graph) {
    && |g.nodes| >= 2 && DistinctKeys(g.nodes) && Before(g.nodes, |g.nodes|) >= 1
    && forall i :: 0 <= i < |g.nodes| ==> PathAt(g, i)
  }

  // ----- the two engines on a path

  predicate Halting(n: RtNode) {
    n.nodeType == "approval" || n.nodeType == "end"
  }

  /** The position where a walk from i halts: the next approval, or the end. */
  function NextHalt(nodes: seq<RtNode>, i: nat): (j: nat)
    requires i < |nodes|
    ensures i <= j < |nodes|
    decreases |nodes| - i
  {
    if Halting(nodes[i]) || i == |nodes| - 1 then i else NextHalt(nodes, i + 1)
  }

  lemma PathIndex(g: Graph, nodes: seq<RtNode>, i: nat)
    requires PathGraph(g) && SameShape(nodes, g.nodes) && i < |nodes|
    ensures IndexOf(nodes, g.nodes[i].key) == Some(i)
  {
    hide PathAt, Before;
    SameShapeIndex(nodes, g.nodes, g.nodes[i].key);
  }

  /** What a walk along the path from position i yields. */
  ghost predicate HaltsOnPath(g: Graph, i: nat, step: int, preferred: string, p: Plan)
    requires i < |g.nodes|
  {
    var n := g.nodes[NextHalt(g.nodes, i)];
    && p.businessStatus == ""
    && if n.nodeType == "approval"
       then p.currentNodeKey == n.key && p.currentStep == n.stepIndex && p.instanceStatus == preferred
       else p.currentNodeKey == "" && p.currentStep == step &&
            p.instanceStatus == if preferred == REJECTED then REJECTED else APPROVED
  }

  lemma PassAlongPath(g: Graph, plan: Plan, i: nat, preferred: string, form: Form, visited: set<string>)
    requires PathGraph(g) && SameShape(plan.nodes, g.nodes) && i < |g.nodes| && !Halting(g.nodes[i])
    requires g.nodes[i].key !in visited
    ensures i + 1 < |g.nodes|
    ensures AdvanceFrom(g, plan, g.nodes[i].key, preferred, form, visited) ==
            AdvanceFrom(g, plan.(nodes := WithStatus(plan.nodes, i, APPROVED)), g.nodes[i + 1].key, preferred, form,
                        visited + {g.nodes[i].key})
  {
    PathIndex(g, plan.nodes, i);
    assert PathAt(g, i);
    var node := plan.nodes[i];
    assert node == g.nodes[i].(status := node.status);
    assert ResolveCondition([], "", form) == "";
    assert Successor(g, node, form) == g.nodes[i + 1].key;
  }

  lemma HaltAlongPath(g: Graph, plan: Plan, i: nat, preferred: string, form: Form, visited: set<string>)
    requires PathGraph(g) && SameShape(plan.nodes, g.nodes) && i < |g.nodes| && plan.businessStatus == ""
    requires Halting(g.nodes[i]) && g.nodes[i].key !in visited
    ensures var r := AdvanceFrom(g, plan, g.nodes[i].key, preferred, form, visited);
            r.Ok? && HaltsOnPath(g, i, plan.currentStep, preferred, r.value)
  {
    PathIndex(g, plan.nodes, i);
    assert PathAt(g, i);
    var node := plan.nodes[i];
    assert node == g.nodes[i].(status := node.status);
  }

  lemma {:induction false} WalkAlongPath(
      g: Graph, plan: Plan, i: nat, preferred: string, form: Form, visited: set<string>)
    requires PathGraph(g) && SameShape(plan.nodes, g.nodes) && i < |g.nodes| && plan.businessStatus == ""
    requires forall k :: i <= k < |g.nodes| ==> g.nodes[k].key !in visited
    ensures var r := AdvanceFrom(g, plan, g.nodes[i].key, preferred, form, visited);
            r.Ok? && HaltsOnPath(g, i, plan.currentStep, preferred, r.value)
    decreases |g.nodes| - i
  {
    if Halting(g.nodes[i]) {
      HaltAlongPath(g, plan, i, preferred, form, visited);
    } else {
      PassAlongPath(g, plan, i, preferred, form, visited);
      WalkAlongPath(g, plan.(nodes := WithStatus(plan.nodes, i, APPROVED)), i + 1, preferred, form,
                    visited + {g.nodes[i].key});
    }
  }

  /** No approval lies before the next halt, which is an approval or the last node. */
  lemma {:induction false} NextHaltCounts(g: Graph, i: nat)
    requires PathGraph(g) && i < |g.nodes|
    ensures var j := NextHalt(g.nodes, i);
            && Before(g.nodes, j) == Before(g.nodes, i)
            && if g.nodes[j].nodeType == "approval" then Before(g.nodes, i) < Before(g.nodes, |g.nodes|)
               else Before(g.nodes, i) == Before(g.nodes, |g.nodes|)
    decreases |g.nodes| - i
  {
    assert PathAt(g, i);
    if Halting(g.nodes[i]) {
      BeforeGrows(g.nodes, i + 1, |g.nodes|);
    } else {
      NextHaltCounts(g, i + 1);
    }
  }

  lemma {:induction false} BeforeGrows(nodes: seq<RtNode>, i: nat, j: nat)
    requires i <= j <= |nodes|
    ensures Before(nodes, i) <= Before(nodes, j)
    decreases j - i
  {
    if i < j {
      BeforeGrows(nodes, i, j - 1);
    }
  }

  /** The older engine's steps are the approvals of the path, in order. */
  ghost predicate StepsMatch(steps: seq<string>, nodes: seq<RtNode>) {
    && |steps| == Before(nodes, |nodes|)
    && forall i :: 0 <= i < |nodes| && nodes[i].nodeType == "approval" ==>
         Before(nodes, i) < |steps| && steps[Before(nodes, i)] == nodes[i].assignee
  }

  /** An instance of the older engine has no node rows. */
  const LEGACY_START := Instance(PENDING, "", "", 0, [], [])

  ghost predicate AtStep(g: Graph, s: Instance, step: int) {
    exists i :: 0 <= i < |g.nodes| && g.nodes[i].nodeType == "approval" && s.currentNodeKey == g.nodes[i].key &&
        step == Before(g.nodes, i)
  }

  /** The graph engine's instance and the older one: the same status, and the same step unless
      the instance is rejected, when the graph engine has moved on to the next approval if any. */
  ghost predicate Agree(g: Graph, s: Instance, c: Instance) {
    var count := Before(g.nodes, |g.nodes|);
    && c.currentNodeKey == "" && s.status == c.status && c.status in [PENDING, APPROVED, REJECTED]
    && 0 <= c.currentStep < count
    && (c.status == PENDING ==> AtStep(g, s, c.currentStep))
    && s.currentStep == if c.status == REJECTED && c.currentStep + 1 < count then c.currentStep + 1 else c.currentStep
  }

  lemma SubmitAgrees(g: Graph, form: Form)
    requires PathGraph(g) && Submitted(g, form).Ok?
    ensures Agree(g, Submitted(g, form).value, LEGACY_START)
  {
    assert PathAt(g, 0);
    WalkAlongPath(g, Plan(g.nodes, PENDING, "", "", 0), 0, PENDING, form, {});
    NextHaltCounts(g, 0);
    assert PathAt(g, NextHalt(g.nodes, 0));
  }

  /** A plan for an action at the approval with step number step. */
  ghost predicate MovesOn(g: Graph, step: nat, action: string, p: Plan) {
    var count := Before(g.nodes, |g.nodes|);
    && p.businessStatus == ""
    && if step + 1 < count
       then p.currentStep == step + 1 && p.instanceStatus == (if action == "REJECT" then REJECTED else PENDING) &&
            exists j :: 0 <= j < |g.nodes| && g.nodes[j].nodeType == "approval" &&
                p.currentNodeKey == g.nodes[j].key && step + 1 == Before(g.nodes, j)
       else p.currentStep == step && p.instanceStatus == (if action == "REJECT" then REJECTED else APPROVED)
  }

  /** Acting at the i-th node of the path is a walk from the next one. */
  lemma ActionOnPath(g: Graph, rows: seq<RtNode>, i: nat, action: string, comment: Option<string>, form: Form)
    requires PathGraph(g) && SameShape(rows, g.nodes) && NonEmptyStatuses(rows) && i < |g.nodes| - 1
    requires g.nodes[i].nodeType == "approval" && rows[i].status == RUNNING && action in ["APPROVE", "REJECT"]
    ensures ActionPlan(g, rows, g.nodes[i].key, action, comment, form) ==
            AdvanceFrom(g, Plan(WithStatus(rows, i, if action == "REJECT" then REJECTED else APPROVED), PENDING,
                                "", "", Before(g.nodes, i)),
                        g.nodes[i + 1].key, if action == "REJECT" then REJECTED else PENDING, form, {})
  {
    hide StatusMap, WithStatus, AdvanceFrom, Before, ResolveAction, Merged;
    MergeRestores(g.nodes, rows);
    PathIndex(g, rows, i);
    assert PathAt(g, i);
    assert rows[i] == g.nodes[i].(status := RUNNING);
    BuiltInActions(rows[i].config, action);
  }

  lemma HaltMovesOn(g: Graph, i: nat, action: string, p: Plan)
    requires PathGraph(g) && i < |g.nodes| - 1 && g.nodes[i].nodeType == "approval" && action in ["APPROVE", "REJECT"]
    requires HaltsOnPath(g, i + 1, Before(g.nodes, i), if action == "REJECT" then REJECTED else PENDING, p)
    ensures MovesOn(g, Before(g.nodes, i), action, p)
  {
    hide NextHalt, DistinctKeys;
    var j := NextHalt(g.nodes, i + 1);
    NextHaltCounts(g, i + 1);
    assert PathAt(g, j);
    assert Before(g.nodes, i + 1) == Before(g.nodes, i) + 1;
  }

  lemma ActionMovesOn(g: Graph, rows: seq<RtNode>, i: nat, action: string, comment: Option<string>, form: Form)
    requires PathGraph(g) && SameShape(rows, g.nodes) && NonEmptyStatuses(rows) && i < |g.nodes| - 1
    requires g.nodes[i].nodeType == "approval" && rows[i].status == RUNNING && action in ["APPROVE", "REJECT"]
    ensures var r := ActionPlan(g, rows, g.nodes[i].key, action, comment, form);
            r.Ok? && MovesOn(g, Before(g.nodes, i), action, r.value)
  {
    WalkMovesOn(g, WithStatus(rows, i, if action == "REJECT" then REJECTED else APPROVED), i, action, form);
    ActionOnPath(g, rows, i, action, comment, form);
  }

  lemma WalkMovesOn(g: Graph, left: seq<RtNode>, i: nat, action: string, form: Form)
    requires PathGraph(g) && SameShape(left, g.nodes) && i < |g.nodes| - 1
    requires g.nodes[i].nodeType == "approval" && action in ["APPROVE", "REJECT"]
    ensures var r := AdvanceFrom(g, Plan(left, PENDING, "", "", Before(g.nodes, i)), g.nodes[i + 1].key,
                                 if action == "REJECT" then REJECTED else PENDING, form, {});
            r.Ok? && MovesOn(g, Before(g.nodes, i), action, r.value)
  {
    var preferred := if action == "REJECT" then REJECTED else PENDING;
    var start := Plan(left, PENDING, "", "", Before(g.nodes, i));
    WalkAlongPath(g, start, i + 1, preferred, form, {});
    HaltMovesOn(g, i, action, AdvanceFrom(g, start, g.nodes[i + 1].key, preferred, form, {}).value);
  }

  lemma MovedOnAgrees(g: Graph, step: nat, action: string, p: Plan, s: Instance, c: Instance)
    requires MovesOn(g, step, action, p) && action in ["APPROVE", "REJECT"] && step < Before(g.nodes, |g.nodes|)
    requires s.status == p.instanceStatus && s.currentStep == p.currentStep && s.currentNodeKey == p.currentNodeKey
    requires c.currentNodeKey == "" &&
             (c.status, c.currentStep) == CounterStep(step, Before(g.nodes, |g.nodes|), action)
    ensures Agree(g, s, c)
  {
  }

  /** One action: both engines refuse it, or both accept it and still agree. */
  lemma {:induction false} StepAgrees(g: Graph, form: Form, first: string, s: Instance, c: Instance, req: Request,
      env: Env)
    requires PathGraph(g) && Inv(g, first, s) && Agree(g, s, c)
    requires StepsMatch(RuntimeSteps(env.definition), g.nodes) && env.row == None
    ensures var r, l := Step(g, form, s, req, env), Step(g, form, c, req, env);
            if r.Ok? then l.Ok? && Agree(g, r.value, l.value) else l.Err? && l.error == r.error
  {
    hide RuntimeSteps, StepsMatch, PathGraph, PathAt, RuntimeStep, LegacyStep;
    if req.action in ["APPROVE", "REJECT"] && c.status == PENDING {
      var i :| 0 <= i < |g.nodes| && g.nodes[i].nodeType == "approval" && s.currentNodeKey == g.nodes[i].key &&
               c.currentStep == Before(g.nodes, i);
      NodeActionAgrees(g, form, first, s, c, req, env, i);
    }
  }

  lemma NodeActionAgrees(g: Graph, form: Form, first: string, s: Instance, c: Instance, req: Request, env: Env, i: nat)
    requires PathGraph(g) && SameShape(s.nodes, g.nodes) && NonEmptyStatuses(s.nodes) &&
             OneRunning(s.nodes, s.currentNodeKey)
    requires i < |g.nodes| && g.nodes[i].nodeType == "approval" && s.currentNodeKey == g.nodes[i].key
    requires s.status == c.status == PENDING && c.currentNodeKey == "" && c.currentStep == Before(g.nodes, i)
    requires req.action in ["APPROVE", "REJECT"]
    requires StepsMatch(RuntimeSteps(env.definition), g.nodes) && env.row == None
    ensures var r, l := Step(g, form, s, req, env), Step(g, form, c, req, env);
            if r.Ok? then l.Ok? && Agree(g, r.value, l.value) else l.Err? && l.error == r.error
  {
    hide Agree, MovesOn, NonEmptyStatuses, ActionPlan, RuntimeStep, LegacyStep;
    PathIndex(g, s.nodes, i);
    assert PathAt(g, i);
    assert s.nodes[i] == g.nodes[i].(status := s.nodes[i].status);
    CounterOnPath(g, form, c, req, env, i);
    if env.matches(s.nodes[i].assignee) {
      ActionMovesOn(g, s.nodes, i, req.action, req.comment, form);
      RuntimeStepOnPath(g, form, s, req, env, i);
      var p := ActionPlan(g, s.nodes, s.currentNodeKey, req.action, req.comment, form).value;
      MovedOnAgrees(g, Before(g.nodes, i), req.action, p, Step(g, form, s, req, env).value,
          Step(g, form, c, req, env).value);
    } else {
      RuntimeStepRefused(g, form, s, req, env, i);
    }
  }

  lemma RuntimeStepRefused(g: Graph, form: Form, s: Instance, req: Request, env: Env, i: nat)
    requires i < |s.nodes| && IndexOf(s.nodes, s.currentNodeKey) == Some(i) && !env.matches(s.nodes[i].assignee)
    ensures RuntimeStep(g, form, s, req, env) == Err(AssigneeMismatch)
  {
    hide ActionPlan;
  }

  /** The older engine's step at the i-th node of the path. */
  lemma CounterOnPath(g: Graph, form: Form, c: Instance, req: Request, env: Env, i: nat)
    requires PathGraph(g) && i < |g.nodes| && g.nodes[i].nodeType == "approval"
    requires c.status == PENDING && c.currentNodeKey == "" && c.currentStep == Before(g.nodes, i)
    requires req.action in ["APPROVE", "REJECT"] && StepsMatch(RuntimeSteps(env.definition), g.nodes)
    ensures Before(g.nodes, i) < Before(g.nodes, |g.nodes|)
    ensures var l := Step(g, form, c, req, env);
            if env.matches(g.nodes[i].assignee)
            then l.Ok? && l.value.currentNodeKey == "" &&
                 (l.value.status, l.value.currentStep) ==
                     CounterStep(Before(g.nodes, i), Before(g.nodes, |g.nodes|), req.action)
            else l == Err(AssigneeMismatch)
  {
    hide RuntimeStep, PathGraph, RuntimeSteps;
    assert RuntimeSteps(env.definition)[c.currentStep] == g.nodes[i].assignee;
  }

  lemma RuntimeStepOnPath(g: Graph, form: Form, s: Instance, req: Request, env: Env, i: nat)
    requires i < |s.nodes| && IndexOf(s.nodes, s.currentNodeKey) == Some(i) && env.matches(s.nodes[i].assignee) &&
             env.row == None
    requires ActionPlan(g, s.nodes, s.currentNodeKey, req.action, req.comment, form).Ok?
    requires ActionPlan(g, s.nodes, s.currentNodeKey, req.action, req.comment, form).value.businessStatus == ""
    ensures var r := RuntimeStep(g, form, s, req, env);
            var p := ActionPlan(g, s.nodes, s.currentNodeKey, req.action, req.comment, form).value;
            r.Ok? && r.value.status == p.instanceStatus && r.value.currentStep == p.currentStep &&
            r.value.currentNodeKey == p.currentNodeKey
  {
    hide ActionPlan, UpdateRows, IndexOf;
  }

  lemma NothingLoadedOnPath(g: Graph, before: Rows, workflow: int, first: string, s: Instance, action: string,
      row: Option<Row>)
    requires PathGraph(g) && Inv(g, first, s) && s.currentNodeKey != ""
    requires LoadedFor(g, before, workflow, s.currentNodeKey, action, row)
    ensures row == None
  {
    var i :| 0 <= i < |s.nodes| && s.nodes[i].key == s.currentNodeKey && s.nodes[i].nodeType == "approval";
    forall n | n in g.nodes
      ensures n.config.actions == []
    {
      var k :| 0 <= k < |g.nodes| && g.nodes[k] == n;
      assert PathAt(g, k);
    }
    assert g.nodes[i].key == s.currentNodeKey && g.nodes[i].nodeType == "approval";
    NothingConfiguredNothingLoaded(g, before, workflow, i, action, row);
  }

  ghost predicate DefinitionKept(definition: Option<Spec>, events: seq<Event>) {
    forall k :: 0 <= k < |events| ==> events[k].env.definition == definition
  }

  lemma NobodyActs(g: Graph, form: Form, s: Instance, req: Request, env: Env)
    requires s.status != PENDING
    ensures Step(g, form, s, req, env).Err?
  {
    hide RuntimeStep, LegacyStep;
  }

  lemma {:induction false} RunAgrees(
      g: Graph, form: Form, s: Instance, events: seq<Event>, definition: Option<Spec>, before: Rows, workflow: int)
    requires PathGraph(g) && Inv(g, s.currentNodeKey, s) && Agree(g, s, LEGACY_START)
    requires StepsMatch(RuntimeSteps(definition), g.nodes) && DefinitionKept(definition, events)
    requires DefinitionUnchanged(g, form, s, events, before, workflow)
    ensures Agree(g, Run(g, form, s, events), Run(g, form, LEGACY_START, events))
  {
    hide Step, Inv, LoadedFor, StepsMatch, RuntimeSteps, Before;
    if events != [] {
      var n := |events| - 1;
      var init := events[..n];
      forall k | 0 <= k < |init|
        ensures RowLoaded(g, form, s, init, before, workflow, k)
      {
        assert RowLoaded(g, form, s, events, before, workflow, k) && init[..k] == events[..k];
      }
      RunAgrees(g, form, s, init, definition, before, workflow);
      RunKeepsInv(g, form, s.currentNodeKey, s, init);
      var at, legacy, e := Run(g, form, s, init), Run(g, form, LEGACY_START, init), events[n];
      assert RowLoaded(g, form, s, events, before, workflow, n);
      if at.status == PENDING {
        assert at.currentNodeKey != "" by {
          var i :| 0 <= i < |g.nodes| && at.currentNodeKey == g.nodes[i].key;
          assert PathAt(g, i);
        }
        NothingLoadedOnPath(g, before, workflow, s.currentNodeKey, at, e.req.action, e.env.row);
        StepAgrees(g, form, s.currentNodeKey, at, legacy, e.req, e.env);
      } else {
        NobodyActs(g, form, at, e.req, e.env);
        NobodyActs(g, form, legacy, e.req, e.env);
      }
    }
  }

  // ----- from the drawn definition to the path graph

  lemma {:induction false} BeforeIsCount(path: seq<DefNode>, i: nat)
    requires i <= |path|
    ensures Before(RuntimeNodes(path), i) == ApprovalCount(path[..i])
  {
    hide NodeType, ExecKey, ExecName;
    if i > 0 {
      BeforeIsCount(path, i - 1);
      assert path[..i][..i - 1] == path[..i - 1];
    }
  }

  /** Runtime nodes carry the types and assignees of the nodes they come from. */
  ghost predicate ComeFrom(nodes: seq<RtNode>, path: seq<DefNode>) {
    && |nodes| == |path|
    && forall i :: 0 <= i < |nodes| ==>
         nodes[i].nodeType == NodeType(path[i]) && nodes[i].assignee == path[i].data.assignee
  }

  lemma {:induction false} AssigneeCount(nodes: seq<RtNode>, path: seq<DefNode>, i: nat)
    requires ComeFrom(nodes, path) && i <= |path|
    ensures |ApprovalAssignees(path[..i])| == Before(nodes, i)
  {
    if i > 0 {
      AssigneeCount(nodes, path, i - 1);
      assert path[..i][..i - 1] == path[..i - 1];
    }
  }

  lemma {:induction false} AssigneeOf(nodes: seq<RtNode>, path: seq<DefNode>, i: nat, k: nat)
    requires ComeFrom(nodes, path) && k < i <= |path| && nodes[k].nodeType == "approval"
    ensures Before(nodes, k) < |ApprovalAssignees(path[..i])|
    ensures ApprovalAssignees(path[..i])[Before(nodes, k)] == nodes[k].assignee
  {
    hide NodeType;
    AssigneeCount(nodes, path, i);
    AssigneeCount(nodes, path, i - 1);
    assert path[..i][..i - 1] == path[..i - 1];
    if k < i - 1 {
      AssigneeOf(nodes, path, i - 1, k);
    }
  }

  lemma PathStepsMatch(path: seq<DefNode>)
    ensures StepsMatch(ApprovalAssignees(path), RuntimeNodes(path))
  {
    var nodes := RuntimeNodes(path);
    assert path[..|path|] == path;
    AssigneeCount(nodes, path, |path|);
    forall k | 0 <= k < |nodes| && nodes[k].nodeType == "approval"
      ensures Before(nodes, k) < |ApprovalAssignees(path)| &&
              ApprovalAssignees(path)[Before(nodes, k)] == nodes[k].assignee
    {
      AssigneeOf(nodes, path, |path|, k);
    }
  }

  ghost predicate LeadsOn(outgoing: map<string, seq<string>>, path: seq<DefNode>, i: int)
    requires 0 <= i < |path| - 1
  {
    Out(outgoing, ExecKey(path[i])) != [] && Out(outgoing, ExecKey(path[i]))[0] == ExecKey(path[i + 1])
  }

  lemma PathNodeAt(path: seq<DefNode>, outgoing: map<string, seq<string>>, i: nat)
    requires PathNodes(path) && i < |path| && (i < |path| - 1 ==> LeadsOn(outgoing, path, i))
    ensures PathAt(Graph(RuntimeNodes(path), outgoing), i)
  {
    BeforeIsCount(path, i);
    var n := RuntimeNodes(path)[i];
    assert n.key == ExecKey(path[i]) && n.nodeType == NodeType(path[i]) && n.config == path[i].data.config;
  }

  lemma PathNodesMakeGraph(path: seq<DefNode>, outgoing: map<string, seq<string>>)
    requires PathNodes(path) && forall i :: 0 <= i < |path| - 1 ==> LeadsOn(outgoing, path, i)
    ensures PathGraph(Graph(RuntimeNodes(path), outgoing))
  {
    hide NodeType, ExecKey, ExecName, LeadsOn, PathAt;
    var g := Graph(RuntimeNodes(path), outgoing);
    BeforeIsCount(path, |path|);
    assert path[..|path|] == path;
    forall i | 0 <= i < |path|
      ensures PathAt(g, i)
    {
      PathNodeAt(path, outgoing, i);
    }
    forall i, j | 0 <= i < j < |path|
      ensures g.nodes[i].key != g.nodes[j].key
    {
      assert ExecKey(path[i]) != ExecKey(path[j]);
    }
  }

  lemma {:induction false} ChainLeadsOn(nodes: seq<RtNode>, i: nat)
    requires DistinctKeys(nodes) && i < |nodes|
    ensures Out(ChainMap(nodes), nodes[i].key) == if i < |nodes| - 1 then [nodes[i + 1].key] else []
  {
    if |nodes| >= 2 {
      var n := |nodes| - 1;
      if i < n {
        ChainLeadsOn(nodes[..n], i);
      } else {
        ChainLeavesOut(nodes[..n], nodes[n].key);
      }
    }
  }

  lemma {:induction false} ChainLeavesOut(nodes: seq<RtNode>, key: string)
    requires forall k :: 0 <= k < |nodes| ==> nodes[k].key != key
    ensures Out(ChainMap(nodes), key) == []
  {
    if |nodes| >= 2 {
      ChainLeavesOut(nodes[..|nodes| - 1], key);
    }
  }

  /** The edge map, read back: who leads to whom. */
  lemma {:induction false} EdgeMapMeaning(edges: seq<Edge>, keys: map<string, string>, k: string, y: string)
    ensures y in Out(EdgeMap(edges, keys), k) <==>
            exists e :: e in edges && e.source in keys && e.target in keys && keys[e.source] == k && keys[e.target] == y
  {
    if edges != [] {
      var n := |edges| - 1;
      EdgeMapMeaning(edges[..n], keys, k, y);
      assert edges == edges[..n] + [edges[n]];
    }
  }

  lemma KeyOfPathNode(spec: Spec, order: seq<nat>, i: nat)
    requires PathSpec(spec, order) && i < |order|
    ensures NodeIds(spec)[order[i]] in KeyMap(spec.nodes)
    ensures KeyMap(spec.nodes)[NodeIds(spec)[order[i]]] == ExecKey(InOrder(spec.nodes, order)[i])
  {
    LookupOwnIds(spec.nodes, NodeIds(spec));
    assert Lookup(NodeMap(spec.nodes), NodeIds(spec))[order[i]] == spec.nodes[order[i]];
  }

  lemma {:induction false} OnlyTarget(edges: seq<Edge>, known: set<string>, id: string, x: string)
    requires Distinct(edges) && Edge(id, x) in edges && KnownEdge(Edge(id, x), known)
    requires forall e :: e in edges && e.source == id ==> e.target == x
    ensures Targets(edges, known, id) == [x]
  {
    var n := |edges| - 1;
    assert edges == edges[..n] + [edges[n]];
    if edges[n] == Edge(id, x) {
      assert Edge(id, x) !in edges[..n];
      NoTarget(edges[..n], known, id);
    } else {
      OnlyTarget(edges[..n], known, id, x);
    }
  }

  lemma {:induction false} NoTarget(edges: seq<Edge>, known: set<string>, id: string)
    requires forall e :: e in edges ==> e.source != id
    ensures Targets(edges, known, id) == []
  {
    if edges != [] {
      NoTarget(edges[..|edges| - 1], known, id);
    }
  }

  // ----- the depth-first order of a path is the path

  function PathIds(spec: Spec, order: seq<nat>): (r: seq<string>)
    requires forall i :: 0 <= i < |order| ==> order[i] < |spec.nodes|
    ensures |r| == |order| && forall i :: 0 <= i < |order| ==> r[i] == NodeIds(spec)[order[i]]
  {
    seq(|order|, i requires 0 <= i < |order| => NodeIds(spec)[order[i]])
  }

  lemma PathIdsDistinct(spec: Spec, order: seq<nat>)
    requires PathSpec(spec, order)
    ensures Distinct(PathIds(spec, order)) && Elems(PathIds(spec, order)) == KnownIds(spec)
  {
    var ids, all := PathIds(spec, order), NodeIds(spec);
    forall i, j | 0 <= i < j < |ids|
      ensures ids[i] != ids[j]
    {
      assert order[i] != order[j];
    }
    assert Elems(ids) <= Elems(all);
    DistinctCardinality(ids);
    DistinctCardinality(all);
    SubsetOfSameSize(Elems(ids), Elems(all));
    assert Elems(all) == KnownIds(spec);
  }

  lemma SubsetOfSameSize<T>(a: set<T>, b: set<T>)
    requires a <= b && |a| == |b|
    ensures a == b
  {
    assert b == a + (b - a);
  }

  lemma TargetOnPath(spec: Spec, order: seq<nat>, i: nat)
    requires PathSpec(spec, order) && spec.edges != [] && i < |order| - 1
    ensures Targets(spec.edges, KnownIds(spec), PathIds(spec, order)[i]) == [PathIds(spec, order)[i + 1]]
  {
    hide Targets, PathNodes, Identity;
    var ids := PathIds(spec, order);
    PathIdsDistinct(spec, order);
    assert ids[i] in Elems(ids) && ids[i + 1] in Elems(ids);
    var e := ChainEdgeAt(spec, order, i);
    assert ChainEdge(spec, order, e) && e == Edge(ids[i], ids[i + 1]);
    forall f | f in spec.edges && f.source == ids[i]
      ensures f.target == ids[i + 1]
    {
      assert ChainEdge(spec, order, f);
      var k :| 0 <= k < |order| - 1 && f == ChainEdgeAt(spec, order, k);
      assert ids[k] == ids[i];
    }
    OnlyTarget(spec.edges, KnownIds(spec), ids[i], ids[i + 1]);
  }

  lemma {:induction false} PathPreorder(
      edges: seq<Edge>, known: set<string>, ids: seq<string>, rest: seq<string>, i: nat, visited: set<string>)
    requires Distinct(ids) && Elems(ids) == known && i < |ids| && visited == Elems(ids[..i])
    requires forall k :: 0 <= k < |ids| - 1 ==> Targets(edges, known, ids[k]) == [ids[k + 1]]
    ensures exists more :: Preorder(edges, known, [ids[i]] + rest, visited) == ids[i..] + more
    decreases |ids| - i
  {
    var seen := visited + {ids[i]};
    assert ids[..i + 1] == ids[..i] + [ids[i]];
    assert seen == Elems(ids[..i + 1]);
    assert ids[i] in Elems(ids);
    DistinctPrefix(ids, i, i);
    PreorderStep(edges, known, ids[i], rest, visited);
    if i == |ids| - 1 {
      assert ids[i..] == [ids[i]];
      var more := Preorder(edges, known, Targets(edges, known, ids[i]) + rest, seen);
      assert Preorder(edges, known, [ids[i]] + rest, visited) == ids[i..] + more;
    } else {
      PathPreorder(edges, known, ids, rest, i + 1, seen);
      var more :| Preorder(edges, known, [ids[i + 1]] + rest, seen) == ids[i + 1..] + more;
      assert ids[i..] == [ids[i]] + ids[i + 1..];
      assert Preorder(edges, known, [ids[i]] + rest, visited) == ids[i..] + more;
    }
  }

  /** The traversal starts at the path's first node. */
  lemma FirstStart(spec: Spec, order: seq<nat>)
    requires PathSpec(spec, order)
    ensures StartIds(spec)[0] == PathIds(spec, order)[0]
  {
    var path := InOrder(spec.nodes, order);
    var first := PathIds(spec, order)[0];
    var typed := TypedStarts(spec.nodes);
    assert NodeType(spec.nodes[order[0]]) == "start" by {
      assert path[0] == spec.nodes[order[0]];
    }
    assert first in typed;
    forall x | x in typed
      ensures x == first
    {
      var i :| 0 <= i < |spec.nodes| && NodeType(spec.nodes[i]) == "start" && x == Identity(spec.nodes[i], i);
      OnlyStart(spec, order, i);
    }
    assert typed <= StartIds(spec);
    assert typed[0] in typed;
  }

  lemma OnlyStart(spec: Spec, order: seq<nat>, i: nat)
    requires PathSpec(spec, order) && i < |spec.nodes| && NodeType(spec.nodes[i]) == "start"
    ensures i == order[0]
  {
    hide Targets, ApprovalCount, ExecKey, ChainEdge, NodeType;
    PathIdsDistinct(spec, order);
    assert NodeIds(spec)[i] in KnownIds(spec);
    assert NodeIds(spec)[i] in Elems(PathIds(spec, order));
    var k :| 0 <= k < |order| && PathIds(spec, order)[k] == NodeIds(spec)[i];
    assert order[k] == i;
    var path := InOrder(spec.nodes, order);
    assert NodeType(path[k]) == "start";
    assert k == 0 || k == |path| - 1;
  }

  lemma PathComesFirst(spec: Spec, order: seq<nat>) returns (more: seq<string>)
    requires PathSpec(spec, order) && spec.edges != []
    ensures OrderedIds(spec) == PathIds(spec, order) + more
  {
    var ids, known, starts := PathIds(spec, order), KnownIds(spec), StartIds(spec);
    PathIdsDistinct(spec, order);
    FirstStart(spec, order);
    forall k | 0 <= k < |ids| - 1
      ensures Targets(spec.edges, known, ids[k]) == [ids[k + 1]]
    {
      TargetOnPath(spec, order, k);
    }
    PathPreorderAll(spec.edges, known, ids, starts, NodeIds(spec));
    more :| Preorder(spec.edges, known, starts + NodeIds(spec), {}) == ids + more;
  }

  lemma PathPreorderAll(edges: seq<Edge>, known: set<string>, ids: seq<string>, starts: seq<string>, all: seq<string>)
    requires Distinct(ids) && Elems(ids) == known && ids != [] && starts != [] && starts[0] == ids[0]
    requires forall k :: 0 <= k < |ids| - 1 ==> Targets(edges, known, ids[k]) == [ids[k + 1]]
    ensures exists more :: Preorder(edges, known, starts + all, {}) == ids + more
  {
    var rest := starts[1..] + all;
    assert starts + all == [ids[0]] + rest;
    assert ids[..0] == [] && ids[0..] == ids;
    PathPreorder(edges, known, ids, rest, 0, {});
  }

  lemma PathOrderIds(spec: Spec, order: seq<nat>)
    requires PathSpec(spec, order) && spec.edges != []
    ensures OrderedIds(spec) == PathIds(spec, order)
  {
    var more := PathComesFirst(spec, order);
    OrderedIdsComplete(spec);
    PathIdsDistinct(spec, order);
    forall x | x in more
      ensures x in PathIds(spec, order)
    {
      assert x in OrderedIds(spec);
      assert x in Elems(PathIds(spec, order));
    }
    NoMore(PathIds(spec, order), more);
  }

  lemma NoMore<T>(a: seq<T>, b: seq<T>)
    requires Distinct(a + b) && forall x :: x in b ==> x in a
    ensures b == []
  {
    if b != [] {
      assert b[0] in b;
      var i :| 0 <= i < |a| && a[i] == b[0];
      AppendedAt(a, b, i);
      assert false;
    }
  }

  lemma AppendedAt<T>(a: seq<T>, b: seq<T>, i: nat)
    requires i < |a| && b != []
    ensures (a + b)[i] == a[i] && (a + b)[|a|] == b[0]
  {
  }

  lemma {:induction false} PathOrder(spec: Spec, order: seq<nat>)
    requires PathSpec(spec, order)
    ensures OrderedNodes(spec) == InOrder(spec.nodes, order)
  {
    hide NodeMap, ChainEdge, PathNodes, OrderedIds, KnownIds, NodeIds;
    if spec.edges == [] {
      assert spec.nodes == InOrder(spec.nodes, order);
    } else {
      PathOrderIds(spec, order);
      LookupOwnIds(spec.nodes, NodeIds(spec));
      forall i | 0 <= i < |order|
        ensures OrderedNodes(spec)[i] == spec.nodes[order[i]]
      {
        assert Lookup(NodeMap(spec.nodes), NodeIds(spec))[order[i]] == spec.nodes[order[i]];
      }
    }
  }

  lemma EdgesLeadOn(spec: Spec, order: seq<nat>, i: nat)
    requires PathSpec(spec, order) && spec.edges != [] && i < |order| - 1
    ensures LeadsOn(EdgeMap(spec.edges, KeyMap(spec.nodes)), InOrder(spec.nodes, order), i)
  {
    hide EdgeMap, KeyMap, NodeType, ApprovalCount, Identity, Distinct, ExecKey, Out;
    var path, keys, ids := InOrder(spec.nodes, order), KeyMap(spec.nodes), PathIds(spec, order);
    var outgoing := EdgeMap(spec.edges, keys);
    KeyOfPathNode(spec, order, i);
    KeyOfPathNode(spec, order, i + 1);
    var e := ChainEdgeAt(spec, order, i);
    assert ChainEdge(spec, order, e);
    EdgeMapMeaning(spec.edges, keys, ExecKey(path[i]), ExecKey(path[i + 1]));
    var y := Out(outgoing, ExecKey(path[i]))[0];
    EdgeMapMeaning(spec.edges, keys, ExecKey(path[i]), y);
    var f :| f in spec.edges && f.source in keys && f.target in keys && keys[f.source] == ExecKey(path[i]) &&
        keys[f.target] == y;
    assert ChainEdge(spec, order, f);
    var k :| 0 <= k < |order| - 1 && f == ChainEdgeAt(spec, order, k);
    KeyOfPathNode(spec, order, k);
    KeyOfPathNode(spec, order, k + 1);
    assert ExecKey(path[k]) == ExecKey(path[i]);
    assert k == i;
  }

  lemma PathHasNodes(spec: Spec, order: seq<nat>)
    requires PathSpec(spec, order)
    ensures spec.nodes != [] && PathNodes(InOrder(spec.nodes, order))
    ensures RuntimeSteps(Some(spec)) == ApprovalAssignees(OrderedNodes(spec))
    ensures ParsedGraph(Some(spec)).nodes == RuntimeNodes(OrderedNodes(spec))
  {
    hide OrderedNodes, RuntimeNodes, ApprovalAssignees, ApprovalCount;
  }

  lemma {:induction false} PathSpecMakesGraph(spec: Spec, order: seq<nat>)
    requires PathSpec(spec, order)
    ensures PathGraph(ParsedGraph(Some(spec)))
    ensures StepsMatch(RuntimeSteps(Some(spec)), ParsedGraph(Some(spec)).nodes)
  {
    hide PathNodes, PathGraph, StepsMatch, LeadsOn, EdgeMap, KeyMap, ChainMap, ApprovalAssignees, Distinct, Out,
         OrderedNodes;
    var path := InOrder(spec.nodes, order);
    PathHasNodes(spec, order);
    PathOrder(spec, order);
    PathStepsMatch(path);
    var g := ParsedGraph(Some(spec));
    assert spec.nodes != [] && g.nodes == RuntimeNodes(path);
    forall i | 0 <= i < |path| - 1
      ensures LeadsOn(g.outgoing, path, i)
    {
      if spec.edges == [] {
        ChainOfPath(path, i);
      } else {
        EdgesLeadOn(spec, order, i);
      }
    }
    PathNodesMakeGraph(path, g.outgoing);
  }

  lemma ChainOfPath(path: seq<DefNode>, i: nat)
    requires PathNodes(path) && i < |path| - 1
    ensures LeadsOn(ChainMap(RuntimeNodes(path)), path, i)
  {
    var nodes := RuntimeNodes(path);
    forall k, l | 0 <= k < l < |nodes|
      ensures nodes[k].key != nodes[l].key
    {
      assert ExecKey(path[k]) != ExecKey(path[l]);
    }
    ChainLeadsOn(nodes, i);
  }

  /** The same status, and the same step unless the instance is rejected: then the graph engine
      has moved to the next approval, if there is one. */
  ghost predicate SameProgress(count: nat, s: Instance, c: Instance) {
    && s.status == c.status
    && s.currentStep == if s.status == REJECTED && c.currentStep + 1 < count then c.currentStep + 1 else c.currentStep
  }

  lemma GraphEnginesAgree(g: Graph, form: Form, events: seq<Event>, definition: Option<Spec>, before: Rows,
      workflow: int)
    requires PathGraph(g) && StepsMatch(RuntimeSteps(definition), g.nodes) && DefinitionKept(definition, events)
    requires Submitted(g, form).Ok? ==> DefinitionUnchanged(g, form, Submitted(g, form).value, events, before, workflow)
    ensures Submitted(g, form).Ok?
    ensures SameProgress(Before(g.nodes, |g.nodes|), Run(g, form, Submitted(g, form).value, events),
            Run(g, form, LEGACY_START, events))
  {
    SubmitSucceeds(g, form);
    forall i | 0 <= i < |g.nodes|
      ensures g.nodes[i].key != "" && g.nodes[i].status == WAITING
    {
      assert PathAt(g, i);
    }
    SubmitEstablishesInv(g, form);
    SubmitAgrees(g, form);
    RunAgrees(g, form, Submitted(g, form).value, events, definition, before, workflow);
  }

  lemma SubmitSucceeds(g: Graph, form: Form)
    requires PathGraph(g)
    ensures Submitted(g, form).Ok?
  {
    assert PathAt(g, 0);
    var start := Plan(g.nodes, PENDING, "", "", 0);
    WalkAlongPath(g, start, 0, PENDING, form, {});
    AdvanceShape(g, start, g.nodes[0].key, PENDING, form, {});
    assert StartPlan(g, form) == AdvanceFrom(g, start, g.nodes[0].key, PENDING, form, {});
    SameShapeDistinct(StartPlan(g, form).value.nodes, g.nodes);
  }

  lemma SameShapeDistinct(a: seq<RtNode>, b: seq<RtNode>)
    requires SameShape(a, b) && DistinctKeys(b)
    ensures DistinctKeys(a)
  {
  }

  /** On every single path with at least one approval and no node configuration, for every form
      and every sequence of requests: submitting succeeds, and the graph engine and the older step
      counter make the same progress. */
  lemma {:induction false} EnginesAgreeOnPaths(spec: Spec, order: seq<nat>, form: Form, events: seq<Event>,
      before: Rows, workflow: int)
    requires PathSpec(spec, order) && DefinitionKept(Some(spec), events)
    ensures var g := ParsedGraph(Some(spec));
            && Submitted(g, form).Ok?
            && (DefinitionUnchanged(g, form, Submitted(g, form).value, events, before, workflow) ==>
                  SameProgress(ApprovalCount(InOrder(spec.nodes, order)),
                               Run(g, form, Submitted(g, form).value, events), Run(g, form, LEGACY_START, events)))
  {
    hide PathSpec, PathGraph, DefinitionUnchanged, SameProgress, Run, Submitted, ParsedGraph, RuntimeSteps;
    var g := ParsedGraph(Some(spec));
    PathSpecMakesGraph(spec, order);
    SubmitSucceeds(g, form);
    if DefinitionUnchanged(g, form, Submitted(g, form).value, events, before, workflow) {
      GraphEnginesAgree(g, form, events, Some(spec), before, workflow);
    }
    PathApprovals(spec, order);
  }

  /** The graph of a path meets the conditions under which a pending instance has a running approval. */
  lemma PathNeverStrands(g: Graph, form: Form)
    requires PathGraph(g)
    ensures FreshGraph(g) && Continues(g, form) && EndsDecide(g) && NoActionBusiness(g)
  {
    forall i | 0 <= i < |g.nodes|
      ensures g.nodes[i].key != "" && g.nodes[i].status == WAITING && g.nodes[i].config == NO_CONFIG
      ensures HasSuccessor(g, g.nodes[i], form)
    {
      assert PathAt(g, i);
      if i < |g.nodes| - 1 {
        assert PathAt(g, i + 1);
        assert ResolveCondition([], "", form) == "";
        BuiltInActions(g.nodes[i].config, "APPROVE");
        BuiltInActions(g.nodes[i].config, "REJECT");
      }
    }
  }

  lemma MiddleApproval(path: seq<DefNode>)
    requires |path| == 3 && NodeType(path[1]) == "approval"
    ensures ApprovalCount(path) >= 1
  {
    hide NodeType;
    assert path[..2][..1] == path[..1] && path[..2][1] == path[1];
    assert ApprovalCount(path[..2]) >= 1;
  }

  /** Three nodes listed backwards, with their edges drawn backwards, are a path. */
  lemma BackwardsPath(a: DefNode, b: DefNode, c: DefNode)
    requires a.id != "" && b.id != "" && c.id != "" && a.id != b.id && b.id != c.id && a.id != c.id
    requires ExecKey(a) != ExecKey(b) && ExecKey(b) != ExecKey(c) && ExecKey(a) != ExecKey(c)
    requires NodeType(a) == "start" && NodeType(b) == "approval" && NodeType(c) == "end"
    requires a.data.config == b.data.config == c.data.config == NO_CONFIG
    ensures PathSpec(Spec([c, b, a], [Edge(b.id, c.id), Edge(a.id, b.id)]), [2, 1, 0])
  {
    hide ApprovalCount, NodeType, ExecKey, PathNodes;
    var spec, order := Spec([c, b, a], [Edge(b.id, c.id), Edge(a.id, b.id)]), [2, 1, 0];
    assert InOrder(spec.nodes, order) == [a, b, c];
    BackwardsNodes(a, b, c);
    assert NodeIds(spec) == [c.id, b.id, a.id];
    assert ChainEdgeAt(spec, order, 0) == Edge(a.id, b.id) && ChainEdgeAt(spec, order, 1) == Edge(b.id, c.id);
  }

  lemma BackwardsNodes(a: DefNode, b: DefNode, c: DefNode)
    requires ExecKey(a) != ExecKey(b) && ExecKey(b) != ExecKey(c) && ExecKey(a) != ExecKey(c)
    requires NodeType(a) == "start" && NodeType(b) == "approval" && NodeType(c) == "end"
    requires a.data.config == b.data.config == c.data.config == NO_CONFIG
    ensures PathNodes([a, b, c])
  {
    hide ApprovalCount, NodeType, ExecKey;
    MiddleApproval([a, b, c]);
  }

  lemma PathApprovals(spec: Spec, order: seq<nat>)
    requires PathSpec(spec, order)
    ensures var nodes := ParsedGraph(Some(spec)).nodes;
            Before(nodes, |nodes|) == ApprovalCount(InOrder(spec.nodes, order))
  {
    hide PathNodes, Before, ApprovalCount, OrderedNodes, EdgeMap, KeyMap, ChainMap;
    var path := InOrder(spec.nodes, order);
    PathHasNodes(spec, order);
    PathOrder(spec, order);
    BeforeIsCount(path, |path|);
    assert path[..|path|] == path;
  }
}
