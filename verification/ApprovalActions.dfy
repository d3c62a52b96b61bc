/** What one action on the current node does, stated from the definition, the request and what
    was loaded, and when it is accepted (workflow_runtime.go, approval_runtime_handler.go,
    workflow_business_store.go). */
module ApprovalActions {
  import opened Wrappers
  import opened Text
  import opened WorkflowModel
  import opened WorkflowRuntime
  import opened WorkflowWalk
  import opened WalkTheory
  import opened ApprovalPlans
  import opened BusinessMapping
  import opened Approval
  import opened ApprovalRuns
  import opened ApprovalStatus
  import opened WorkflowBranches
  import opened WorkflowOrder

  // ----- the action a request selects

  /** a is the first configured action with that code, ignoring case; or the built-in one of a node
      that configures none. */
  ghost predicate Selects(config: NodeConfig, action: string, a: ActionConfig) {
    || (exists i :: FirstWithCode(config.actions, action, i) && config.actions[i] == a)
    || (config.actions == [] &&
        a == ActionConfig(action, "", if action == "REJECT" then "REJECTED" else "PENDING", "", false))
  }

  ghost predicate FirstWithCode(actions: seq<ActionConfig>, action: string, i: int) {
    && 0 <= i < |actions| && EqualFold(actions[i].code, action)
    && forall j :: 0 <= j < i ==> !EqualFold(actions[j].code, action)
  }

  lemma {:induction false} FirstMatchingIs(actions: seq<ActionConfig>, action: string, i: nat)
    requires FirstWithCode(actions, action, i)
    ensures FirstMatching(actions, action) == Some(actions[i])
  {
    hide EqualFold;
    if i > 0 {
      assert !EqualFold(actions[0].code, action);
      assert FirstWithCode(actions[1..], action, i - 1) by {
        assert forall j :: 0 <= j < i - 1 ==> actions[1..][j] == actions[j + 1];
      }
      FirstMatchingIs(actions[1..], action, i - 1);
    }
  }

  lemma {:induction false} FirstMatchingAt(actions: seq<ActionConfig>, action: string) returns (i: nat)
    requires FirstMatching(actions, action).Some?
    ensures FirstWithCode(actions, action, i)
  {
    hide EqualFold;
    if EqualFold(actions[0].code, action) {
      i := 0;
    } else {
      i := FirstMatchingAt(actions[1..], action);
      i := i + 1;
      assert forall j :: 0 < j < i ==> actions[j] == actions[1..][j - 1];
    }
  }

  /** Selecting is what the code resolves, for the actions a request may carry. */
  lemma SelectsIff(config: NodeConfig, action: string, a: ActionConfig)
    requires action in ["APPROVE", "REJECT"]
    ensures Selects(config, action, a) <==> ResolveAction(config, action) == Some(a)
  {
    hide EqualFold, FirstMatching;
    if config.actions == [] {
      BuiltInActions(config, action);
      assert forall i :: !FirstWithCode(config.actions, action, i);
    } else {
      if i :| FirstWithCode(config.actions, action, i) && config.actions[i] == a {
        FirstMatchingIs(config.actions, action, i);
      }
      if ResolveAction(config, action) == Some(a) {
        var i := FirstMatchingAt(config.actions, action);
        FirstMatchingIs(config.actions, action, i);
        assert FirstWithCode(config.actions, action, i) && config.actions[i] == a;
      }
    }
  }

  // ----- statuses do not steer the walk

  lemma {:induction false} AtSame(a: string -> Move, b: string -> Move, start: string, n: nat)
    requires forall k {:trigger a(k)} :: a(k) == b(k)
    ensures At(a, start, n) == At(b, start, n)
  {
    if n > 0 {
      AtSame(a, b, start, n - 1);
      assert a(At(a, start, n - 1)) == b(At(a, start, n - 1));
    }
  }

  lemma HaltIgnoresStatus(g: Graph, a: seq<RtNode>, b: seq<RtNode>, start: string, form: Form, key: string)
    requires SameShape(a, b) && HaltsAtKey(g, a, start, form, key)
    ensures HaltsAtKey(g, b, start, form, key)
  {
    hide MoveAt;
    var before, after := Moves(g, a, form), Moves(g, b, form);
    forall k
      ensures before(k) == after(k)
    {
      MoveIgnoresStatus(g, a, b, form, k);
    }
    var n: nat :| HaltsFirstAt(before, start, n) && At(before, start, n) == key;
    forall i | 0 <= i <= n
      ensures At(before, start, i) == At(after, start, i) && HaltsAt(before, start, i) == HaltsAt(after, start, i)
    {
      AtSame(before, after, start, i);
      assert before(At(before, start, i)) == after(At(before, start, i));
    }
    assert HaltsFirstAt(after, start, n);
  }

  lemma SameShapeBack(a: seq<RtNode>, b: seq<RtNode>)
    requires SameShape(a, b)
    ensures SameShape(b, a)
  {
  }

  // ----- where an action leads

  /** A configured target is followed; else the first edge drawn from the current node. */
  function LeadsTo(g: Graph, key: string, a: ActionConfig): string {
    if a.target != "" then a.target else FirstOutgoing(g, key)
  }

  /** The node left is REJECTED by a rejection, be it the action or its status, else APPROVED. */
  function Outcome(action: string, a: ActionConfig): string {
    if action == "REJECT" || a.instanceStatus == "REJECTED" then "REJECTED" else "APPROVED"
  }

  lemma OutcomeIsLeft(action: string, a: ActionConfig)
    requires action in ["APPROVE", "REJECT"]
    ensures LeftStatus(action, a) == Outcome(action, a)
  {
    DifferentLengths(action, "REJECT");
    hide EqualFold, Upper;
    assert action == "APPROVE" ==> |action| == 7;
  }

  /** A successful action walks on from its target and makes the approval where that walk halts, if
      any, the current node; the node it leaves gets the outcome of the action, unless the walk
      comes back to it. */
  lemma ActionFollows(g: Graph, form: Form, first: string, s: Instance, req: Request, env: Env)
      returns (index: nat, a: ActionConfig, key: string)
    requires Inv(g, first, s) && s.currentNodeKey != "" && Step(g, form, s, req, env).Ok?
    ensures index < |s.nodes| && s.nodes[index].key == s.currentNodeKey
    ensures Selects(s.nodes[index].config, req.action, a)
    ensures HaltsAtKey(g, s.nodes, LeadsTo(g, s.currentNodeKey, a), form, key)
    ensures var next := Step(g, form, s, req, env).value;
            && (key == "" || EndAt(g, key) || ApprovalAt(g, key))
            && next.currentNodeKey == (if ApprovalAt(g, key) then key else "")
            && |next.nodes| == |s.nodes|
            && next.nodes[index].status ==
               if next.currentNodeKey == s.currentNodeKey then "RUNNING" else Outcome(req.action, a)
  {
    hide Step, Selects, ResolveAction, HaltsAtKey, LogExplains, Chained, Decided, StatusAt, ApprovalAt, EndAt,
         OneRunning, FirstOutgoing, Outcome;
    CurrentIsFound(g, first, s);
    OnlyPendingActs(g, form, s, req, env);
    index, a, key := ActionLeaves(g, form, first, s, req, env);
    SelectsIff(s.nodes[index].config, req.action, a);
    SameShapeBack(ActionStart(s.nodes, index, req.action, a).nodes, s.nodes);
    HaltIgnoresStatus(
      g, ActionStart(s.nodes, index, req.action, a).nodes, s.nodes, ActionTarget(g, s.nodes[index], a), form, key);
    LeftNodeStatus(g, form, first, s, req, env, index, a);
    OutcomeIsLeft(req.action, a);
  }

  lemma LeftNodeStatus(
      g: Graph, form: Form, first: string, s: Instance, req: Request, env: Env, index: nat, a: ActionConfig)
    requires Inv(g, first, s) && s.currentNodeKey != "" && Step(g, form, s, req, env).Ok?
    requires IndexOf(s.nodes, s.currentNodeKey) == Some(index)
    requires ResolveAction(s.nodes[index].config, req.action) == Some(a)
    ensures var next := Step(g, form, s, req, env).value;
            && |next.nodes| == |s.nodes|
            && next.nodes[index].status ==
               if next.currentNodeKey == s.currentNodeKey then "RUNNING" else LeftStatus(req.action, a)
  {
    hide ResolveAction, RuntimeStep, LegacyStep, LogExplains, Chained, LeftStatus;
    CurrentIsApproval(g, first, s);
    var i, c := RuntimeStepWalks(g, form, s, req, env);
    assert s.nodes[index] == g.nodes[index].(status := s.nodes[index].status);
    var left := WithStatus(s.nodes, index, LeftStatus(req.action, a));
    assert left[index].key == s.currentNodeKey && left[index].nodeType == "approval";
  }

  // ----- the business status

  /** What the instance's business status becomes: that of the loaded row, if one was loaded, else
      that of the end node where the walk halted, if it has one, else that of the action; trimmed,
      and only if it is not blank. */
  function Business(g: Graph, key: string, a: ActionConfig, row: Option<Row>): string {
    Trim(
      if row.Some? then row.value.businessStatus
      else if EndAt(g, key) && g.nodes[IndexOf(g.nodes, key).value].config.finalBusinessStatus != ""
      then g.nodes[IndexOf(g.nodes, key).value].config.finalBusinessStatus
      else a.businessStatus)
  }

  /** The status an action gives the instance: that of the loaded row, if it has one; else at an end
      its final status, or REJECTED for an action that rejects and APPROVED for any other; anywhere
      else the status of the action, PENDING if it has none. */
  function NextStatus(g: Graph, key: string, wanted: string, row: Option<Row>): string {
    if row.Some? && Trim(row.value.workflowStatus) != "" then Trim(row.value.workflowStatus)
    else if EndAt(g, key) then
      var final := g.nodes[IndexOf(g.nodes, key).value].config.finalStatus;
      if final != "" then final else if wanted == "REJECTED" then "REJECTED" else "APPROVED"
    else if wanted == "" then "PENDING" else wanted
  }

  /** The step of the node where the walk halted, if it has one, else the step before. */
  function NextStep(g: Graph, key: string, step: int): int {
    if ApprovalAt(g, key) || (EndAt(g, key) && g.nodes[IndexOf(g.nodes, key).value].stepIndex >= 0)
    then g.nodes[IndexOf(g.nodes, key).value].stepIndex
    else step
  }

  /** What a plan carries, given where its walk halts. */
  lemma PlanGives(g: Graph, plan: Plan, start: string, status: string, a: ActionConfig, form: Form, key: string)
    requires SameShape(plan.nodes, g.nodes) && HaltsAtKey(g, plan.nodes, start, form, key)
    requires plan.currentNodeKey == ""
    requires Advance(g, plan, start, status, a.businessStatus, form).Ok?
    ensures var planned := Advance(g, plan, start, status, a.businessStatus, form).value;
            && Trim(planned.businessStatus) == Business(g, key, a, None)
            && planned.instanceStatus == NextStatus(g, key, status, None)
            && planned.currentStep == NextStep(g, key, plan.currentStep)
            && planned.currentNodeKey == (if ApprovalAt(g, key) then key else "") && CanStopAt(g, key)
  {
    hide Advance, HaltsAtKey, Trim, WithStatus;
    var halt, marked := PlanHalts(g, plan, start, status, a.businessStatus, form);
    HaltKeyUnique(g, plan.nodes, start, form, halt, key);
    SameShapeIndex(marked, plan.nodes, key);
    SameShapeIndex(plan.nodes, g.nodes, key);
    if key != "" && IndexOf(plan.nodes, key).Some? {
      HaltKind(g, plan.nodes, start, form, key);
      var e := IndexOf(plan.nodes, key).value;
      assert marked[e] == plan.nodes[e].(status := marked[e].status);
      assert plan.nodes[e] == g.nodes[e].(status := plan.nodes[e].status);
    }
  }

  lemma StepCopies(g: Graph, form: Form, s: Instance, req: Request, env: Env)
    requires s.currentNodeKey != "" && IndexOf(s.nodes, s.currentNodeKey).Some? && Step(g, form, s, req, env).Ok?
    ensures var plan := ActionPlan(g, s.nodes, s.currentNodeKey, req.action, req.comment, form);
            var next := Step(g, form, s, req, env).value;
            plan.Ok? &&
            var business := Trim(if env.row.Some? then env.row.value.businessStatus else plan.value.businessStatus);
            && next.businessStatus == (if business == "" then s.businessStatus else business)
            && (business != "" ==> !env.adapterFails)
            && next.currentStep == plan.value.currentStep
            && next.status == if env.row.Some? && Trim(env.row.value.workflowStatus) != ""
                              then Trim(env.row.value.workflowStatus) else plan.value.instanceStatus
  {
    hide ActionPlan, UpdateRows, IndexOf, Trim;
  }

  /** What an accepted action writes on the instance: the status, the step and the business status
      that the row, the node where the walk halted and the action give; a blank business status
      leaves the one before. */
  lemma ActionWrites(g: Graph, form: Form, first: string, s: Instance, req: Request, env: Env)
      returns (index: nat, a: ActionConfig, key: string)
    requires Inv(g, first, s) && s.currentNodeKey != "" && Step(g, form, s, req, env).Ok?
    ensures index < |s.nodes| && s.nodes[index].key == s.currentNodeKey
    ensures Selects(s.nodes[index].config, req.action, a)
    ensures HaltsAtKey(g, s.nodes, LeadsTo(g, s.currentNodeKey, a), form, key)
    ensures var business, next := Business(g, key, a, env.row), Step(g, form, s, req, env).value;
            && next.businessStatus == (if business == "" then s.businessStatus else business)
            && (business != "" ==> !env.adapterFails)
            && next.status == NextStatus(g, key, a.instanceStatus, env.row)
            && next.currentStep == NextStep(g, key, s.nodes[index].stepIndex)
  {
    hide Step, Selects, ResolveAction, HaltsAtKey, LogExplains, Chained, OneRunning, Decided, StatusAt, Trim,
         ActionPlan, Merged, Advance, ApprovalAt, EndAt, Outcome, CanStopAt, Business, NextStatus, NextStep;
    CurrentIsFound(g, first, s);
    OnlyPendingActs(g, form, s, req, env);
    StepCopies(g, form, s, req, env);
    index, a, key := ActionLeaves(g, form, first, s, req, env);
    SelectsIff(s.nodes[index].config, req.action, a);
    var start := ActionStart(s.nodes, index, req.action, a);
    MergeRestores(g.nodes, s.nodes);
    var i, c := ActionPlanWalk(g, s.nodes, s.currentNodeKey, req.action, req.comment, form);
    ShapeChain(start.nodes, s.nodes, g.nodes);
    PlanGives(g, start, ActionTarget(g, s.nodes[index], a), Preferred(a.instanceStatus), a, form, key);
    SameShapeBack(start.nodes, s.nodes);
    HaltIgnoresStatus(g, start.nodes, s.nodes, ActionTarget(g, s.nodes[index], a), form, key);
    RowOverrules(g, key, a, env.row);
    LeadsToTarget(g, s.nodes[index], a);
  }

  lemma RowOverrules(g: Graph, key: string, a: ActionConfig, row: Option<Row>)
    ensures Business(g, key, a, row) ==
            if row.Some? then Trim(row.value.businessStatus) else Business(g, key, a, None)
    ensures NextStatus(g, key, a.instanceStatus, row) ==
            if row.Some? && Trim(row.value.workflowStatus) != "" then Trim(row.value.workflowStatus)
            else NextStatus(g, key, Preferred(a.instanceStatus), None)
  {
    hide Trim, EndAt;
  }

  lemma ShapeChain(a: seq<RtNode>, b: seq<RtNode>, c: seq<RtNode>)
    requires SameShape(a, b) && SameShape(b, c)
    ensures SameShape(a, c)
  {
    assert forall i :: 0 <= i < |a| ==> b[i] == c[i].(status := b[i].status);
  }

  /** Without a current node the step counter acts: it accepts an action on a pending instance unless
      there is a step whose assignee the actor does not match; a rejection rejects, an approval goes
      to the next step or, after the last one, approves. The business status and the node rows stay,
      and the log gets the action at the step it was taken, without node keys. */
  lemma CounterDecides(g: Graph, form: Form, s: Instance, req: Request, env: Env)
    requires s.currentNodeKey == ""
    ensures var steps := RuntimeSteps(env.definition);
            Step(g, form, s, req, env).Ok? <==>
            && s.status == "PENDING" && (req.action == "APPROVE" || req.action == "REJECT")
            && (0 <= s.currentStep < |steps| ==> env.matches(steps[s.currentStep]))
    ensures Step(g, form, s, req, env).Ok? ==>
              var next, last := Step(g, form, s, req, env).value, |RuntimeSteps(env.definition)| - 1;
              && next.businessStatus == s.businessStatus && next.nodes == s.nodes && next.currentNodeKey == ""
              && next.log == s.log + [LogRow("", "", s.currentStep, req.actor, req.action)]
              && (req.action == "REJECT" ==> next.status == "REJECTED" && next.currentStep == s.currentStep)
              && (req.action == "APPROVE" && s.currentStep >= 0 ==>
                    if s.currentStep < last then next.status == "PENDING" && next.currentStep == s.currentStep + 1
                    else next.status == "APPROVED" && next.currentStep == s.currentStep)
  {
  }

  /** What an accepted request writes: blank for the step counter, else what the row or the plan gives. */
  ghost function Written(g: Graph, form: Form, s: Instance, e: Event): string {
    var plan := ActionPlan(g, s.nodes, s.currentNodeKey, e.req.action, e.req.comment, form);
    if Step(g, form, s, e.req, e.env).Err? || s.currentNodeKey == "" then ""
    else if e.env.row.Some? then Trim(e.env.row.value.businessStatus)
    else if plan.Ok? then Trim(plan.value.businessStatus)
    else ""
  }

  ghost function LastWritten(g: Graph, form: Form, s: Instance, events: seq<Event>): string {
    if events == [] then s.businessStatus
    else
      var n := |events| - 1;
      var written := Written(g, form, Run(g, form, s, events[..n]), events[n]);
      if written != "" then written else LastWritten(g, form, s, events[..n])
  }

  /** Over a run the business status is the last one written that is not blank. */
  lemma {:induction false} RunBusiness(g: Graph, form: Form, first: string, s: Instance, events: seq<Event>)
    requires Inv(g, first, s)
    ensures Run(g, form, s, events).businessStatus == LastWritten(g, form, s, events)
  {
    hide Step, Inv, ActionPlan, Trim;
    if events != [] {
      var n := |events| - 1;
      var at, e := Run(g, form, s, events[..n]), events[n];
      RunBusiness(g, form, first, s, events[..n]);
      RunKeepsInv(g, form, first, s, events[..n]);
      if Step(g, form, at, e.req, e.env).Ok? {
        if at.currentNodeKey != "" {
          CurrentIsFound(g, first, at);
          StepCopies(g, form, at, e.req, e.env);
        } else {
          CounterDecides(g, form, at, e.req, e.env);
        }
      }
    }
  }

  // ----- exactly when an action is accepted

  /** The walk halts where the engine can stop: a dead end, an end or an approval. */
  ghost predicate CanStopAt(g: Graph, key: string) {
    key == "" || EndAt(g, key) || ApprovalAt(g, key)
  }

  ghost predicate Acceptable(
      g: Graph, form: Form, s: Instance, req: Request, env: Env, node: RtNode, a: ActionConfig, key: string)
  {
    && env.matches(node.assignee) && Selects(node.config, req.action, a)
    && (a.requireComment ==> req.comment.Some? && Trim(req.comment.value) != "")
    && HaltsAtKey(g, s.nodes, LeadsTo(g, node.key, a), form, key) && CanStopAt(g, key)
    && (env.adapterFails ==> Business(g, key, a, env.row) == "")
  }

  lemma CommentGiven(g: Graph, form: Form, s: Instance, req: Request, env: Env, index: nat, a: ActionConfig)
    requires Step(g, form, s, req, env).Ok? && Merged(g.nodes, s.nodes) == s.nodes
    requires s.currentNodeKey != "" && IndexOf(s.nodes, s.currentNodeKey) == Some(index)
    requires ResolveAction(s.nodes[index].config, req.action) == Some(a)
    ensures env.matches(s.nodes[index].assignee)
    ensures a.requireComment ==> req.comment.Some? && Trim(req.comment.value) != ""
  {
    hide Merged, ResolveAction, Advance, Trim, UpdateRows;
  }

  lemma AcceptedIsAcceptable(g: Graph, form: Form, first: string, s: Instance, req: Request, env: Env)
      returns (index: nat, a: ActionConfig, key: string)
    requires Inv(g, first, s) && s.currentNodeKey != "" && Step(g, form, s, req, env).Ok?
    ensures IndexOf(s.nodes, s.currentNodeKey) == Some(index)
    ensures Acceptable(g, form, s, req, env, s.nodes[index], a, key)
  {
    hide Step, Selects, ResolveAction, HaltsAtKey, LogExplains, Chained, OneRunning, Decided, StatusAt, Trim, Merged,
         Business, ApprovalAt, EndAt, FirstOutgoing, LeadsTo, IndexOf;
    index, a, key := ActionWrites(g, form, first, s, req, env);
    CurrentIsFound(g, first, s);
    OnlyPendingActs(g, form, s, req, env);
    var i, c, k := ActionLeaves(g, form, first, s, req, env);
    SameKeySameNode(g, s, index, i);
    SelectsIff(s.nodes[i].config, req.action, a);
    SelectsIff(s.nodes[i].config, req.action, c);
    SameShapeBack(ActionStart(s.nodes, i, req.action, c).nodes, s.nodes);
    HaltIgnoresStatus(
      g, ActionStart(s.nodes, i, req.action, c).nodes, s.nodes, ActionTarget(g, s.nodes[i], c), form, k);
    LeadsToTarget(g, s.nodes[i], c);
    HaltKeyUnique(g, s.nodes, LeadsTo(g, s.currentNodeKey, a), form, key, k);
    MergeRestores(g.nodes, s.nodes);
    CommentGiven(g, form, s, req, env, i, a);
  }

  lemma LeadsToTarget(g: Graph, node: RtNode, a: ActionConfig)
    ensures ActionTarget(g, node, a) == LeadsTo(g, node.key, a)
  {
  }

  lemma SameKeySameNode(g: Graph, s: Instance, i: nat, j: nat)
    requires WellKeyed(g.nodes) && SameShape(s.nodes, g.nodes) && i < |s.nodes|
    requires s.nodes[i].key == s.currentNodeKey && IndexOf(s.nodes, s.currentNodeKey) == Some(j)
    ensures i == j
  {
    assert g.nodes[i].key == s.nodes[i].key && g.nodes[j].key == s.nodes[j].key;
  }

  /** A walk that halts where the engine can stop makes a plan. */
  lemma HaltMakesPlan(g: Graph, plan: Plan, start: string, status: string, business: string, form: Form, key: string)
    requires SameShape(plan.nodes, g.nodes) && HaltsAtKey(g, plan.nodes, start, form, key) && CanStopAt(g, key)
    ensures Advance(g, plan, start, status, business, form).Ok?
  {
    hide Advance, Preferred;
    var move := Moves(g, plan.nodes, form);
    var n: nat :| HaltsFirstAt(move, start, n) && At(move, start, n) == key;
    var passed := seq(n, i requires 0 <= i < n => At(move, start, i));
    PlanIsOutcomeAtFirstHalt(g, plan, start, status, business, form, n, passed);
    SameShapeIndex(MarkPassed(plan.nodes, passed), plan.nodes, key);
    SameShapeIndex(plan.nodes, g.nodes, key);
  }

  lemma PlannedIsAccepted(
      g: Graph, form: Form, s: Instance, req: Request, env: Env, index: nat, a: ActionConfig, start: Plan)
    requires s.status == PENDING && req.action in ["APPROVE", "REJECT"] && Merged(g.nodes, s.nodes) == s.nodes
    requires s.currentNodeKey != "" && IndexOf(s.nodes, s.currentNodeKey) == Some(index)
    requires s.nodes[index].nodeType == "approval" && s.nodes[index].status == RUNNING
    requires env.matches(s.nodes[index].assignee) && ResolveAction(s.nodes[index].config, req.action) == Some(a)
    requires a.requireComment ==> req.comment.Some? && Trim(req.comment.value) != ""
    requires start == ActionStart(s.nodes, index, req.action, a)
    requires var target := ActionTarget(g, s.nodes[index], a);
             var r := Advance(g, start, target, Preferred(a.instanceStatus), a.businessStatus, form);
             r.Ok? &&
             var business := if env.row.Some? then env.row.value.businessStatus else r.value.businessStatus;
             env.adapterFails ==> Trim(business) == ""
    ensures Step(g, form, s, req, env).Ok?
  {
    hide Merged, ResolveAction, Advance, Trim, UpdateRows, ActionTarget, LeftStatus;
  }

  /** An action on the current node is accepted if and only if the actor matches its assignee, it
      selects an action whose required comment is given, the walk from that action's target halts at
      a dead end, an end or an approval, and the adapter does not refuse a business status it is
      given. */
  lemma ActionAcceptedIff(g: Graph, form: Form, first: string, s: Instance, req: Request, env: Env)
    requires Inv(g, first, s) && s.status == PENDING && s.currentNodeKey != "" && req.action in ["APPROVE", "REJECT"]
    ensures Step(g, form, s, req, env).Ok? <==>
            exists node, a, key ::
              node in s.nodes && node.key == s.currentNodeKey && Acceptable(g, form, s, req, env, node, a, key)
  {
    hide Step, Acceptable, LogExplains, Chained;
    CurrentIsFound(g, first, s);
    if Step(g, form, s, req, env).Ok? {
      var index, a, key := AcceptedIsAcceptable(g, form, first, s, req, env);
      assert s.nodes[index] in s.nodes;
    }
    if node, a, key :|
      node in s.nodes && node.key == s.currentNodeKey && Acceptable(g, form, s, req, env, node, a, key) {
      var index :| 0 <= index < |s.nodes| && s.nodes[index] == node;
      AcceptableIsAccepted(g, form, first, s, req, env, index, a, key);
    }
  }

  lemma AcceptableIsAccepted(
      g: Graph, form: Form, first: string, s: Instance, req: Request, env: Env,
      index: nat, a: ActionConfig, key: string)
    requires Inv(g, first, s) && s.status == PENDING && s.currentNodeKey != "" && req.action in ["APPROVE", "REJECT"]
    requires index < |s.nodes| && s.nodes[index].key == s.currentNodeKey
    requires Acceptable(g, form, s, req, env, s.nodes[index], a, key)
    ensures Step(g, form, s, req, env).Ok?
  {
    hide Step, Selects, ResolveAction, HaltsAtKey, LogExplains, Chained, Trim, Merged, Advance, CanStopAt, ActionTarget,
         LeadsTo;
    CurrentIsFound(g, first, s);
    SameKeySameNode(g, s, index, IndexOf(s.nodes, s.currentNodeKey).value);
    CurrentIsApproval(g, first, s);
    MergeRestores(g.nodes, s.nodes);
    SelectsIff(s.nodes[index].config, req.action, a);
    LeadsToTarget(g, s.nodes[index], a);
    var start := ActionStart(s.nodes, index, req.action, a);
    SameShapeBack(start.nodes, s.nodes);
    HaltIgnoresStatus(g, s.nodes, start.nodes, LeadsTo(g, s.currentNodeKey, a), form, key);
    ShapeChain(start.nodes, s.nodes, g.nodes);
    HaltMakesPlan(g, start, LeadsTo(g, s.currentNodeKey, a), Preferred(a.instanceStatus), a.businessStatus, form, key);
    PlanGives(g, start, LeadsTo(g, s.currentNodeKey, a), Preferred(a.instanceStatus), a, form, key);
    CurrentRuns(g, first, s, index);
    PlannedIsAccepted(g, form, s, req, env, index, a, start);
  }

  lemma CurrentRuns(g: Graph, first: string, s: Instance, index: nat)
    requires Inv(g, first, s) && index < |s.nodes| && s.nodes[index].key == s.currentNodeKey
    requires g.nodes[index].nodeType == "approval"
    ensures s.nodes[index].nodeType == "approval" && s.nodes[index].status == RUNNING
  {
    hide LogExplains, Chained;
  }

  /** Why an action on the current node is refused, in the order of the checks: the actor, the action,
      its comment. */
  lemma RefusalReasons(g: Graph, form: Form, first: string, s: Instance, req: Request, env: Env) returns (node: RtNode)
    requires Inv(g, first, s) && s.status == PENDING && s.currentNodeKey != "" && req.action in ["APPROVE", "REJECT"]
    ensures node in s.nodes && node.key == s.currentNodeKey
    ensures !env.matches(node.assignee) ==> Step(g, form, s, req, env) == Err(AssigneeMismatch)
    ensures env.matches(node.assignee) && (forall a :: !Selects(node.config, req.action, a)) ==>
              Step(g, form, s, req, env) == Err(PlanFailed(ActionNotAllowed(req.action)))
    ensures forall a :: env.matches(node.assignee) && Selects(node.config, req.action, a) && a.requireComment &&
                        (req.comment.None? || Trim(req.comment.value) == "") ==>
              Step(g, form, s, req, env) == Err(PlanFailed(CommentRequired(req.action)))
  {
    hide LogExplains, Chained, Selects, ResolveAction, Merged, Step, Trim, OneRunning;
    CurrentIsFound(g, first, s);
    CurrentIsApproval(g, first, s);
    MergeRestores(g.nodes, s.nodes);
    var index := IndexOf(s.nodes, s.currentNodeKey).value;
    CurrentRuns(g, first, s, index);
    node := s.nodes[index];
    RefusedAt(g, form, s, req, env, index);
    forall a
      ensures Selects(node.config, req.action, a) <==> ResolveAction(node.config, req.action) == Some(a)
    {
      SelectsIff(node.config, req.action, a);
    }
  }

  lemma RefusedAt(g: Graph, form: Form, s: Instance, req: Request, env: Env, index: nat)
    requires s.status == PENDING && req.action in ["APPROVE", "REJECT"] && Merged(g.nodes, s.nodes) == s.nodes
    requires s.currentNodeKey != "" && IndexOf(s.nodes, s.currentNodeKey) == Some(index)
    requires s.nodes[index].nodeType == "approval" && s.nodes[index].status == RUNNING
    ensures var node, r := s.nodes[index], Step(g, form, s, req, env);
            var chosen := ResolveAction(node.config, req.action);
            if !env.matches(node.assignee) then r == Err(AssigneeMismatch)
            else if chosen.None? then r == Err(PlanFailed(ActionNotAllowed(req.action)))
            else if chosen.value.requireComment && (req.comment.None? || Trim(req.comment.value) == "")
            then r == Err(PlanFailed(CommentRequired(req.action)))
            else true
  {
    hide ResolveAction, Merged, Advance, Trim, UpdateRows, LeftStatus, ActionTarget, AfterPlan;
  }

  // ----- submitting

  /** The first node of type start, else the first node. */
  ghost predicate StartsAt(nodes: seq<RtNode>, start: string) {
    || (exists i :: FirstStart(nodes, i) && nodes[i].key == start)
    || (nodes != [] && nodes[0].key == start && forall i :: 0 <= i < |nodes| ==> nodes[i].nodeType != "start")
  }

  ghost predicate FirstStart(nodes: seq<RtNode>, i: int) {
    0 <= i < |nodes| && nodes[i].nodeType == "start" && forall j :: 0 <= j < i ==> nodes[j].nodeType != "start"
  }

  lemma {:induction false} FirstStartIs(nodes: seq<RtNode>, i: nat)
    requires FirstStart(nodes, i)
    ensures FirstOfType(nodes, "start") == nodes[i]
  {
    if i > 0 {
      assert forall j :: 0 <= j < i ==> nodes[1..][j] == nodes[j + 1];
      FirstStartIs(nodes[1..], i - 1);
    }
  }

  lemma {:induction false} FirstStartExists(nodes: seq<RtNode>, some: nat) returns (i: nat)
    requires some < |nodes| && nodes[some].nodeType == "start"
    ensures FirstStart(nodes, i)
  {
    if nodes[0].nodeType == "start" {
      i := 0;
    } else {
      i := FirstStartExists(nodes[1..], some - 1);
      assert forall j :: 0 < j <= i ==> nodes[j] == nodes[1..][j - 1];
      i := i + 1;
    }
  }

  lemma StartsAtIff(nodes: seq<RtNode>, start: string)
    requires nodes != []
    ensures StartsAt(nodes, start) <==> start == StartKey(nodes)
  {
    if some :| 0 <= some < |nodes| && nodes[some].nodeType == "start" {
      var i := FirstStartExists(nodes, some);
      forall k | FirstStart(nodes, k)
        ensures FirstOfType(nodes, "start") == nodes[k]
      {
        FirstStartIs(nodes, k);
      }
      assert FirstStart(nodes, i) && FirstOfType(nodes, "start") == nodes[i];
    }
  }

  const NO_ACTION := ActionConfig("", "", "", "", false)

  /** A submitted request starts at the start node; the approval where the walk halts, if any, is
      the current node; it has no business status and no log yet. */
  lemma SubmissionFollows(g: Graph, form: Form) returns (start: string, key: string)
    requires g.nodes != [] && Submitted(g, form).Ok?
    ensures StartsAt(g.nodes, start) && HaltsAtKey(g, g.nodes, start, form, key)
    ensures var s := Submitted(g, form).value;
            && CanStopAt(g, key) && s.currentNodeKey == (if ApprovalAt(g, key) then key else "")
            && s.status == NextStatus(g, key, "", None) && s.currentStep == NextStep(g, key, 0)
            && s.businessStatus == "" && s.log == []
  {
    hide Advance, HaltsAtKey, StartKey, StartsAt, CanStopAt, ApprovalAt, NextStatus, NextStep, Business;
    start := StartKey(g.nodes);
    StartsAtIff(g.nodes, start);
    var plan := Plan(g.nodes, PENDING, "", "", 0);
    var marked;
    key, marked := PlanHalts(g, plan, start, "", "", form);
    PlanGives(g, plan, start, "", NO_ACTION, form, key);
  }

  /** A request can be submitted if and only if the node keys are distinct and the walk from the
      start node halts at a dead end, an end or an approval. */
  lemma SubmissionAcceptedIff(g: Graph, form: Form)
    requires g.nodes != []
    ensures Submitted(g, form).Ok? <==>
            DistinctKeys(g.nodes) &&
            exists start, key ::
              StartsAt(g.nodes, start) && HaltsAtKey(g, g.nodes, start, form, key) && CanStopAt(g, key)
  {
    hide Advance, HaltsAtKey, StartKey, StartsAt, CanStopAt;
    var plan := Plan(g.nodes, PENDING, "", "", 0);
    if Submitted(g, form).Ok? {
      var start, key := SubmissionFollows(g, form);
      KeysStay(g, plan, StartKey(g.nodes), form);
    }
    if DistinctKeys(g.nodes) {
      if start, key :| StartsAt(g.nodes, start) && HaltsAtKey(g, g.nodes, start, form, key) && CanStopAt(g, key) {
        StartsAtIff(g.nodes, start);
        HaltMakesPlan(g, plan, start, "", "", form, key);
        KeysStay(g, plan, start, form);
      }
    }
  }

  lemma KeysStay(g: Graph, plan: Plan, start: string, form: Form)
    requires Advance(g, plan, start, "", "", form).Ok?
    ensures var p := Advance(g, plan, start, "", "", form).value;
            |p.nodes| == |plan.nodes| && forall i :: 0 <= i < |plan.nodes| ==> p.nodes[i].key == plan.nodes[i].key
  {
    hide Advance;
    var key, marked := PlanHalts(g, plan, start, "", "", form);
    assert forall i :: 0 <= i < |plan.nodes| ==> marked[i].key == plan.nodes[i].key;
  }

  ghost predicate StartThenEnd(a: RtNode, b: RtNode) {
    && a.key != "" && b.key != "" && a.key != b.key && a.nodeType == "start" && b.nodeType == "end"
    && b.config.finalStatus == "" && b.stepIndex == -1
  }

  lemma StartEnds(g: Graph, a: RtNode, b: RtNode, form: Form)
    requires StartThenEnd(a, b) && g.nodes == [a, b] && FirstOutgoing(g, a.key) == b.key
    ensures Submitted(g, form) ==
            Ok(Instance(APPROVED, "", "", 0,
                        [a.(status := APPROVED), b.(status := APPROVED)], []))
  {
    hide FirstOutgoing;
    assert IndexOf(g.nodes, a.key) == Some(0) && StartKey(g.nodes) == a.key;
    var marked := WithStatus(g.nodes, 0, APPROVED);
    assert marked == [a.(status := APPROVED), b];
    assert IndexOf(marked[1..], b.key) == Some(0) && IndexOf(marked, b.key) == Some(1);
    assert WithStatus(marked, 1, APPROVED) == [a.(status := APPROVED), b.(status := APPROVED)];
    var plan := Plan(g.nodes, PENDING, "", "", 0);
    assert Advance(g, plan, a.key, "", "", form) ==
           AdvanceFrom(g, plan.(nodes := marked), b.key, PENDING, form, {} + {a.key});
  }

  lemma DefaultGraph(raw: Option<Spec>) returns (a: RtNode, b: RtNode)
    requires raw.None? || raw.value.nodes == []
    ensures StartThenEnd(a, b) && a.key == "start" && b.key == "end"
    ensures ParsedGraph(raw).nodes == [a, b] && FirstOutgoing(ParsedGraph(raw), a.key) == b.key
  {
    var nodes := DEFAULT_SPEC.nodes;
    NodeIsKeyed(nodes[0]);
    NodeIsKeyed(nodes[1]);
    var g := ParsedGraph(raw);
    assert OrderedNodes(Effective(raw)) == nodes;
    a, b := g.nodes[0], g.nodes[1];
    assert g.nodes[..1] == [a];
    assert ChainMap([a]) == map[];
    assert g.outgoing == AddEdge(ChainMap(g.nodes[..1]), a.key, b.key);
  }

  /** A workflow without nodes is start and end: a request under it is approved on submission. */
  lemma EmptyWorkflowApproves(raw: Option<Spec>, form: Form)
    requires raw.None? || raw.value.nodes == []
    ensures Submitted(ParsedGraph(raw), form).Ok?
    ensures var s := Submitted(ParsedGraph(raw), form).value;
            && s.status == "APPROVED" && s.currentNodeKey == "" && |s.nodes| == 2
            && s.nodes[0].key == "start" && s.nodes[0].status == "APPROVED"
            && s.nodes[1].key == "end" && s.nodes[1].status == "APPROVED"
  {
    hide Submitted, ParsedGraph, StartThenEnd;
    var a, b := DefaultGraph(raw);
    StartEnds(ParsedGraph(raw), a, b, form);
  }

  // ----- a configured target against the first edge

  /** An approval whose rejection is configured to lead to an end, while its first edge leads to
      another approval. */
  ghost predicate RejectsToEnd(one: RtNode, two: RtNode, end: RtNode) {
    && one.nodeType == "approval" && one.key != "" && one.status == WAITING
    && one.config.actions == [ActionConfig("REJECT", end.key, "REJECTED", "", false)]
    && BareApproval(two) && end.nodeType == "end" && end.key != "" && end.status == WAITING
    && end.config.finalStatus == "" && end.config.finalBusinessStatus == ""
    && one.key != two.key && two.key != end.key && one.key != end.key
  }

  function Fork(one: RtNode, two: RtNode, end: RtNode): Graph {
    Graph([one, two, end], map[one.key := [two.key, end.key]])
  }

  lemma ForkSubmitted(one: RtNode, two: RtNode, end: RtNode, form: Form)
    requires RejectsToEnd(one, two, end)
    ensures Submitted(Fork(one, two, end), form) ==
            Ok(Instance(PENDING, "", one.key, one.stepIndex, [Running(one), two, end], []))
  {
    var g := Fork(one, two, end);
    assert IndexOf(g.nodes, one.key) == Some(0) && StartKey(g.nodes) == one.key;
    assert WithStatus(g.nodes, 0, RUNNING) == [Running(one), two, end];
  }

  lemma ForkRejected(one: RtNode, two: RtNode, end: RtNode, form: Form)
    requires RejectsToEnd(one, two, end)
    ensures var r := ActionPlan(Fork(one, two, end), [Running(one), two, end], one.key, "REJECT", None, form);
            && r.Ok? && r.value.currentNodeKey == "" && r.value.instanceStatus == REJECTED
            && r.value.businessStatus == ""
            && SameShape(r.value.nodes, [one, two, end]) && r.value.nodes[1].status == WAITING
  {
    hide Merged, EqualFold, Trim;
    var rows := [Running(one), two, end];
    MergeRestores([one, two, end], rows);
    DifferentLengths("REJECT", "REJECT");
    assert IndexOf(rows, one.key) == Some(0);
    var left := WithStatus(rows, 0, REJECTED);
    assert left == [one.(status := REJECTED), two, end];
    assert IndexOf(left[1..][1..], end.key) == Some(0) && IndexOf(left[1..], end.key) == Some(1);
    assert IndexOf(left, end.key) == Some(2);
  }

  /** Rejecting it ends the instance at the configured end; the approval on the first edge is never reached. */
  lemma TargetBeatsEdge(one: RtNode, two: RtNode, end: RtNode, form: Form, env: Env)
    requires RejectsToEnd(one, two, end) && env.matches(one.assignee) && env.row == None
    ensures var g := Fork(one, two, end);
            Submitted(g, form).Ok? &&
            var r := Step(g, form, Submitted(g, form).value, Request("REJECT", None, 0), env);
            r.Ok? && r.value.status == REJECTED && r.value.currentNodeKey == "" && FirstOutgoing(g, one.key) == two.key
  {
    hide Submitted, ActionPlan;
    ForkSubmitted(one, two, end, form);
    ForkRejected(one, two, end, form);
    assert IndexOf([Running(one), two, end], one.key) == Some(0);
  }
}
