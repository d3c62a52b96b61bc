/** The instance status: what the mapping table can change, and when a pending instance has a
    node that waits for somebody. */
module ApprovalStatus {
  import opened Wrappers
  import opened Text
  import opened WorkflowModel
  import opened WorkflowRuntime
  import opened WorkflowWalk
  import opened WalkTheory
  import opened ApprovalPlans
  import opened BusinessMapping
  import opened Approval
  import opened ApprovalRuns

  /** The row was loaded from the table as syncing this definition left it. */
  ghost predicate LoadedFor(g: Graph, before: Rows, workflow: int, nodeKey: string, action: string, row: Option<Row>) {
    MayLoad(Upserted(WithoutWorkflow(before, workflow), workflow, DefinitionMappings(g.nodes)), workflow, nodeKey,
        action, row)
  }

  lemma ConfiguredByAction(config: NodeConfig, action: string)
    requires ResolveAction(config, action).Some?
    ensures var a := ResolveAction(config, action).value;
            ConfiguredRow(config.actions, action) ==
            if Blank(a.businessStatus) then None else Some(Row(Preferred(a.instanceStatus), Trim(a.businessStatus)))
  {
    hide Upper, IsSpace;
    if FirstMatching(config.actions, action).None? {
      assert Blank(ResolveAction(config, action).value.businessStatus);
    }
  }

  lemma PendingIsTrimmed(status: string)
    requires status == PENDING
    ensures Trim(status) == status
  {
    assert status[0] == 'P' && status[|status| - 1] == 'G';
    TrimKeeps(status);
  }

  lemma PreferredTrimmed(status: string, preferred: string)
    requires Trim(status) == status && preferred == Preferred(status)
    ensures Trim(preferred) == preferred && !Blank(preferred)
  {
    if status == "" {
      PendingIsTrimmed(preferred);
    }
  }

  /** The status and business status after the mapping, for any plan: an action that carries a
      business status dictates both, any other leaves the plan alone. */
  lemma TransitionOfAction(plan: Plan, config: NodeConfig, action: string, adapterFails: bool)
    requires ResolveAction(config, action).Some? && TrimmedStatuses(config.actions)
    requires Transition(plan, ConfiguredRow(config.actions, action), adapterFails).Some?
    ensures var a := ResolveAction(config, action).value;
            Transition(plan, ConfiguredRow(config.actions, action), adapterFails) ==
            if Blank(a.businessStatus) then Some((plan.instanceStatus, Trim(plan.businessStatus)))
            else Some((Preferred(a.instanceStatus), Trim(a.businessStatus)))
  {
    ConfiguredByAction(config, action);
    var a := ResolveAction(config, action).value;
    if !Blank(a.businessStatus) {
      assert a in config.actions;
      PreferredTrimmed(a.instanceStatus, Preferred(a.instanceStatus));
      TrimIdempotent(a.businessStatus);
    }
  }

  /** The mapping derived from an unchanged definition never changes a plan that halts at an
      approval or a dead end. Of a plan that halts at an end node it changes the status exactly
      when the action carries a business status and prefers another status than the end gives, and
      the business status exactly when action and end carry different ones. */
  lemma {:induction false} MappingChangesOnlyEnds(
      g: Graph, rows: seq<RtNode>, current: string, action: string, comment: Option<string>, form: Form,
      before: Rows, workflow: int, row: Option<Row>)
      returns (index: nat, a: ActionConfig)
    requires WellKeyed(g.nodes) && SameShape(rows, g.nodes) && NonEmptyStatuses(rows)
    requires ActionPlan(g, rows, current, action, comment, form).Ok?
    requires forall n :: n in g.nodes ==> DistinctCodes(n.config.actions) && TrimmedStatuses(n.config.actions)
    requires LoadedFor(g, before, workflow, current, action, row)
    ensures IndexOf(rows, current) == Some(index) && ResolveAction(rows[index].config, action) == Some(a)
    ensures var plan := ActionPlan(g, rows, current, action, comment, form).value;
            var left := ActionStart(rows, index, action, a).nodes;
            var target := ActionTarget(g, rows[index], a);
            var (status, business) := Transition(plan, row, false).value;
            && ((forall e: nat :: !EndsAt(g, left, target, form, e)) ==>
                  status == plan.instanceStatus && business == Trim(plan.businessStatus))
            && (forall e: nat :: EndsAt(g, left, target, form, e) ==>
                  (status != plan.instanceStatus <==>
                     !Blank(a.businessStatus) &&
                     Preferred(a.instanceStatus) != EndStatus(left[e], Preferred(a.instanceStatus))) &&
                  (business != Trim(plan.businessStatus) <==>
                     !Blank(a.businessStatus) && left[e].config.finalBusinessStatus != "" &&
                     Trim(a.businessStatus) != Trim(left[e].config.finalBusinessStatus)))
  {
    MergeRestores(g.nodes, rows);
    index, a := ActionPlanWalk(g, rows, current, action, comment, form);
    SameShapeIndex(rows, g.nodes, current);
    assert g.nodes[index] in g.nodes;
    LoadIsConfigured(before, workflow, g.nodes, index, action, row);
    var plan := ActionPlan(g, rows, current, action, comment, form).value;
    TransitionOfAction(plan, g.nodes[index].config, action, false);
    PlanStatus(g, ActionStart(rows, index, action, a), ActionTarget(g, rows[index], a), Preferred(a.instanceStatus),
               a.businessStatus, form);
  }

  // ----- pending instances and the nodes they wait at

  /** No walk can run dry: every node but an end has a successor, an approval for each action it
      accepts, be it a configured target or an edge. */
  ghost predicate Continues(g: Graph, form: Form) {
    forall n :: n in g.nodes ==> HasSuccessor(g, n, form)
  }

  ghost predicate HasSuccessor(g: Graph, n: RtNode, form: Form) {
    if n.nodeType == "end" then true
    else if n.nodeType == "approval" then ActionContinues(g, n, "APPROVE") && ActionContinues(g, n, "REJECT")
    else Successor(g, n, form) != ""
  }

  predicate ActionContinues(g: Graph, n: RtNode, action: string) {
    var a := ResolveAction(n.config, action);
    a.Some? ==> ActionTarget(g, n, a.value) != ""
  }

  ghost predicate EndsDecide(g: Graph) {
    forall n :: n in g.nodes && n.nodeType == "end" ==> n.config.finalStatus != PENDING
  }

  ghost predicate NoActionBusiness(g: Graph) {
    forall n, a :: n in g.nodes && a in n.config.actions ==> Blank(a.businessStatus)
  }

  lemma {:induction false} WalkFindsNode(
      g: Graph, plan: Plan, key: string, preferred: string, form: Form, visited: set<string>)
    requires Continues(g, form) && EndsDecide(g) && SameShape(plan.nodes, g.nodes) && key != "" && preferred != ""
    requires AdvanceFrom(g, plan, key, preferred, form, visited).Ok?
    ensures var p := AdvanceFrom(g, plan, key, preferred, form, visited).value;
            p.currentNodeKey != "" || p.instanceStatus != PENDING
    decreases KeysOf(plan.nodes) - visited
  {
    var index := IndexOf(plan.nodes, key).value;
    var node := plan.nodes[index];
    assert g.nodes[index] in g.nodes && g.nodes[index].key == node.key && g.nodes[index].nodeType == node.nodeType;
    assert HasSuccessor(g, g.nodes[index], form);
    if node.nodeType != "approval" && node.nodeType != "end" {
      assert key in KeysOf(plan.nodes);
      WalkFindsNode(g, plan.(nodes := WithStatus(plan.nodes, index, APPROVED)), Successor(g, node, form),
                    preferred, form, visited + {key});
    }
  }

  lemma NothingConfiguredNothingLoaded(
      g: Graph, before: Rows, workflow: int, index: nat, action: string, row: Option<Row>)
    requires DistinctKeys(g.nodes) && index < |g.nodes| && g.nodes[index].nodeType == "approval" && NoActionBusiness(g)
    requires LoadedFor(g, before, workflow, g.nodes[index].key, action, row)
    ensures row == None
  {
    var base, ms := WithoutWorkflow(before, workflow), DefinitionMappings(g.nodes);
    if row.Some? {
      var k :| Hit(Upserted(base, workflow, ms), workflow, g.nodes[index].key, action, k);
      UpsertedRows(base, workflow, ms, k);
      var m :| m in ms && KeyOf(workflow, m) == k;
      assert g.nodes[index] in g.nodes;
      var a := MappingOfApproval(g.nodes, index, m);
      assert false;
    }
  }

  /** The row of every action was loaded from the table this definition left. */
  ghost predicate DefinitionUnchanged(
      g: Graph, form: Form, s: Instance, events: seq<Event>, before: Rows, workflow: int)
  {
    forall k :: 0 <= k < |events| ==> RowLoaded(g, form, s, events, before, workflow, k)
  }

  ghost predicate RowLoaded(g: Graph, form: Form, s: Instance, events: seq<Event>, before: Rows, workflow: int, k: int)
    requires 0 <= k < |events|
  {
    LoadedFor(g, before, workflow, Run(g, form, s, events[..k]).currentNodeKey, events[k].req.action, events[k].env.row)
  }

  /** The status an instance gets: the mapping row's, if it has one, in place of the plan's. */
  function Decided(row: Option<Row>, status: string): string {
    if row.Some? && !Blank(row.value.workflowStatus) then Trim(row.value.workflowStatus) else status
  }

  /** Whatever row is loaded, the plan gives the current node and the row may overrule its status. */
  lemma StepDecides(g: Graph, form: Form, s: Instance, req: Request, env: Env)
    requires s.currentNodeKey != "" && IndexOf(s.nodes, s.currentNodeKey).Some? && Step(g, form, s, req, env).Ok?
    ensures var plan := ActionPlan(g, s.nodes, s.currentNodeKey, req.action, req.comment, form);
            var next := Step(g, form, s, req, env).value;
            && plan.Ok? && next.currentNodeKey == plan.value.currentNodeKey
            && next.status == Decided(env.row, plan.value.instanceStatus)
  {
    hide ActionPlan, UpdateRows, IndexOf, Trim;
  }

  lemma PlanFindsNode(g: Graph, rows: seq<RtNode>, current: string, action: string, comment: Option<string>, form: Form)
    requires Continues(g, form) && EndsDecide(g) && SameShape(rows, g.nodes) && Merged(g.nodes, rows) == rows
    requires ActionPlan(g, rows, current, action, comment, form).Ok? && action in ["APPROVE", "REJECT"]
    ensures var plan := ActionPlan(g, rows, current, action, comment, form).value;
            plan.currentNodeKey != "" || plan.instanceStatus != PENDING
  {
    hide Merged, EndsDecide, ResolveAction, AdvanceFrom, ActionPlan, LeftStatus;
    var index, a := ActionPlanWalk(g, rows, current, action, comment, form);
    assert g.nodes[index] in g.nodes && g.nodes[index].key == rows[index].key && g.nodes[index].nodeType == "approval";
    assert HasSuccessor(g, g.nodes[index], form) && ActionContinues(g, g.nodes[index], action);
    var start := ActionStart(rows, index, action, a).(businessStatus := a.businessStatus);
    WalkFindsNode(g, start, ActionTarget(g, rows[index], a), Preferred(a.instanceStatus), form, {});
  }

  lemma StepFindsNode(
      g: Graph, form: Form, first: string, s: Instance, req: Request, env: Env, before: Rows, workflow: int)
    requires Continues(g, form) && EndsDecide(g) && NoActionBusiness(g)
    requires Inv(g, first, s) && s.currentNodeKey != "" && Step(g, form, s, req, env).Ok?
    requires LoadedFor(g, before, workflow, s.currentNodeKey, req.action, env.row)
    ensures var next := Step(g, form, s, req, env).value; next.status == PENDING ==> next.currentNodeKey != ""
  {
    hide Continues, EndsDecide, NoActionBusiness, LoadedFor, Step, LogExplains, Chained, Merged, ActionPlan;
    CurrentIsFound(g, first, s);
    MergeRestores(g.nodes, s.nodes);
    CurrentIsApproval(g, first, s);
    NothingConfiguredNothingLoaded(g, before, workflow, IndexOf(s.nodes, s.currentNodeKey).value, req.action, env.row);
    StepDecides(g, form, s, req, env);
    OnlyPendingActs(g, form, s, req, env);
    PlanFindsNode(g, s.nodes, s.currentNodeKey, req.action, req.comment, form);
  }

  lemma CurrentIsApproval(g: Graph, first: string, s: Instance)
    requires Inv(g, first, s) && s.currentNodeKey != "" && IndexOf(s.nodes, s.currentNodeKey).Some?
    ensures var index := IndexOf(s.nodes, s.currentNodeKey).value;
            index < |g.nodes| && g.nodes[index].key == s.currentNodeKey && g.nodes[index].nodeType == "approval"
  {
    hide LogExplains, Chained;
    var index := IndexOf(s.nodes, s.currentNodeKey).value;
    var i :| 0 <= i < |s.nodes| && s.nodes[i].key == s.currentNodeKey && s.nodes[i].nodeType == "approval";
    assert g.nodes[i].key == g.nodes[index].key;
  }

  lemma SubmitFindsNode(g: Graph, form: Form)
    requires FreshGraph(g) && Continues(g, form) && EndsDecide(g) && Submitted(g, form).Ok?
    ensures var s := Submitted(g, form).value; s.status == PENDING ==> s.currentNodeKey != ""
  {
    if g.nodes != [] {
      WalkFindsNode(g, Plan(g.nodes, PENDING, "", "", 0), StartKey(g.nodes), PENDING, form, {});
    }
  }

  lemma OnlyPendingActs(g: Graph, form: Form, s: Instance, req: Request, env: Env)
    requires Step(g, form, s, req, env).Ok?
    ensures s.status == PENDING && req.action in ["APPROVE", "REJECT"]
  {
    hide RuntimeStep, LegacyStep;
  }

  lemma {:induction false} RunFindsNode(
      g: Graph, form: Form, first: string, s: Instance, events: seq<Event>, before: Rows, workflow: int)
    requires Continues(g, form) && EndsDecide(g) && NoActionBusiness(g)
    requires Inv(g, first, s) && (s.status == PENDING ==> s.currentNodeKey != "")
    requires DefinitionUnchanged(g, form, s, events, before, workflow)
    ensures var r := Run(g, form, s, events); r.status == PENDING ==> r.currentNodeKey != ""
  {
    hide Step, Inv, Continues, EndsDecide, NoActionBusiness, LoadedFor;
    if events != [] {
      var n := |events| - 1;
      var init := events[..n];
      forall k | 0 <= k < |init|
        ensures RowLoaded(g, form, s, init, before, workflow, k)
      {
        assert RowLoaded(g, form, s, events, before, workflow, k) && init[..k] == events[..k];
      }
      RunFindsNode(g, form, first, s, init, before, workflow);
      RunKeepsInv(g, form, first, s, init);
      assert RowLoaded(g, form, s, events, before, workflow, n);
      var at := Run(g, form, s, init);
      if Step(g, form, at, events[n].req, events[n].env).Ok? {
        OnlyPendingActs(g, form, at, events[n].req, events[n].env);
        StepFindsNode(g, form, first, at, events[n].req, events[n].env, before, workflow);
      }
    }
  }

  /** If no walk can run dry, no end decides PENDING, no action carries a business status and the
      definition stays as it was, a pending instance always has a running approval. */
  lemma {:induction false} PendingHasRunningApproval(g: Graph, form: Form, events: seq<Event>, before: Rows,
      workflow: int)
    requires FreshGraph(g) && Continues(g, form) && EndsDecide(g) && NoActionBusiness(g) && Submitted(g, form).Ok?
    requires DefinitionUnchanged(g, form, Submitted(g, form).value, events, before, workflow)
    ensures var s := Run(g, form, Submitted(g, form).value, events);
            s.status == PENDING ==>
              exists i :: 0 <= i < |s.nodes| && s.nodes[i].nodeType == "approval" && s.nodes[i].status == RUNNING
  {
    hide Run, Continues, EndsDecide, NoActionBusiness, DefinitionUnchanged, LogExplains, Chained, Submitted;
    var s0 := Submitted(g, form).value;
    SubmitEstablishesInv(g, form);
    SubmitFindsNode(g, form);
    RunFindsNode(g, form, s0.currentNodeKey, s0, events, before, workflow);
    ReachableInstance(g, form, events);
    var s := Run(g, form, s0, events);
    if s.status == PENDING {
      var i :| 0 <= i < |s.nodes| && s.nodes[i].key == s.currentNodeKey && s.nodes[i].nodeType == "approval";
      assert s.nodes[i].status == RUNNING;
    }
  }

  // ----- where an action or a submission leaves an instance

  /** Pending, without a current node. */
  ghost predicate Stranded(s: Instance) {
    s.status == PENDING && s.currentNodeKey == ""
  }

  /** No longer pending, with a node still running. */
  ghost predicate FinishedRunning(s: Instance) {
    s.status != PENDING && exists i :: 0 <= i < |s.nodes| && s.nodes[i].status == RUNNING
  }

  /** Where an action's walk halts, and the status it has there before the mapping. */
  lemma ActionHalts(g: Graph, form: Form, s: Instance, req: Request, index: nat, a: ActionConfig)
      returns (key: string)
    requires WellKeyed(g.nodes) && SameShape(s.nodes, g.nodes) && NonEmptyStatuses(s.nodes)
    requires ActionPlan(g, s.nodes, s.currentNodeKey, req.action, req.comment, form).Ok?
    requires IndexOf(s.nodes, s.currentNodeKey) == Some(index) &&
             ResolveAction(s.nodes[index].config, req.action) == Some(a)
    ensures HaltsAtKey(g, ActionStart(s.nodes, index, req.action, a).nodes,
                       ActionTarget(g, s.nodes[index], a), form, key)
    ensures HaltPlan(g, key, Preferred(a.instanceStatus),
                     ActionPlan(g, s.nodes, s.currentNodeKey, req.action, req.comment, form).value)
  {
    hide Merged, Advance, HaltPlan, ResolveAction, HaltsAtKey, MarkPassed;
    MergeRestores(g.nodes, s.nodes);
    var i, c := ActionPlanWalk(g, s.nodes, s.currentNodeKey, req.action, req.comment, form);
    var start := ActionStart(s.nodes, index, req.action, a);
    var marked;
    key, marked := PlanHalts(g, start, ActionTarget(g, s.nodes[index], a), Preferred(a.instanceStatus),
        a.businessStatus, form);
    SameShapeIndex(marked, start.nodes, key);
    if key != "" && IndexOf(start.nodes, key).Some? {
      HaltKind(g, start.nodes, ActionTarget(g, s.nodes[index], a), form, key);
    }
    OutcomeAtHalt(g, start.(businessStatus := a.businessStatus, nodes := marked), key, Preferred(a.instanceStatus));
  }

  lemma HaltKind(g: Graph, nodes: seq<RtNode>, start: string, form: Form, key: string)
    requires HaltsAtKey(g, nodes, start, form, key) && key != "" && IndexOf(nodes, key).Some?
    ensures nodes[IndexOf(nodes, key).value].nodeType in ["approval", "end"]
  {
    var n: nat :| HaltsFirstAt(Moves(g, nodes, form), start, n) && At(Moves(g, nodes, form), start, n) == key;
    assert MoveAt(g, nodes, form, key).Halt?;
  }

  lemma OutcomeAtHalt(g: Graph, start: Plan, key: string, preferred: string)
    requires SameShape(start.nodes, g.nodes) && start.currentNodeKey == ""
    requires Outcome(start, key, preferred).Ok?
    requires key != "" && IndexOf(start.nodes, key).Some? ==>
      start.nodes[IndexOf(start.nodes, key).value].nodeType in ["approval", "end"]
    ensures HaltPlan(g, key, preferred, Outcome(start, key, preferred).value)
  {
    SameShapeIndex(start.nodes, g.nodes, key);
    var halt := IndexOf(start.nodes, key);
    if key != "" {
      var node := g.nodes[halt.value];
      assert node.key == key && node.nodeType == start.nodes[halt.value].nodeType;
      assert node.config == start.nodes[halt.value].config;
    }
  }

  /** The plan's status where a walk halted. */
  function StatusAt(g: Graph, key: string, preferred: string): string {
    if EndAt(g, key) then EndStatus(g.nodes[IndexOf(g.nodes, key).value], preferred) else preferred
  }

  predicate EndAt(g: Graph, key: string) {
    var halt := IndexOf(g.nodes, key);
    key != "" && halt.Some? && g.nodes[halt.value].nodeType == "end"
  }

  predicate ApprovalAt(g: Graph, key: string) {
    var halt := IndexOf(g.nodes, key);
    key != "" && halt.Some? && g.nodes[halt.value].nodeType == "approval"
  }

  /** What a plan that halted at key looks like. */
  ghost predicate HaltPlan(g: Graph, key: string, preferred: string, plan: Plan) {
    && (key == "" || EndAt(g, key) || ApprovalAt(g, key))
    && plan.currentNodeKey == (if ApprovalAt(g, key) then key else "")
    && plan.instanceStatus == StatusAt(g, key, preferred)
  }

  /** Where the walk of a successful action halts, and how that decides the current node and the
      status, whatever row is loaded. */
  lemma ActionLeaves(g: Graph, form: Form, first: string, s: Instance, req: Request, env: Env)
      returns (index: nat, a: ActionConfig, key: string)
    requires Inv(g, first, s) && s.currentNodeKey != "" && Step(g, form, s, req, env).Ok?
    ensures IndexOf(s.nodes, s.currentNodeKey) == Some(index) &&
            ResolveAction(s.nodes[index].config, req.action) == Some(a)
    ensures HaltsAtKey(g, ActionStart(s.nodes, index, req.action, a).nodes,
                       ActionTarget(g, s.nodes[index], a), form, key)
    ensures var next := Step(g, form, s, req, env).value;
            && (key == "" || EndAt(g, key) || ApprovalAt(g, key))
            && next.currentNodeKey == (if ApprovalAt(g, key) then key else "")
            && next.status == Decided(env.row, StatusAt(g, key, Preferred(a.instanceStatus)))
  {
    hide Step, ActionPlan, ResolveAction, HaltsAtKey, LogExplains, Chained, OneRunning, Decided, StatusAt, Merged;
    CurrentIsFound(g, first, s);
    StepDecides(g, form, s, req, env);
    MergeRestores(g.nodes, s.nodes);
    index, a := ActionPlanWalk(g, s.nodes, s.currentNodeKey, req.action, req.comment, form);
    key := ActionHalts(g, form, s, req, index, a);
  }

  /** An action strands a pending instance exactly when its walk halts at no approval and the
      status decided there, by the mapping row that was loaded or else by the plan, is PENDING. */
  lemma {:induction false} StrandedIff(g: Graph, form: Form, first: string, s: Instance, req: Request, env: Env)
      returns (index: nat, a: ActionConfig, key: string)
    requires Inv(g, first, s) && s.currentNodeKey != "" && Step(g, form, s, req, env).Ok?
    ensures IndexOf(s.nodes, s.currentNodeKey) == Some(index) &&
            ResolveAction(s.nodes[index].config, req.action) == Some(a)
    ensures HaltsAtKey(g, ActionStart(s.nodes, index, req.action, a).nodes,
                       ActionTarget(g, s.nodes[index], a), form, key)
    ensures Stranded(Step(g, form, s, req, env).value) <==>
            !ApprovalAt(g, key) && Decided(env.row, StatusAt(g, key, Preferred(a.instanceStatus))) == PENDING
  {
    hide Step, ResolveAction, HaltsAtKey, Inv, Decided, StatusAt;
    index, a, key := ActionLeaves(g, form, first, s, req, env);
  }

  /** An action leaves a node running in an instance that is no longer pending, exactly when its
      walk halts at an approval and the status decided there is not PENDING; and then that approval
      runs and the instance has that status. */
  lemma {:induction false} FinishedRunningIff(
      g: Graph, form: Form, first: string, s: Instance, req: Request, env: Env)
      returns (index: nat, a: ActionConfig, key: string)
    requires Inv(g, first, s) && s.currentNodeKey != "" && Step(g, form, s, req, env).Ok?
    ensures IndexOf(s.nodes, s.currentNodeKey) == Some(index) &&
            ResolveAction(s.nodes[index].config, req.action) == Some(a)
    ensures HaltsAtKey(g, ActionStart(s.nodes, index, req.action, a).nodes,
                       ActionTarget(g, s.nodes[index], a), form, key)
    ensures var next := Step(g, form, s, req, env).value;
            var decided := Decided(env.row, Preferred(a.instanceStatus));
            && (FinishedRunning(next) <==> ApprovalAt(g, key) && decided != PENDING)
            && (FinishedRunning(next) ==> next.status == decided && OneRunning(next.nodes, key))
  {
    hide Step, ResolveAction, HaltsAtKey, LogExplains, Chained, Decided, IndexOf;
    index, a, key := ActionLeaves(g, form, first, s, req, env);
    StepKeepsInv(g, form, first, s, req, env);
    RunningIsCurrent(g, first, Step(g, form, s, req, env).value);
    ApprovalIsNoEnd(g, key);
  }

  lemma ApprovalIsNoEnd(g: Graph, key: string)
    ensures ApprovalAt(g, key) ==> key != "" && !EndAt(g, key)
  {
  }

  lemma RunningIsCurrent(g: Graph, first: string, s: Instance)
    requires Inv(g, first, s)
    ensures s.currentNodeKey != "" <==> exists i :: 0 <= i < |s.nodes| && s.nodes[i].status == RUNNING
  {
    hide LogExplains, Chained;
    if i :| 0 <= i < |s.nodes| && s.nodes[i].status == RUNNING {
      assert s.nodes[i].key == g.nodes[i].key;
    }
    if s.currentNodeKey != "" {
      var i :| 0 <= i < |s.nodes| && s.nodes[i].key == s.currentNodeKey && s.nodes[i].nodeType == "approval";
      assert s.nodes[i].status == RUNNING;
    }
  }

  // ----- the same, while the workflow stays as it was submitted

  /** The row of an unchanged definition: an action that carries a business status decides with
      its own status, any other leaves the decision to the plan. */
  lemma DecidedAsConfigured(
      g: Graph, s: Instance, index: nat, a: ActionConfig, action: string, row: Option<Row>, before: Rows,
      workflow: int, status: string)
    requires forall n :: n in g.nodes ==> DistinctCodes(n.config.actions) && TrimmedStatuses(n.config.actions)
    requires WellKeyed(g.nodes) && SameShape(s.nodes, g.nodes) && index < |g.nodes|
    requires IndexOf(s.nodes, s.currentNodeKey) == Some(index) && g.nodes[index].nodeType == "approval"
    requires ResolveAction(s.nodes[index].config, action) == Some(a)
    requires LoadedFor(g, before, workflow, s.currentNodeKey, action, row)
    ensures Decided(row, status) == if Blank(a.businessStatus) then status else Preferred(a.instanceStatus)
  {
    hide Trim, Upserted, DefinitionMappings;
    assert g.nodes[index] in g.nodes && g.nodes[index].config == s.nodes[index].config;
    assert s.currentNodeKey == g.nodes[index].key;
    LoadIsConfigured(before, workflow, g.nodes, index, action, row);
    ConfiguredByAction(g.nodes[index].config, action);
    if !Blank(a.businessStatus) {
      assert a in g.nodes[index].config.actions;
      PreferredTrimmed(a.instanceStatus, Preferred(a.instanceStatus));
    }
  }

  /** With an unchanged definition an action strands a pending instance exactly when its walk halts
      at a dead end or an end node, and the deciding status there is PENDING: that of the action at
      a dead end or when it carries a business status, that of the end node otherwise. */
  lemma {:induction false} StrandedAsConfigured(
      g: Graph, form: Form, first: string, s: Instance, req: Request, env: Env, before: Rows, workflow: int)
      returns (index: nat, a: ActionConfig, key: string)
    requires forall n :: n in g.nodes ==> DistinctCodes(n.config.actions) && TrimmedStatuses(n.config.actions)
    requires Inv(g, first, s) && s.currentNodeKey != "" && Step(g, form, s, req, env).Ok?
    requires LoadedFor(g, before, workflow, s.currentNodeKey, req.action, env.row)
    ensures IndexOf(s.nodes, s.currentNodeKey) == Some(index) &&
            ResolveAction(s.nodes[index].config, req.action) == Some(a)
    ensures HaltsAtKey(g, ActionStart(s.nodes, index, req.action, a).nodes,
                       ActionTarget(g, s.nodes[index], a), form, key)
    ensures Stranded(Step(g, form, s, req, env).value) <==> StrandsAt(g, key, a)
  {
    hide Step, ResolveAction, HaltsAtKey, LoadedFor, LogExplains, Chained, OneRunning, Decided, StatusAt, StrandsAt,
         ApprovalAt, EndAt;
    CurrentIsFound(g, first, s);
    index, a, key := ActionLeaves(g, form, first, s, req, env);
    CurrentIsApproval(g, first, s);
    DecidedAsConfigured(g, s, index, a, req.action, env.row, before, workflow,
                        StatusAt(g, key, Preferred(a.instanceStatus)));
    StrandsWhenPending(g, key, a);
  }

  lemma StrandsWhenPending(g: Graph, key: string, a: ActionConfig)
    requires key == "" || EndAt(g, key) || ApprovalAt(g, key)
    ensures var status := StatusAt(g, key, Preferred(a.instanceStatus));
            var decided := if Blank(a.businessStatus) then status else Preferred(a.instanceStatus);
            (if ApprovalAt(g, key) then key else "") == "" && decided == PENDING <==> StrandsAt(g, key, a)
  {
    hide Blank;
  }

  /** With an unchanged definition it leaves a node running in an instance that is no longer
      pending exactly when its walk halts at an approval and its own status is not PENDING. */
  lemma {:induction false} FinishedRunningAsConfigured(
      g: Graph, form: Form, first: string, s: Instance, req: Request, env: Env, before: Rows, workflow: int)
      returns (index: nat, a: ActionConfig, key: string)
    requires forall n :: n in g.nodes ==> DistinctCodes(n.config.actions) && TrimmedStatuses(n.config.actions)
    requires Inv(g, first, s) && s.currentNodeKey != "" && Step(g, form, s, req, env).Ok?
    requires LoadedFor(g, before, workflow, s.currentNodeKey, req.action, env.row)
    ensures IndexOf(s.nodes, s.currentNodeKey) == Some(index) &&
            ResolveAction(s.nodes[index].config, req.action) == Some(a)
    ensures HaltsAtKey(g, ActionStart(s.nodes, index, req.action, a).nodes,
                       ActionTarget(g, s.nodes[index], a), form, key)
    ensures var next := Step(g, form, s, req, env).value;
            && (FinishedRunning(next) <==> ApprovalAt(g, key) && Preferred(a.instanceStatus) != PENDING)
            && (FinishedRunning(next) ==>
                  next.status == Preferred(a.instanceStatus) && OneRunning(next.nodes, key))
  {
    hide Step, ResolveAction, HaltsAtKey, LoadedFor, LogExplains, Chained, OneRunning, Decided, ApprovalAt;
    CurrentIsFound(g, first, s);
    CurrentIsApproval(g, first, s);
    index, a, key := FinishedRunningIff(g, form, first, s, req, env);
    DecidedAsConfigured(g, s, index, a, req.action, env.row, before, workflow, Preferred(a.instanceStatus));
  }

  ghost predicate StrandsAt(g: Graph, key: string, a: ActionConfig) {
    var halt := IndexOf(g.nodes, key);
    if key == "" then Preferred(a.instanceStatus) == PENDING
    else
      && halt.Some? && g.nodes[halt.value].nodeType == "end"
      && if Blank(a.businessStatus) then g.nodes[halt.value].config.finalStatus == PENDING
         else Preferred(a.instanceStatus) == PENDING
  }

  /** Submitting strands an instance exactly when the start walk halts at a dead end, or at an end
      node whose final status is PENDING; and it never leaves a node running in an instance that
      is not pending. */
  lemma {:induction false} SubmitStrandedIff(g: Graph, form: Form) returns (key: string)
    requires FreshGraph(g) && g.nodes != [] && Submitted(g, form).Ok?
    ensures HaltsAtKey(g, g.nodes, StartKey(g.nodes), form, key)
    ensures Stranded(Submitted(g, form).value) <==> key == "" || EndsPending(g, key)
    ensures !FinishedRunning(Submitted(g, form).value)
  {
    hide HaltsAtKey, Advance, MarkPassed, DistinctKeys, LogExplains, Chained;
    var start := Plan(g.nodes, PENDING, "", "", 0);
    var marked;
    key, marked := PlanHalts(g, start, StartKey(g.nodes), "", "", form);
    SameShapeIndex(marked, g.nodes, key);
    if key != "" && IndexOf(g.nodes, key).Some? {
      HaltKind(g, g.nodes, StartKey(g.nodes), form, key);
    }
    OutcomeAtHalt(g, start.(businessStatus := "", nodes := marked), key, PENDING);
    SubmitEstablishesInv(g, form);
    var s := Submitted(g, form).value;
    RunningIsCurrent(g, s.currentNodeKey, s);
  }

  ghost predicate EndsPending(g: Graph, key: string) {
    var halt := IndexOf(g.nodes, key);
    && key != "" && halt.Some? && g.nodes[halt.value].nodeType == "end"
    && g.nodes[halt.value].config.finalStatus == PENDING
  }

  // ----- what becomes of a stranded instance

  /** The number of approvals it takes the step counter to finish from a step. */
  function Remaining(step: int, count: nat): (n: nat)
    ensures n >= 1
  {
    if count == 0 || step + 1 >= count then 1 else count - step
  }

  /** Requests to approve, by actors that match every step of the definition. */
  ghost predicate ApprovesAll(definition: Option<Spec>, events: seq<Event>) {
    forall k :: 0 <= k < |events| ==> Approves(definition, events[k])
  }

  ghost predicate Approves(definition: Option<Spec>, e: Event) {
    && e.req.action == "APPROVE" && e.env.definition == definition
    && forall assignee :: assignee in RuntimeSteps(definition) ==> e.env.matches(assignee)
  }

  ghost predicate CountedStep(s: Instance, action: string, count: nat, next: Instance) {
    && next.nodes == s.nodes && next.currentNodeKey == ""
    && if action == "REJECT" then next.status == REJECTED
       else if Remaining(s.currentStep, count) == 1 then next.status == APPROVED
       else next.status == PENDING && Remaining(next.currentStep, count) == Remaining(s.currentStep, count) - 1
  }

  /** With no current node, a request goes to the step counter: it is refused only for an assignee
      that does not match; a rejection is final, and an approval is final at the last step and
      leaves the instance stranded at the next step before it. No node row changes. */
  lemma StrandedStep(g: Graph, form: Form, s: Instance, req: Request, env: Env)
    requires Stranded(s) && req.action in ["APPROVE", "REJECT"]
    ensures var steps := RuntimeSteps(env.definition);
            var r := Step(g, form, s, req, env);
            && (r.Err? <==> 0 <= s.currentStep < |steps| && !env.matches(steps[s.currentStep]))
            && (r.Ok? ==> CountedStep(s, req.action, |steps|, r.value))
  {
    hide RuntimeSteps, RuntimeStep;
  }

  /** A stranded instance is approved by exactly as many approvals as its step is short of the
      number of steps, and by one when it is past the last step or there are none. */
  lemma {:induction false} StrandedIsCounted(
      g: Graph, form: Form, s: Instance, definition: Option<Spec>, events: seq<Event>)
    requires Stranded(s) && ApprovesAll(definition, events)
    ensures var r := Run(g, form, s, events);
            var remaining := Remaining(s.currentStep, |RuntimeSteps(definition)|);
            && r.nodes == s.nodes
            && if |events| < remaining
               then Stranded(r) && Remaining(r.currentStep, |RuntimeSteps(definition)|) == remaining - |events|
               else r.status == APPROVED
  {
    hide RuntimeSteps, Step;
    if events != [] {
      var n := |events| - 1;
      var at, e := Run(g, form, s, events[..n]), events[n];
      StrandedIsCounted(g, form, s, definition, events[..n]);
      assert Approves(definition, e);
      if Stranded(at) {
        StrandedStep(g, form, at, e.req, e.env);
      } else if Step(g, form, at, e.req, e.env).Ok? {
        OnlyPendingActs(g, form, at, e.req, e.env);
      }
    }
  }

  // ----- instances for which the failures above occur

  /** An approval without configured actions, waiting to be reached. */
  ghost predicate BareApproval(n: RtNode) {
    n.nodeType == "approval" && n.key != "" && n.status == WAITING && n.config.actions == []
  }

  lemma DifferentLengths(a: string, b: string)
    ensures EqualFold(a, a) && (|a| != |b| ==> !EqualFold(a, b))
  {
  }

  lemma BuiltInActions(config: NodeConfig, action: string)
    requires config.actions == [] && action in ["APPROVE", "REJECT"]
    ensures ResolveAction(config, action) ==
            Some(ActionConfig(action, "", if action == "REJECT" then REJECTED else PENDING, "", false))
    ensures LeftStatus(action, ResolveAction(config, action).value) == if action == "REJECT" then REJECTED else APPROVED
  {
    DifferentLengths(action, "REJECT");
    hide EqualFold, Upper;
    assert FirstMatching(config.actions, action) == None;
    assert EqualFold(action, action);
    assert action == "APPROVE" ==> |action| == 7;
  }

  /** The graph of one approval, and its node once it runs. */
  function Lone(n: RtNode): Graph {
    Graph([n], map[])
  }

  function Running(n: RtNode): RtNode {
    n.(status := RUNNING)
  }

  lemma LoneSubmitted(n: RtNode, form: Form)
    requires BareApproval(n)
    ensures Submitted(Lone(n), form) == Ok(Instance(PENDING, "", n.key, n.stepIndex, [Running(n)], []))
  {
    var g := Lone(n);
    assert IndexOf(g.nodes, n.key) == Some(0) && StartKey(g.nodes) == n.key;
    assert WithStatus(g.nodes, 0, RUNNING) == [Running(n)];
  }

  lemma LoneApproved(n: RtNode, form: Form)
    requires BareApproval(n)
    ensures var r := ActionPlan(Lone(n), [Running(n)], n.key, "APPROVE", None, form);
            r.Ok? && r.value.currentNodeKey == "" && r.value.instanceStatus == PENDING && r.value.businessStatus == ""
  {
    hide ResolveAction, LeftStatus, Merged;
    MergeRestores([n], [Running(n)]);
    assert IndexOf([Running(n)], n.key) == Some(0);
    BuiltInActions(n.config, "APPROVE");
  }

  /** A lone approval: approving it leaves the instance pending without a current node. */
  lemma {:induction false} DeadEndStrands(n: RtNode, form: Form, env: Env)
    requires BareApproval(n) && env.matches(n.assignee) && env.row == None
    ensures var g := Lone(n);
            var s0 := Submitted(g, form);
            && s0.Ok? && OneRunning(s0.value.nodes, n.key)
            && var r := Step(g, form, s0.value, Request("APPROVE", None, 0), env); r.Ok? && Stranded(r.value)
  {
    hide Submitted, ActionPlan;
    LoneSubmitted(n, form);
    LoneApproved(n, form);
    assert IndexOf([Running(n)], n.key) == Some(0);
  }

  /** Two approvals in a row. */
  function Pair(one: RtNode, two: RtNode): Graph {
    Graph([one, two], map[one.key := [two.key]])
  }

  lemma FirstSubmitted(one: RtNode, other: RtNode, form: Form)
    requires one.nodeType == "approval" && one.key != "" && other.nodeType != "start" && one.key != other.key
    ensures Submitted(Pair(one, other), form) ==
            Ok(Instance(PENDING, "", one.key, one.stepIndex, [Running(one), other], []))
  {
    var g := Pair(one, other);
    assert IndexOf(g.nodes, one.key) == Some(0) && StartKey(g.nodes) == one.key;
    assert WithStatus(g.nodes, 0, RUNNING) == [Running(one), other];
  }

  lemma PairRejected(one: RtNode, two: RtNode, form: Form)
    requires BareApproval(one) && BareApproval(two) && one.key != two.key
    ensures var r := ActionPlan(Pair(one, two), [Running(one), two], one.key, "REJECT", None, form);
            r.Ok? && r.value.currentNodeKey == two.key && r.value.instanceStatus == REJECTED &&
                r.value.businessStatus == ""
  {
    hide ResolveAction, LeftStatus, Merged;
    var rows := [Running(one), two];
    MergeRestores([one, two], rows);
    assert IndexOf(rows, one.key) == Some(0);
    BuiltInActions(one.config, "REJECT");
    var left := WithStatus(rows, 0, REJECTED);
    assert IndexOf(left[1..], two.key) == Some(0);
    assert IndexOf(left, two.key) == Some(1);
  }

  /** Rejecting the first of two approvals in a row sets the second running. */
  lemma {:induction false} RejectedKeepsRunning(one: RtNode, two: RtNode, form: Form, env: Env)
    requires BareApproval(one) && BareApproval(two) && one.key != two.key && env.matches(one.assignee) &&
             env.row == None
    ensures var g := Pair(one, two);
            var s0 := Submitted(g, form);
            && s0.Ok?
            && var r := Step(g, form, s0.value, Request("REJECT", None, 0), env);
               r.Ok? && r.value.status == REJECTED && r.value.currentNodeKey == two.key &&
                   OneRunning(r.value.nodes, two.key)
  {
    hide Submitted, ActionPlan, LogExplains, Chained;
    FirstSubmitted(one, two, form);
    PairRejected(one, two, form);
    SubmitEstablishesInv(Pair(one, two), form);
    StepKeepsInv(Pair(one, two), form, one.key, Submitted(Pair(one, two), form).value, Request("REJECT", None, 0), env);
    assert IndexOf([Running(one), two], one.key) == Some(0);
  }

  /** A lone start node: submitting already leaves the instance pending without a current node. */
  lemma LoneStartStrands(n: RtNode, form: Form)
    requires n.nodeType == "start" && n.key != ""
    ensures Submitted(Lone(n), form).Ok? && Stranded(Submitted(Lone(n), form).value)
  {
    var g := Lone(n);
    assert IndexOf(g.nodes, n.key) == Some(0) && StartKey(g.nodes) == n.key;
    var passed := Plan(WithStatus(g.nodes, 0, APPROVED), PENDING, "", "", 0);
    assert FirstOutgoing(g, n.key) == "" && Successor(g, n, form) == "";
    assert StartPlan(g, form) == AdvanceFrom(g, passed, "", PENDING, form, {} + {n.key});
    assert |passed.nodes| == 1;
  }

  // ----- statuses overwritten by the mapping table

  /** The row of an approval whose only action carries a business status. */
  lemma RowOfOnlyAction(nodes: seq<RtNode>, i: nat, a: ActionConfig, before: Rows, workflow: int)
    requires DistinctKeys(nodes) && i < |nodes| && nodes[i].nodeType == "approval"
    requires nodes[i].config.actions == [a] && !Blank(a.businessStatus)
    ensures MayLoad(Upserted(WithoutWorkflow(before, workflow), workflow, DefinitionMappings(nodes)), workflow,
                    nodes[i].key, a.code, Some(Row(Preferred(a.instanceStatus), Trim(a.businessStatus))))
  {
    hide Blank, Trim, DefinitionMappings, Upserted;
    var base, ms := WithoutWorkflow(before, workflow), DefinitionMappings(nodes);
    var rows, k := Upserted(base, workflow, ms), RowKey(workflow, nodes[i].key, a.code);
    assert a in nodes[i].config.actions;
    ConfiguredIsStored(before, workflow, nodes, i, a, a.code);
    UpsertedRows(base, workflow, ms, k);
    var m :| m in ms && KeyOf(workflow, m) == k && rows[k] == Row(m.workflowStatus, m.businessStatus);
    var only := MappingOfApproval(nodes, i, m);
    assert only == a;
  }

  /** An approval whose only action prefers PENDING, carries a business status and leads to an end. */
  ghost predicate LeadsToEnd(one: RtNode, end: RtNode, business: string) {
    && one.nodeType == "approval" && one.key != "" && one.status == WAITING
    && one.config.actions == [ActionConfig("APPROVE", end.key, "", business, false)] && !Blank(business)
    && end.nodeType == "end" && end.key != "" && end.key != one.key && end.status == WAITING
    && end.config.finalStatus == ""
  }

  lemma EndPlan(one: RtNode, end: RtNode, business: string, form: Form)
    requires LeadsToEnd(one, end, business)
    ensures var r := ActionPlan(Pair(one, end), [Running(one), end], one.key, "APPROVE", None, form);
            r.Ok? && r.value.currentNodeKey == "" && r.value.instanceStatus == APPROVED
  {
    hide Merged, EqualFold, Blank;
    var rows := [Running(one), end];
    MergeRestores([one, end], rows);
    DifferentLengths("APPROVE", "REJECT");
    assert IndexOf(rows, one.key) == Some(0);
    var left := WithStatus(rows, 0, APPROVED);
    assert left == [one.(status := APPROVED), end];
    assert IndexOf(left[1..], end.key) == Some(0) && IndexOf(left, end.key) == Some(1);
  }

  /** Submitting and approving it makes a plan that is APPROVED at the end, and the table derived
      from the very definition puts the instance back to PENDING, without a current node. */
  lemma OverwrittenAtEnd(
      one: RtNode, end: RtNode, business: string, form: Form, env: Env, before: Rows, workflow: int)
    requires LeadsToEnd(one, end, business) && env.matches(one.assignee) && !env.adapterFails
    requires env.row == Some(Row(PENDING, Trim(business)))
    ensures var g, req := Pair(one, end), Request("APPROVE", None, 0);
            && LoadedFor(g, before, workflow, one.key, "APPROVE", env.row)
            && Submitted(g, form).Ok?
            && (var s := Submitted(g, form).value;
                && (var plan := ActionPlan(g, s.nodes, s.currentNodeKey, "APPROVE", None, form);
                    plan.Ok? && plan.value.instanceStatus == APPROVED)
                && (var r := Step(g, form, s, req, env); r.Ok? && Stranded(r.value)))
  {
    hide ActionPlan, Submitted, MayLoad, Trim;
    FirstSubmitted(one, end, form);
    EndPlan(one, end, business, form);
    RowOfOnlyAction(Pair(one, end).nodes, 0, ActionConfig("APPROVE", end.key, "", business, false), before, workflow);
    PendingIsTrimmed(PENDING);
    assert IndexOf([Running(one), end], one.key) == Some(0);
  }

  lemma PairApproved(one: RtNode, two: RtNode, form: Form)
    requires BareApproval(one) && BareApproval(two) && one.key != two.key
    ensures var r := ActionPlan(Pair(one, two), [Running(one), two], one.key, "APPROVE", None, form);
            r.Ok? && r.value.currentNodeKey == two.key && r.value.instanceStatus == PENDING
  {
    hide ResolveAction, LeftStatus, Merged;
    var rows := [Running(one), two];
    MergeRestores([one, two], rows);
    assert IndexOf(rows, one.key) == Some(0);
    BuiltInActions(one.config, "APPROVE");
    var left := WithStatus(rows, 0, APPROVED);
    assert IndexOf(left[1..], two.key) == Some(0);
    assert IndexOf(left, two.key) == Some(1);
  }

  /** Two approvals in a row were submitted; then the workflow was edited, and its first approval now
      has an action that decides APPROVED. Approving the first, by the definition as submitted,
      makes the instance APPROVED with the second approval running. */
  lemma EditedKeepsRunning(
      one: RtNode, two: RtNode, edited: RtNode, business: string, form: Form, env: Env, before: Rows, workflow: int)
    requires BareApproval(one) && BareApproval(two) && one.key != two.key
    requires edited.key == one.key && edited.nodeType == "approval" && !Blank(business)
    requires edited.config.actions == [ActionConfig("APPROVE", "", APPROVED, business, false)]
    requires env.matches(one.assignee) && !env.adapterFails && env.row == Some(Row(APPROVED, Trim(business)))
    ensures LoadedFor(Pair(edited, two), before, workflow, one.key, "APPROVE", env.row)
    ensures var g := Pair(one, two);
            Submitted(g, form).Ok? &&
            var r := Step(g, form, Submitted(g, form).value, Request("APPROVE", None, 0), env);
            r.Ok? && r.value.status == APPROVED && FinishedRunning(r.value) && OneRunning(r.value.nodes, two.key)
  {
    hide ActionPlan, Submitted, MayLoad, Trim, LogExplains, Chained;
    var g, req := Pair(one, two), Request("APPROVE", None, 0);
    FirstSubmitted(one, two, form);
    PairApproved(one, two, form);
    RowOfOnlyAction(Pair(edited, two).nodes, 0, ActionConfig("APPROVE", "", APPROVED, business, false), before,
                    workflow);
    ApprovedIsTrimmed(APPROVED);
    assert IndexOf([Running(one), two], one.key) == Some(0);
    SubmitEstablishesInv(g, form);
    StepKeepsInv(g, form, one.key, Submitted(g, form).value, req, env);
    RunningIsCurrent(g, one.key, Step(g, form, Submitted(g, form).value, req, env).value);
  }

  lemma ApprovedIsTrimmed(status: string)
    requires status == APPROVED
    ensures Trim(status) == status && !Blank(status)
  {
    assert status[0] == 'A' && status[|status| - 1] == 'D';
    TrimKeeps(status);
  }
}
