/** What holds in every reachable approval instance, over all definitions and all runs. */
module ApprovalRuns {
  import opened Wrappers
  import opened WorkflowModel
  import opened WorkflowRuntime
  import opened ApprovalPlans
  import opened BusinessMapping
  import opened Approval

  datatype Event = Event(req: Request, env: Env)

  /** Actions in order; a refused action leaves the instance as it was. */
  function Run(g: Graph, form: Form, s: Instance, events: seq<Event>): Instance {
    if events == [] then s
    else
      var before, last := Run(g, form, s, events[..|events| - 1]), events[|events| - 1];
      match Step(g, form, before, last.req, last.env)
      case Ok(next) => next
      case Err(_) => before
  }

  // ----- the log, read as an explanation of the node statuses

  /** The status an action row leaves behind at the node it leaves. */
  function RowOutcome(nodes: seq<RtNode>, row: LogRow): string {
    match IndexOf(nodes, row.fromKey)
    case None => WAITING
    case Some(i) =>
      match ResolveAction(nodes[i].config, row.action)
      case None => WAITING
      case Some(config) => LeftStatus(row.action, config)
  }

  /** The outcome of the last row leaving a node, WAITING if none does. */
  function LastOutcome(nodes: seq<RtNode>, log: seq<LogRow>, key: string): string {
    if log == [] then WAITING
    else if log[|log| - 1].fromKey == key then RowOutcome(nodes, log[|log| - 1])
    else LastOutcome(nodes, log[..|log| - 1], key)
  }

  /** Every approval's status follows from the log and the current node. */
  ghost predicate LogExplains(g: Graph, s: Instance) {
    |s.nodes| == |g.nodes| &&
    forall i :: 0 <= i < |s.nodes| && s.nodes[i].nodeType == "approval" ==>
      s.nodes[i].status == if s.nodes[i].key == s.currentNodeKey then RUNNING
          else LastOutcome(g.nodes, s.log, s.nodes[i].key)
  }

  /** Each row ends where the next one starts, from the first current node to the present one. */
  ghost predicate Chained(first: string, log: seq<LogRow>, current: string) {
    && (if log == [] then current == first else log[0].fromKey == first && log[|log| - 1].toKey == current)
    && forall i :: 0 < i < |log| ==> log[i - 1].toKey == log[i].fromKey
  }

  // ----- the invariant

  ghost predicate WellKeyed(nodes: seq<RtNode>) {
    DistinctKeys(nodes) && forall i :: 0 <= i < |nodes| ==> nodes[i].key != ""
  }

  /** The node named by the current key, and no other, is running; and it is an approval. */
  ghost predicate OneRunning(nodes: seq<RtNode>, current: string) {
    && (forall i :: 0 <= i < |nodes| ==> (nodes[i].status == RUNNING <==> nodes[i].key == current))
    && (current == "" || IsApproval(nodes, current))
  }

  ghost predicate NonEmptyStatuses(nodes: seq<RtNode>) {
    forall i :: 0 <= i < |nodes| ==> nodes[i].status != ""
  }

  ghost predicate Inv(g: Graph, first: string, s: Instance) {
    && WellKeyed(g.nodes) && SameShape(s.nodes, g.nodes) && NonEmptyStatuses(s.nodes)
    && OneRunning(s.nodes, s.currentNodeKey) && LogExplains(g, s) && Chained(first, s.log, s.currentNodeKey)
  }

  /** Writing a plan's statuses by key and reading the rows back gives the plan's nodes. */
  lemma UpdateRowsRoundTrip(rows: seq<RtNode>, nodes: seq<RtNode>)
    requires SameShape(nodes, rows) && DistinctKeys(rows)
    ensures UpdateRows(rows, nodes) == nodes
  {
    UpdatePrefix(rows, nodes, |nodes|);
    assert nodes[..|nodes|] == nodes;
  }

  lemma {:induction false} UpdatePrefix(rows: seq<RtNode>, nodes: seq<RtNode>, k: nat)
    requires SameShape(nodes, rows) && DistinctKeys(rows) && k <= |nodes|
    ensures forall i :: 0 <= i < |rows| ==> UpdateRows(rows, nodes[..k])[i] == if i < k then nodes[i] else rows[i]
  {
    if k > 0 {
      UpdatePrefix(rows, nodes, k - 1);
      assert nodes[..k][..k - 1] == nodes[..k - 1];
    }
  }

  /** What a parsed graph has: every node has a key and waits. */
  ghost predicate FreshGraph(g: Graph) {
    forall i :: 0 <= i < |g.nodes| ==> g.nodes[i].key != "" && g.nodes[i].status == WAITING
  }

  lemma ParsedIsFresh(raw: Option<Spec>)
    ensures FreshGraph(ParsedGraph(raw))
  {
  }

  lemma WalkKeepsRunning(before: seq<RtNode>, after: seq<RtNode>, current: string)
    requires WellKeyed(before) && NonEmptyStatuses(before) && WalkedStatuses(before, after, current)
    requires forall i :: 0 <= i < |before| ==> before[i].status != RUNNING
    ensures OneRunning(after, current) && NonEmptyStatuses(after) && SameShape(after, before)
  {
    if current != "" {
      var j :| 0 <= j < |before| && before[j].key == current && before[j].nodeType == "approval";
      assert after[j].key == current && after[j].nodeType == "approval";
      forall i | 0 <= i < |after|
        ensures after[i].status == RUNNING <==> after[i].key == current
      {
        assert after[i].key == current ==> i == j;
      }
    }
  }

  lemma SubmitEstablishesInv(g: Graph, form: Form)
    requires FreshGraph(g) && Submitted(g, form).Ok?
    ensures var s := Submitted(g, form).value; Inv(g, s.currentNodeKey, s)
  {
    var s := Submitted(g, form).value;
    if g.nodes != [] {
      var plan := StartPlan(g, form).value;
      var start := Plan(g.nodes, PENDING, "", "", 0);
      AdvanceShape(g, start, StartKey(g.nodes), PENDING, form, {});
      assert DistinctKeys(plan.nodes);
      assert DistinctKeys(g.nodes) by {
        forall i, j | 0 <= i < j < |g.nodes|
          ensures g.nodes[i].key != g.nodes[j].key
        {
          assert plan.nodes[i].key != plan.nodes[j].key;
        }
      }
      AdvanceStatuses(g, start, StartKey(g.nodes), PENDING, form, {});
      WalkKeepsRunning(g.nodes, plan.nodes, plan.currentNodeKey);
    }
  }

  lemma {:induction false} AdvanceShape(
      g: Graph, plan: Plan, key: string, preferred: string, form: Form, visited: set<string>)
    requires AdvanceFrom(g, plan, key, preferred, form, visited).Ok?
    ensures SameShape(AdvanceFrom(g, plan, key, preferred, form, visited).value.nodes, plan.nodes)
    decreases KeysOf(plan.nodes) - visited
  {
    if key != "" {
      var index := IndexOf(plan.nodes, key).value;
      var node := plan.nodes[index];
      if node.nodeType != "approval" && node.nodeType != "end" {
        assert key in KeysOf(plan.nodes);
        AdvanceShape(g, plan.(nodes := WithStatus(plan.nodes, index, APPROVED)), Successor(g, node, form),
                     preferred, form, visited + {key});
      }
    }
  }

  /** An action plan is a walk from the action's target, the node it leaves already marked. */
  lemma ActionPlanWalk(
      g: Graph, rows: seq<RtNode>, current: string, action: string, comment: Option<string>, form: Form)
      returns (index: nat, config: ActionConfig)
    requires Merged(g.nodes, rows) == rows && ActionPlan(g, rows, current, action, comment, form).Ok?
    ensures IndexOf(rows, current) == Some(index) && rows[index].nodeType == "approval" && rows[index].status == RUNNING
    ensures ResolveAction(rows[index].config, action) == Some(config)
    ensures ActionPlan(g, rows, current, action, comment, form) ==
            Advance(g, ActionStart(rows, index, action, config), ActionTarget(g, rows[index], config),
                    Preferred(config.instanceStatus), config.businessStatus, form)
  {
    index := IndexOf(rows, current).value;
    config := ResolveAction(rows[index].config, action).value;
  }

  function ActionStart(rows: seq<RtNode>, index: nat, action: string, config: ActionConfig): Plan
    requires index < |rows|
  {
    Plan(WithStatus(rows, index, LeftStatus(action, config)), PENDING, "", "", rows[index].stepIndex)
  }

  lemma PlanWalks(g: Graph, start: Plan, target: string, status: string, business: string, form: Form)
    requires WellKeyed(start.nodes) && Advance(g, start, target, status, business, form).Ok?
    ensures var p := Advance(g, start, target, status, business, form).value;
            WalkedStatuses(start.nodes, p.nodes, p.currentNodeKey)
  {
    AdvanceStatuses(g, start.(businessStatus := business), target, Preferred(status), form, {});
  }

  /** A successful action of the graph engine writes its plan. */
  lemma RuntimeStepWrites(g: Graph, form: Form, s: Instance, req: Request, env: Env)
    requires IndexOf(s.nodes, s.currentNodeKey).Some? && RuntimeStep(g, form, s, req, env).Ok?
    ensures var plan := ActionPlan(g, s.nodes, s.currentNodeKey, req.action, req.comment, form);
            var next := RuntimeStep(g, form, s, req, env).value;
            var step := s.nodes[IndexOf(s.nodes, s.currentNodeKey).value].stepIndex;
            && plan.Ok? && next.nodes == UpdateRows(s.nodes, plan.value.nodes) &&
               next.currentNodeKey == plan.value.currentNodeKey
            && next.log == s.log + [LogRow(s.currentNodeKey, next.currentNodeKey, step, req.actor, req.action)]
  {
    hide ActionPlan, UpdateRows, IndexOf, Transition;
  }

  lemma WalkedShape(rows: seq<RtNode>, index: nat, status: string, after: seq<RtNode>, current: string)
    requires index < |rows| && WalkedStatuses(WithStatus(rows, index, status), after, current)
    ensures SameShape(after, rows)
  {
    var left := WithStatus(rows, index, status);
    forall i | 0 <= i < |rows|
      ensures after[i] == rows[i].(status := after[i].status)
    {
      assert after[i] == left[i].(status := after[i].status) && left[i] == rows[i].(status := left[i].status);
    }
  }

  lemma ShapeKeepsKeys(rows: seq<RtNode>, base: seq<RtNode>)
    requires SameShape(rows, base) && WellKeyed(base)
    ensures WellKeyed(rows)
  {
    assert forall i :: 0 <= i < |rows| ==> rows[i].key == base[i].key;
  }

  /** A successful action of the graph engine: the walk it made, and the state it left. */
  lemma {:induction false} RuntimeStepWalks(g: Graph, form: Form, s: Instance, req: Request, env: Env)
      returns (index: nat, config: ActionConfig)
    requires WellKeyed(g.nodes) && SameShape(s.nodes, g.nodes) && NonEmptyStatuses(s.nodes)
    requires IndexOf(s.nodes, s.currentNodeKey).Some? && RuntimeStep(g, form, s, req, env).Ok?
    ensures IndexOf(s.nodes, s.currentNodeKey) == Some(index)
    ensures ResolveAction(g.nodes[index].config, req.action) == Some(config)
    ensures var next := RuntimeStep(g, form, s, req, env).value;
            && WalkedStatuses(WithStatus(s.nodes, index, LeftStatus(req.action, config)), next.nodes,
               next.currentNodeKey)
            && next.log == s.log + [LogRow(s.currentNodeKey, next.currentNodeKey, s.nodes[index].stepIndex, req.actor,
               req.action)]
  {
    hide RuntimeStep, ActionPlan, Advance, Merged, ResolveAction, WalkedStatuses, UpdateRows, LeftStatus, ActionTarget;
    MergeRestores(g.nodes, s.nodes);
    RuntimeStepWrites(g, form, s, req, env);
    index, config := ActionPlanWalk(g, s.nodes, s.currentNodeKey, req.action, req.comment, form);
    ShapeKeepsKeys(s.nodes, g.nodes);
    var start := ActionStart(s.nodes, index, req.action, config);
    ShapeKeepsKeys(start.nodes, s.nodes);
    PlanWalks(g, start, ActionTarget(g, s.nodes[index], config), Preferred(config.instanceStatus),
        config.businessStatus, form);
    var plan := ActionPlan(g, s.nodes, s.currentNodeKey, req.action, req.comment, form).value;
    WalkedShape(s.nodes, index, LeftStatus(req.action, config), plan.nodes, plan.currentNodeKey);
    UpdateRowsRoundTrip(s.nodes, plan.nodes);
  }

  lemma LogGrows(nodes: seq<RtNode>, log: seq<LogRow>, row: LogRow, key: string)
    ensures LastOutcome(nodes, log + [row], key) ==
            if row.fromKey == key then RowOutcome(nodes, row) else LastOutcome(nodes, log, key)
  {
    assert (log + [row])[..|log|] == log;
  }

  /** The log stays an explanation when a row is added for the node that was left. */
  lemma LeavingIsExplained(
      base: seq<RtNode>, before: seq<RtNode>, index: nat, left: string, after: seq<RtNode>,
      log: seq<LogRow>, row: LogRow, current: string, i: nat)
    requires DistinctKeys(base) && SameShape(before, base) && index < |before| && i < |before|
    requires row.fromKey == before[index].key && RowOutcome(base, row) == left
    requires WalkedStatuses(WithStatus(before, index, left), after, current)
    requires before[i].nodeType == "approval"
    requires i != index ==> before[i].status == LastOutcome(base, log, before[i].key)
    ensures after[i].status == if after[i].key == current then RUNNING else LastOutcome(base, log + [row], after[i].key)
  {
    LogGrows(base, log, row, before[i].key);
    if i != index {
      assert base[i].key != base[index].key;
    }
  }

  /** next is s after the action left its current node and walked on. */
  ghost predicate LeftBy(g: Graph, s: Instance, index: nat, action: string, config: ActionConfig, next: Instance)
    requires index < |g.nodes|
  {
    && IndexOf(s.nodes, s.currentNodeKey) == Some(index)
    && ResolveAction(g.nodes[index].config, action) == Some(config)
    && WalkedStatuses(WithStatus(s.nodes, index, LeftStatus(action, config)), next.nodes, next.currentNodeKey)
    && |next.log| == |s.log| + 1 && next.log[..|s.log|] == s.log
    && next.log[|s.log|].fromKey == s.currentNodeKey && next.log[|s.log|].toKey == next.currentNodeKey
    && next.log[|s.log|].action == action
  }

  lemma LeavingKeepsRunning(g: Graph, first: string, s: Instance, index: nat, action: string, config: ActionConfig,
      next: Instance)
    requires Inv(g, first, s) && index < |g.nodes| && LeftBy(g, s, index, action, config, next)
    ensures OneRunning(next.nodes, next.currentNodeKey) && NonEmptyStatuses(next.nodes) &&
            SameShape(next.nodes, g.nodes)
  {
    var left := WithStatus(s.nodes, index, LeftStatus(action, config));
    forall i | 0 <= i < |left|
      ensures left[i].status != RUNNING && left[i].status != "" && left[i].key == g.nodes[i].key
    {
      if i != index {
        assert s.nodes[i].key == g.nodes[i].key && s.nodes[index].key == g.nodes[index].key;
      }
    }
    WalkKeepsRunning(left, next.nodes, next.currentNodeKey);
  }

  lemma LeavingKeepsExplained(g: Graph, first: string, s: Instance, index: nat, action: string, config: ActionConfig,
      next: Instance)
    requires Inv(g, first, s) && index < |g.nodes| && LeftBy(g, s, index, action, config, next)
    ensures LogExplains(g, next)
  {
    hide Chained, OneRunning, LastOutcome;
    var outcome, row := LeftStatus(action, config), next.log[|s.log|];
    assert next.log == s.log + [row];
    SameShapeIndex(s.nodes, g.nodes, s.currentNodeKey);
    forall i | 0 <= i < |next.nodes| && next.nodes[i].nodeType == "approval"
      ensures next.nodes[i].status == if next.nodes[i].key == next.currentNodeKey then RUNNING
                                      else LastOutcome(g.nodes, next.log, next.nodes[i].key)
    {
      if i != index {
        assert s.nodes[i].key == g.nodes[i].key && s.nodes[index].key == g.nodes[index].key;
      }
      LeavingIsExplained(g.nodes, s.nodes, index, outcome, next.nodes, s.log, row, next.currentNodeKey, i);
    }
  }

  lemma RuntimeStepKeepsInv(g: Graph, form: Form, first: string, s: Instance, req: Request, env: Env)
    requires Inv(g, first, s) && s.currentNodeKey != "" && IndexOf(s.nodes, s.currentNodeKey).Some?
    requires RuntimeStep(g, form, s, req, env).Ok?
    ensures Inv(g, first, RuntimeStep(g, form, s, req, env).value)
  {
    var next := RuntimeStep(g, form, s, req, env).value;
    var index, config := RuntimeStepWalks(g, form, s, req, env);
    assert LeftBy(g, s, index, req.action, config, next);
    LeavingKeepsRunning(g, first, s, index, req.action, config, next);
    LeavingKeepsExplained(g, first, s, index, req.action, config, next);
    assert next.log == s.log + [next.log[|s.log|]];
    ChainGrows(first, s.log, next.log[|s.log|], s.currentNodeKey);
  }

  lemma ChainGrows(first: string, log: seq<LogRow>, row: LogRow, current: string)
    requires Chained(first, log, current) && row.fromKey == current
    ensures Chained(first, log + [row], row.toKey)
  {
    var longer := log + [row];
    forall i | 0 < i < |longer|
      ensures longer[i - 1].toKey == longer[i].fromKey
    {
      if i < |log| {
        assert log[i - 1].toKey == log[i].fromKey;
      }
    }
  }

  lemma CurrentIsFound(g: Graph, first: string, s: Instance)
    requires Inv(g, first, s) && s.currentNodeKey != ""
    ensures IndexOf(s.nodes, s.currentNodeKey).Some?
  {
  }

  lemma {:induction false} StepKeepsInv(g: Graph, form: Form, first: string, s: Instance, req: Request, env: Env)
    requires Inv(g, first, s) && Step(g, form, s, req, env).Ok?
    ensures Inv(g, first, Step(g, form, s, req, env).value)
  {
    var next := Step(g, form, s, req, env).value;
    if s.currentNodeKey != "" {
      CurrentIsFound(g, first, s);
      RuntimeStepKeepsInv(g, form, first, s, req, env);
    } else {
      var row := LogRow("", "", s.currentStep, req.actor, req.action);
      assert next.log == s.log + [row];
      forall i | 0 <= i < |next.nodes| && next.nodes[i].nodeType == "approval"
        ensures LastOutcome(g.nodes, next.log, next.nodes[i].key) == LastOutcome(g.nodes, s.log, next.nodes[i].key)
      {
        LogGrows(g.nodes, s.log, row, next.nodes[i].key);
      }
      ChainGrows(first, s.log, row, s.currentNodeKey);
    }
  }

  lemma {:induction false} RunKeepsInv(g: Graph, form: Form, first: string, s: Instance, events: seq<Event>)
    requires Inv(g, first, s)
    ensures Inv(g, first, Run(g, form, s, events))
  {
    if events != [] {
      var n := |events| - 1;
      RunKeepsInv(g, form, first, s, events[..n]);
      var before := Run(g, form, s, events[..n]);
      if Step(g, form, before, events[n].req, events[n].env).Ok? {
        StepKeepsInv(g, form, first, before, events[n].req, events[n].env);
      }
    }
  }

  /** In every reachable instance exactly the node named by the current key is running, and it is
      an approval; every approval's status is explained by the log; and the log is one chain. */
  lemma {:induction false} ReachableInstance(g: Graph, form: Form, events: seq<Event>)
    requires FreshGraph(g) && Submitted(g, form).Ok?
    ensures var s0 := Submitted(g, form).value;
            var s := Run(g, form, s0, events);
            OneRunning(s.nodes, s.currentNodeKey) && LogExplains(g, s) &&
                Chained(s0.currentNodeKey, s.log, s.currentNodeKey)
  {
    hide Submitted, Step, OneRunning, LogExplains, Chained;
    SubmitEstablishesInv(g, form);
    var s0 := Submitted(g, form).value;
    RunKeepsInv(g, form, s0.currentNodeKey, s0, events);
  }
}
