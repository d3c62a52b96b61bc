/** The plan for submitting an approval and the plan for acting on one (workflow_runtime.go). */
module ApprovalPlans {
  import opened Wrappers
  import opened Text
  import opened WorkflowModel
  import opened WorkflowRuntime

  // ----- submitting

  function StartKey(nodes: seq<RtNode>): (key: string)
    requires nodes != []
  {
    if exists i :: 0 <= i < |nodes| && nodes[i].nodeType == "start" then FirstOfType(nodes, "start").key
        else nodes[0].key
  }

  function FirstOfType(nodes: seq<RtNode>, nodeType: string): (n: RtNode)
    requires exists i :: 0 <= i < |nodes| && nodes[i].nodeType == nodeType
    ensures n in nodes && n.nodeType == nodeType
  {
    if nodes[0].nodeType == nodeType then nodes[0] else FirstOfType(nodes[1..], nodeType)
  }

  function StartPlan(g: Graph, form: Form): Result<Plan, PlanError> {
    if g.nodes == [] then Ok(Plan([], APPROVED, "", "", 0))
    else Advance(g, Plan(g.nodes, PENDING, "", "", 0), StartKey(g.nodes), "", "", form)
  }

  method BuildStartPlan(raw: Option<Spec>, form: Form) returns (r: Result<Plan, PlanError>)
    ensures r == StartPlan(ParsedGraph(raw), form)
  {
    hide Advance, ParsedGraph, DistinctKeys;
    var g := ParseGraph(raw);
    var plan := Plan(g.nodes, PENDING, "", "", 0);
    if |g.nodes| == 0 {
      return Ok(plan.(instanceStatus := APPROVED));
    }
    var startKey := g.nodes[0].key;
    var i := 0;
    while i < |g.nodes|
      invariant 0 <= i <= |g.nodes| && startKey == g.nodes[0].key
      invariant forall j :: 0 <= j < i ==> g.nodes[j].nodeType != "start"
      invariant (exists j :: 0 <= j < |g.nodes| && g.nodes[j].nodeType == "start") ==>
        (exists j :: 0 <= j < |g.nodes[i..]| && g.nodes[i..][j].nodeType == "start") &&
        FirstOfType(g.nodes, "start") == FirstOfType(g.nodes[i..], "start")
    {
      if g.nodes[i].nodeType == "start" {
        startKey := g.nodes[i].key;
        break;
      }
      forall j | 0 <= j < |g.nodes[i..]| && g.nodes[i..][j].nodeType == "start"
        ensures j > 0 && g.nodes[i + 1..][j - 1] == g.nodes[i..][j]
      {
      }
      assert g.nodes[i..][1..] == g.nodes[i + 1..];
      i := i + 1;
    }
    ghost var rounds;
    r, rounds := AdvancePlan(g, plan, startKey, "", "", form);
  }

  // ----- acting

  function FirstMatching(actions: seq<ActionConfig>, action: string): (r: Option<ActionConfig>)
    ensures r.Some? ==> r.value in actions && EqualFold(r.value.code, action)
    ensures r.None? ==> forall a :: a in actions ==> !EqualFold(a.code, action)
  {
    if actions == [] then None
    else if EqualFold(actions[0].code, action) then Some(actions[0])
    else FirstMatching(actions[1..], action)
  }

  /** The configured action, or the built-in APPROVE and REJECT of a node that configures none. */
  function ResolveAction(config: NodeConfig, action: string): Option<ActionConfig> {
    var configured := FirstMatching(config.actions, action);
    if configured.Some? then configured
    else if config.actions != [] then None
    else if EqualFold(action, "REJECT") then Some(ActionConfig("REJECT", "", REJECTED, "", false))
    else if EqualFold(action, "APPROVE") then Some(ActionConfig("APPROVE", "", PENDING, "", false))
    else None
  }

  method FindAction(config: NodeConfig, action: string) returns (r: Option<ActionConfig>)
    ensures r == ResolveAction(config, action)
  {
    for i := 0 to |config.actions|
      invariant FirstMatching(config.actions, action) == FirstMatching(config.actions[i..], action)
    {
      if EqualFold(config.actions[i].code, action) {
        return Some(config.actions[i]);
      }
    }
    if |config.actions| > 0 {
      return None;
    }
    if EqualFold(action, "REJECT") {
      return Some(ActionConfig("REJECT", "", REJECTED, "", false));
    }
    if EqualFold(action, "APPROVE") {
      return Some(ActionConfig("APPROVE", "", PENDING, "", false));
    }
    return None;
  }

  /** The stored statuses by key. */
  function StatusMap(rows: seq<RtNode>): map<string, string> {
    if rows == [] then map[]
    else StatusMap(rows[..|rows| - 1])[rows[|rows| - 1].key := rows[|rows| - 1].status]
  }

  function Restored(node: RtNode, statuses: map<string, string>): RtNode {
    if node.key in statuses && statuses[node.key] != "" then node.(status := statuses[node.key]) else node
  }

  /** The parsed nodes with the statuses stored for them. */
  function Merged(base: seq<RtNode>, rows: seq<RtNode>): (r: seq<RtNode>)
    ensures SameShape(r, base)
  {
    seq(|base|, i requires 0 <= i < |base| => Restored(base[i], StatusMap(rows)))
  }

  method MergeStatuses(base: seq<RtNode>, rows: seq<RtNode>) returns (next: seq<RtNode>)
    ensures next == Merged(base, rows)
  {
    var statusByKey: map<string, string> := map[];
    for i := 0 to |rows|
      invariant statusByKey == StatusMap(rows[..i])
    {
      assert rows[..i + 1][..i] == rows[..i];
      statusByKey := statusByKey[rows[i].key := rows[i].status];
    }
    assert rows[..|rows|] == rows;
    next := base;
    for i := 0 to |base|
      invariant |next| == |base|
      invariant forall j :: 0 <= j < i ==> next[j] == Restored(base[j], statusByKey)
      invariant forall j :: i <= j < |base| ==> next[j] == base[j]
    {
      var node := next[i];
      if node.key in statusByKey && statusByKey[node.key] != "" {
        next := next[i := node.(status := statusByKey[node.key])];
      }
    }
  }

  /** What an action makes of the node it leaves. */
  function LeftStatus(action: string, config: ActionConfig): string {
    if EqualFold(action, "REJECT") || config.instanceStatus == REJECTED then REJECTED else APPROVED
  }

  function ActionPlan(g: Graph, rows: seq<RtNode>, current: string, action: string, comment: Option<string>, form: Form)
      : Result<Plan, PlanError>
  {
    var nodes := Merged(g.nodes, rows);
    match IndexOf(nodes, current)
    case None => Err(CurrentNotFound(current))
    case Some(index) =>
      var node := nodes[index];
      if node.nodeType != "approval" || node.status != RUNNING then Err(NotRunning(current))
      else
        match ResolveAction(node.config, action)
        case None => Err(ActionNotAllowed(action))
        case Some(config) =>
          if config.requireComment && (comment.None? || Blank(comment.value)) then Err(CommentRequired(action))
          else
            Advance(g, Plan(WithStatus(nodes, index, LeftStatus(action, config)), PENDING, "", "", node.stepIndex),
                    ActionTarget(g, node, config), Preferred(config.instanceStatus), config.businessStatus, form)
  }

  function ActionTarget(g: Graph, node: RtNode, config: ActionConfig): string {
    if config.target == "" then FirstOutgoing(g, node.key) else config.target
  }

  method BuildActionPlan(
      raw: Option<Spec>, rows: seq<RtNode>, current: string, action: string, comment: Option<string>, form: Form)
      returns (r: Result<Plan, PlanError>)
    ensures r == ActionPlan(ParsedGraph(raw), rows, current, action, comment, form)
  {
    hide ParsedGraph, FirstMatching, Trim, Upper, StatusMap, AdvanceFrom;
    var g := ParseGraph(raw);
    var nodes := MergeStatuses(g.nodes, rows);
    var plan := Plan(nodes, PENDING, "", "", 0);
    var index, ok := NodeIndex(plan.nodes, current);
    if !ok {
      return Err(CurrentNotFound(current));
    }
    var node := plan.nodes[index];
    plan := plan.(currentStep := node.stepIndex);
    if node.nodeType != "approval" || node.status != RUNNING {
      return Err(NotRunning(current));
    }
    var config := FindAction(node.config, action);
    if config.None? {
      return Err(ActionNotAllowed(action));
    }
    if config.value.requireComment && (comment.None? || Blank(comment.value)) {
      return Err(CommentRequired(action));
    }
    if EqualFold(action, "REJECT") || config.value.instanceStatus == REJECTED {
      plan := plan.(nodes := WithStatus(plan.nodes, index, REJECTED));
    } else {
      plan := plan.(nodes := WithStatus(plan.nodes, index, APPROVED));
    }
    var target := config.value.target;
    if target == "" {
      target := FirstOutgoing(g, node.key);
    }
    var nextStatus := config.value.instanceStatus;
    if nextStatus == "" {
      nextStatus := PENDING;
    }
    ghost var rounds;
    r, rounds := AdvancePlan(g, plan, target, nextStatus, config.value.businessStatus, form);
  }

  // ----- statuses after a walk

  ghost predicate DistinctKeys(nodes: seq<RtNode>) {
    forall i, j :: 0 <= i < j < |nodes| ==> nodes[i].key != nodes[j].key
  }

  ghost predicate IsApproval(nodes: seq<RtNode>, key: string) {
    exists i :: 0 <= i < |nodes| && nodes[i].key == key && nodes[i].nodeType == "approval"
  }

  /** Approvals change only by becoming the current node; other nodes never run. */
  ghost predicate WalkedStatuses(before: seq<RtNode>, after: seq<RtNode>, current: string) {
    && SameShape(after, before)
    && (forall i :: 0 <= i < |before| ==>
          if before[i].nodeType == "approval"
          then after[i].status == (if before[i].key == current then RUNNING else before[i].status)
          else after[i].status in [before[i].status, APPROVED, REJECTED])
    && (current == "" || IsApproval(before, current))
  }

  lemma PassedKeepsWalked(before: seq<RtNode>, index: nat, after: seq<RtNode>, current: string)
    requires index < |before| && before[index].nodeType != "approval"
    requires WalkedStatuses(WithStatus(before, index, APPROVED), after, current)
    ensures WalkedStatuses(before, after, current)
  {
    var marked := WithStatus(before, index, APPROVED);
    assert forall i :: 0 <= i < |before| ==> marked[i] == before[i] || i == index;
    if current != "" {
      var i :| 0 <= i < |marked| && marked[i].key == current && marked[i].nodeType == "approval";
      assert before[i].key == current && before[i].nodeType == "approval";
    }
  }

  lemma HaltKeepsWalked(plan: Plan, index: nat, preferred: string)
    requires DistinctKeys(plan.nodes) && index < |plan.nodes|
    requires forall i :: 0 <= i < |plan.nodes| ==> plan.nodes[i].key != ""
    requires plan.nodes[index].nodeType in ["approval", "end"]
    ensures var p := if plan.nodes[index].nodeType == "approval" then ReachApproval(plan, index, preferred)
                     else ReachEnd(plan, index, preferred);
            WalkedStatuses(plan.nodes, p.nodes, p.currentNodeKey)
  {
  }

  lemma {:induction false} AdvanceStatuses(
      g: Graph, plan: Plan, key: string, preferred: string, form: Form, visited: set<string>)
    requires DistinctKeys(plan.nodes) && AdvanceFrom(g, plan, key, preferred, form, visited).Ok?
    requires forall i :: 0 <= i < |plan.nodes| ==> plan.nodes[i].key != ""
    ensures var p := AdvanceFrom(g, plan, key, preferred, form, visited).value;
            WalkedStatuses(plan.nodes, p.nodes, p.currentNodeKey)
    decreases KeysOf(plan.nodes) - visited
  {
    if key != "" {
      var index := IndexOf(plan.nodes, key).value;
      var node := plan.nodes[index];
      if node.nodeType == "approval" || node.nodeType == "end" {
        HaltKeepsWalked(plan, index, preferred);
      } else {
        assert key in KeysOf(plan.nodes);
        var marked := plan.(nodes := WithStatus(plan.nodes, index, APPROVED));
        var r := AdvanceFrom(g, marked, Successor(g, node, form), preferred, form, visited + {key});
        assert AdvanceFrom(g, plan, key, preferred, form, visited) == r;
        AdvanceStatuses(g, marked, Successor(g, node, form), preferred, form, visited + {key});
        PassedKeepsWalked(plan.nodes, index, r.value.nodes, r.value.currentNodeKey);
      }
    }
  }

  /** Stored statuses survive parsing the definition again. */
  lemma MergeRestores(base: seq<RtNode>, rows: seq<RtNode>)
    requires SameShape(rows, base) && DistinctKeys(base)
    requires forall i :: 0 <= i < |rows| ==> rows[i].status != ""
    ensures Merged(base, rows) == rows
  {
    forall i | 0 <= i < |base|
      ensures Restored(base[i], StatusMap(rows)) == rows[i]
    {
      StatusMapFinds(rows, i);
    }
  }

  lemma {:induction false} StatusMapFinds(rows: seq<RtNode>, i: nat)
    requires i < |rows| && forall j :: i < j < |rows| ==> rows[j].key != rows[i].key
    ensures rows[i].key in StatusMap(rows) && StatusMap(rows)[rows[i].key] == rows[i].status
  {
    if i < |rows| - 1 {
      StatusMapFinds(rows[..|rows| - 1], i);
    }
  }

  lemma {:induction false} StatusMapMisses(rows: seq<RtNode>, key: string)
    ensures key in StatusMap(rows) <==> exists i :: 0 <= i < |rows| && rows[i].key == key
  {
    if rows != [] {
      var n := |rows| - 1;
      StatusMapMisses(rows[..n], key);
      assert forall i :: 0 <= i < n ==> rows[..n][i] == rows[i];
    }
  }

  ghost predicate LastOfKey(rows: seq<RtNode>, key: string, j: int) {
    0 <= j < |rows| && rows[j].key == key && forall k :: j < k < |rows| ==> rows[k].key != key
  }

  /** A node takes the status of the last row stored under its key, unless that is empty; one without
      a row keeps its own. Nothing else of it changes. */
  lemma MergedTakesLast(base: seq<RtNode>, rows: seq<RtNode>, i: nat)
    requires i < |base|
    ensures forall j :: LastOfKey(rows, base[i].key, j) ==>
              var stored := rows[j].status;
              Merged(base, rows)[i] == base[i].(status := if stored != "" then stored else base[i].status)
    ensures (forall j :: 0 <= j < |rows| ==> rows[j].key != base[i].key) ==> Merged(base, rows)[i] == base[i]
  {
    StatusMapMisses(rows, base[i].key);
    forall j | LastOfKey(rows, base[i].key, j)
      ensures base[i].key in StatusMap(rows) && StatusMap(rows)[base[i].key] == rows[j].status
    {
      StatusMapFinds(rows, j);
    }
  }
}
