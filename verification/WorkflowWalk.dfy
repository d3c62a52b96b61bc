/** What the engine's bounded walk computes, stated by the unbounded successor walk: exact
    cycle detection, and the plan as a function of where the unbounded walk first halts. */
module WorkflowWalk {
  import opened Wrappers
  import opened WorkflowRuntime
  import opened WalkTheory

  /** A blank key (dead end), an unknown key, an approval and an end halt the walk. */
  function MoveAt(g: Graph, nodes: seq<RtNode>, form: Form, key: string): Move {
    if key == "" then Halt
    else
      match IndexOf(nodes, key)
      case None => Halt
      case Some(i) =>
        if nodes[i].nodeType == "approval" || nodes[i].nodeType == "end" then Halt
        else Go(Successor(g, nodes[i], form))
  }

  function Moves(g: Graph, nodes: seq<RtNode>, form: Form): (move: string -> Move) {
    key => MoveAt(g, nodes, form, key)
  }

  lemma MovesWithinKeys(g: Graph, nodes: seq<RtNode>, form: Form)
    ensures Within(Moves(g, nodes, form), KeysOf(nodes))
  {
  }

  function MarkPassed(nodes: seq<RtNode>, keys: seq<string>): (r: seq<RtNode>)
    ensures SameShape(r, nodes)
    decreases |keys|
  {
    if keys == [] then nodes
    else
      var index := IndexOf(nodes, keys[0]);
      MarkPassed(if index.Some? then WithStatus(nodes, index.value, APPROVED) else nodes, keys[1..])
  }

  /** What the walk yields at the key where it halts. */
  function Outcome(plan: Plan, key: string, preferred: string): Result<Plan, PlanError> {
    if key == "" then Ok(plan.(instanceStatus := preferred, currentNodeKey := ""))
    else
      match IndexOf(plan.nodes, key)
      case None => Err(TargetNotFound(key))
      case Some(index) =>
        if plan.nodes[index].nodeType == "approval" then Ok(ReachApproval(plan, index, preferred))
        else Ok(ReachEnd(plan, index, preferred))
  }

  ghost function ChasedOutcome(plan: Plan, c: Chased, preferred: string): Result<Plan, PlanError> {
    match c
    case Looped(key) => Err(CycleAt(key))
    case Halted(key, passed) => Outcome(plan.(nodes := MarkPassed(plan.nodes, passed)), key, preferred)
  }

  lemma MarkPassedCons(nodes: seq<RtNode>, key: string, rest: seq<string>)
    requires IndexOf(nodes, key).Some?
    ensures MarkPassed(nodes, [key] + rest) == MarkPassed(WithStatus(nodes, IndexOf(nodes, key).value, APPROVED), rest)
  {
    assert ([key] + rest)[1..] == rest;
  }

  /** Statuses do not influence where the walk goes. */
  lemma MoveIgnoresStatus(g: Graph, a: seq<RtNode>, b: seq<RtNode>, form: Form, key: string)
    requires SameShape(a, b)
    ensures MoveAt(g, a, form, key) == MoveAt(g, b, form, key)
  {
    SameShapeIndex(a, b, key);
  }

  lemma {:induction false} AdvanceIsChase(
      g: Graph, base: seq<RtNode>, plan: Plan, key: string, preferred: string, form: Form, visited: set<string>)
    requires SameShape(plan.nodes, base) && Within(Moves(g, base, form), KeysOf(base))
    requires forall k :: k in visited ==> MoveAt(g, base, form, k).Go?
    ensures AdvanceFrom(g, plan, key, preferred, form, visited) ==
            ChasedOutcome(plan, Chase(Moves(g, base, form), KeysOf(base), key, visited), preferred)
    decreases KeysOf(base) - visited
  {
    var move, keys := Moves(g, base, form), KeysOf(base);
    assert move(key) == MoveAt(g, base, form, key);
    MoveIgnoresStatus(g, plan.nodes, base, form, key);
    SameShapeIndex(plan.nodes, base, key);
    if move(key).Go? && key !in visited {
      var marked := WithStatus(plan.nodes, IndexOf(plan.nodes, key).value, APPROVED);
      var next := move(key).next;
      AdvanceIsChase(g, base, plan.(nodes := marked), next, preferred, form, visited + {key});
      var rest := Chase(move, keys, next, visited + {key});
      if rest.Halted? {
        MarkPassedCons(plan.nodes, key, rest.passed);
      }
    }
  }

  /** The walk from start, as the engine's callers run it. */
  lemma AdvanceIsWalk(g: Graph, plan: Plan, start: string, status: string, business: string, form: Form)
    ensures Within(Moves(g, plan.nodes, form), KeysOf(plan.nodes))
    ensures Advance(g, plan, start, status, business, form) ==
            ChasedOutcome(plan.(businessStatus := business),
                          Chase(Moves(g, plan.nodes, form), KeysOf(plan.nodes), start, {}), Preferred(status))
  {
    MovesWithinKeys(g, plan.nodes, form);
    AdvanceIsChase(g, plan.nodes, plan.(businessStatus := business), start, Preferred(status), form, {});
  }

  /** Exact cycle detection: the engine reports a cycle if and only if the unbounded walk never
      meets an approval, an end, an unknown key or a dead end. */
  lemma {:induction false} CycleIffNeverHalts(g: Graph, plan: Plan, start: string, status: string, business: string,
      form: Form)
    ensures var r := Advance(g, plan, start, status, business, form);
            r.Err? && r.error.CycleAt? <==> NeverHalts(Moves(g, plan.nodes, form), start)
  {
    AdvanceIsWalk(g, plan, start, status, business, form);
    ChaseIsWalk(Moves(g, plan.nodes, form), KeysOf(plan.nodes), start);
  }

  /** Otherwise the plan is the outcome at the first halt, which comes within as many steps as
      there are keys; the nodes passed on the way are approved. */
  lemma {:induction false} PlanIsOutcomeAtFirstHalt(
      g: Graph, plan: Plan, start: string, status: string, business: string, form: Form, n: nat, passed: seq<string>)
    requires HaltsFirstAt(Moves(g, plan.nodes, form), start, n)
    requires |passed| == n && forall i :: 0 <= i < n ==> passed[i] == At(Moves(g, plan.nodes, form), start, i)
    ensures Advance(g, plan, start, status, business, form) ==
            Outcome(plan.(businessStatus := business, nodes := MarkPassed(plan.nodes, passed)),
                    At(Moves(g, plan.nodes, form), start, n), Preferred(status))
    ensures n <= |KeysOf(plan.nodes)|
  {
    var move := Moves(g, plan.nodes, form);
    AdvanceIsWalk(g, plan, start, status, business, form);
    ChaseIsWalk(move, KeysOf(plan.nodes), start);
    assert Chase(move, KeysOf(plan.nodes), start, {}).passed == passed;
  }
}
