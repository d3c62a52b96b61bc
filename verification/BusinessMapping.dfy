/** The status-mapping table derived from a definition, and what it does to a plan
    (workflow_business_store.go). */
module BusinessMapping {
  import opened Wrappers
  import opened Text
  import opened WorkflowModel
  import opened WorkflowRuntime
  import opened WorkflowWalk
  import opened WalkTheory
  import opened ApprovalPlans

  datatype Mapping = Mapping(nodeKey: string, actionCode: string, workflowStatus: string, businessStatus: string)

  datatype RowKey = RowKey(workflow: int, nodeKey: string, actionCode: string)

  datatype Row = Row(workflowStatus: string, businessStatus: string)

  type Rows = map<RowKey, Row>

  // ----- deriving and storing mappings

  function ActionMapping(nodeKey: string, a: ActionConfig): Mapping {
    Mapping(nodeKey, a.code, Preferred(a.instanceStatus), Trim(a.businessStatus))
  }

  function ActionMappings(nodeKey: string, actions: seq<ActionConfig>): seq<Mapping> {
    if actions == [] then []
    else
      var n := |actions| - 1;
      ActionMappings(nodeKey, actions[..n]) +
      if Blank(actions[n].businessStatus) then [] else [ActionMapping(nodeKey, actions[n])]
  }

  lemma {:induction false} ActionMappingsMeaning(nodeKey: string, actions: seq<ActionConfig>, m: Mapping)
    ensures m in ActionMappings(nodeKey, actions) <==>
            exists a :: a in actions && !Blank(a.businessStatus) && m == ActionMapping(nodeKey, a)
  {
    if actions != [] {
      var n := |actions| - 1;
      assert actions == actions[..n] + [actions[n]];
      ActionMappingsMeaning(nodeKey, actions[..n], m);
    }
  }

  function EndMapping(node: RtNode): Mapping {
    Mapping(node.key, "COMPLETE", if node.config.finalStatus == "" then APPROVED else node.config.finalStatus,
            Trim(node.config.finalBusinessStatus))
  }

  function NodeMappings(node: RtNode): seq<Mapping> {
    ActionMappings(node.key, node.config.actions) +
    if node.nodeType == "end" && !Blank(node.config.finalBusinessStatus)
    then [EndMapping(node)]
    else []
  }

  function DefinitionMappings(nodes: seq<RtNode>): seq<Mapping> {
    if nodes == [] then []
    else DefinitionMappings(nodes[..|nodes| - 1]) + NodeMappings(nodes[|nodes| - 1])
  }

  lemma {:induction false} DefinitionMappingsMeaning(nodes: seq<RtNode>, m: Mapping)
    ensures m in DefinitionMappings(nodes) <==> exists n :: n in nodes && m in NodeMappings(n)
  {
    if nodes != [] {
      var n := |nodes| - 1;
      assert nodes == nodes[..n] + [nodes[n]];
      DefinitionMappingsMeaning(nodes[..n], m);
    }
  }

  method MappingsOfActions(nodeKey: string, actions: seq<ActionConfig>) returns (mappings: seq<Mapping>)
    ensures mappings == ActionMappings(nodeKey, actions)
  {
    mappings := [];
    for k := 0 to |actions|
      invariant mappings == ActionMappings(nodeKey, actions[..k])
    {
      var a := actions[k];
      assert actions[..k + 1][..k] == actions[..k];
      if Blank(a.businessStatus) {
        continue;
      }
      var workflowStatus := if a.instanceStatus == "" then PENDING else a.instanceStatus;
      mappings := mappings + [Mapping(nodeKey, a.code, workflowStatus, Trim(a.businessStatus))];
    }
    assert actions[..|actions|] == actions;
  }

  method MappingsOfNodes(nodes: seq<RtNode>) returns (mappings: seq<Mapping>)
    ensures mappings == DefinitionMappings(nodes)
  {
    mappings := [];
    for i := 0 to |nodes|
      invariant mappings == DefinitionMappings(nodes[..i])
    {
      var node := nodes[i];
      assert nodes[..i + 1][..i] == nodes[..i];
      var ofActions := MappingsOfActions(node.key, node.config.actions);
      var ofEnd := [];
      if node.nodeType == "end" && !Blank(node.config.finalBusinessStatus) {
        ofEnd := [EndMapping(node)];
      }
      assert NodeMappings(node) == ofActions + ofEnd;
      mappings := mappings + (ofActions + ofEnd);
    }
    assert nodes[..|nodes|] == nodes;
  }

  method MappingsFromDefinition(raw: Option<Spec>) returns (mappings: seq<Mapping>)
    ensures mappings == DefinitionMappings(ParsedGraph(raw).nodes)
  {
    var g := ParseGraph(raw);
    mappings := MappingsOfNodes(g.nodes);
  }

  function KeyOf(workflow: int, m: Mapping): RowKey {
    RowKey(workflow, m.nodeKey, m.actionCode)
  }

  /** The upserts, in order: a later mapping overwrites an earlier one with the same key. */
  function Upserted(rows: Rows, workflow: int, mappings: seq<Mapping>): Rows {
    if mappings == [] then rows
    else
      var m := mappings[|mappings| - 1];
      Upserted(rows, workflow, mappings[..|mappings| - 1])
        [KeyOf(workflow, m) := Row(m.workflowStatus, m.businessStatus)]
  }

  function WithoutWorkflow(rows: Rows, workflow: int): Rows {
    map k | k in rows && k.workflow != workflow :: rows[k]
  }

  class MappingTable {
    var rows: Rows

    constructor ()
      ensures rows == map[]
    {
      rows := map[];
    }

    method Upsert(workflow: int, mappings: seq<Mapping>)
      modifies this
      ensures rows == Upserted(old(rows), workflow, mappings)
    {
      for i := 0 to |mappings|
        invariant rows == Upserted(old(rows), workflow, mappings[..i])
      {
        assert mappings[..i + 1][..i] == mappings[..i];
        rows := rows[KeyOf(workflow, mappings[i]) := Row(mappings[i].workflowStatus, mappings[i].businessStatus)];
      }
      assert mappings[..|mappings|] == mappings;
    }

    /** Saving a definition: its rows are deleted and written anew, all others are kept. */
    method Sync(workflow: int, raw: Option<Spec>)
      modifies this
      ensures rows == Upserted(WithoutWorkflow(old(rows), workflow), workflow,
              DefinitionMappings(ParsedGraph(raw).nodes))
    {
      rows := WithoutWorkflow(rows, workflow);
      var mappings := MappingsFromDefinition(raw);
      Upsert(workflow, mappings);
    }
  }

  lemma UpsertedSnoc(rows: Rows, workflow: int, mappings: seq<Mapping>, m: Mapping)
    ensures Upserted(rows, workflow, mappings + [m]) ==
            Upserted(rows, workflow, mappings)[KeyOf(workflow, m) := Row(m.workflowStatus, m.businessStatus)]
  {
    assert (mappings + [m])[..|mappings|] == mappings;
  }

  /** Rows of a workflow after a sync are exactly those the mappings call for; others are untouched. */
  lemma {:induction false} UpsertedRows(rows: Rows, workflow: int, mappings: seq<Mapping>, k: RowKey)
    ensures var r := Upserted(rows, workflow, mappings);
            && (k in r <==> k in rows || exists m :: m in mappings && KeyOf(workflow, m) == k)
            && (k in r ==> (k in rows && r[k] == rows[k]) ||
                           exists m :: m in mappings && KeyOf(workflow, m) == k &&
                               r[k] == Row(m.workflowStatus, m.businessStatus))
            && (k.workflow != workflow && k in r ==> k in rows && r[k] == rows[k])
  {
    if mappings != [] {
      hide Upserted;
      var n := |mappings| - 1;
      assert mappings == mappings[..n] + [mappings[n]];
      UpsertedSnoc(rows, workflow, mappings[..n], mappings[n]);
      UpsertedRows(rows, workflow, mappings[..n], k);
    }
  }

  lemma {:induction false} UpsertedConcat(rows: Rows, workflow: int, a: seq<Mapping>, b: seq<Mapping>)
    ensures Upserted(rows, workflow, a + b) == Upserted(Upserted(rows, workflow, a), workflow, b)
  {
    if b == [] {
      assert a + b == a;
    } else {
      assert (a + b)[..|a + b| - 1] == a + b[..|b| - 1];
      UpsertedConcat(rows, workflow, a, b[..|b| - 1]);
    }
  }

  lemma {:induction false} OtherMappingsKeep(rows: Rows, workflow: int, mappings: seq<Mapping>, k: RowKey)
    requires forall m :: m in mappings ==> KeyOf(workflow, m) != k
    ensures var r := Upserted(rows, workflow, mappings);
            (k in r <==> k in rows) && (k in r ==> r[k] == rows[k])
  {
    if mappings != [] {
      OtherMappingsKeep(rows, workflow, mappings[..|mappings| - 1], k);
    }
  }

  lemma NodeMappingsKey(node: RtNode, m: Mapping)
    requires m in NodeMappings(node)
    ensures m.nodeKey == node.key
  {
    ActionMappingsMeaning(node.key, node.config.actions, m);
  }

  lemma OtherNodesMappings(nodes: seq<RtNode>, workflow: int, k: RowKey)
    requires DistinctKeys(nodes) && nodes != [] && k.nodeKey == nodes[|nodes| - 1].key
    ensures forall m :: m in DefinitionMappings(nodes[..|nodes| - 1]) ==> KeyOf(workflow, m) != k
  {
    hide NodeMappings;
    var before := nodes[..|nodes| - 1];
    forall m | m in DefinitionMappings(before)
      ensures KeyOf(workflow, m) != k
    {
      DefinitionMappingsMeaning(before, m);
      var other :| other in before && m in NodeMappings(other);
      NodeMappingsKey(other, m);
    }
  }

  /** With distinct keys a node alone decides the rows under its key. */
  lemma {:induction false} NodeDecidesRows(rows: Rows, workflow: int, nodes: seq<RtNode>, i: nat, k: RowKey)
    requires DistinctKeys(nodes) && i < |nodes| && k.nodeKey == nodes[i].key
    ensures var r, own := Upserted(rows, workflow, DefinitionMappings(nodes)), Upserted(rows, workflow,
              NodeMappings(nodes[i]));
            (k in r <==> k in own) && (k in r ==> r[k] == own[k])
    decreases |nodes|
  {
    hide NodeMappings, Trim;
    var n := |nodes| - 1;
    var before, last := DefinitionMappings(nodes[..n]), NodeMappings(nodes[n]);
    UpsertedConcat(rows, workflow, before, last);
    forall m | m in last
      ensures m.nodeKey == nodes[n].key
    {
      NodeMappingsKey(nodes[n], m);
    }
    if i < n {
      NodeDecidesRows(rows, workflow, nodes[..n], i, k);
      OtherMappingsKeep(Upserted(rows, workflow, before), workflow, last, k);
    } else {
      OtherNodesMappings(nodes, workflow, k);
      OtherMappingsKeep(rows, workflow, before, k);
      SameOnKey(Upserted(rows, workflow, before), rows, workflow, last, k);
    }
  }

  lemma {:induction false} SameOnKey(a: Rows, b: Rows, workflow: int, mappings: seq<Mapping>, k: RowKey)
    requires (k in a <==> k in b) && (k in a ==> a[k] == b[k])
    ensures var r, q := Upserted(a, workflow, mappings), Upserted(b, workflow, mappings);
            (k in r <==> k in q) && (k in r ==> r[k] == q[k])
  {
    if mappings != [] {
      SameOnKey(a, b, workflow, mappings[..|mappings| - 1], k);
    }
  }

  ghost function Synced(rows: Rows, workflow: int, nodes: seq<RtNode>): Rows {
    Upserted(WithoutWorkflow(rows, workflow), workflow, DefinitionMappings(nodes))
  }

  /** An end node with a business status gets the row COMPLETE: its final status, APPROVED if it has
      none, and that business status. */
  lemma CompleteRow(rows: Rows, workflow: int, nodes: seq<RtNode>, i: nat)
    requires DistinctKeys(nodes) && i < |nodes| && nodes[i].nodeType == "end"
    requires Trim(nodes[i].config.finalBusinessStatus) != ""
    ensures var key, final := RowKey(workflow, nodes[i].key, "COMPLETE"), nodes[i].config.finalStatus;
            && key in Synced(rows, workflow, nodes)
            && Synced(rows, workflow, nodes)[key] ==
               Row(if final == "" then "APPROVED" else final, Trim(nodes[i].config.finalBusinessStatus))
  {
    hide Trim;
    var key := RowKey(workflow, nodes[i].key, "COMPLETE");
    NodeDecidesRows(WithoutWorkflow(rows, workflow), workflow, nodes, i, key);
    var own := NodeMappings(nodes[i]);
    assert own[|own| - 1] == EndMapping(nodes[i]);
  }

  /** The last action of a node with that code and a business status. */
  ghost predicate LastWithCode(actions: seq<ActionConfig>, i: nat)
    requires i < |actions|
  {
    && Trim(actions[i].businessStatus) != ""
    && forall j :: i < j < |actions| && Trim(actions[j].businessStatus) != "" ==> actions[j].code != actions[i].code
  }

  lemma ActionMappingsSnoc(nodeKey: string, actions: seq<ActionConfig>, n: nat)
    requires |actions| == n + 1
    ensures ActionMappings(nodeKey, actions) ==
            ActionMappings(nodeKey, actions[..n]) +
            if Trim(actions[n].businessStatus) == "" then [] else [ActionMapping(nodeKey, actions[n])]
  {
    hide Trim;
  }

  lemma {:induction false} LastActionWrites(
      rows: Rows, workflow: int, nodeKey: string, actions: seq<ActionConfig>, i: nat)
    requires i < |actions| && LastWithCode(actions, i)
    ensures var key, a := RowKey(workflow, nodeKey, actions[i].code), actions[i];
            var r := Upserted(rows, workflow, ActionMappings(nodeKey, actions));
            && key in r
            && r[key] == Row(if a.instanceStatus == "" then "PENDING" else a.instanceStatus, Trim(a.businessStatus))
    decreases |actions|
  {
    hide Trim, Upserted, ActionMappings;
    var n := |actions| - 1;
    var before := ActionMappings(nodeKey, actions[..n]);
    ActionMappingsSnoc(nodeKey, actions, n);
    UpsertedSnoc(rows, workflow, before, ActionMapping(nodeKey, actions[n]));
    if i < n {
      assert LastWithCode(actions[..n], i);
      LastActionWrites(rows, workflow, nodeKey, actions[..n], i);
    }
    assert before + [] == before;
  }

  /** Of a node's actions with one code and a business status the last one gets the row: its status,
      PENDING if it has none, and its business status; an end node's own row comes after them. */
  lemma ActionRow(rows: Rows, workflow: int, nodes: seq<RtNode>, i: nat, j: nat)
    requires DistinctKeys(nodes) && i < |nodes| && j < |nodes[i].config.actions|
    requires LastWithCode(nodes[i].config.actions, j)
    requires nodes[i].nodeType == "end" ==> nodes[i].config.actions[j].code != "COMPLETE"
    ensures var a := nodes[i].config.actions[j];
            var key := RowKey(workflow, nodes[i].key, a.code);
            && key in Synced(rows, workflow, nodes)
            && Synced(rows, workflow, nodes)[key] ==
               Row(if a.instanceStatus == "" then "PENDING" else a.instanceStatus, Trim(a.businessStatus))
  {
    hide Trim, LastWithCode;
    var a, base := nodes[i].config.actions[j], WithoutWorkflow(rows, workflow);
    var key := RowKey(workflow, nodes[i].key, a.code);
    NodeDecidesRows(base, workflow, nodes, i, key);
    var ofActions := ActionMappings(nodes[i].key, nodes[i].config.actions);
    LastActionWrites(base, workflow, nodes[i].key, nodes[i].config.actions, j);
    var ofEnd := NodeMappings(nodes[i])[|ofActions|..];
    assert NodeMappings(nodes[i]) == ofActions + ofEnd;
    UpsertedConcat(base, workflow, ofActions, ofEnd);
    OtherMappingsKeep(Upserted(base, workflow, ofActions), workflow, ofEnd, key);
  }

  /** There is no row of the workflow but those. */
  lemma OnlyConfiguredRows(rows: Rows, workflow: int, nodes: seq<RtNode>, k: RowKey)
    requires k in Synced(rows, workflow, nodes) && k.workflow == workflow
    ensures exists n :: n in nodes && k.nodeKey == n.key && CallsFor(n, k.actionCode)
  {
    hide Trim;
    UpsertedRows(WithoutWorkflow(rows, workflow), workflow, DefinitionMappings(nodes), k);
    var m :| m in DefinitionMappings(nodes) && KeyOf(workflow, m) == k;
    DefinitionMappingsMeaning(nodes, m);
    var n :| n in nodes && m in NodeMappings(n);
    ActionMappingsMeaning(n.key, n.config.actions, m);
    assert CallsFor(n, k.actionCode);
  }

  /** The node configures a business status under the code. */
  ghost predicate CallsFor(n: RtNode, code: string) {
    || (exists a :: a in n.config.actions && a.code == code && Trim(a.businessStatus) != "")
    || (n.nodeType == "end" && code == "COMPLETE" && Trim(n.config.finalBusinessStatus) != "")
  }

  // ----- reading a mapping back

  ghost predicate Hit(rows: Rows, workflow: int, nodeKey: string, action: string, k: RowKey) {
    k in rows && k.workflow == workflow && k.nodeKey == nodeKey && Upper(k.actionCode) == Upper(action)
  }

  /** The query ignores case, so it may return any one of several rows. */
  ghost predicate MayLoad(rows: Rows, workflow: int, nodeKey: string, action: string, r: Option<Row>) {
    match r
    case None => forall k :: !Hit(rows, workflow, nodeKey, action, k)
    case Some(row) => exists k :: Hit(rows, workflow, nodeKey, action, k) && rows[k] == row
  }

  /** Action codes of a node differ by more than case. */
  ghost predicate DistinctCodes(actions: seq<ActionConfig>) {
    forall a, b :: a in actions && b in actions && EqualFold(a.code, b.code) ==> a == b
  }

  ghost predicate TrimmedStatuses(actions: seq<ActionConfig>) {
    forall a :: a in actions ==> Trim(a.instanceStatus) == a.instanceStatus
  }

  /** The row the definition calls for at a node, for an action. */
  function ConfiguredRow(actions: seq<ActionConfig>, action: string): Option<Row> {
    match FirstMatching(actions, action)
    case None => None
    case Some(a) => if Blank(a.businessStatus) then None
        else Some(Row(Preferred(a.instanceStatus), Trim(a.businessStatus)))
  }

  /** A mapping stored under an approval's key comes from one of that approval's actions. */
  lemma MappingOfApproval(nodes: seq<RtNode>, i: nat, m: Mapping) returns (a: ActionConfig)
    requires DistinctKeys(nodes) && i < |nodes| && nodes[i].nodeType == "approval"
    requires m in DefinitionMappings(nodes) && m.nodeKey == nodes[i].key
    ensures a in nodes[i].config.actions && !Blank(a.businessStatus) && m == ActionMapping(nodes[i].key, a)
  {
    DefinitionMappingsMeaning(nodes, m);
    var n :| n in nodes && m in NodeMappings(n);
    ActionMappingsMeaning(n.key, n.config.actions, m);
    var j :| 0 <= j < |nodes| && nodes[j] == n;
    assert n.key == m.nodeKey;
    assert i == j;
    a :| a in n.config.actions && !Blank(a.businessStatus) && m == ActionMapping(n.key, a);
  }

  lemma ConfiguredIsStored(before: Rows, workflow: int, nodes: seq<RtNode>, i: nat, a: ActionConfig, action: string)
    requires i < |nodes| && a in nodes[i].config.actions && !Blank(a.businessStatus) && EqualFold(a.code, action)
    ensures Hit(Upserted(WithoutWorkflow(before, workflow), workflow, DefinitionMappings(nodes)),
                workflow, nodes[i].key, action, RowKey(workflow, nodes[i].key, a.code))
  {
    var m := ActionMapping(nodes[i].key, a);
    ActionMappingsMeaning(nodes[i].key, nodes[i].config.actions, m);
    assert nodes[i] in nodes && m in NodeMappings(nodes[i]);
    DefinitionMappingsMeaning(nodes, m);
    UpsertedRows(WithoutWorkflow(before, workflow), workflow, DefinitionMappings(nodes), KeyOf(workflow, m));
  }

  /** With an unchanged definition, whatever row the query returns is the one configured. */
  lemma {:induction false} LoadIsConfigured(before: Rows, workflow: int, nodes: seq<RtNode>, i: nat, action: string,
      r: Option<Row>)
    requires DistinctKeys(nodes) && i < |nodes| && nodes[i].nodeType == "approval"
    requires DistinctCodes(nodes[i].config.actions)
    requires MayLoad(Upserted(WithoutWorkflow(before, workflow), workflow, DefinitionMappings(nodes)),
                     workflow, nodes[i].key, action, r)
    ensures r == ConfiguredRow(nodes[i].config.actions, action)
  {
    var base, ms := WithoutWorkflow(before, workflow), DefinitionMappings(nodes);
    var rows := Upserted(base, workflow, ms);
    var found := FirstMatching(nodes[i].config.actions, action);
    match r {
      case Some(row) =>
        var k :| Hit(rows, workflow, nodes[i].key, action, k) && rows[k] == row;
        UpsertedRows(base, workflow, ms, k);
        var m :| m in ms && KeyOf(workflow, m) == k && rows[k] == Row(m.workflowStatus, m.businessStatus);
        var a := MappingOfApproval(nodes, i, m);
        assert EqualFold(a.code, action) && found.Some?;
        assert EqualFold(a.code, found.value.code);
      case None =>
        if found.Some? && !Blank(found.value.businessStatus) {
          ConfiguredIsStored(before, workflow, nodes, i, found.value, action);
        }
    }
  }

  // ----- applying a mapping to a plan

  /** The status the instance gets and the business status written for it ("" writes none);
      None when the business adapter refuses. */
  function Transition(plan: Plan, row: Option<Row>, adapterFails: bool): Option<(string, string)> {
    var status :=
      if row.Some? && !Blank(row.value.workflowStatus) then Trim(row.value.workflowStatus) else plan.instanceStatus;
    var business := if row.Some? then Trim(row.value.businessStatus) else Trim(plan.businessStatus);
    if business != "" && adapterFails then None else Some((status, business))
  }

  // ----- where the walk of an action ends

  ghost predicate HaltsAtKey(g: Graph, nodes: seq<RtNode>, start: string, form: Form, key: string) {
    exists n: nat :: HaltsFirstAt(Moves(g, nodes, form), start, n) && At(Moves(g, nodes, form), start, n) == key
  }

  /** The walk from start halts at the end node with index e. */
  ghost predicate EndsAt(g: Graph, nodes: seq<RtNode>, start: string, form: Form, e: nat) {
    && e < |nodes| && nodes[e].nodeType == "end" && nodes[e].key != ""
    && IndexOf(nodes, nodes[e].key) == Some(e) && HaltsAtKey(g, nodes, start, form, nodes[e].key)
  }

  lemma HaltKeyUnique(g: Graph, nodes: seq<RtNode>, start: string, form: Form, a: string, b: string)
    requires HaltsAtKey(g, nodes, start, form, a) && HaltsAtKey(g, nodes, start, form, b)
    ensures a == b
  {
    var move := Moves(g, nodes, form);
    var m: nat :| HaltsFirstAt(move, start, m) && At(move, start, m) == a;
    var n: nat :| HaltsFirstAt(move, start, n) && At(move, start, n) == b;
    assert m == n;
  }

  /** A plan is the outcome at the key where the walk halts, up to the statuses it marked. */
  lemma PlanHalts(g: Graph, plan: Plan, start: string, status: string, business: string, form: Form)
      returns (key: string, marked: seq<RtNode>)
    requires Advance(g, plan, start, status, business, form).Ok?
    ensures HaltsAtKey(g, plan.nodes, start, form, key) && SameShape(marked, plan.nodes)
    ensures Advance(g, plan, start, status, business, form) ==
            Outcome(plan.(businessStatus := business, nodes := marked), key, Preferred(status))
  {
    var move := Moves(g, plan.nodes, form);
    AdvanceIsWalk(g, plan, start, status, business, form);
    var c := Chase(move, KeysOf(plan.nodes), start, {});
    HaltedMeans(move, KeysOf(plan.nodes), start, {});
    assert HaltsFirstAt(move, start, |c.passed|) && At(move, start, |c.passed|) == c.key;
    key, marked := c.key, MarkPassed(plan.nodes, c.passed);
  }

  /** The business status a plan carries at an end node: the node's own, else the action's. */
  function EndBusiness(node: RtNode, business: string): string {
    if node.config.finalBusinessStatus != "" then node.config.finalBusinessStatus else business
  }

  /** A plan that halts elsewhere keeps the preferred status; one that halts at an end node gets
      the status of that node. */
  lemma {:induction false} PlanStatus(g: Graph, plan: Plan, start: string, status: string, business: string, form: Form)
    requires Advance(g, plan, start, status, business, form).Ok?
    ensures var p := Advance(g, plan, start, status, business, form).value;
            && (forall e: nat :: EndsAt(g, plan.nodes, start, form, e) ==>
                  p.instanceStatus == EndStatus(plan.nodes[e], Preferred(status)) && p.currentNodeKey == "" &&
                  p.businessStatus == EndBusiness(plan.nodes[e], business))
            && ((forall e: nat :: !EndsAt(g, plan.nodes, start, form, e)) ==>
                  p.instanceStatus == Preferred(status) && p.businessStatus == business)
  {
    var key, marked := PlanHalts(g, plan, start, status, business, form);
    SameShapeIndex(marked, plan.nodes, key);
    var index := IndexOf(plan.nodes, key);
    forall e: nat | EndsAt(g, plan.nodes, start, form, e)
      ensures key == plan.nodes[e].key && index == Some(e)
    {
      HaltKeyUnique(g, plan.nodes, start, form, key, plan.nodes[e].key);
    }
    if key != "" && index.Some? && plan.nodes[index.value].nodeType == "end" {
      assert EndsAt(g, plan.nodes, start, form, index.value);
    }
  }
}
