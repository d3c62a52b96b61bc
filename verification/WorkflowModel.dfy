/** A parsed workflow definition: the nodes a user drew and the edges between them. */
module WorkflowModel {
  import opened Wrappers
  import opened Text

  datatype ActionConfig = ActionConfig(
    code: string, target: string, instanceStatus: string, businessStatus: string, requireComment: bool)

  datatype Condition = Condition(expression: string, expr: string, target: string)

  datatype NodeConfig = NodeConfig(
    actions: seq<ActionConfig>, conditions: seq<Condition>, defaultTarget: string,
    finalStatus: string, finalBusinessStatus: string)

  const NO_CONFIG := NodeConfig([], [], "", "", "")

  datatype NodeData = NodeData(key: string, name: string, nodeType: string, assignee: string, config: NodeConfig)

  datatype DefNode = DefNode(id: string, key: string, name: string, typ: string, data: NodeData)

  datatype Edge = Edge(source: string, target: string)

  datatype Spec = Spec(nodes: seq<DefNode>, edges: seq<Edge>)

  /** The name by which edges refer to the node at position index. */
  function Identity(n: DefNode, index: nat): (id: string)
    ensures id != ""
  {
    if n.id != "" then n.id
    else if n.key != "" then n.key
    else if n.data.key != "" then n.data.key
    else "node_" + Itoa(index + 1)
  }

  function NodeType(n: DefNode): string {
    FirstNonEmpty([n.data.nodeType, n.typ, "action"])
  }

  /** The key under which the engine runs a node; never empty. */
  function ExecKey(n: DefNode): (key: string)
    ensures key != ""
  {
    var key := FirstNonEmpty([n.data.key, n.key, n.id]);
    if key == "" then "node" else key
  }

  function ExecName(n: DefNode): string {
    FirstNonEmpty([n.data.name, n.name, ExecKey(n)])
  }

  function NodeIds(spec: Spec): (ids: seq<string>)
    ensures |ids| == |spec.nodes|
    ensures forall i :: 0 <= i < |ids| ==> ids[i] == Identity(spec.nodes[i], i)
  {
    seq(|spec.nodes|, i requires 0 <= i < |spec.nodes| => Identity(spec.nodes[i], i))
  }

  /** The two-node definition used when the stored text has no nodes. */
  const DEFAULT_SPEC := Spec(
    [DefNode("start", "start", "Start", "start", NodeData("", "", "", "", NO_CONFIG)),
     DefNode("end", "end", "End", "end", NodeData("", "", "", "", NO_CONFIG))], [])

  /** None stands for text that is absent or does not parse. */
  function Effective(raw: Option<Spec>): (spec: Spec)
    ensures spec.nodes != []
  {
    if raw.Some? && raw.value.nodes != [] then raw.value else DEFAULT_SPEC
  }
}
