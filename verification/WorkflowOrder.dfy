/** Ordering of a drawn graph: depth-first from the start nodes, then whatever is left
    (workflow_engine.go). Preorder is the specification; Traversal is the code's own
    recursive closure over two shared variables. */
module WorkflowOrder {
  import opened Collections
  import opened WorkflowModel

  // ----- the graph an edge list describes

  predicate KnownEdge(e: Edge, known: set<string>) {
    e.source in known && e.target in known
  }

  /** Targets of the known edges that leave id, in edge order. */
  function Targets(edges: seq<Edge>, known: set<string>, id: string): seq<string> {
    if edges == [] then []
    else
      var last := edges[|edges| - 1];
      Targets(edges[..|edges| - 1], known, id) +
      (if KnownEdge(last, known) && last.source == id then [last.target] else [])
  }

  lemma TargetsSnoc(edges: seq<Edge>, e: Edge, known: set<string>, id: string)
    ensures Targets(edges + [e], known, id) ==
            Targets(edges, known, id) + (if KnownEdge(e, known) && e.source == id then [e.target] else [])
    ensures InDegree(edges + [e], known, id) ==
            InDegree(edges, known, id) + (if KnownEdge(e, known) && e.target == id then 1 else 0)
  {
    assert (edges + [e])[..|edges|] == edges;
  }

  lemma {:induction false} TargetsMeaning(edges: seq<Edge>, known: set<string>, id: string, x: string)
    ensures x in Targets(edges, known, id) <==> Edge(id, x) in edges && KnownEdge(Edge(id, x), known)
  {
    if edges != [] {
      var n := |edges| - 1;
      TargetsMeaning(edges[..n], known, id, x);
      assert edges == edges[..n] + [edges[n]];
    }
  }

  /** The number of known edges into id. */
  function InDegree(edges: seq<Edge>, known: set<string>, id: string): (n: nat)
    ensures n == 0 <==> forall e :: e in edges && KnownEdge(e, known) ==> e.target != id
  {
    if edges == [] then 0
    else
      var last := edges[|edges| - 1];
      InDegree(edges[..|edges| - 1], known, id) + (if KnownEdge(last, known) && last.target == id then 1 else 0)
  }

  function TypedStarts(nodes: seq<DefNode>): (r: seq<string>)
    ensures forall x :: x in r <==>
              exists i :: 0 <= i < |nodes| && NodeType(nodes[i]) == "start" && x == Identity(nodes[i], i)
  {
    if nodes == [] then []
    else
      var n := |nodes| - 1;
      TypedStarts(nodes[..n]) + (if NodeType(nodes[n]) == "start" then [Identity(nodes[n], n)] else [])
  }

  /** Extends starts by the ids without a known incoming edge that it does not hold yet. */
  function WithSources(ids: seq<string>, starts: seq<string>, edges: seq<Edge>, known: set<string>): (r: seq<string>)
    ensures starts <= r
    ensures forall x :: x in r <==> x in starts || (x in ids && InDegree(edges, known, x) == 0)
  {
    if ids == [] then starts
    else
      var n := |ids| - 1;
      var r := WithSources(ids[..n], starts, edges, known);
      assert ids == ids[..n] + [ids[n]];
      if InDegree(edges, known, ids[n]) == 0 && ids[n] !in r then r + [ids[n]] else r
  }

  function KnownIds(spec: Spec): set<string> {
    KnownIdsOf(spec.nodes)
  }

  function StartIds(spec: Spec): (r: seq<string>)
    requires spec.nodes != []
    ensures r != [] && forall x :: x in r ==> x in KnownIds(spec)
  {
    var ids := NodeIds(spec);
    var r := WithSources(ids, TypedStarts(spec.nodes), spec.edges, KnownIds(spec));
    if r == [] then [ids[0]] else r
  }

  /** The nodes by identity: the last one wins when identities repeat. */
  function NodeMap(nodes: seq<DefNode>): (m: map<string, DefNode>)
    ensures m.Keys == KnownIdsOf(nodes)
  {
    if nodes == [] then map[]
    else
      var n := |nodes| - 1;
      NodeMap(nodes[..n])[Identity(nodes[n], n) := nodes[n]]
  }

  function KnownIdsOf(nodes: seq<DefNode>): set<string> {
    set i | 0 <= i < |nodes| :: Identity(nodes[i], i)
  }

  lemma {:induction false} NodeMapUnique(nodes: seq<DefNode>, i: nat)
    requires i < |nodes|
    requires forall j :: i < j < |nodes| ==> Identity(nodes[j], j) != Identity(nodes[i], i)
    ensures Identity(nodes[i], i) in NodeMap(nodes) && NodeMap(nodes)[Identity(nodes[i], i)] == nodes[i]
  {
    var n := |nodes| - 1;
    if i < n {
      NodeMapUnique(nodes[..n], i);
    }
  }

  // ----- the start ids, in order

  /** Positions below n, in order. */
  ghost predicate Ascending(positions: seq<int>, n: nat) {
    && (forall k :: 0 <= k < |positions| ==> 0 <= positions[k] < n)
    && forall a, b :: 0 <= a < b < |positions| ==> positions[a] < positions[b]
  }

  /** The identities at some positions. */
  ghost function IdsAt(ids: seq<string>, positions: seq<int>): (r: seq<string>)
    requires Ascending(positions, |ids|)
  {
    seq(|positions|, k requires 0 <= k < |positions| => ids[positions[k]])
  }

  lemma AppendPosition(ids: seq<string>, positions: seq<int>, n: nat)
    requires Ascending(positions, n) && n < |ids|
    ensures Ascending(positions + [n], n + 1) && Ascending(positions, |ids|) && Ascending(positions + [n], |ids|)
    ensures IdsAt(ids, positions + [n]) == IdsAt(ids, positions) + [ids[n]]
    ensures forall i :: i in positions + [n] <==> i in positions || i == n
    ensures n !in positions
  {
  }

  lemma SameIds(ids: seq<string>, n: nat, positions: seq<int>)
    requires n <= |ids| && Ascending(positions, n)
    ensures Ascending(positions, |ids|) && IdsAt(ids[..n], positions) == IdsAt(ids, positions)
  {
  }

  lemma {:induction false} TypedPositions(nodes: seq<DefNode>, ids: seq<string>) returns (positions: seq<int>)
    requires |ids| == |nodes| && forall i :: 0 <= i < |nodes| ==> ids[i] == Identity(nodes[i], i)
    ensures Ascending(positions, |nodes|)
    ensures forall i :: 0 <= i < |nodes| ==> (i in positions <==> NodeType(nodes[i]) == "start")
    ensures TypedStarts(nodes) == IdsAt(ids, positions)
  {
    hide Identity, NodeType, Ascending;
    positions := [];
    if nodes == [] {
      NoPositions(ids);
    } else {
      var n := |nodes| - 1;
      positions := TypedPositions(nodes[..n], ids[..n]);
      SameIds(ids, n, positions);
      AppendPosition(ids, positions, n);
      if NodeType(nodes[n]) == "start" {
        positions := positions + [n];
      }
    }
  }

  lemma NoPositions(ids: seq<string>)
    ensures Ascending([], 0) && Ascending([], |ids|) && IdsAt(ids, []) == []
  {
  }

  /** No drawn edge between nodes leads to the id. */
  ghost predicate NoneEnters(edges: seq<Edge>, known: set<string>, id: string) {
    forall e :: e in edges && e.source in known && e.target in known ==> e.target != id
  }

  /** The first node of an identity that is no typed start and that no edge enters. */
  ghost predicate IsSource(ids: seq<string>, typed: seq<string>, edges: seq<Edge>, known: set<string>, i: int)
    requires 0 <= i < |ids|
  {
    ids[i] !in typed && ids[i] !in ids[..i] && NoneEnters(edges, known, ids[i])
  }

  lemma {:induction false} SourcePositions(
      ids: seq<string>, m: nat, typed: seq<string>, edges: seq<Edge>, known: set<string>)
      returns (positions: seq<int>)
    requires m <= |ids|
    ensures Ascending(positions, m) && Ascending(positions, |ids|)
    ensures forall i :: 0 <= i < m ==> (i in positions <==> IsSource(ids, typed, edges, known, i))
    ensures WithSources(ids[..m], typed, edges, known) == typed + IdsAt(ids, positions)
  {
    hide InDegree, Ascending, IdsAt;
    positions := [];
    if m == 0 {
      NoPositions(ids);
    } else {
      var n := m - 1;
      positions := SourcePositions(ids, n, typed, edges, known);
      assert ids[..m][..n] == ids[..n];
      assert (InDegree(edges, known, ids[n]) == 0) == NoneEnters(edges, known, ids[n]);
      AppendPosition(ids, positions, n);
      if IsSource(ids, typed, edges, known, n) {
        positions := positions + [n];
      } else {
        LaterPositions(positions, n);
      }
    }
  }

  lemma LaterPositions(positions: seq<int>, n: nat)
    requires Ascending(positions, n)
    ensures Ascending(positions, n + 1)
  {
  }

  /** The starts are the nodes of type start as they are listed, then as they are listed the nodes
      no edge enters, each identity once; the first node if there are neither. */
  lemma StartsListed(spec: Spec) returns (typed: seq<int>, sources: seq<int>)
    requires spec.nodes != []
    ensures Ascending(typed, |NodeIds(spec)|) && Ascending(sources, |NodeIds(spec)|)
    ensures forall i :: 0 <= i < |spec.nodes| ==> (i in typed <==> NodeType(spec.nodes[i]) == "start")
    ensures forall i :: 0 <= i < |spec.nodes| ==>
              (i in sources <==> IsSource(NodeIds(spec), IdsAt(NodeIds(spec), typed), spec.edges, KnownIds(spec), i))
    ensures var ids := NodeIds(spec);
            StartIds(spec) ==
            if typed == [] && sources == [] then [ids[0]] else IdsAt(ids, typed) + IdsAt(ids, sources)
  {
    hide Identity, NodeType, WithSources, TypedStarts, IsSource, Ascending;
    var ids := NodeIds(spec);
    typed := TypedPositions(spec.nodes, ids);
    sources := SourcePositions(ids, |ids|, IdsAt(ids, typed), spec.edges, KnownIds(spec));
    assert ids[..|ids|] == ids;
  }

  // ----- depth-first order

  /** Depth-first preorder from a worklist, skipping unknown and visited ids. */
  function Preorder(edges: seq<Edge>, known: set<string>, work: seq<string>, visited: set<string>): seq<string>
    decreases known - visited, |work|
  {
    if work == [] then []
    else if work[0] in visited || work[0] !in known then Preorder(edges, known, work[1..], visited)
    else
      [work[0]] + Preorder(edges, known, Targets(edges, known, work[0]) + work[1..], visited + {work[0]})
  }

  /** Only known ids that were not visited before are listed, each once. */
  lemma {:induction false} PreorderFresh(edges: seq<Edge>, known: set<string>, work: seq<string>, visited: set<string>)
    ensures var r := Preorder(edges, known, work, visited);
            Distinct(r) && forall x :: x in r ==> x in known && x !in visited
    decreases known - visited, |work|
  {
    if work != [] {
      if work[0] in visited || work[0] !in known {
        PreorderFresh(edges, known, work[1..], visited);
      } else {
        PreorderFresh(edges, known, Targets(edges, known, work[0]) + work[1..], visited + {work[0]});
      }
    }
  }

  /** The worklist can be cut anywhere: the second half starts from what the first half visited. */
  lemma {:induction false} PreorderSplit(
      edges: seq<Edge>, known: set<string>, a: seq<string>, b: seq<string>, visited: set<string>)
    ensures var first := Preorder(edges, known, a, visited);
            Preorder(edges, known, a + b, visited) == first + Preorder(edges, known, b, visited + Elems(first))
    decreases known - visited, |a|
  {
    hide Targets, KnownEdge;
    if a == [] {
      assert a + b == b && visited + Elems<string>([]) == visited;
    } else if a[0] in visited || a[0] !in known {
      assert (a + b)[1..] == a[1..] + b;
      PreorderSplit(edges, known, a[1..], b, visited);
    } else {
      var next, seen := Targets(edges, known, a[0]) + a[1..], visited + {a[0]};
      var rest := Preorder(edges, known, next, seen);
      assert (a + b)[0] == a[0] && Targets(edges, known, a[0]) + (a + b)[1..] == next + b;
      PreorderSplit(edges, known, next, b, seen);
      ElemsCons(a[0], rest, visited);
    }
  }

  lemma ElemsCons(x: string, rest: seq<string>, visited: set<string>)
    ensures visited + Elems([x] + rest) == visited + {x} + Elems(rest)
  {
  }

  /** Everything asked for is listed, and the list is closed under the known edges. */
  lemma {:induction false} PreorderClosed(edges: seq<Edge>, known: set<string>, work: seq<string>, visited: set<string>)
    ensures var r := Preorder(edges, known, work, visited);
            && (forall x :: x in work && x in known ==> x in visited || x in r)
            && (forall x, y :: x in r && y in Targets(edges, known, x) ==> y in visited || y in r)
    decreases known - visited, |work|
  {
    hide Targets;
    if work != [] {
      if work[0] in visited || work[0] !in known {
        PreorderClosed(edges, known, work[1..], visited);
      } else {
        var next := Targets(edges, known, work[0]) + work[1..];
        var rest := Preorder(edges, known, next, visited + {work[0]});
        PreorderClosed(edges, known, next, visited + {work[0]});
        assert Preorder(edges, known, work, visited) == [work[0]] + rest;
        assert forall x :: x in work ==> x == work[0] || x in next;
        forall y | y in Targets(edges, known, work[0])
          ensures y in visited || y == work[0] || y in rest
        {
          TargetsMeaning(edges, known, work[0], y);
          assert y in next;
        }
      }
    }
  }

  // ----- reachability, defined without the traversal

  /** A path along known edges. */
  ghost predicate IsPath(p: seq<string>, edges: seq<Edge>, known: set<string>) {
    p != [] && p[0] in known && forall i :: 0 <= i < |p| - 1 ==> EdgeAt(p, i, edges, known)
  }

  ghost predicate EdgeAt(p: seq<string>, i: int, edges: seq<Edge>, known: set<string>)
    requires 0 <= i < |p| - 1
  {
    p[i + 1] in Targets(edges, known, p[i])
  }

  ghost predicate Reachable(starts: seq<string>, x: string, edges: seq<Edge>, known: set<string>) {
    exists p :: IsPath(p, edges, known) && p[0] in starts && p[|p| - 1] == x
  }

  lemma {:induction false} PreorderSound(
      edges: seq<Edge>, known: set<string>, work: seq<string>, visited: set<string>, x: string)
    requires x in Preorder(edges, known, work, visited)
    ensures Reachable(work, x, edges, known)
    decreases known - visited, |work|
  {
    hide Targets;
    if work[0] in visited || work[0] !in known {
      PreorderSound(edges, known, work[1..], visited, x);
      var p :| IsPath(p, edges, known) && p[0] in work[1..] && p[|p| - 1] == x;
      assert p[0] in work;
    } else if x == work[0] {
      assert IsPath([x], edges, known) && [x][0] in work;
    } else {
      var targets := Targets(edges, known, work[0]);
      PreorderSound(edges, known, targets + work[1..], visited + {work[0]}, x);
      var p :| IsPath(p, edges, known) && p[0] in targets + work[1..] && p[|p| - 1] == x;
      if p[0] in targets {
        var q := [work[0]] + p;
        forall i | 0 <= i < |q| - 1
          ensures EdgeAt(q, i, edges, known)
        {
          if i > 0 {
            assert EdgeAt(p, i - 1, edges, known);
          }
        }
        assert IsPath(q, edges, known) && q[0] in work && q[|q| - 1] == x;
      } else {
        assert p[0] in work;
      }
    }
  }

  /** A set closed under the edges that holds a path's first node holds its last one. */
  lemma {:induction false} PathStaysInside(p: seq<string>, edges: seq<Edge>, known: set<string>, inside: set<string>)
    requires IsPath(p, edges, known) && p[0] in inside
    requires forall x, y :: x in inside && y in Targets(edges, known, x) ==> y in inside
    ensures p[|p| - 1] in inside
  {
    if |p| > 1 {
      var q := p[1..];
      assert EdgeAt(p, 0, edges, known);
      TargetsMeaning(edges, known, p[0], p[1]);
      forall i | 0 <= i < |q| - 1
        ensures EdgeAt(q, i, edges, known)
      {
        assert EdgeAt(p, i + 1, edges, known);
      }
      PathStaysInside(q, edges, known, inside);
    }
  }

  /** From an empty visited set the traversal lists exactly the reachable ids. */
  lemma {:induction false} PreorderIsReachability(edges: seq<Edge>, known: set<string>, work: seq<string>, x: string)
    ensures x in Preorder(edges, known, work, {}) <==> Reachable(work, x, edges, known)
  {
    var r := Preorder(edges, known, work, {});
    if x in r {
      PreorderSound(edges, known, work, {}, x);
    }
    if Reachable(work, x, edges, known) {
      var p :| IsPath(p, edges, known) && p[0] in work && p[|p| - 1] == x;
      PreorderClosed(edges, known, work, {});
      PathStaysInside(p, edges, known, Elems(r));
    }
  }

  // ----- the order of a definition

  function OrderedIds(spec: Spec): (r: seq<string>)
    requires spec.nodes != []
    ensures forall k :: 0 <= k < |r| ==> r[k] in KnownIds(spec)
  {
    PreorderFresh(spec.edges, KnownIds(spec), StartIds(spec) + NodeIds(spec), {});
    Preorder(spec.edges, KnownIds(spec), StartIds(spec) + NodeIds(spec), {})
  }

  function Lookup<K, V>(m: map<K, V>, keys: seq<K>): (r: seq<V>)
    requires forall k :: 0 <= k < |keys| ==> keys[k] in m
    ensures |r| == |keys| && forall k :: 0 <= k < |keys| ==> r[k] == m[keys[k]]
  {
    seq(|keys|, k requires 0 <= k < |keys| => m[keys[k]])
  }

  function OrderedNodes(spec: Spec): seq<DefNode>
    requires spec.nodes != []
  {
    if spec.edges == [] then spec.nodes else Lookup(NodeMap(spec.nodes), OrderedIds(spec))
  }

  /** Every identity is listed exactly once: none is lost, whatever the edges. */
  lemma {:induction false} OrderedIdsComplete(spec: Spec)
    requires spec.nodes != []
    ensures Distinct(OrderedIds(spec)) && Elems(OrderedIds(spec)) == KnownIds(spec)
  {
    var work := StartIds(spec) + NodeIds(spec);
    PreorderFresh(spec.edges, KnownIds(spec), work, {});
    PreorderClosed(spec.edges, KnownIds(spec), work, {});
    forall x | x in KnownIds(spec)
      ensures x in OrderedIds(spec)
    {
      assert x in NodeIds(spec);
      assert x in work;
    }
  }

  lemma MultisetCancel<T>(a: multiset<T>, b: multiset<T>, x: T)
    requires a + multiset{x} == b + multiset{x}
    ensures a == b
  {
    assert a == (a + multiset{x}) - multiset{x};
  }

  lemma LookupRemove<K, V>(m: map<K, V>, keys: seq<K>, k: nat, rest: seq<K>)
    requires k < |keys| && rest == keys[..k] + keys[k + 1..]
    requires forall i :: 0 <= i < |keys| ==> keys[i] in m
    ensures forall i :: 0 <= i < |rest| ==> rest[i] in m
    ensures multiset(Lookup(m, keys)) == multiset(Lookup(m, rest)) + multiset{m[keys[k]]}
  {
    var f := Lookup(m, keys);
    RemoveOne(f, k);
    assert f[..k] + f[k + 1..] == Lookup(m, rest);
  }

  lemma RemoveMatching<K>(a: seq<K>, b: seq<K>, k: nat, rest: seq<K>)
    requires multiset(a) == multiset(b) && a != [] && k < |b| && b[k] == a[0] && rest == b[..k] + b[k + 1..]
    ensures multiset(a[1..]) == multiset(rest) && a[1..] == a[..0] + a[1..]
  {
    RemoveOne(a, 0);
    RemoveOne(b, k);
    assert a[..0] + a[1..] == a[1..];
    MultisetCancel(multiset(a[1..]), multiset(rest), a[0]);
  }

  lemma {:induction false} LookupPermutation<K, V>(m: map<K, V>, a: seq<K>, b: seq<K>)
    requires multiset(a) == multiset(b)
    requires forall k :: 0 <= k < |a| ==> a[k] in m
    requires forall k :: 0 <= k < |b| ==> b[k] in m
    ensures multiset(Lookup(m, a)) == multiset(Lookup(m, b))
  {
    hide Lookup;
    if a == [] {
      assert |multiset(b)| == |b| && |multiset(a)| == |a|;
    } else {
      assert a[0] in multiset(b);
      var k :| 0 <= k < |b| && b[k] == a[0];
      var rest := b[..k] + b[k + 1..];
      RemoveMatching(a, b, k, rest);
      LookupRemove(m, a, 0, a[1..]);
      LookupRemove(m, b, k, rest);
      LookupPermutation(m, a[1..], rest);
    }
  }

  lemma LookupOwnIds(nodes: seq<DefNode>, ids: seq<string>)
    requires |ids| == |nodes| && forall i :: 0 <= i < |ids| ==> ids[i] == Identity(nodes[i], i)
    requires Distinct(ids)
    ensures forall i :: 0 <= i < |ids| ==> ids[i] in NodeMap(nodes)
    ensures Lookup(NodeMap(nodes), ids) == nodes
  {
    forall i | 0 <= i < |ids|
      ensures ids[i] in NodeMap(nodes) && NodeMap(nodes)[ids[i]] == nodes[i]
    {
      forall j | i < j < |nodes|
        ensures Identity(nodes[j], j) != Identity(nodes[i], i)
      {
        assert ids[j] != ids[i];
      }
      NodeMapUnique(nodes, i);
    }
  }

  /** With distinct identities the ordered nodes are a permutation of the drawn ones. */
  lemma {:induction false} OrderIsPermutation(spec: Spec)
    requires spec.nodes != [] && Distinct(NodeIds(spec))
    ensures multiset(OrderedNodes(spec)) == multiset(spec.nodes)
  {
    if spec.edges != [] {
      OrderedIdsComplete(spec);
      var ids := NodeIds(spec);
      LookupOwnIds(spec.nodes, ids);
      assert Elems(ids) == KnownIds(spec);
      DistinctPermutation(OrderedIds(spec), ids);
      LookupPermutation(NodeMap(spec.nodes), OrderedIds(spec), ids);
    }
  }

  /** The ids reachable from the start ids come first, and they are exactly a prefix. */
  lemma {:induction false} ReachableFirst(spec: Spec) returns (n: nat)
    requires spec.nodes != []
    ensures n <= |OrderedIds(spec)|
    ensures forall k :: 0 <= k < |OrderedIds(spec)| ==>
      (k < n <==> Reachable(StartIds(spec), OrderedIds(spec)[k], spec.edges, KnownIds(spec)))
  {
    var known := KnownIds(spec);
    var starts, ids := StartIds(spec), OrderedIds(spec);
    var first := Preorder(spec.edges, known, starts, {});
    PreorderFresh(spec.edges, known, starts + NodeIds(spec), {});
    PreorderSplit(spec.edges, known, starts, NodeIds(spec), {});
    n := |first|;
    assert first == ids[..n];
    forall k | 0 <= k < |ids|
      ensures k < n <==> Reachable(starts, ids[k], spec.edges, known)
    {
      PreorderIsReachability(spec.edges, known, starts, ids[k]);
      DistinctPrefix(ids, n, k);
    }
  }

  lemma PreorderStep(edges: seq<Edge>, known: set<string>, id: string, rest: seq<string>, visited: set<string>)
    requires id in known && id !in visited
    ensures Preorder(edges, known, [id] + rest, visited) ==
            [id] + Preorder(edges, known, Targets(edges, known, id) + rest, visited + {id})
  {
    assert ([id] + rest)[1..] == rest;
  }

  // ----- the traversal as the code runs it

  function Out(outgoing: map<string, seq<string>>, id: string): seq<string> {
    if id in outgoing then outgoing[id] else []
  }

  /** The closure that appends a node and visits its targets, with the variables it shares. */
  class Traversal {
    const nodeById: map<string, DefNode>
    const outgoing: map<string, seq<string>>
    ghost const edges: seq<Edge>
    var visited: set<string>
    var ordered: seq<DefNode>

    constructor (nodeById: map<string, DefNode>, outgoing: map<string, seq<string>>, ghost edges: seq<Edge>)
      ensures this.nodeById == nodeById && this.outgoing == outgoing && this.edges == edges
      ensures visited == {} && ordered == []
    {
      this.nodeById, this.outgoing, this.edges := nodeById, outgoing, edges;
      visited, ordered := {}, [];
    }

    ghost predicate Indexed() {
      OutgoingIndexed(outgoing, edges, nodeById.Keys)
    }

    ghost function Listed(work: seq<string>, seen: set<string>): seq<DefNode> {
      PreorderFresh(edges, nodeById.Keys, work, seen);
      Lookup(nodeById, Preorder(edges, nodeById.Keys, work, seen))
    }

    /** Listing a worklist in two parts. */
    lemma ListedSplit(a: seq<string>, b: seq<string>, seen: set<string>)
      ensures var next := seen + Elems(Preorder(edges, nodeById.Keys, a, seen));
              && Listed(a + b, seen) == Listed(a, seen) + Listed(b, next)
              && seen + Elems(Preorder(edges, nodeById.Keys, a + b, seen)) ==
                 next + Elems(Preorder(edges, nodeById.Keys, b, next))
    {
      PreorderSplit(edges, nodeById.Keys, a, b, seen);
    }

    lemma VisitUnfolds(id: string, seen: set<string>)
      requires Indexed() && id in nodeById && id !in seen
      ensures var next := Preorder(edges, nodeById.Keys, Out(outgoing, id), seen + {id});
              && Listed([id], seen) == [nodeById[id]] + Listed(Out(outgoing, id), seen + {id})
              && seen + Elems(Preorder(edges, nodeById.Keys, [id], seen)) == seen + {id} + Elems(next)
    {
      hide Targets, NodeMap, InDegree, Out, Preorder;
      PreorderStep(edges, nodeById.Keys, id, [], seen);
      assert [id] + [] == [id];
      assert Targets(edges, nodeById.Keys, id) + [] == Out(outgoing, id);
    }

    method Visit(id: string)
      requires Indexed()
      modifies this
      ensures visited == old(visited) + Elems(Preorder(edges, nodeById.Keys, [id], old(visited)))
      ensures ordered == old(ordered) + Listed([id], old(visited))
      decreases nodeById.Keys - visited, 0
    {
      hide Targets, NodeMap, InDegree, Out, Lookup, OutgoingIndexed;
      if id in visited || id !in nodeById {
        assert Preorder(edges, nodeById.Keys, [id], visited) == [];
        return;
      }
      VisitUnfolds(id, visited);
      visited := visited + {id};
      ordered := ordered + [nodeById[id]];
      VisitAll(Out(outgoing, id));
    }

    method VisitAll(ids: seq<string>)
      requires Indexed()
      modifies this
      ensures visited == old(visited) + Elems(Preorder(edges, nodeById.Keys, ids, old(visited)))
      ensures ordered == old(ordered) + Listed(ids, old(visited))
      decreases nodeById.Keys - visited, 1
    {
      hide Targets, NodeMap, InDegree, Out, Lookup, OutgoingIndexed;
      ghost var seen, sofar := visited, ordered;
      assert ids[..0] == [];
      for k := 0 to |ids|
        invariant visited == seen + Elems(Preorder(edges, nodeById.Keys, ids[..k], seen))
        invariant ordered == sofar + Listed(ids[..k], seen)
      {
        ListedSplit(ids[..k], [ids[k]], seen);
        assert ids[..k + 1] == ids[..k] + [ids[k]];
        Visit(ids[k]);
      }
      assert ids[..|ids|] == ids;
    }
  }

  lemma ListedIsOrder(spec: Spec, traversal: Traversal)
    requires spec.nodes != [] && spec.edges != []
    requires traversal.nodeById == NodeMap(spec.nodes) && traversal.edges == spec.edges
    ensures traversal.Listed(StartIds(spec) + NodeIds(spec), {}) == OrderedNodes(spec)
  {
  }

  /** Both passes of the traversal, over the start ids and then over all ids. */
  method RunTraversal(traversal: Traversal, starts: seq<string>, ids: seq<string>)
    requires traversal.Indexed() && traversal.visited == {} && traversal.ordered == []
    modifies traversal
    ensures traversal.ordered == traversal.Listed(starts + ids, {})
  {
    traversal.VisitAll(starts);
    traversal.VisitAll(ids);
    traversal.ListedSplit(starts, ids, {});
  }

  method IndexNodes(nodes: seq<DefNode>)
      returns (nodeById: map<string, DefNode>, nodeIds: seq<string>, incoming: map<string, nat>)
    ensures nodeById == NodeMap(nodes)
    ensures |nodeIds| == |nodes| && forall i :: 0 <= i < |nodes| ==> nodeIds[i] == Identity(nodes[i], i)
    ensures incoming.Keys == nodeById.Keys && forall id :: id in incoming ==> incoming[id] == 0
  {
    nodeById, nodeIds, incoming := map[], [], map[];
    for i := 0 to |nodes|
      invariant nodeById == NodeMap(nodes[..i])
      invariant |nodeIds| == i && forall j :: 0 <= j < i ==> nodeIds[j] == Identity(nodes[j], j)
      invariant incoming.Keys == nodeById.Keys && forall id :: id in incoming ==> incoming[id] == 0
    {
      var id := Identity(nodes[i], i);
      nodeIds := nodeIds + [id];
      nodeById := nodeById[id := nodes[i]];
      incoming := incoming[id := 0];
      assert nodes[..i + 1][..i] == nodes[..i];
    }
    assert nodes[..|nodes|] == nodes;
  }

  ghost predicate OutgoingIndexed(outgoing: map<string, seq<string>>, edges: seq<Edge>, known: set<string>) {
    forall id {:trigger Out(outgoing, id)} :: Out(outgoing, id) == Targets(edges, known, id)
  }

  ghost predicate IncomingCounted(incoming: map<string, nat>, edges: seq<Edge>, known: set<string>) {
    incoming.Keys == known &&
    forall id {:trigger incoming[id]} :: id in known ==> incoming[id] == InDegree(edges, known, id)
  }

  lemma IndexKnownEdge(
      outgoing: map<string, seq<string>>, incoming: map<string, nat>, edges: seq<Edge>, e: Edge, known: set<string>)
    requires OutgoingIndexed(outgoing, edges, known) && IncomingCounted(incoming, edges, known) && KnownEdge(e, known)
    ensures OutgoingIndexed(outgoing[e.source := Out(outgoing, e.source) + [e.target]], edges + [e], known)
    ensures IncomingCounted(incoming[e.target := incoming[e.target] + 1], edges + [e], known)
  {
    hide Targets, InDegree;
    var next := outgoing[e.source := Out(outgoing, e.source) + [e.target]];
    forall id
      ensures Out(next, id) == Targets(edges + [e], known, id)
    {
      TargetsSnoc(edges, e, known, id);
      assert Out(next, id) == Out(outgoing, id) + if id == e.source then [e.target] else [];
    }
    forall id | id in known
      ensures incoming[e.target := incoming[e.target] + 1][id] == InDegree(edges + [e], known, id)
    {
      TargetsSnoc(edges, e, known, id);
    }
  }

  lemma SkipUnknownEdge(
      outgoing: map<string, seq<string>>, incoming: map<string, nat>, edges: seq<Edge>, e: Edge, known: set<string>)
    requires OutgoingIndexed(outgoing, edges, known) && IncomingCounted(incoming, edges, known) && !KnownEdge(e, known)
    ensures OutgoingIndexed(outgoing, edges + [e], known) && IncomingCounted(incoming, edges + [e], known)
  {
    forall id
      ensures Targets(edges + [e], known, id) == Targets(edges, known, id)
      ensures InDegree(edges + [e], known, id) == InDegree(edges, known, id)
    {
      TargetsSnoc(edges, e, known, id);
    }
  }

  method IndexEdges(edges: seq<Edge>, known: set<string>, zero: map<string, nat>)
      returns (outgoing: map<string, seq<string>>, incoming: map<string, nat>)
    requires zero.Keys == known && forall id :: id in zero ==> zero[id] == 0
    ensures OutgoingIndexed(outgoing, edges, known) && IncomingCounted(incoming, edges, known)
  {
    outgoing, incoming := map[], zero;
    for i := 0 to |edges|
      invariant OutgoingIndexed(outgoing, edges[..i], known) && IncomingCounted(incoming, edges[..i], known)
    {
      var e := edges[i];
      assert edges[..i + 1] == edges[..i] + [e];
      if KnownEdge(e, known) {
        IndexKnownEdge(outgoing, incoming, edges[..i], e, known);
        outgoing := outgoing[e.source := Out(outgoing, e.source) + [e.target]];
        incoming := incoming[e.target := incoming[e.target] + 1];
      } else {
        SkipUnknownEdge(outgoing, incoming, edges[..i], e, known);
      }
    }
    assert edges[..|edges|] == edges;
  }

  method CollectStarts(spec: Spec, nodeIds: seq<string>, incoming: map<string, nat>) returns (starts: seq<string>)
    requires spec.nodes != [] && nodeIds == NodeIds(spec)
    requires IncomingCounted(incoming, spec.edges, KnownIds(spec))
    ensures starts == StartIds(spec)
  {
    hide Identity, NodeType, InDegree, NodeMap;
    starts := [];
    for i := 0 to |spec.nodes|
      invariant starts == TypedStarts(spec.nodes[..i])
    {
      assert spec.nodes[..i + 1][..i] == spec.nodes[..i];
      if NodeType(spec.nodes[i]) == "start" {
        starts := starts + [Identity(spec.nodes[i], i)];
      }
    }
    assert spec.nodes[..|spec.nodes|] == spec.nodes;
    ghost var typed := starts;
    for i := 0 to |nodeIds|
      invariant starts == WithSources(nodeIds[..i], typed, spec.edges, KnownIds(spec))
    {
      assert nodeIds[..i + 1][..i] == nodeIds[..i];
      assert nodeIds[i] in incoming;
      if incoming[nodeIds[i]] == 0 && nodeIds[i] !in starts {
        starts := starts + [nodeIds[i]];
      }
    }
    assert nodeIds[..|nodeIds|] == nodeIds;
    if starts == [] {
      starts := [nodeIds[0]];
    }
  }

  method OrderNodes(spec: Spec) returns (ordered: seq<DefNode>)
    requires spec.nodes != []
    ensures ordered == OrderedNodes(spec)
  {
    if spec.edges == [] {
      return spec.nodes;
    }
    var nodeById, nodeIds, zero := IndexNodes(spec.nodes);
    assert nodeIds == NodeIds(spec);
    var outgoing, incoming := IndexEdges(spec.edges, nodeById.Keys, zero);
    var starts := CollectStarts(spec, nodeIds, incoming);
    var traversal := new Traversal(nodeById, outgoing, spec.edges);
    RunTraversal(traversal, starts, nodeIds);
    ListedIsOrder(spec, traversal);
    ordered := traversal.ordered;
  }
}
