/** When the depth-first order of a definition is topological (workflow_engine.go). */
module TopologicalOrder {
  import opened Collections
  import opened WorkflowModel
  import opened WorkflowOrder

  ghost predicate Precedes(ids: seq<string>, s: string, t: string) {
    exists i, j :: 0 <= i < j < |ids| && ids[i] == s && ids[j] == t
  }

  /** No known edge leads from a later node to an earlier one. */
  ghost predicate Topological(ids: seq<string>, edges: seq<Edge>, known: set<string>) {
    forall e :: e in edges && KnownEdge(e, known) ==> Precedes(ids, e.source, e.target)
  }

  ghost predicate Acyclic(edges: seq<Edge>, known: set<string>) {
    forall p :: IsPath(p, edges, known) && |p| >= 2 ==> p[0] != p[|p| - 1]
  }

  /** No node has known edges from two sources. */
  ghost predicate SingleSourced(edges: seq<Edge>, known: set<string>) {
    forall e, f :: e in edges && f in edges && KnownEdge(e, known) && KnownEdge(f, known) && e.target == f.target ==>
      e.source == f.source
  }

  /** At most one source for each node, and none for a start node. */
  ghost predicate TreeLike(spec: Spec) {
    && SingleSourced(spec.edges, KnownIds(spec))
    && forall e :: e in spec.edges && KnownEdge(e, KnownIds(spec)) ==> e.target !in TypedStarts(spec.nodes)
  }

  /** If the sources of everything on the worklist are visited, sources are listed before targets. */
  lemma {:induction false} PreorderSourcesFirst(
      edges: seq<Edge>, known: set<string>, work: seq<string>, visited: set<string>, e: Edge)
    requires SingleSourced(edges, known)
    requires forall f :: f in edges && KnownEdge(f, known) && f.target in work && f.target !in visited ==>
             f.source in visited
    requires e in edges && KnownEdge(e, known)
    ensures var r := Preorder(edges, known, work, visited);
            e.target in r ==> e.source in visited || Precedes(r, e.source, e.target)
    decreases known - visited, |work|
  {
    hide Targets, InDegree;
    if work != [] {
      if work[0] in visited || work[0] !in known {
        PreorderSourcesFirst(edges, known, work[1..], visited, e);
      } else {
        var h := work[0];
        var next := Targets(edges, known, h) + work[1..];
        forall f | f in edges && KnownEdge(f, known) && f.target in next && f.target !in visited + {h}
          ensures f.source in visited + {h}
        {
          if f.target in Targets(edges, known, h) {
            TargetsMeaning(edges, known, h, f.target);
            assert f.source == Edge(h, f.target).source;
          } else {
            assert f.target in work;
          }
        }
        PreorderSourcesFirst(edges, known, next, visited + {h}, e);
        var rest := Preorder(edges, known, next, visited + {h});
        var r := Preorder(edges, known, work, visited);
        assert r == [h] + rest;
        if e.target in rest {
          if e.source == h {
            var j :| 0 <= j < |rest| && rest[j] == e.target;
            assert r[0] == h && r[j + 1] == e.target;
          } else if e.source !in visited {
            var i, j :| 0 <= i < j < |rest| && rest[i] == e.source && rest[j] == e.target;
            assert r[i + 1] == e.source && r[j + 1] == e.target;
          }
        }
      }
    }
  }

  ghost predicate HasPredecessor(u: string, group: set<string>, edges: seq<Edge>, known: set<string>) {
    exists s :: s in group && u in Targets(edges, known, s)
  }

  ghost predicate AllHavePredecessors(group: set<string>, edges: seq<Edge>, known: set<string>) {
    forall v {:trigger HasPredecessor(v, group, edges, known)} :: v in group ==> HasPredecessor(v, group, edges, known)
  }

  /** Walking edges backwards inside a set where everything has a predecessor. */
  lemma {:induction false} BackwardPath(
      group: set<string>, u: string, n: nat, edges: seq<Edge>, known: set<string>) returns (p: seq<string>)
    requires u in group && group <= known
    requires AllHavePredecessors(group, edges, known)
    ensures IsPath(p, edges, known) && |p| == n + 1 && Elems(p) <= group
  {
    if n == 0 {
      p := [u];
    } else {
      p := BackwardPath(group, u, n - 1, edges, known);
      assert p[0] in Elems(p);
      assert HasPredecessor(p[0], group, edges, known);
      var s :| s in group && p[0] in Targets(edges, known, s);
      var q := [s] + p;
      forall i | 0 <= i < |q| - 1
        ensures EdgeAt(q, i, edges, known)
      {
        if i > 0 {
          assert EdgeAt(p, i - 1, edges, known);
        }
      }
      forall x | x in Elems(q)
        ensures x in group
      {
        assert x == s || x in Elems(p);
      }
      p := q;
    }
  }

  lemma SubPath(p: seq<string>, i: nat, j: nat, edges: seq<Edge>, known: set<string>)
    requires IsPath(p, edges, known) && i <= j < |p| && p[i] in known
    ensures IsPath(p[i..j + 1], edges, known)
  {
    var q := p[i..j + 1];
    forall k | 0 <= k < |q| - 1
      ensures EdgeAt(q, k, edges, known)
    {
      assert EdgeAt(p, i + k, edges, known);
    }
  }

  lemma RepeatIsCycle(p: seq<string>, i: nat, j: nat, edges: seq<Edge>, known: set<string>)
    requires IsPath(p, edges, known) && i < j < |p| && p[i] == p[j] && p[i] in known
    ensures !Acyclic(edges, known)
  {
    hide IsPath, EdgeAt;
    SubPath(p, i, j, edges, known);
    assert |p[i..j + 1]| >= 2 && p[i..j + 1][0] == p[i] && p[i..j + 1][j - i] == p[j];
  }

  /** In an acyclic graph every nonempty set of nodes has one without a predecessor inside. */
  lemma AcyclicHasSource(group: set<string>, edges: seq<Edge>, known: set<string>)
    requires group != {} && group <= known && Acyclic(edges, known)
    ensures exists u :: u in group && !HasPredecessor(u, group, edges, known)
  {
    hide Acyclic, IsPath, HasPredecessor;
    if AllHavePredecessors(group, edges, known) {
      var u :| u in group;
      var p := BackwardPath(group, u, |group|, edges, known);
      var i, j := Pigeonhole(p, group);
      assert p[i] in Elems(p);
      RepeatIsCycle(p, i, j, edges, known);
      assert false;
    }
  }

  lemma NoPredecessorNoInEdge(edges: seq<Edge>, known: set<string>, u: string)
    requires u in known && !HasPredecessor(u, known, edges, known)
    ensures InDegree(edges, known, u) == 0
  {
    forall e | e in edges && KnownEdge(e, known)
      ensures e.target != u
    {
      TargetsMeaning(edges, known, e.source, e.target);
    }
  }

  /** On an acyclic definition the fallback to the first node is never needed. */
  lemma {:induction false} AcyclicStarts(spec: Spec)
    requires spec.nodes != [] && Acyclic(spec.edges, KnownIds(spec))
    ensures forall x :: x in StartIds(spec) <==>
      x in TypedStarts(spec.nodes) || (x in NodeIds(spec) && InDegree(spec.edges, KnownIds(spec), x) == 0)
  {
    var known := KnownIds(spec);
    assert Identity(spec.nodes[0], 0) in known;
    AcyclicHasSource(known, spec.edges, known);
    var u :| u in known && !HasPredecessor(u, known, spec.edges, known);
    NoPredecessorNoInEdge(spec.edges, known, u);
    assert u in NodeIds(spec);
  }

  /** On an acyclic definition the start ids reach every node. */
  lemma {:induction false} StartsReachAll(spec: Spec)
    requires spec.nodes != [] && Acyclic(spec.edges, KnownIds(spec))
    ensures KnownIds(spec) <= Elems(Preorder(spec.edges, KnownIds(spec), StartIds(spec), {}))
  {
    hide Targets, InDegree, Acyclic, StartIds, WithSources, TypedStarts;
    var edges, known, starts := spec.edges, KnownIds(spec), StartIds(spec);
    var first := Preorder(edges, known, starts, {});
    PreorderClosed(edges, known, starts, {});
    var missing := known - Elems(first);
    if missing != {} {
      AcyclicHasSource(missing, edges, known);
      var u :| u in missing && !HasPredecessor(u, missing, edges, known);
      forall s | s in known
        ensures u !in Targets(edges, known, s)
      {
        assert s in missing && u in Targets(edges, known, s) ==> HasPredecessor(u, missing, edges, known);
        assert s !in missing ==> s in first;
        assert s in first && u in Targets(edges, known, s) ==> u in first;
      }
      NoPredecessorNoInEdge(edges, known, u);
      AcyclicStarts(spec);
      assert false;
    }
  }

  lemma EdgeGoesForward(spec: Spec, e: Edge)
    requires spec.nodes != [] && Acyclic(spec.edges, KnownIds(spec)) && TreeLike(spec)
    requires e in spec.edges && KnownEdge(e, KnownIds(spec))
    ensures Precedes(Preorder(spec.edges, KnownIds(spec), StartIds(spec), {}), e.source, e.target)
  {
    hide Targets, Preorder, StartIds, TypedStarts, WithSources;
    var edges, known, starts := spec.edges, KnownIds(spec), StartIds(spec);
    AcyclicStarts(spec);
    forall f | f in edges && KnownEdge(f, known)
      ensures f.target !in starts
    {
      assert InDegree(edges, known, f.target) > 0;
    }
    StartsReachAll(spec);
    assert e.target in Preorder(edges, known, starts, {});
    PreorderSourcesFirst(edges, known, starts, {}, e);
  }

  /** On an acyclic graph with at most one edge into each node and none into a start node,
      every edge leads forwards. */
  lemma {:induction false} TreeLikeOrderIsTopological(spec: Spec)
    requires spec.nodes != [] && Acyclic(spec.edges, KnownIds(spec)) && TreeLike(spec)
    ensures Topological(OrderedIds(spec), spec.edges, KnownIds(spec))
  {
    var first := Preorder(spec.edges, KnownIds(spec), StartIds(spec), {});
    PreorderSplit(spec.edges, KnownIds(spec), StartIds(spec), NodeIds(spec), {});
    assert first == OrderedIds(spec)[..|first|];
    forall e | e in spec.edges && KnownEdge(e, KnownIds(spec))
      ensures Precedes(OrderedIds(spec), e.source, e.target)
    {
      EdgeGoesForward(spec, e);
      PrecedesInPrefix(OrderedIds(spec), |first|, e.source, e.target);
    }
  }

  lemma PrecedesInPrefix(ids: seq<string>, n: nat, s: string, t: string)
    requires n <= |ids| && Precedes(ids[..n], s, t)
    ensures Precedes(ids, s, t)
  {
    var i, j :| 0 <= i < j < n && ids[..n][i] == s && ids[..n][j] == t;
    assert ids[i] == s && ids[j] == t;
  }

  // ----- what a topological order demands of two sources of one node

  /** Distinct ids have one order. */
  lemma PrecedesOnce(ids: seq<string>, s: string, t: string)
    requires Distinct(ids) && Precedes(ids, s, t)
    ensures s != t && !Precedes(ids, t, s)
  {
    var i, j :| 0 <= i < j < |ids| && ids[i] == s && ids[j] == t;
  }

  lemma PrecedesTransitive(ids: seq<string>, s: string, t: string, u: string)
    requires Distinct(ids) && Precedes(ids, s, t) && Precedes(ids, t, u)
    ensures Precedes(ids, s, u)
  {
    var i, j :| 0 <= i < j < |ids| && ids[i] == s && ids[j] == t;
    var k, l :| 0 <= k < l < |ids| && ids[k] == t && ids[l] == u;
    assert k == j;
  }

  lemma PrecedesCons(head: string, rest: seq<string>, s: string, t: string)
    requires Distinct([head] + rest)
    ensures Precedes([head] + rest, s, t) <==> (s == head && t in rest) || Precedes(rest, s, t)
  {
    var ids := [head] + rest;
    if Precedes(ids, s, t) {
      var i, j :| 0 <= i < j < |ids| && ids[i] == s && ids[j] == t;
      assert ids[j] == rest[j - 1];
      if i > 0 {
        assert ids[i] == rest[i - 1];
      }
    }
    if s == head && t in rest {
      var j :| 0 <= j < |rest| && rest[j] == t;
      assert ids[0] == s && ids[j + 1] == t;
    }
    if i, j :| 0 <= i < j < |rest| && rest[i] == s && rest[j] == t {
      assert ids[i + 1] == s && ids[j + 1] == t;
    }
  }

  lemma PrecedesAcross(a: seq<string>, b: seq<string>, s: string, t: string)
    requires s in a && t in b
    ensures Precedes(a + b, s, t)
  {
    var i :| 0 <= i < |a| && a[i] == s;
    var j :| 0 <= j < |b| && b[j] == t;
    assert (a + b)[i] == s && (a + b)[|a| + j] == t;
  }

  lemma OneEdgeReaches(edges: seq<Edge>, known: set<string>, u: string, v: string)
    requires u in known && Reachable(Targets(edges, known, u), v, edges, known)
    ensures Reachable([u], v, edges, known)
  {
    var p :| IsPath(p, edges, known) && p[0] in Targets(edges, known, u) && p[|p| - 1] == v;
    var q := [u] + p;
    forall i | 0 <= i < |q| - 1
      ensures EdgeAt(q, i, edges, known)
    {
      if i > 0 {
        assert EdgeAt(p, i - 1, edges, known);
      }
    }
    assert IsPath(q, edges, known) && q[0] in [u] && q[|q| - 1] == v;
  }

  // ----- where on a worklist an id is taken

  /** Before the first c, the worklist holds an id that reaches v. */
  ghost predicate EarlierReaches(work: seq<string>, c: string, v: string, edges: seq<Edge>, known: set<string>) {
    exists i :: 0 <= i < |work| && c !in work[..i + 1] && Reachable([work[i]], v, edges, known)
  }

  lemma FirstAt(work: seq<string>, c: string) returns (k: nat)
    requires c in work
    ensures k < |work| && work[k] == c && c !in work[..k]
  {
    k := 0;
    while work[k] != c
      invariant k < |work| && c !in work[..k] && c in work[k..]
      decreases |work| - k
    {
      assert work[..k + 1] == work[..k] + [work[k]];
      assert work[k..] == [work[k]] + work[k + 1..];
      k := k + 1;
    }
  }

  lemma PrefixReaches(work: seq<string>, k: nat, c: string, v: string, edges: seq<Edge>, known: set<string>)
    requires k <= |work| && c !in work[..k] && Reachable(work[..k], v, edges, known)
    ensures EarlierReaches(work, c, v, edges, known)
  {
    hide EdgeAt;
    var p :| IsPath(p, edges, known) && p[0] in work[..k] && p[|p| - 1] == v;
    var i :| 0 <= i < k && work[..k][i] == p[0];
    assert p[0] in [work[i]] && Reachable([work[i]], v, edges, known);
    assert forall x :: x in work[..i + 1] ==> x in work[..k];
  }

  lemma PrecedesSuffix(a: seq<string>, b: seq<string>, s: string, t: string)
    requires Precedes(b, s, t)
    ensures Precedes(a + b, s, t)
  {
    var i, j :| 0 <= i < j < |b| && b[i] == s && b[j] == t;
    assert (a + b)[|a| + i] == s && (a + b)[|a| + j] == t;
  }

  lemma HeadComesFirst(
      edges: seq<Edge>, known: set<string>, c: string, post: seq<string>, seen: set<string>, v: string)
    requires c in known && c !in seen && v != c && v in Preorder(edges, known, [c] + post, seen)
    ensures Precedes(Preorder(edges, known, [c] + post, seen), c, v)
  {
    hide Preorder, Targets;
    var later := Preorder(edges, known, [c] + post, seen);
    PreorderStep(edges, known, c, post, seen);
    var j :| 0 <= j < |later| && later[j] == v;
    assert later[0] == c;
  }

  /** c comes before v in what a worklist lists, unless an id before c reaches v. */
  lemma WorkAhead(
      edges: seq<Edge>, known: set<string>, work: seq<string>, rest: seq<string>, visited: set<string>, c: string,
      v: string)
    requires c in work && c in known && c !in visited && v != c && !EarlierReaches(work, c, v, edges, known)
    requires v in Preorder(edges, known, work + rest, visited)
    ensures Precedes(Preorder(edges, known, work + rest, visited), c, v)
  {
    hide EarlierReaches, Reachable, Targets, Preorder, Precedes;
    var k := FirstAt(work, c);
    var post := work[k + 1..] + rest;
    assert work + rest == work[..k] + ([c] + post);
    var first := Preorder(edges, known, work[..k], visited);
    var seen := visited + Elems(first);
    var later := Preorder(edges, known, [c] + post, seen);
    PreorderSplit(edges, known, work[..k], [c] + post, visited);
    if v in first {
      PreorderSound(edges, known, work[..k], visited, v);
      PrefixReaches(work, k, c, v, edges, known);
      assert false;
    }
    assert v in later;
    if c in first {
      PrecedesAcross(first, later, c, v);
    } else {
      HeadComesFirst(edges, known, c, post, seen, v);
      PrecedesSuffix(first, later, c, v);
    }
  }

  /** No target of u before c reaches v. */
  ghost predicate TargetAhead(edges: seq<Edge>, known: set<string>, u: string, c: string, v: string) {
    && u in known && c in Targets(edges, known, u) && c in known && u != c && v != c
    && !EarlierReaches(Targets(edges, known, u), c, v, edges, known)
  }

  /** c then comes before v in what is listed after u. */
  lemma {:induction false} TargetStaysAhead(
      edges: seq<Edge>, known: set<string>, work: seq<string>, visited: set<string>, u: string, c: string, v: string)
    requires TargetAhead(edges, known, u, c, v) && c !in visited
    requires Precedes(Preorder(edges, known, work, visited), u, v)
    ensures Precedes(Preorder(edges, known, work, visited), c, v)
    decreases known - visited, |work|
  {
    hide TargetAhead, Targets;
    if work != [] {
      if work[0] in visited || work[0] !in known {
        TargetStaysAhead(edges, known, work[1..], visited, u, c, v);
      } else {
        var h, seen := work[0], visited + {work[0]};
        var next := Targets(edges, known, h) + work[1..];
        var rest := Preorder(edges, known, next, seen);
        PreorderFresh(edges, known, work, visited);
        assert Preorder(edges, known, work, visited) == [h] + rest;
        PrecedesCons(h, rest, u, v);
        PrecedesCons(h, rest, c, v);
        if h != c {
          if h == u {
            AheadAtHead(edges, known, work[1..], seen, u, c, v);
          } else {
            TargetStaysAhead(edges, known, next, seen, u, c, v);
          }
        } else {
          PrecedesEnds(rest, u, v);
        }
      }
    }
  }

  lemma AheadAtHead(
      edges: seq<Edge>, known: set<string>, rest: seq<string>, visited: set<string>, u: string, c: string, v: string)
    requires TargetAhead(edges, known, u, c, v) && c !in visited
    requires v in Preorder(edges, known, Targets(edges, known, u) + rest, visited)
    ensures Precedes(Preorder(edges, known, Targets(edges, known, u) + rest, visited), c, v)
  {
    hide EarlierReaches, Targets;
    WorkAhead(edges, known, Targets(edges, known, u), rest, visited, c, v);
  }

  lemma PrecedesEnds(ids: seq<string>, s: string, t: string)
    ensures Precedes(ids, s, t) ==> s in ids && t in ids
  {
  }

  lemma EarlierIsBelow(edges: seq<Edge>, known: set<string>, u: string, c: string, v: string)
    requires u in known && EarlierReaches(Targets(edges, known, u), c, v, edges, known)
    ensures Reachable([u], v, edges, known) && Targets(edges, known, u)[0] != c
  {
    hide EdgeAt, Targets;
    var targets := Targets(edges, known, u);
    var i :| 0 <= i < |targets| && c !in targets[..i + 1] && Reachable([targets[i]], v, edges, known);
    assert targets[0] in targets[..i + 1];
    var p :| IsPath(p, edges, known) && p[0] in [targets[i]] && p[|p| - 1] == v;
    assert p[0] in targets;
    OneEdgeReaches(edges, known, u, v);
  }

  /** Of two sources of one node, the later one is reached by a target of the earlier one that
      comes before the node. */
  lemma LaterSourceIsBelow(spec: Spec, u: string, v: string, c: string)
    requires spec.nodes != [] && Topological(OrderedIds(spec), spec.edges, KnownIds(spec))
    requires c in Targets(spec.edges, KnownIds(spec), u) && c in Targets(spec.edges, KnownIds(spec), v)
    requires Precedes(OrderedIds(spec), u, v)
    ensures EarlierReaches(Targets(spec.edges, KnownIds(spec), u), c, v, spec.edges, KnownIds(spec))
    ensures Reachable([u], v, spec.edges, KnownIds(spec)) && Targets(spec.edges, KnownIds(spec), u)[0] != c
  {
    hide Targets, Reachable, StartIds, Preorder, EarlierReaches;
    var edges, known, ids := spec.edges, KnownIds(spec), OrderedIds(spec);
    OrderedIdsComplete(spec);
    TargetsMeaning(edges, known, u, c);
    TargetsMeaning(edges, known, v, c);
    assert Precedes(ids, Edge(u, c).source, Edge(u, c).target) && Precedes(ids, Edge(v, c).source, Edge(v, c).target);
    PrecedesOnce(ids, u, c);
    PrecedesOnce(ids, v, c);
    if TargetAhead(edges, known, u, c, v) {
      TargetStaysAhead(edges, known, StartIds(spec) + NodeIds(spec), {}, u, c, v);
      assert false;
    }
    EarlierIsBelow(edges, known, u, c, v);
  }

  lemma ListedInSomeOrder(ids: seq<string>, u: string, v: string)
    requires u in ids && v in ids && u != v
    ensures Precedes(ids, u, v) || Precedes(ids, v, u)
  {
    var i :| 0 <= i < |ids| && ids[i] == u;
    var j :| 0 <= j < |ids| && ids[j] == v;
  }

  lemma SourceIsListed(spec: Spec, u: string, c: string)
    requires spec.nodes != [] && c in Targets(spec.edges, KnownIds(spec), u)
    ensures u in KnownIds(spec) && u in OrderedIds(spec)
  {
    TargetsMeaning(spec.edges, KnownIds(spec), u, c);
    OrderedIdsComplete(spec);
    assert u in Elems(OrderedIds(spec));
  }

  /** A node with two sources, neither above the other, makes the order go backwards, however
      nodes and edges are listed. */
  lemma TwoIndependentSources(spec: Spec, u: string, v: string, c: string)
    requires spec.nodes != [] && u != v
    requires c in Targets(spec.edges, KnownIds(spec), u) && c in Targets(spec.edges, KnownIds(spec), v)
    requires !Reachable([u], v, spec.edges, KnownIds(spec)) && !Reachable([v], u, spec.edges, KnownIds(spec))
    ensures !Topological(OrderedIds(spec), spec.edges, KnownIds(spec))
  {
    hide Targets, Reachable, Topological;
    SourceIsListed(spec, u, c);
    SourceIsListed(spec, v, c);
    ListedInSomeOrder(OrderedIds(spec), u, v);
    if Topological(OrderedIds(spec), spec.edges, KnownIds(spec)) {
      if Precedes(OrderedIds(spec), u, v) {
        LaterSourceIsBelow(spec, u, v, c);
      } else {
        LaterSourceIsBelow(spec, v, u, c);
      }
      assert false;
    }
  }

  // ----- a topological order is one of an acyclic graph

  lemma {:induction false} PathGoesForward(
      ids: seq<string>, edges: seq<Edge>, known: set<string>, p: seq<string>, k: nat)
    requires Distinct(ids) && Topological(ids, edges, known) && IsPath(p, edges, known) && 1 <= k < |p|
    ensures Precedes(ids, p[0], p[k])
  {
    hide Targets, Precedes;
    assert EdgeAt(p, k - 1, edges, known);
    var e := Edge(p[k - 1], p[k]);
    TargetsMeaning(edges, known, p[k - 1], p[k]);
    assert Precedes(ids, e.source, e.target);
    if k > 1 {
      PathGoesForward(ids, edges, known, p, k - 1);
      PrecedesTransitive(ids, p[0], p[k - 1], p[k]);
    }
  }

  /** Where the order is topological, the graph is acyclic. */
  lemma TopologicalIsAcyclic(spec: Spec)
    requires spec.nodes != [] && Topological(OrderedIds(spec), spec.edges, KnownIds(spec))
    ensures Acyclic(spec.edges, KnownIds(spec))
  {
    hide IsPath, Topological, Precedes, Targets, Preorder, StartIds, KnownIds;
    OrderedIdsComplete(spec);
    forall p | IsPath(p, spec.edges, KnownIds(spec)) && |p| >= 2
      ensures p[0] != p[|p| - 1]
    {
      PathGoesForward(OrderedIds(spec), spec.edges, KnownIds(spec), p, |p| - 1);
      PrecedesOnce(OrderedIds(spec), p[0], p[|p| - 1]);
    }
  }

  lemma JoinedPath(p: seq<string>, q: seq<string>, edges: seq<Edge>, known: set<string>)
    requires IsPath(p, edges, known) && IsPath(q, edges, known) && p[|p| - 1] == q[0]
    ensures IsPath(p + q[1..], edges, known)
  {
    var r := p + q[1..];
    forall i | 0 <= i < |r| - 1
      ensures EdgeAt(r, i, edges, known)
    {
      if i < |p| - 1 {
        assert EdgeAt(p, i, edges, known) && r[i] == p[i] && r[i + 1] == p[i + 1];
      } else {
        assert EdgeAt(q, i - (|p| - 1), edges, known);
        assert r[i] == q[i - (|p| - 1)] && r[i + 1] == q[i + 1 - (|p| - 1)];
      }
    }
  }

  lemma ThereAndBack(edges: seq<Edge>, known: set<string>, u: string, v: string)
    requires u != v && Reachable([u], v, edges, known) && Reachable([v], u, edges, known)
    ensures !Acyclic(edges, known)
  {
    var p :| IsPath(p, edges, known) && p[0] in [u] && p[|p| - 1] == v;
    var q :| IsPath(q, edges, known) && q[0] in [v] && q[|q| - 1] == u;
    JoinedPath(p, q, edges, known);
    var r := p + q[1..];
    assert r[0] == u && r[|r| - 1] == u && |r| >= 2;
  }

  // ----- the same graph, listed anew

  /** The node's name does not depend on where it is listed. */
  predicate Named(n: DefNode) {
    n.id != "" || n.key != "" || n.data.key != ""
  }

  predicate AllNamed(spec: Spec) {
    forall n :: n in spec.nodes ==> Named(n)
  }

  ghost predicate Relisting(spec: Spec, other: Spec) {
    multiset(other.nodes) == multiset(spec.nodes) && multiset(other.edges) == multiset(spec.edges)
  }

  /** However nodes and edges are listed, the order is topological. */
  ghost predicate AlwaysTopological(spec: Spec) {
    forall other :: Relisting(spec, other) && other.nodes != [] ==>
      Topological(OrderedIds(other), other.edges, KnownIds(other))
  }

  lemma NamedIdentity(n: DefNode, i: nat, j: nat)
    requires Named(n)
    ensures Identity(n, i) == Identity(n, j)
  {
  }

  lemma SameMembers<T>(a: seq<T>, b: seq<T>, x: T)
    requires multiset(a) == multiset(b)
    ensures x in a <==> x in b
  {
    assert x in multiset(a) <==> x in a;
    assert x in multiset(b) <==> x in b;
  }

  /** Ids, and ids of start nodes, are those of the other listing. */
  lemma NamesInclude(nodes: seq<DefNode>, other: seq<DefNode>)
    requires multiset(nodes) == multiset(other) && forall n :: n in nodes ==> Named(n)
    ensures KnownIdsOf(nodes) <= KnownIdsOf(other)
    ensures forall x :: x in TypedStarts(nodes) ==> x in TypedStarts(other)
  {
    hide Identity, NodeType;
    forall i | 0 <= i < |nodes|
      ensures exists j :: 0 <= j < |other| && other[j] == nodes[i] && Identity(other[j], j) == Identity(nodes[i], i)
    {
      SameMembers(nodes, other, nodes[i]);
      var j :| 0 <= j < |other| && other[j] == nodes[i];
      NamedIdentity(nodes[i], i, j);
    }
  }

  lemma RelistedGraph(spec: Spec, other: Spec)
    requires AllNamed(spec) && Relisting(spec, other)
    ensures AllNamed(other) && KnownIds(other) == KnownIds(spec)
    ensures forall e :: e in other.edges <==> e in spec.edges
    ensures forall x :: x in TypedStarts(other.nodes) <==> x in TypedStarts(spec.nodes)
    ensures other.nodes == [] <==> spec.nodes == []
  {
    hide TypedStarts, Named;
    forall n | n in other.nodes
      ensures Named(n)
    {
      SameMembers(spec.nodes, other.nodes, n);
    }
    forall e
      ensures e in other.edges <==> e in spec.edges
    {
      SameMembers(spec.edges, other.edges, e);
    }
    NamesInclude(spec.nodes, other.nodes);
    NamesInclude(other.nodes, spec.nodes);
    assert |multiset(spec.nodes)| == |spec.nodes| && |multiset(other.nodes)| == |other.nodes|;
  }

  lemma SamePaths(a: seq<Edge>, b: seq<Edge>, known: set<string>, p: seq<string>)
    requires (forall e :: e in a ==> e in b) && IsPath(p, a, known)
    ensures IsPath(p, b, known)
  {
    hide Targets;
    forall i | 0 <= i < |p| - 1
      ensures EdgeAt(p, i, b, known)
    {
      assert EdgeAt(p, i, a, known);
      TargetsMeaning(a, known, p[i], p[i + 1]);
      TargetsMeaning(b, known, p[i], p[i + 1]);
    }
  }

  lemma SameReach(a: seq<Edge>, b: seq<Edge>, known: set<string>, u: string, v: string)
    requires (forall e :: e in a ==> e in b) && Reachable([u], v, a, known)
    ensures Reachable([u], v, b, known)
  {
    var p :| IsPath(p, a, known) && p[0] in [u] && p[|p| - 1] == v;
    SamePaths(a, b, known, p);
  }

  lemma SameCycles(a: seq<Edge>, b: seq<Edge>, known: set<string>)
    requires (forall e :: e in a ==> e in b) && Acyclic(b, known)
    ensures Acyclic(a, known)
  {
    hide IsPath;
    forall p | IsPath(p, a, known) && |p| >= 2
      ensures p[0] != p[|p| - 1]
    {
      SamePaths(a, b, known, p);
    }
  }

  lemma RelistedTreeLike(spec: Spec, other: Spec)
    requires AllNamed(spec) && Relisting(spec, other) && Acyclic(spec.edges, KnownIds(spec)) && TreeLike(spec)
    ensures Acyclic(other.edges, KnownIds(other)) && TreeLike(other)
  {
    hide Acyclic, AllNamed, Relisting, TypedStarts, KnownIds;
    RelistedGraph(spec, other);
    SameCycles(other.edges, spec.edges, KnownIds(spec));
  }

  // ----- the listing that fails

  function MovedToFront<T>(s: seq<T>, k: nat): (r: seq<T>)
    requires k < |s|
    ensures r != [] && r[0] == s[k]
  {
    [s[k]] + (s[..k] + s[k + 1..])
  }

  lemma MovedToFrontPermutes<T>(s: seq<T>, k: nat)
    requires k < |s|
    ensures multiset(MovedToFront(s, k)) == multiset(s)
  {
    RemoveOne(s, k);
    assert MovedToFront(s, k) == [s[k]] + (s[..k] + s[k + 1..]);
  }

  lemma {:induction false} FirstEdgeFirstTarget(edges: seq<Edge>, known: set<string>)
    requires edges != [] && KnownEdge(edges[0], known)
    ensures var targets := Targets(edges, known, edges[0].source); targets != [] && targets[0] == edges[0].target
  {
    var n := |edges| - 1;
    if n > 0 {
      assert edges[..n][0] == edges[0];
      FirstEdgeFirstTarget(edges[..n], known);
    } else {
      assert edges[..0] == [];
    }
  }

  /** If the order is topological with an edge drawn first, every other source of its target is
      above its source. */
  lemma DrawnFirst(spec: Spec, k: nat, v: string)
    requires AllNamed(spec) && AlwaysTopological(spec) && spec.nodes != [] && k < |spec.edges|
    requires KnownEdge(spec.edges[k], KnownIds(spec)) && v != spec.edges[k].source
    requires spec.edges[k].target in Targets(spec.edges, KnownIds(spec), v)
    ensures Reachable([v], spec.edges[k].source, spec.edges, KnownIds(spec))
  {
    hide Targets, Reachable, Topological, Precedes, TypedStarts, AllNamed, KnownIds, OrderedIds;
    var e := spec.edges[k];
    var other := Spec(spec.nodes, MovedToFront(spec.edges, k));
    MovedToFrontPermutes(spec.edges, k);
    assert Relisting(spec, other);
    RelistedGraph(spec, other);
    FirstEdgeFirstTarget(other.edges, KnownIds(other));
    TargetsMeaning(spec.edges, KnownIds(spec), v, e.target);
    TargetsMeaning(other.edges, KnownIds(other), v, e.target);
    SourceIsListed(other, e.source, e.target);
    SourceIsListed(other, v, e.target);
    ListedInSomeOrder(OrderedIds(other), e.source, v);
    if Precedes(OrderedIds(other), e.source, v) {
      LaterSourceIsBelow(other, e.source, v, e.target);
      assert false;
    }
    LaterSourceIsBelow(other, v, e.source, e.target);
    SameReach(other.edges, spec.edges, KnownIds(spec), v, e.source);
  }

  lemma AlwaysSingleSourced(spec: Spec)
    requires AllNamed(spec) && AlwaysTopological(spec) && spec.nodes != [] && Acyclic(spec.edges, KnownIds(spec))
    ensures SingleSourced(spec.edges, KnownIds(spec))
  {
    hide Targets, Reachable, AlwaysTopological, Acyclic, AllNamed, KnownIds;
    var edges, known := spec.edges, KnownIds(spec);
    forall e, f | e in edges && f in edges && KnownEdge(e, known) && KnownEdge(f, known) && e.target == f.target
      ensures e.source == f.source
    {
      if e.source != f.source {
        var i :| 0 <= i < |edges| && edges[i] == e;
        var j :| 0 <= j < |edges| && edges[j] == f;
        assert e == Edge(e.source, e.target) && f == Edge(f.source, e.target);
        TargetsMeaning(edges, known, e.source, e.target);
        TargetsMeaning(edges, known, f.source, e.target);
        DrawnFirst(spec, i, f.source);
        DrawnFirst(spec, j, e.source);
        ThereAndBack(edges, known, e.source, f.source);
      }
    }
  }

  lemma {:induction false} FirstTypedStart(nodes: seq<DefNode>)
    requires nodes != [] && NodeType(nodes[0]) == "start"
    ensures var starts := TypedStarts(nodes); starts != [] && starts[0] == Identity(nodes[0], 0)
  {
    hide NodeType, Identity;
    var n := |nodes| - 1;
    if n > 0 {
      assert nodes[..n][0] == nodes[0];
      FirstTypedStart(nodes[..n]);
    } else {
      assert nodes[..0] == [];
    }
  }

  /** A start node listed first is ordered first. */
  lemma StartListedFirst(spec: Spec)
    requires spec.nodes != [] && NodeType(spec.nodes[0]) == "start"
    ensures OrderedIds(spec) != [] && OrderedIds(spec)[0] == Identity(spec.nodes[0], 0)
  {
    hide NodeType, Targets, Identity, TypedStarts;
    var s := Identity(spec.nodes[0], 0);
    FirstTypedStart(spec.nodes);
    assert TypedStarts(spec.nodes) <= StartIds(spec);
    assert s in KnownIds(spec);
    assert (StartIds(spec) + NodeIds(spec))[0] == s;
  }

  lemma AlwaysStartsFree(spec: Spec, e: Edge)
    requires AllNamed(spec) && AlwaysTopological(spec) && spec.nodes != []
    requires e in spec.edges && KnownEdge(e, KnownIds(spec))
    ensures e.target !in TypedStarts(spec.nodes)
  {
    hide NodeType, Identity, Precedes, OrderedIds, KnownIds, TypedStarts;
    if e.target in TypedStarts(spec.nodes) {
      var k :| 0 <= k < |spec.nodes| && NodeType(spec.nodes[k]) == "start" && e.target == Identity(spec.nodes[k], k);
      var other := Spec(MovedToFront(spec.nodes, k), spec.edges);
      MovedToFrontPermutes(spec.nodes, k);
      assert Relisting(spec, other);
      RelistedGraph(spec, other);
      NamedIdentity(spec.nodes[k], k, 0);
      StartListedFirst(other);
      OrderedIdsComplete(other);
      assert Precedes(OrderedIds(other), e.source, e.target);
      NothingBeforeFirst(OrderedIds(other), e.source);
      assert false;
    }
  }

  lemma NothingBeforeFirst(ids: seq<string>, s: string)
    requires Distinct(ids) && ids != []
    ensures !Precedes(ids, s, ids[0])
  {
  }

  /** The exact condition: the order is topological for every listing of the nodes and edges if
      and only if the graph is acyclic, no node has two sources, and no edge leads to a start node. */
  lemma AlwaysTopologicalIff(spec: Spec)
    requires spec.nodes != [] && AllNamed(spec)
    ensures AlwaysTopological(spec) <==> Acyclic(spec.edges, KnownIds(spec)) && TreeLike(spec)
  {
    hide Topological, Acyclic, SingleSourced, AllNamed, KnownIds, OrderedIds, TypedStarts;
    if AlwaysTopological(spec) {
      assert Relisting(spec, spec);
      TopologicalIsAcyclic(spec);
      AlwaysSingleSourced(spec);
      forall e | e in spec.edges && KnownEdge(e, KnownIds(spec))
        ensures e.target !in TypedStarts(spec.nodes)
      {
        AlwaysStartsFree(spec, e);
      }
    }
    if Acyclic(spec.edges, KnownIds(spec)) && TreeLike(spec) {
      forall other | Relisting(spec, other) && other.nodes != []
        ensures Topological(OrderedIds(other), other.edges, KnownIds(other))
      {
        RelistedTreeLike(spec, other);
        TreeLikeOrderIsTopological(other);
      }
    }
  }

  // ----- a diamond, whose order is never topological

  /** a leads to b and c, and both lead to d; the edges are drawn in any order, among others that
      do not leave b, c or d. */
  ghost predicate IsDiamond(spec: Spec, a: string, b: string, c: string, d: string) {
    && spec.nodes != [] && b != c && b != d && c != d && {a, b, c, d} <= KnownIds(spec)
    && Edge(a, b) in spec.edges && Edge(a, c) in spec.edges && Edge(b, d) in spec.edges && Edge(c, d) in spec.edges
    && forall e :: e in spec.edges && e.source in {b, c, d} ==> e == Edge(b, d) || e == Edge(c, d)
  }

  lemma {:induction false} BranchStaysApart(spec: Spec, b: string, c: string, d: string)
    requires spec.nodes != [] && c != b && c != d
    requires forall e :: e in spec.edges && e.source in {b, d} ==> e.target == d
    ensures !Reachable([b], c, spec.edges, KnownIds(spec))
  {
    hide Targets;
    var edges, known := spec.edges, KnownIds(spec);
    if Reachable([b], c, edges, known) {
      var p :| IsPath(p, edges, known) && p[0] in [b] && p[|p| - 1] == c;
      forall x, y | x in {b, d} && y in Targets(edges, known, x)
        ensures y in {b, d}
      {
        TargetsMeaning(edges, known, x, y);
        assert Edge(x, y) in edges;
      }
      PathStaysInside(p, edges, known, {b, d});
      assert false;
    }
  }

  /** However a diamond is listed, an edge into d leads backwards. */
  lemma DiamondIsNeverTopological(spec: Spec, a: string, b: string, c: string, d: string)
    requires IsDiamond(spec, a, b, c, d)
    ensures !Topological(OrderedIds(spec), spec.edges, KnownIds(spec))
  {
    hide Targets, Reachable, Topological, OrderedIds;
    TargetsMeaning(spec.edges, KnownIds(spec), b, d);
    TargetsMeaning(spec.edges, KnownIds(spec), c, d);
    BranchStaysApart(spec, b, c, d);
    BranchStaysApart(spec, c, b, d);
    TwoIndependentSources(spec, b, c, d);
  }

  // ----- a merge, whose order depends on how it is drawn

  function MergeDrawing(a: string, b: string, c: string, directFirst: bool): seq<Edge> {
    if directFirst then [Edge(a, c), Edge(a, b), Edge(b, c)] else [Edge(a, b), Edge(a, c), Edge(b, c)]
  }

  /** a leads to c directly and through b; directFirst says which of a's edges is drawn first. */
  ghost predicate IsMerge(spec: Spec, a: string, b: string, c: string, directFirst: bool) {
    && a != b && b != c && a != c
    && |spec.nodes| == 3 && NodeIds(spec) == [a, b, c]
    && NodeType(spec.nodes[0]) == "start" && NodeType(spec.nodes[1]) != "start" && NodeType(spec.nodes[2]) != "start"
    && spec.edges == MergeDrawing(a, b, c, directFirst)
  }

  lemma NoEdges(known: set<string>, id: string)
    ensures Targets([], known, id) == [] && InDegree([], known, id) == 0
  {
  }

  function MergeTargets(a: string, b: string, c: string, directFirst: bool, id: string): seq<string> {
    if id == a then if directFirst then [c, b] else [b, c]
    else if id == b then [c]
    else []
  }

  lemma MergeEdges(known: set<string>, a: string, b: string, c: string, directFirst: bool, id: string)
    requires a != b && b != c && a != c && known == {a, b, c}
    ensures var edges := MergeDrawing(a, b, c, directFirst);
            && Targets(edges, known, id) == MergeTargets(a, b, c, directFirst, id)
            && InDegree(edges, known, id) == if id == c then 2 else if id == b then 1 else 0
  {
    hide Targets, InDegree;
    var edges := MergeDrawing(a, b, c, directFirst);
    var e1, e2, e3 := edges[0], edges[1], edges[2];
    NoEdges(known, id);
    TargetsSnoc([], e1, known, id);
    TargetsSnoc([e1], e2, known, id);
    TargetsSnoc([e1, e2], e3, known, id);
    assert [] + [e1] == [e1] && [e1] + [e2] == [e1, e2] && [e1, e2] + [e3] == edges;
  }

  lemma MergeGraph(spec: Spec, a: string, b: string, c: string, directFirst: bool, id: string)
    requires IsMerge(spec, a, b, c, directFirst)
    ensures KnownIds(spec) == {a, b, c}
    ensures Targets(spec.edges, KnownIds(spec), id) == MergeTargets(a, b, c, directFirst, id)
    ensures InDegree(spec.edges, KnownIds(spec), id) == if id == c then 2 else if id == b then 1 else 0
  {
    hide NodeType, Targets, InDegree, Identity, MergeDrawing, MergeTargets;
    var known := KnownIds(spec);
    assert NodeIds(spec)[0] == a && NodeIds(spec)[1] == b && NodeIds(spec)[2] == c;
    assert known == {a, b, c};
    MergeEdges(known, a, b, c, directFirst, id);
  }

  lemma OneTypedStart(nodes: seq<DefNode>)
    requires |nodes| == 3 && NodeType(nodes[0]) == "start" && NodeType(nodes[1]) != "start" &&
             NodeType(nodes[2]) != "start"
    ensures TypedStarts(nodes) == [Identity(nodes[0], 0)]
  {
    hide NodeType, Identity;
    assert nodes[..2][..1] == [nodes[0]] && [nodes[0]][..0] == [];
    assert TypedStarts([nodes[0]]) == [Identity(nodes[0], 0)];
    assert TypedStarts(nodes[..2]) == [Identity(nodes[0], 0)];
  }

  lemma NoMoreSources(a: string, b: string, c: string, edges: seq<Edge>, known: set<string>)
    requires InDegree(edges, known, b) != 0 && InDegree(edges, known, c) != 0
    ensures WithSources([a, b, c], [a], edges, known) == [a]
  {
    hide InDegree;
    assert [a, b, c][..2] == [a, b] && [a, b][..1] == [a] && [a][..0] == [];
    assert WithSources([a], [a], edges, known) == [a];
    assert WithSources([a, b], [a], edges, known) == [a];
  }

  lemma MergeStarts(spec: Spec, a: string, b: string, c: string, directFirst: bool)
    requires IsMerge(spec, a, b, c, directFirst)
    ensures StartIds(spec) == [a]
  {
    hide NodeType, Identity, Targets, InDegree, TypedStarts, WithSources, KnownIds, MergeDrawing;
    MergeGraph(spec, a, b, c, directFirst, b);
    MergeGraph(spec, a, b, c, directFirst, c);
    OneTypedStart(spec.nodes);
    assert NodeIds(spec)[0] == a;
    NoMoreSources(a, b, c, spec.edges, KnownIds(spec));
  }

  lemma {:induction false} NothingLeft(edges: seq<Edge>, known: set<string>, work: seq<string>, visited: set<string>)
    requires known <= visited
    ensures Preorder(edges, known, work, visited) == []
    decreases |work|
  {
    if work != [] {
      NothingLeft(edges, known, work[1..], visited);
    }
  }

  /** x is a's first target and y its second; x leads to y, or the other way round. */
  lemma MergePreorder(edges: seq<Edge>, known: set<string>, ids: seq<string>, a: string, x: string, y: string)
    requires known == {a, x, y} && a != x && x != y && a != y
    requires Targets(edges, known, a) == [x, y]
    requires Targets(edges, known, x) in [[], [y]] && Targets(edges, known, y) in [[], [x]]
    ensures Preorder(edges, known, [a] + ids, {}) == [a, x, y]
  {
    hide Targets, KnownEdge;
    var v1, v2, v3 := {} + {a}, {} + {a} + {x}, {} + {a} + {x} + {y};
    PreorderStep(edges, known, a, ids, {});
    assert [x, y] + ids == [x] + ([y] + ids);
    PreorderStep(edges, known, x, [y] + ids, v1);
    var ofX, ofY := Targets(edges, known, x), Targets(edges, known, y);
    var rest := if ofX == [] then ids else [y] + ids;
    assert ofX + ([y] + ids) == [y] + rest;
    PreorderStep(edges, known, y, rest, v2);
    NothingLeft(edges, known, ofY + rest, v3);
  }

  lemma MergeOrder(spec: Spec, a: string, b: string, c: string, directFirst: bool)
    requires IsMerge(spec, a, b, c, directFirst)
    ensures OrderedIds(spec) == if directFirst then [a, c, b] else [a, b, c]
  {
    hide IsMerge, KnownIds, Targets, InDegree, StartIds, NodeIds;
    MergeGraph(spec, a, b, c, directFirst, a);
    MergeGraph(spec, a, b, c, directFirst, b);
    MergeGraph(spec, a, b, c, directFirst, c);
    MergeStarts(spec, a, b, c, directFirst);
    MergeDistinct(spec, a, b, c, directFirst);
    var x, y := if directFirst then c else b, if directFirst then b else c;
    assert {a, b, c} == {a, x, y};
    MergePreorder(spec.edges, KnownIds(spec), NodeIds(spec), a, x, y);
  }

  lemma MergeDistinct(spec: Spec, a: string, b: string, c: string, directFirst: bool)
    requires IsMerge(spec, a, b, c, directFirst)
    ensures spec.nodes != [] && a != b && b != c && a != c
  {
  }

  ghost function MergeRank(id: string, a: string, b: string): nat {
    if id == a then 0 else if id == b then 1 else 2
  }

  lemma MergeEdgeRises(spec: Spec, a: string, b: string, c: string, directFirst: bool, x: string, y: string)
    requires IsMerge(spec, a, b, c, directFirst) && y in Targets(spec.edges, KnownIds(spec), x)
    ensures MergeRank(x, a, b) < MergeRank(y, a, b)
  {
    hide Targets, KnownIds, NodeType;
    MergeGraph(spec, a, b, c, directFirst, x);
  }

  lemma {:induction false} MergePathRises(
      spec: Spec, a: string, b: string, c: string, directFirst: bool, p: seq<string>, k: nat)
    requires IsMerge(spec, a, b, c, directFirst) && IsPath(p, spec.edges, KnownIds(spec)) && 1 <= k < |p|
    ensures MergeRank(p[0], a, b) < MergeRank(p[k], a, b)
  {
    hide IsMerge, Targets, KnownIds;
    assert EdgeAt(p, k - 1, spec.edges, KnownIds(spec));
    MergeEdgeRises(spec, a, b, c, directFirst, p[k - 1], p[k]);
    if k > 1 {
      MergePathRises(spec, a, b, c, directFirst, p, k - 1);
    }
  }

  /** Every merge is acyclic, with two edges into c. Its order is topological if and only if the
      edge to b is drawn before the direct one. */
  lemma {:induction false} MergeOrderIff(spec: Spec, a: string, b: string, c: string, directFirst: bool)
    requires IsMerge(spec, a, b, c, directFirst)
    ensures Acyclic(spec.edges, KnownIds(spec)) && InDegree(spec.edges, KnownIds(spec), c) == 2
    ensures OrderedIds(spec) == if directFirst then [a, c, b] else [a, b, c]
    ensures Topological(OrderedIds(spec), spec.edges, KnownIds(spec)) <==> !directFirst
  {
    hide Targets, InDegree, Preorder, OrderedIds, StartIds, TypedStarts, WithSources, NodeType, NodeIds, EdgeAt,
         Identity, KnownIds;
    var edges, known := spec.edges, KnownIds(spec);
    MergeOrder(spec, a, b, c, directFirst);
    MergeGraph(spec, a, b, c, directFirst, c);
    if directFirst {
      assert edges[2] in edges && KnownEdge(Edge(b, c), known);
      assert !Precedes([a, c, b], b, c);
    } else {
      var ids := [a, b, c];
      assert ids[0] == a && ids[1] == b && ids[2] == c;
      assert Precedes(ids, a, b) && Precedes(ids, a, c) && Precedes(ids, b, c);
    }
    forall p | IsPath(p, edges, known) && |p| >= 2
      ensures p[0] != p[|p| - 1]
    {
      MergePathRises(spec, a, b, c, directFirst, p, |p| - 1);
    }
  }

  function PlainNode(id: string, typ: string): DefNode {
    DefNode(id, id, id, typ, NodeData("", "", "", "", NO_CONFIG))
  }

  lemma MergeExists(directFirst: bool)
    ensures IsMerge(Spec([PlainNode("a", "start"), PlainNode("b", "action"), PlainNode("c", "end")],
                         MergeDrawing("a", "b", "c", directFirst)), "a", "b", "c", directFirst)
  {
  }
}
