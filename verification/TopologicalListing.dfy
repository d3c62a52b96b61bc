/** When the order of a definition is topological as it is listed (workflow_engine.go). */
module TopologicalListing {
  import opened Collections
  import opened WorkflowModel
  import opened WorkflowOrder
  import opened TopologicalOrder

  // ----- where the traversal takes an id from

  /** c is first on the worklist at k, and is listed right after what the worklist before k lists. */
  ghost predicate TakenAt(
      edges: seq<Edge>, known: set<string>, work: seq<string>, k: nat, before: seq<string>, visited: set<string>,
      c: string, listed: seq<string>)
  {
    && k < |work| && work[k] == c && c !in work[..k]
    && before + Preorder(edges, known, work[..k], visited) + [c] <= listed
  }

  /** c is taken from the targets of x, listed just before them. */
  ghost predicate TakenFrom(
      edges: seq<Edge>, known: set<string>, x: string, k: nat, before: seq<string>, visited: set<string>, c: string,
      listed: seq<string>)
  {
    && x in known
    && TakenAt(edges, known, Targets(edges, known, x), k, before + [x], visited + Elems(before) + {x}, c, listed)
  }

  lemma TakenAfterSkip(
      edges: seq<Edge>, known: set<string>, work: seq<string>, k: nat, visited: set<string>, c: string,
      listed: seq<string>)
    requires work != [] && (work[0] in visited || work[0] !in known) && c != work[0]
    requires TakenAt(edges, known, work[1..], k, [], visited, c, listed)
    ensures TakenAt(edges, known, work, k + 1, [], visited, c, listed)
  {
    hide Targets;
    assert work[..k + 1][1..] == work[1..][..k];
    assert work[..k + 1] == [work[0]] + work[1..][..k];
  }

  lemma TakenFurtherOn(
      edges: seq<Edge>, known: set<string>, work: seq<string>, k: nat, visited: set<string>, c: string,
      listed: seq<string>)
    requires work != [] && work[0] in known && work[0] !in visited && c != work[0]
    requires |Targets(edges, known, work[0])| <= k
    requires TakenAt(edges, known, Targets(edges, known, work[0]) + work[1..], k, [], visited + {work[0]}, c, listed)
    ensures TakenAt(edges, known, work, k - |Targets(edges, known, work[0])| + 1, [], visited, c, [work[0]] + listed)
  {
    hide Targets;
    var h, targets := work[0], Targets(edges, known, work[0]);
    var m := k - |targets|;
    assert (targets + work[1..])[..k] == targets + work[1..][..m];
    assert work[..m + 1] == [h] + work[1..][..m];
    PreorderStep(edges, known, h, work[1..][..m], visited);
    PrefixCons(h, Preorder(edges, known, targets + work[1..][..m], visited + {h}) + [c], listed);
    assert [h] + (Preorder(edges, known, targets + work[1..][..m], visited + {h}) + [c]) ==
           [] + Preorder(edges, known, work[..m + 1], visited) + [c];
  }

  lemma PrefixCons(h: string, a: seq<string>, b: seq<string>)
    requires a <= b
    ensures [h] + a <= [h] + b
  {
  }

  lemma TakenFromHead(
      edges: seq<Edge>, known: set<string>, work: seq<string>, k: nat, visited: set<string>, c: string,
      listed: seq<string>)
    requires work != [] && work[0] in known && k < |Targets(edges, known, work[0])|
    requires TakenAt(edges, known, Targets(edges, known, work[0]) + work[1..], k, [], visited + {work[0]}, c, listed)
    ensures TakenFrom(edges, known, work[0], k, [], visited, c, [work[0]] + listed)
  {
    hide Targets, Preorder;
    var h, targets := work[0], Targets(edges, known, work[0]);
    assert (targets + work[1..])[..k] == targets[..k];
    var first := Preorder(edges, known, targets[..k], visited + {h});
    assert visited + Elems<string>([]) + {h} == visited + {h};
    PrefixCons(h, first + [c], listed);
    assert [] + first + [c] == first + [c];
    assert [h] + (first + [c]) == [] + [h] + first + [c];
  }

  lemma TakenDeeper(
      edges: seq<Edge>, known: set<string>, h: string, x: string, k: nat, before: seq<string>, visited: set<string>,
      c: string, listed: seq<string>)
    requires TakenFrom(edges, known, x, k, before, visited + {h}, c, listed)
    ensures TakenFrom(edges, known, x, k, [h] + before, visited, c, [h] + listed)
  {
    hide Targets, Preorder;
    var seen := visited + {h} + Elems(before) + {x};
    ElemsCons(h, before, visited);
    assert visited + Elems([h] + before) + {x} == seen;
    var first := Preorder(edges, known, Targets(edges, known, x)[..k], seen);
    PrefixCons(h, before + [x] + first + [c], listed);
    assert [h] + (before + [x] + first + [c]) == [h] + before + [x] + first + [c];
  }

  /** Whatever is listed was taken from the worklist, or from the targets of something listed. */
  lemma {:induction false} ListedBy(
      edges: seq<Edge>, known: set<string>, work: seq<string>, visited: set<string>, c: string)
      returns (fromWork: bool, k: nat, x: string, before: seq<string>)
    requires c in Preorder(edges, known, work, visited)
    ensures if fromWork then TakenAt(edges, known, work, k, [], visited, c, Preorder(edges, known, work, visited))
            else TakenFrom(edges, known, x, k, before, visited, c, Preorder(edges, known, work, visited))
    decreases known - visited, |work|
  {
    hide TakenAt, TakenFrom, Targets;
    var h := work[0];
    PreorderFresh(edges, known, work, visited);
    if h in visited || h !in known {
      fromWork, k, x, before := ListedBy(edges, known, work[1..], visited, c);
      if fromWork {
        TakenAfterSkip(edges, known, work, k, visited, c, Preorder(edges, known, work, visited));
        k := k + 1;
      }
    } else if c == h {
      fromWork, k, x, before := true, 0, h, [];
      TakenAtOnce(edges, known, work, visited, c);
    } else {
      var next := Targets(edges, known, h) + work[1..];
      var rest := Preorder(edges, known, next, visited + {h});
      assert Preorder(edges, known, work, visited) == [h] + rest;
      fromWork, k, x, before := ListedBy(edges, known, next, visited + {h}, c);
      if !fromWork {
        TakenDeeper(edges, known, h, x, k, before, visited, c, rest);
        before := [h] + before;
      } else if k < |Targets(edges, known, h)| {
        TakenFromHead(edges, known, work, k, visited, c, rest);
        fromWork, x, before := false, h, [];
      } else {
        TakenFurtherOn(edges, known, work, k, visited, c, rest);
        k := k - |Targets(edges, known, h)| + 1;
      }
    }
  }

  lemma TakenAtOnce(edges: seq<Edge>, known: set<string>, work: seq<string>, visited: set<string>, c: string)
    requires work != [] && work[0] == c && c in known && c !in visited
    ensures TakenAt(edges, known, work, 0, [], visited, c, Preorder(edges, known, work, visited))
  {
    hide Targets;
    assert work[..0] == [];
    assert [] + Preorder(edges, known, [], visited) + [c] == [c];
  }

  // ----- the condition on a listing

  /** Of two sources of one node, one has a target drawn before the node that reaches the other. */
  ghost predicate SourcesInTurn(spec: Spec)
  {
    var edges, known := spec.edges, KnownIds(spec);
    forall e, f :: e in edges && f in edges && KnownEdge(e, known) && KnownEdge(f, known) && e.target == f.target &&
                   e.source != f.source ==>
      InTurn(edges, known, e.source, f.source, e.target)
  }

  ghost predicate InTurn(edges: seq<Edge>, known: set<string>, u: string, v: string, c: string) {
    || EarlierReaches(Targets(edges, known, u), c, v, edges, known)
    || EarlierReaches(Targets(edges, known, v), c, u, edges, known)
  }

  /** The source of an edge into a start id is reached by a start id before it. */
  ghost predicate StartsInTurn(spec: Spec)
    requires spec.nodes != []
  {
    forall e :: e in spec.edges && KnownEdge(e, KnownIds(spec)) && e.target in StartIds(spec) ==>
      EarlierReaches(StartIds(spec), e.target, e.source, spec.edges, KnownIds(spec))
  }

  // ----- the condition is necessary

  lemma KnownEdgeTarget(spec: Spec, e: Edge)
    requires e in spec.edges && KnownEdge(e, KnownIds(spec))
    ensures e.target in Targets(spec.edges, KnownIds(spec), e.source)
  {
    hide Targets, KnownIds;
    assert e == Edge(e.source, e.target);
    TargetsMeaning(spec.edges, KnownIds(spec), e.source, e.target);
  }

  lemma TopologicalTakesSourcesInTurn(spec: Spec)
    requires spec.nodes != [] && Topological(OrderedIds(spec), spec.edges, KnownIds(spec))
    ensures SourcesInTurn(spec)
  {
    hide Targets, EarlierReaches, Topological, Precedes, OrderedIds, KnownIds, Reachable;
    var edges, known := spec.edges, KnownIds(spec);
    forall e, f | e in edges && f in edges && KnownEdge(e, known) && KnownEdge(f, known) && e.target == f.target &&
                  e.source != f.source
      ensures InTurn(edges, known, e.source, f.source, e.target)
    {
      KnownEdgeTarget(spec, e);
      KnownEdgeTarget(spec, f);
      SourceIsListed(spec, e.source, e.target);
      SourceIsListed(spec, f.source, e.target);
      ListedInSomeOrder(OrderedIds(spec), e.source, f.source);
      if Precedes(OrderedIds(spec), e.source, f.source) {
        LaterSourceIsBelow(spec, e.source, f.source, e.target);
      } else {
        LaterSourceIsBelow(spec, f.source, e.source, e.target);
      }
    }
  }

  lemma TopologicalTakesStartsInTurn(spec: Spec)
    requires spec.nodes != [] && Topological(OrderedIds(spec), spec.edges, KnownIds(spec))
    ensures StartsInTurn(spec)
  {
    hide Targets, EarlierReaches, Preorder, Precedes, StartIds, KnownIds;
    var edges, known, ids := spec.edges, KnownIds(spec), OrderedIds(spec);
    OrderedIdsComplete(spec);
    forall e | e in edges && KnownEdge(e, known) && e.target in StartIds(spec)
      ensures EarlierReaches(StartIds(spec), e.target, e.source, edges, known)
    {
      assert Precedes(ids, e.source, e.target);
      PrecedesOnce(ids, e.source, e.target);
      PrecedesEnds(ids, e.source, e.target);
      if !EarlierReaches(StartIds(spec), e.target, e.source, edges, known) {
        WorkAhead(edges, known, StartIds(spec), NodeIds(spec), {}, e.target, e.source);
        assert false;
      }
    }
  }

  // ----- the condition is sufficient

  /** Some source of the id at position k does not come before it. */
  ghost predicate LateAt(ids: seq<string>, edges: seq<Edge>, known: set<string>, k: int)
    requires 0 <= k < |ids|
  {
    exists u :: ids[k] in Targets(edges, known, u) && !Precedes(ids, u, ids[k])
  }

  lemma FirstLate(ids: seq<string>, edges: seq<Edge>, known: set<string>, late: nat) returns (k: nat)
    requires late < |ids| && LateAt(ids, edges, known, late)
    ensures k <= late && LateAt(ids, edges, known, k) && forall j :: 0 <= j < k ==> !LateAt(ids, edges, known, j)
  {
    hide LateAt;
    k := 0;
    while !LateAt(ids, edges, known, k)
      invariant k <= late && forall j :: 0 <= j < k ==> !LateAt(ids, edges, known, j)
      decreases late - k
    {
      k := k + 1;
    }
  }

  lemma OnTime(ids: seq<string>, edges: seq<Edge>, known: set<string>, k: nat, p: string, q: string)
    requires k <= |ids| && forall j :: 0 <= j < k ==> !LateAt(ids, edges, known, j)
    requires q in ids[..k] && q in Targets(edges, known, p)
    ensures Precedes(ids, p, q)
  {
    hide Precedes, Targets;
    var j :| 0 <= j < k && ids[j] == q;
    assert !LateAt(ids, edges, known, j);
  }

  lemma EarlyEnough(ids: seq<string>, p: string, q: string, k: nat)
    requires Distinct(ids) && k <= |ids| && Precedes(ids, p, q) && q in ids[..k]
    ensures p in ids[..k]
  {
    var i, j :| 0 <= i < j < |ids| && ids[i] == p && ids[j] == q;
    DistinctPrefix(ids, k, j);
    DistinctPrefix(ids, k, i);
  }

  /** Nothing listed from position k on leads back before it, as long as nothing there is late. */
  lemma NoWayBack(ids: seq<string>, edges: seq<Edge>, known: set<string>, k: nat, u: string, x: string)
    requires Distinct(ids) && Elems(ids) == known && k <= |ids|
    requires forall j :: 0 <= j < k ==> !LateAt(ids, edges, known, j)
    requires u in known && u !in ids[..k] && x in ids[..k]
    ensures !Reachable([u], x, edges, known)
  {
    hide Targets, EdgeAt, Precedes, LateAt;
    if Reachable([u], x, edges, known) {
      var inside := known - Elems(ids[..k]);
      var p :| IsPath(p, edges, known) && p[0] in [u] && p[|p| - 1] == x;
      forall a, b | a in inside && b in Targets(edges, known, a)
        ensures b in inside
      {
        TargetsMeaning(edges, known, a, b);
        if b in ids[..k] {
          OnTime(ids, edges, known, k, a, b);
          EarlyEnough(ids, a, b, k);
        }
      }
      PathStaysInside(p, edges, known, inside);
      assert false;
    }
  }

  lemma EarlierOnWork(work: seq<string>, k: nat, c: string, v: string, edges: seq<Edge>, known: set<string>)
      returns (t: string)
    requires k < |work| && work[k] == c && c !in work[..k] && EarlierReaches(work, c, v, edges, known)
    ensures t in work[..k] && Reachable([t], v, edges, known)
  {
    hide Reachable;
    var i :| 0 <= i < |work| && c !in work[..i + 1] && Reachable([work[i]], v, edges, known);
    t := work[i];
    assert work[..k][i] == t;
  }

  /** A start id taken from the worklist comes after everything the start ids before it reach. */
  lemma StartIsOnTime(spec: Spec, k: nat, c: string, u: string, listed: seq<string>)
    requires spec.nodes != [] && listed == OrderedIds(spec)
    requires TakenAt(spec.edges, KnownIds(spec), StartIds(spec) + NodeIds(spec), k, [], {}, c, listed)
    requires k < |StartIds(spec)| && EarlierReaches(StartIds(spec), c, u, spec.edges, KnownIds(spec))
    ensures Precedes(listed, u, c)
  {
    hide Targets, Preorder, StartIds, NodeIds, KnownIds, Reachable;
    var edges, known, starts := spec.edges, KnownIds(spec), StartIds(spec);
    assert (starts + NodeIds(spec))[..k] == starts[..k];
    var t := EarlierOnWork(starts, k, c, u, edges, known);
    ReachedFromMore([t], starts[..k], u, edges, known);
    PreorderIsReachability(edges, known, starts[..k], u);
    PrefixPrecedes([] + Preorder(edges, known, starts[..k], {}), c, listed, u);
  }

  lemma ReachedFromMore(a: seq<string>, b: seq<string>, v: string, edges: seq<Edge>, known: set<string>)
    requires (forall x :: x in a ==> x in b) && Reachable(a, v, edges, known)
    ensures Reachable(b, v, edges, known)
  {
    hide EdgeAt;
  }

  lemma PrefixPrecedes(before: seq<string>, c: string, listed: seq<string>, u: string)
    requires before + [c] <= listed && u in before
    ensures Precedes(listed, u, c)
  {
    var i :| 0 <= i < |before| && before[i] == u;
    assert listed[i] == (before + [c])[i] && listed[|before|] == (before + [c])[|before|];
  }

  /** On an acyclic graph everything is listed from the start ids. */
  lemma TakenFromStarts(spec: Spec, k: nat, c: string, listed: seq<string>)
    requires spec.nodes != [] && Acyclic(spec.edges, KnownIds(spec)) && listed == OrderedIds(spec)
    requires c in KnownIds(spec)
    requires TakenAt(spec.edges, KnownIds(spec), StartIds(spec) + NodeIds(spec), k, [], {}, c, listed)
    ensures k < |StartIds(spec)|
  {
    hide Targets, Preorder, StartIds, NodeIds, KnownIds, Acyclic;
    var edges, known, starts, ids := spec.edges, KnownIds(spec), StartIds(spec), NodeIds(spec);
    if |starts| <= k {
      StartsReachAll(spec);
      assert (starts + ids)[..k] == starts + ids[..k - |starts|];
      PreorderSplit(edges, known, starts, ids[..k - |starts|], {});
      assert c in Elems(Preorder(edges, known, starts, {}));
      var first := Preorder(edges, known, (starts + ids)[..k], {});
      assert c in first;
      OrderedIdsComplete(spec);
      PrefixPrecedes([] + first, c, listed, c);
      PrecedesOnce(listed, c, c);
      assert false;
    }
  }

  /** What the targets of x before c reach is listed before c, if nothing before c is late. */
  lemma TargetsReachEarly(
      edges: seq<Edge>, known: set<string>, x: string, k: nat, before: seq<string>, c: string, u: string,
      listed: seq<string>)
    requires Distinct(listed) && TakenFrom(edges, known, x, k, before, {}, c, listed)
    requires var pre := before + [x] + Preorder(edges, known, Targets(edges, known, x)[..k], {} + Elems(before) + {x});
             forall j :: 0 <= j < |pre| ==> !LateAt(listed, edges, known, j)
    requires EarlierReaches(Targets(edges, known, x), c, u, edges, known)
    ensures Precedes(listed, u, c)
  {
    hide Targets, Preorder, LateAt, Precedes, Reachable, IsPath;
    var targets, seen := Targets(edges, known, x), {} + Elems(before) + {x};
    var first := Preorder(edges, known, targets[..k], seen);
    var pre := before + [x] + first;
    assert pre + [c] <= listed && listed[..|pre|] == pre;
    var t := EarlierOnWork(targets, k, c, u, edges, known);
    forall p, q | (p == x || p in first) && q in Targets(edges, known, p)
      ensures q !in seen
    {
      if q in seen {
        SeenIsEarlier(before, x, first, p, q);
        assert q in listed[..|pre|];
        OnTime(listed, edges, known, |pre|, p, q);
        NotBackwards(before, x, first, p, q, listed);
        assert false;
      }
    }
    assert t in targets;
    TargetsMeaning(edges, known, x, t);
    PreorderClosed(edges, known, targets[..k], seen);
    ReachableInside(edges, known, t, u, Elems(first));
    assert u in pre;
    PrefixPrecedes(pre, c, listed, u);
  }

  lemma SeenIsEarlier(before: seq<string>, x: string, first: seq<string>, p: string, q: string)
    requires q in {} + Elems(before) + {x}
    ensures q in before + [x] + first
  {
  }

  /** From x, or from what follows it, to x or what is before it is backwards. */
  lemma NotBackwards(before: seq<string>, x: string, first: seq<string>, p: string, q: string, listed: seq<string>)
    requires Distinct(listed) && before + [x] + first <= listed
    requires (p == x || p in first) && q in {} + Elems(before) + {x}
    ensures !Precedes(listed, p, q)
  {
    var pre := before + [x] + first;
    assert forall i :: 0 <= i < |pre| ==> listed[i] == pre[i];
    var i :| |before| <= i < |pre| && pre[i] == p by {
      if p == x {
        assert pre[|before|] == x;
      } else {
        var m :| 0 <= m < |first| && first[m] == p;
        assert pre[|before| + 1 + m] == p;
      }
    }
    var j :| 0 <= j <= |before| && pre[j] == q by {
      if q == x {
        assert pre[|before|] == x;
      } else {
        var m :| 0 <= m < |before| && before[m] == q;
        assert pre[m] == q;
      }
    }
    assert listed[i] == p && listed[j] == q && j <= i;
  }

  lemma ReachableInside(edges: seq<Edge>, known: set<string>, t: string, u: string, inside: set<string>)
    requires t in inside && Reachable([t], u, edges, known)
    requires forall x, y :: x in inside && y in Targets(edges, known, x) ==> y in inside
    ensures u in inside
  {
    hide EdgeAt, Targets;
    var p :| IsPath(p, edges, known) && p[0] in [t] && p[|p| - 1] == u;
    PathStaysInside(p, edges, known, inside);
  }

  /** The id at k is not late, if none before it is. */
  lemma NextIsOnTime(spec: Spec, k: nat, u: string)
    requires spec.nodes != [] && k < |OrderedIds(spec)|
    requires Acyclic(spec.edges, KnownIds(spec)) && SourcesInTurn(spec) && StartsInTurn(spec)
    requires forall j :: 0 <= j < k ==> !LateAt(OrderedIds(spec), spec.edges, KnownIds(spec), j)
    requires OrderedIds(spec)[k] in Targets(spec.edges, KnownIds(spec), u)
    ensures Precedes(OrderedIds(spec), u, OrderedIds(spec)[k])
  {
    hide Targets, Preorder, LateAt, Precedes, StartIds, KnownIds, Acyclic, EarlierReaches, SourcesInTurn;
    var edges, known, ids := spec.edges, KnownIds(spec), OrderedIds(spec);
    var c := ids[k];
    OrderedIdsComplete(spec);
    TargetsMeaning(edges, known, u, c);
    var fromWork, m, x, before := ListedBy(edges, known, StartIds(spec) + NodeIds(spec), {}, c);
    if fromWork {
      TakenFromStarts(spec, m, c, ids);
      assert StartIds(spec)[m] == c;
      assert EarlierReaches(StartIds(spec), Edge(u, c).target, Edge(u, c).source, edges, known);
      StartIsOnTime(spec, m, c, u, ids);
    } else {
      TargetIsOnTime(spec, k, u, m, x, before);
    }
  }

  lemma TargetIsOnTime(spec: Spec, k: nat, u: string, m: nat, x: string, before: seq<string>)
    requires spec.nodes != [] && k < |OrderedIds(spec)| && SourcesInTurn(spec)
    requires forall j :: 0 <= j < k ==> !LateAt(OrderedIds(spec), spec.edges, KnownIds(spec), j)
    requires OrderedIds(spec)[k] in Targets(spec.edges, KnownIds(spec), u)
    requires TakenFrom(spec.edges, KnownIds(spec), x, m, before, {}, OrderedIds(spec)[k], OrderedIds(spec))
    ensures Precedes(OrderedIds(spec), u, OrderedIds(spec)[k])
  {
    hide Targets, Preorder, LateAt, Precedes, StartIds, KnownIds, EarlierReaches, Reachable;
    var edges, known, ids := spec.edges, KnownIds(spec), OrderedIds(spec);
    var c := ids[k];
    OrderedIdsComplete(spec);
    var pre := before + [x] + Preorder(edges, known, Targets(edges, known, x)[..m], {} + Elems(before) + {x});
    PrefixEndsAt(pre, c, ids, k);
    assert x in pre && x in ids[..k];
    PrefixPrecedes(pre, c, ids, x);
    TargetsMeaning(edges, known, u, c);
    TargetsMeaning(edges, known, x, c);
    if u != x {
      assert InTurn(edges, known, Edge(u, c).source, Edge(x, c).source, Edge(u, c).target);
      if EarlierReaches(Targets(edges, known, x), c, u, edges, known) {
        TargetsReachEarly(edges, known, x, m, before, c, u, ids);
      } else if u !in ids[..k] {
        EarlierIsBelow(edges, known, u, c, x);
        NoWayBack(ids, edges, known, k, u, x);
      } else {
        InPrefixPrecedes(ids, k, u);
      }
    }
  }

  lemma PrefixEndsAt(pre: seq<string>, c: string, ids: seq<string>, k: nat)
    requires Distinct(ids) && pre + [c] <= ids && k < |ids| && ids[k] == c
    ensures |pre| == k && ids[..k] == pre
  {
    assert ids[|pre|] == (pre + [c])[|pre|];
  }

  lemma InPrefixPrecedes(ids: seq<string>, k: nat, u: string)
    requires k < |ids| && u in ids[..k]
    ensures Precedes(ids, u, ids[k])
  {
    var i :| 0 <= i < k && ids[i] == u;
  }

  lemma InTurnIsTopological(spec: Spec)
    requires spec.nodes != [] && Acyclic(spec.edges, KnownIds(spec)) && SourcesInTurn(spec) && StartsInTurn(spec)
    ensures Topological(OrderedIds(spec), spec.edges, KnownIds(spec))
  {
    hide Targets, Preorder, Precedes, StartIds, KnownIds, OrderedIds, Acyclic, SourcesInTurn, StartsInTurn;
    var edges, known, ids := spec.edges, KnownIds(spec), OrderedIds(spec);
    OrderedIdsComplete(spec);
    forall e | e in edges && KnownEdge(e, known)
      ensures Precedes(ids, e.source, e.target)
    {
      KnownEdgeTarget(spec, e);
      assert e.target in Elems(ids);
      var k :| 0 <= k < |ids| && ids[k] == e.target;
      if !Precedes(ids, e.source, e.target) {
        assert LateAt(ids, edges, known, k);
        var first := FirstLate(ids, edges, known, k);
        var u :| ids[first] in Targets(edges, known, u) && !Precedes(ids, u, ids[first]);
        NextIsOnTime(spec, first, u);
        assert false;
      }
    }
  }

  /** The exact condition for one listing: the order is topological if and only if the graph is
      acyclic; of any two sources of a node one has a target, drawn before the node, that reaches
      the other; and the source of an edge into a start id is reached by a start id before it. */
  lemma TopologicalIff(spec: Spec)
    requires spec.nodes != []
    ensures Topological(OrderedIds(spec), spec.edges, KnownIds(spec)) <==>
            Acyclic(spec.edges, KnownIds(spec)) && SourcesInTurn(spec) && StartsInTurn(spec)
  {
    hide Topological, Acyclic, SourcesInTurn, StartsInTurn, KnownIds, OrderedIds;
    if Topological(OrderedIds(spec), spec.edges, KnownIds(spec)) {
      TopologicalIsAcyclic(spec);
      TopologicalTakesSourcesInTurn(spec);
      TopologicalTakesStartsInTurn(spec);
    }
    if Acyclic(spec.edges, KnownIds(spec)) && SourcesInTurn(spec) && StartsInTurn(spec) {
      InTurnIsTopological(spec);
    }
  }
}
