/** The menu tree of the signed-in user (auth/handler.go): nodes are copied by value into their
    parents in list order, so a child that comes after its parent was copied is lost. */
module AuthMenuTree {
  import opened Wrappers
  import opened ParentTree

  /** A menu carries its code. */
  type MenuRow = Item<string>

  type MenuNode = Tree<string>

  // ----- the builder, as a fold over the list

  function Copies(flat: seq<MenuRow>): map<int, MenuNode> {
    if flat == [] then map[]
    else Copies(flat[..|flat| - 1])[flat[|flat| - 1].id := Tree(flat[|flat| - 1], [])]
  }

  lemma {:induction false} CopiesHold(flat: seq<MenuRow>, id: int)
    ensures id in Copies(flat) <==> exists i :: 0 <= i < |flat| && flat[i].id == id
    ensures id in Copies(flat) ==> Copies(flat)[id].row.id == id
  {
    if flat != [] {
      CopiesHold(flat[..|flat| - 1], id);
    }
  }

  /** Appends a copy of the node of row i, as it is now, to its parent's children. */
  function Link(byId: map<int, MenuNode>, id: int): map<int, MenuNode> {
    if id in byId && byId[id].row.parentId.Some? && byId[id].row.parentId.value in byId then
      var parent := byId[byId[id].row.parentId.value];
      byId[byId[id].row.parentId.value := parent.(children := parent.children + [byId[id]])]
    else byId
  }

  function Linked(flat: seq<MenuRow>, i: nat): map<int, MenuNode>
    requires i <= |flat|
  {
    if i == 0 then Copies(flat) else Link(Linked(flat, i - 1), flat[i - 1].id)
  }

  predicate IsRootIn(byId: map<int, MenuNode>, id: int) {
    id in byId && (byId[id].row.parentId.None? || byId[id].row.parentId.value !in byId)
  }

  function Roots(flat: seq<MenuRow>, byId: map<int, MenuNode>, i: nat): seq<MenuNode>
    requires i <= |flat|
  {
    if i == 0 then []
    else Roots(flat, byId, i - 1) + if IsRootIn(byId, flat[i - 1].id) then [byId[flat[i - 1].id]] else []
  }

  function Built(flat: seq<MenuRow>): seq<MenuNode> {
    Roots(flat, Linked(flat, |flat|), |flat|)
  }

  lemma {:induction false} LinkedKeys(flat: seq<MenuRow>, i: nat)
    requires i <= |flat|
    ensures Linked(flat, i).Keys == Copies(flat).Keys
  {
    if i > 0 {
      LinkedKeys(flat, i - 1);
    }
  }

  method BuildTree(flat: seq<MenuRow>) returns (roots: seq<MenuNode>)
    ensures roots == Built(flat)
  {
    var byId: map<int, MenuNode> := map[];
    for i := 0 to |flat|
      invariant byId == Copies(flat[..i])
    {
      assert flat[..i + 1][..i] == flat[..i];
      byId := byId[flat[i].id := Tree(flat[i], [])];
    }
    assert flat[..|flat|] == flat;
    for i := 0 to |flat|
      invariant byId == Linked(flat, i)
    {
      LinkedKeys(flat, i);
      CopiesHold(flat, flat[i].id);
      var node := byId[flat[i].id];
      if node.row.parentId.None? {
        continue;
      }
      if node.row.parentId.value in byId {
        var parent := byId[node.row.parentId.value];
        byId := byId[node.row.parentId.value := parent.(children := parent.children + [node])];
      }
    }
    roots := [];
    for i := 0 to |flat|
      invariant roots == Roots(flat, byId, i)
    {
      LinkedKeys(flat, |flat|);
      CopiesHold(flat, flat[i].id);
      var node := byId[flat[i].id];
      if node.row.parentId.None? {
        roots := roots + [node];
        continue;
      }
      if node.row.parentId.value !in byId {
        roots := roots + [node];
      }
    }
  }

  // ----- the copies, without the map

  /** The position of the row's parent, if the parent is in the list. */
  function ParentAt(flat: seq<MenuRow>, j: nat): (r: Option<nat>)
    requires j < |flat|
  {
    if flat[j].parentId.None? then None else Position(flat, flat[j].parentId.value)
  }

  function Position(flat: seq<MenuRow>, id: int): (r: Option<nat>)
    ensures r.Some? ==> r.value < |flat| && flat[r.value].id == id
    ensures r.None? ==> forall i :: 0 <= i < |flat| ==> flat[i].id != id
  {
    if flat == [] then None
    else if flat[|flat| - 1].id == id then Some(|flat| - 1)
    else Position(flat[..|flat| - 1], id)
  }

  predicate IsChild(flat: seq<MenuRow>, c: nat, j: nat)
    requires c < |flat|
  {
    ParentAt(flat, c) == Some(j)
  }

  /** Node j as it stands after i rows were linked: each child as it stood when it was copied. */
  function Snapshot(flat: seq<MenuRow>, j: nat, i: nat): MenuNode
    requires j < |flat| && i <= |flat|
    decreases i, 1
  {
    Tree(flat[j], Kids(flat, j, i))
  }

  function Kids(flat: seq<MenuRow>, j: nat, i: nat): seq<MenuNode>
    requires j < |flat| && i <= |flat|
    decreases i, 0
  {
    if i == 0 then []
    else Kids(flat, j, i - 1) + if IsChild(flat, i - 1, j) then [Snapshot(flat, i - 1, i - 1)] else []
  }

  lemma PositionOf(flat: seq<MenuRow>, j: nat)
    requires DistinctIds(flat) && j < |flat|
    ensures Position(flat, flat[j].id) == Some(j)
  {
  }

  lemma {:induction false} CopiesAre(flat: seq<MenuRow>, j: nat)
    requires DistinctIds(flat) && j < |flat|
    ensures flat[j].id in Copies(flat) && Copies(flat)[flat[j].id] == Tree(flat[j], [])
  {
    var n := |flat| - 1;
    if j < n {
      CopiesAre(flat[..n], j);
    }
  }

  lemma {:induction false} LinkedIsSnapshot(flat: seq<MenuRow>, j: nat, i: nat)
    requires DistinctIds(flat) && j < |flat| && i <= |flat|
    ensures flat[j].id in Linked(flat, i) && Linked(flat, i)[flat[j].id] == Snapshot(flat, j, i)
    decreases i
  {
    if i == 0 {
      CopiesAre(flat, j);
    } else {
      LinkedIsSnapshot(flat, j, i - 1);
      LinkedIsSnapshot(flat, i - 1, i - 1);
      PositionOf(flat, j);
      LinkedKeys(flat, i - 1);
      var row := flat[i - 1];
      if row.parentId.Some? {
        CopiesHold(flat, row.parentId.value);
        var p := Position(flat, row.parentId.value);
        if p.Some? && p.value != j {
          assert flat[p.value].id != flat[j].id;
        }
      }
    }
  }

  /** The positions of the roots, in list order. */
  function RootSnapshots(flat: seq<MenuRow>, i: nat): seq<MenuNode>
    requires i <= |flat|
  {
    if i == 0 then []
    else RootSnapshots(flat, i - 1) + if ParentAt(flat, i - 1).None? then [Snapshot(flat, i - 1, |flat|)] else []
  }

  lemma {:induction false} BuiltIsSnapshots(flat: seq<MenuRow>, i: nat)
    requires DistinctIds(flat) && i <= |flat|
    ensures Roots(flat, Linked(flat, |flat|), i) == RootSnapshots(flat, i)
  {
    if i > 0 {
      BuiltIsSnapshots(flat, i - 1);
      LinkedIsSnapshot(flat, i - 1, |flat|);
      LinkedKeys(flat, |flat|);
      if flat[i - 1].parentId.Some? {
        CopiesHold(flat, flat[i - 1].parentId.value);
      }
    }
  }

  // ----- which rows survive

  lemma AllIdsSnoc(ts: seq<MenuNode>, t: MenuNode)
    ensures AllIds(ts + [t]) == AllIds(ts) + Ids(t)
  {
    assert (ts + [t])[..|ts|] == ts;
  }

  /** A row below the second level: its parent has a parent in the list. */
  predicate Below(flat: seq<MenuRow>, x: nat)
    requires x < |flat|
  {
    ParentAt(flat, x).Some? && ParentAt(flat, ParentAt(flat, x).value).Some?
  }

  /** Every row below the second level comes before its parent. */
  ghost predicate ChildrenFirst(flat: seq<MenuRow>) {
    forall x :: 0 <= x < |flat| && Below(flat, x) ==> x < ParentAt(flat, x).value
  }

  ghost predicate EveryRowOnce(flat: seq<MenuRow>) {
    forall x :: 0 <= x < |flat| ==> AllIds(Built(flat))[flat[x].id] == 1
  }

  lemma DistinctAt(flat: seq<MenuRow>, x: nat, j: nat)
    requires DistinctIds(flat) && x < |flat| && j < |flat| && x != j
    ensures flat[x].id != flat[j].id
  {
  }

  /** The ids below node j after one more row. */
  lemma KidsStep(flat: seq<MenuRow>, j: nat, c: nat)
    requires j < |flat| && c < |flat|
    ensures AllIds(Kids(flat, j, c + 1)) ==
            AllIds(Kids(flat, j, c)) + if IsChild(flat, c, j) then Ids(Snapshot(flat, c, c)) else multiset{}
  {
    if IsChild(flat, c, j) {
      AllIdsSnoc(Kids(flat, j, c), Snapshot(flat, c, c));
    } else {
      assert Kids(flat, j, c + 1) == Kids(flat, j, c);
    }
  }

  lemma RootsStep(flat: seq<MenuRow>, c: nat)
    requires c < |flat|
    ensures AllIds(RootSnapshots(flat, c + 1)) ==
            AllIds(RootSnapshots(flat, c)) + if ParentAt(flat, c).None? then Ids(Snapshot(flat, c, |flat|))
                else multiset{}
  {
    if ParentAt(flat, c).None? {
      AllIdsSnoc(RootSnapshots(flat, c), Snapshot(flat, c, |flat|));
    } else {
      assert RootSnapshots(flat, c + 1) == RootSnapshots(flat, c);
    }
  }

  /** A row below node j sits directly under it, or comes before its own parent. */
  lemma {:induction false} InsideKids(flat: seq<MenuRow>, x: nat, j: nat, i: nat)
    requires DistinctIds(flat) && x < |flat| && j < |flat| && i <= |flat|
    requires flat[x].id in AllIds(Kids(flat, j, i))
    ensures ParentAt(flat, x).Some? && x < i
    ensures ParentAt(flat, x).value == j || x < ParentAt(flat, x).value
    decreases i
  {
    hide Position, Copies, ParentAt;
    if i > 0 {
      var c := i - 1;
      KidsStep(flat, j, c);
      if flat[x].id in AllIds(Kids(flat, j, c)) {
        InsideKids(flat, x, j, c);
      } else if x != c {
        DistinctAt(flat, x, c);
        assert Ids(Snapshot(flat, c, c)) == multiset{flat[c].id} + AllIds(Kids(flat, c, c));
        InsideKids(flat, x, c, c);
      }
    }
  }

  lemma {:induction false} InsideBuilt(flat: seq<MenuRow>, x: nat, i: nat)
    requires DistinctIds(flat) && x < |flat| && i <= |flat| && Below(flat, x)
    requires flat[x].id in AllIds(RootSnapshots(flat, i))
    ensures x < ParentAt(flat, x).value
  {
    hide Position, Copies, ParentAt;
    if i > 0 {
      var c := i - 1;
      RootsStep(flat, c);
      if flat[x].id in AllIds(RootSnapshots(flat, c)) {
        InsideBuilt(flat, x, c);
      } else {
        DistinctAt(flat, x, c);
        assert Ids(Snapshot(flat, c, |flat|)) == multiset{flat[c].id} + AllIds(Kids(flat, c, |flat|));
        InsideKids(flat, x, c, |flat|);
      }
    }
  }

  /** The number of steps up to the root, bounded. */
  function Height(flat: seq<MenuRow>, x: nat): nat
    requires x < |flat|
  {
    if ParentAt(flat, x).None? then 0 else |flat| - x
  }

  /** k is x or an ancestor of x. */
  function Under(flat: seq<MenuRow>, x: nat, k: nat): bool
    requires ChildrenFirst(flat) && x < |flat|
    decreases Height(flat, x)
  {
    x == k || (ParentAt(flat, x).Some? && Under(flat, ParentAt(flat, x).value, k))
  }

  /** The child of k on the way from x up to k. */
  function Toward(flat: seq<MenuRow>, x: nat, k: nat): (c: nat)
    requires ChildrenFirst(flat) && x < |flat| && x != k && Under(flat, x, k)
    ensures c < |flat| && IsChild(flat, c, k) && Under(flat, x, c)
    ensures ParentAt(flat, k).Some? && k < |flat| ==> c < k
    decreases Height(flat, x)
  {
    if ParentAt(flat, x).value == k then x else Toward(flat, ParentAt(flat, x).value, k)
  }

  lemma {:induction false} UnderIsHigher(flat: seq<MenuRow>, x: nat, k: nat)
    requires ChildrenFirst(flat) && x < |flat| && k < |flat| && Under(flat, x, k)
    ensures Height(flat, k) <= Height(flat, x)
    decreases Height(flat, x)
  {
    if x != k {
      UnderIsHigher(flat, ParentAt(flat, x).value, k);
    }
  }

  lemma {:induction false} UnderChildIsToward(flat: seq<MenuRow>, x: nat, c: nat, k: nat)
    requires ChildrenFirst(flat) && x < |flat| && c < |flat| && k < |flat| && IsChild(flat, c, k) && Under(flat, x, c)
    ensures x != k && Under(flat, x, k) && Toward(flat, x, k) == c
    decreases Height(flat, x)
  {
    UnderIsHigher(flat, x, c);
    if x != c {
      var p := ParentAt(flat, x).value;
      UnderChildIsToward(flat, p, c, k);
    }
  }

  lemma {:induction false} KidsCount(flat: seq<MenuRow>, x: nat, k: nat, i: nat)
    requires DistinctIds(flat) && ChildrenFirst(flat) && x < |flat| && k < |flat| && i <= |flat|
    ensures AllIds(Kids(flat, k, i))[flat[x].id] ==
            if x != k && Under(flat, x, k) && Toward(flat, x, k) < i then 1 else 0
    decreases i, 0
  {
    if i > 0 {
      var c := i - 1;
      KidsCount(flat, x, k, c);
      KidsStep(flat, k, c);
      if IsChild(flat, c, k) {
        SnapshotCount(flat, x, c, c);
        if Under(flat, x, c) {
          UnderChildIsToward(flat, x, c, k);
        }
      }
    }
  }

  /** The multiplicity of row x in a snapshot of node k. */
  lemma {:induction false} SnapshotCount(flat: seq<MenuRow>, x: nat, k: nat, i: nat)
    requires DistinctIds(flat) && ChildrenFirst(flat) && x < |flat| && k < |flat| && i <= |flat|
    requires ParentAt(flat, k).Some? ==> k <= i
    requires ParentAt(flat, k).None? ==> i == |flat|
    ensures Ids(Snapshot(flat, k, i))[flat[x].id] == if Under(flat, x, k) then 1 else 0
    decreases i, 1
  {
    KidsCount(flat, x, k, i);
    if x != k {
      DistinctAt(flat, x, k);
    }
  }

  /** The root above a row. */
  function RootAbove(flat: seq<MenuRow>, x: nat): (r: nat)
    requires ChildrenFirst(flat) && x < |flat|
    ensures r < |flat| && ParentAt(flat, r).None? && Under(flat, x, r)
    decreases Height(flat, x)
  {
    if ParentAt(flat, x).None? then x else RootAbove(flat, ParentAt(flat, x).value)
  }

  lemma {:induction false} OneRootAbove(flat: seq<MenuRow>, x: nat, r: nat)
    requires ChildrenFirst(flat) && x < |flat| && r < |flat| && ParentAt(flat, r).None? && Under(flat, x, r)
    ensures r == RootAbove(flat, x)
    decreases Height(flat, x)
  {
    if x != r {
      OneRootAbove(flat, ParentAt(flat, x).value, r);
    }
  }

  lemma {:induction false} RootsCount(flat: seq<MenuRow>, x: nat, i: nat)
    requires DistinctIds(flat) && ChildrenFirst(flat) && x < |flat| && i <= |flat|
    ensures AllIds(RootSnapshots(flat, i))[flat[x].id] == if RootAbove(flat, x) < i then 1 else 0
  {
    if i > 0 {
      var c := i - 1;
      RootsCount(flat, x, c);
      RootsStep(flat, c);
      if ParentAt(flat, c).None? {
        SnapshotCount(flat, x, c, |flat|);
        if Under(flat, x, c) {
          OneRootAbove(flat, x, c);
        }
      }
    }
  }

  /** The tree holds every row exactly once if and only if every row below the second level comes
      before its parent in the list. */
  lemma EveryRowOnceIffChildrenFirst(flat: seq<MenuRow>)
    requires DistinctIds(flat)
    ensures EveryRowOnce(flat) <==> ChildrenFirst(flat)
  {
    BuiltIsSnapshots(flat, |flat|);
    if EveryRowOnce(flat) {
      forall x | 0 <= x < |flat| && Below(flat, x)
        ensures x < ParentAt(flat, x).value
      {
        assert AllIds(Built(flat))[flat[x].id] == 1;
        InsideBuilt(flat, x, |flat|);
      }
    }
    if ChildrenFirst(flat) {
      forall x | 0 <= x < |flat|
        ensures AllIds(Built(flat))[flat[x].id] == 1
      {
        RootsCount(flat, x, |flat|);
      }
    }
  }

  /** A row below the second level that comes after its parent is lost. */
  lemma LateRowIsLost(flat: seq<MenuRow>, x: nat)
    requires DistinctIds(flat) && x < |flat| && Below(flat, x) && ParentAt(flat, x).value <= x
    ensures AllIds(Built(flat))[flat[x].id] == 0
  {
    BuiltIsSnapshots(flat, |flat|);
    if flat[x].id in AllIds(Built(flat)) {
      InsideBuilt(flat, x, |flat|);
      assert false;
    }
  }

  /** Three levels, each parent listed before its child, as the query ordered by sort order, then
      id, lists menus created top down: the third level is lost. */
  lemma ThirdLevelIsLost(top: MenuRow, middle: MenuRow, bottom: MenuRow)
    requires top.parentId == None && middle.parentId == Some(top.id) && bottom.parentId == Some(middle.id)
    requires top.id != middle.id && middle.id != bottom.id && top.id != bottom.id
    ensures var flat := [top, middle, bottom];
            DistinctIds(flat) && !EveryRowOnce(flat) && AllIds(Built(flat))[bottom.id] == 0
  {
    hide Built, AllIds, Position;
    var flat := [top, middle, bottom];
    PositionOf(flat, 0);
    PositionOf(flat, 1);
    assert flat[0].id == top.id && flat[1].id == middle.id && flat[2] == bottom;
    LateRowIsLost(flat, 2);
  }

  // ----- where the surviving rows sit

  /** Every node's children name it as their parent. */
  ghost predicate WellParented(t: MenuNode) {
    forall i :: 0 <= i < |t.children| ==>
      t.children[i].row.parentId == Some(t.row.id) && WellParented(t.children[i])
  }

  lemma {:induction false} SnapshotsWellParented(flat: seq<MenuRow>, j: nat, i: nat)
    requires j < |flat| && i <= |flat|
    ensures WellParented(Snapshot(flat, j, i))
    decreases i
  {
    if i > 0 {
      SnapshotsWellParented(flat, j, i - 1);
      if IsChild(flat, i - 1, j) {
        SnapshotsWellParented(flat, i - 1, i - 1);
      }
    }
  }

  lemma {:induction false} RootsWellParented(flat: seq<MenuRow>, i: nat)
    requires i <= |flat|
    ensures forall k :: 0 <= k < |RootSnapshots(flat, i)| ==> WellParented(RootSnapshots(flat, i)[k])
  {
    if i > 0 {
      RootsWellParented(flat, i - 1);
      SnapshotsWellParented(flat, i - 1, |flat|);
    }
  }

  /** Whatever survives sits under its own parent. */
  lemma BuiltWellParented(flat: seq<MenuRow>)
    requires DistinctIds(flat)
    ensures forall k :: 0 <= k < |Built(flat)| ==> WellParented(Built(flat)[k])
  {
    BuiltIsSnapshots(flat, |flat|);
    RootsWellParented(flat, |flat|);
  }

  // ----- the order of siblings

  ghost predicate ListedBefore(flat: seq<MenuRow>, x: MenuRow, y: MenuRow) {
    exists p, q :: 0 <= p < q < |flat| && flat[p] == x && flat[q] == y
  }

  /** Siblings, at every level, stand as they are listed. */
  ghost predicate AsListed(flat: seq<MenuRow>, ts: seq<MenuNode>) {
    && (forall a, b :: 0 <= a < b < |ts| ==> ListedBefore(flat, ts[a].row, ts[b].row))
    && forall k :: 0 <= k < |ts| ==> AsListed(flat, ts[k].children)
  }

  /** All are rows among the first i. */
  ghost predicate Among(flat: seq<MenuRow>, ts: seq<MenuNode>, i: nat)
    requires i <= |flat|
  {
    forall k :: 0 <= k < |ts| ==> ts[k].row in flat[..i]
  }

  lemma ListedAfter(flat: seq<MenuRow>, i: nat, x: MenuRow)
    requires i < |flat| && x in flat[..i]
    ensures ListedBefore(flat, x, flat[i]) && x in flat[..i + 1]
  {
    var p :| 0 <= p < i && flat[..i][p] == x;
    assert flat[p] == x && flat[..i + 1][p] == x;
  }

  lemma NextListed(flat: seq<MenuRow>, ts: seq<MenuNode>, t: MenuNode, i: nat)
    requires i < |flat| && t.row == flat[i] && AsListed(flat, ts) && Among(flat, ts, i) && AsListed(flat, t.children)
    ensures AsListed(flat, ts + [t]) && Among(flat, ts + [t], i + 1)
  {
    hide ListedBefore;
    assert flat[..i + 1][i] == t.row;
    forall a | 0 <= a < |ts|
      ensures ListedBefore(flat, ts[a].row, t.row) && ts[a].row in flat[..i + 1]
    {
      ListedAfter(flat, i, ts[a].row);
    }
    var all := ts + [t];
    forall k | 0 <= k < |all|
      ensures AsListed(flat, all[k].children)
    {
      assert all[k] == if k < |ts| then ts[k] else t;
    }
  }

  lemma {:induction false} KidsAsListed(flat: seq<MenuRow>, j: nat, i: nat)
    requires j < |flat| && i <= |flat|
    ensures AsListed(flat, Kids(flat, j, i)) && Among(flat, Kids(flat, j, i), i)
    decreases i
  {
    hide AsListed, Among, Kids, IsChild;
    if i == 0 {
      NobodyListed(flat);
      NoKids(flat, j);
    } else {
      KidsAsListed(flat, j, i - 1);
      KidsAsListed(flat, i - 1, i - 1);
      KidsNext(flat, j, i - 1);
      MoreListed(flat, Kids(flat, j, i - 1), i - 1);
      NextListed(flat, Kids(flat, j, i - 1), Snapshot(flat, i - 1, i - 1), i - 1);
    }
  }

  lemma NobodyListed(flat: seq<MenuRow>)
    ensures AsListed(flat, []) && Among(flat, [], 0)
  {
  }

  lemma KidsNext(flat: seq<MenuRow>, j: nat, i: nat)
    requires j < |flat| && i < |flat|
    ensures Kids(flat, j, i + 1) ==
            if IsChild(flat, i, j) then Kids(flat, j, i) + [Snapshot(flat, i, i)] else Kids(flat, j, i)
  {
    hide IsChild;
  }

  lemma MoreListed(flat: seq<MenuRow>, ts: seq<MenuNode>, i: nat)
    requires i < |flat| && Among(flat, ts, i)
    ensures Among(flat, ts, i + 1)
  {
    assert forall x :: x in flat[..i] ==> x in flat[..i + 1];
  }

  lemma NoKids(flat: seq<MenuRow>, j: nat)
    requires j < |flat|
    ensures Kids(flat, j, 0) == []
  {
  }

  lemma RootsNext(flat: seq<MenuRow>, i: nat)
    requires i < |flat|
    ensures RootSnapshots(flat, i + 1) ==
            if ParentAt(flat, i).None? then RootSnapshots(flat, i) + [Snapshot(flat, i, |flat|)]
            else RootSnapshots(flat, i)
  {
    hide ParentAt, Snapshot;
  }

  lemma {:induction false} RootsAsListed(flat: seq<MenuRow>, i: nat)
    requires i <= |flat|
    ensures AsListed(flat, RootSnapshots(flat, i)) && Among(flat, RootSnapshots(flat, i), i)
  {
    hide AsListed, Among, Kids, ParentAt, RootSnapshots;
    if i == 0 {
      NobodyListed(flat);
      NoRoots(flat);
    } else {
      RootsAsListed(flat, i - 1);
      KidsAsListed(flat, i - 1, |flat|);
      RootsNext(flat, i - 1);
      MoreListed(flat, RootSnapshots(flat, i - 1), i - 1);
      NextListed(flat, RootSnapshots(flat, i - 1), Snapshot(flat, i - 1, |flat|), i - 1);
    }
  }

  lemma NoRoots(flat: seq<MenuRow>)
    ensures RootSnapshots(flat, 0) == []
  {
  }

  /** Whatever survives stands in list order among its siblings. */
  lemma BuiltAsListed(flat: seq<MenuRow>)
    requires DistinctIds(flat)
    ensures AsListed(flat, Built(flat))
  {
    BuiltIsSnapshots(flat, |flat|);
    RootsAsListed(flat, |flat|);
  }
}
