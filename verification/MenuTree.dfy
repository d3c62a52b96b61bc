/** The menu page's tree and its parent picker (frontend menuView.ts), and why the picker offers
    exactly the parents the server accepts. */
module MenuTree {
  import opened Wrappers
  import opened Collections
  import opened ParentTree
  import MenuTable

  datatype MenuRow = MenuRow(id: int, parentId: Option<int>, menuType: string, name: string, sortOrder: int)

  type Node = Item<MenuRow>

  // ----- sibling order

  predicate Less(a: Node, b: Node) {
    a.data.sortOrder < b.data.sortOrder || (a.data.sortOrder == b.data.sortOrder && a.id < b.id)
  }

  /** By sort order, then id. */
  ghost predicate InOrder(a: Node, b: Node) {
    a.data.sortOrder < b.data.sortOrder || (a.data.sortOrder == b.data.sortOrder && a.id <= b.id)
  }

  ghost predicate SortedNodes(s: seq<Node>) {
    forall i, j :: 0 <= i < j < |s| ==> InOrder(s[i], s[j])
  }

  function Insert(s: seq<Node>, x: Node): (r: seq<Node>)
  {
    if s == [] || !Less(x, s[|s| - 1]) then s + [x] else Insert(s[..|s| - 1], x) + [s[|s| - 1]]
  }

  /** Array.prototype.sort under the comparator on sort order, then id. */
  function Sort(s: seq<Node>): seq<Node> {
    if s == [] then [] else Insert(Sort(s[..|s| - 1]), s[|s| - 1])
  }

  lemma {:induction false} InsertPermutes(s: seq<Node>, x: Node)
    ensures multiset(Insert(s, x)) == multiset(s) + multiset{x}
  {
    if s != [] && Less(x, s[|s| - 1]) {
      var n := |s| - 1;
      InsertPermutes(s[..n], x);
      assert s == s[..n] + [s[n]];
    }
  }

  lemma {:induction false} SortPermutes(s: seq<Node>)
    ensures multiset(Sort(s)) == multiset(s)
  {
    hide Insert, Less;
    if s != [] {
      var n := |s| - 1;
      SortPermutes(s[..n]);
      InsertPermutes(Sort(s[..n]), s[n]);
      assert s == s[..n] + [s[n]];
    }
  }

  lemma {:induction false} InsertSorted(s: seq<Node>, x: Node)
    requires SortedNodes(s)
    ensures SortedNodes(Insert(s, x))
  {
    if s != [] && Less(x, s[|s| - 1]) {
      var n := |s| - 1;
      InsertSorted(s[..n], x);
      InsertPermutes(s[..n], x);
      var r := Insert(s[..n], x);
      forall i | 0 <= i < |r|
        ensures InOrder(r[i], s[n])
      {
        assert r[i] in multiset(r);
        assert r[i] == x || r[i] in s[..n];
      }
    }
  }

  lemma {:induction false} SortSorted(s: seq<Node>)
    ensures SortedNodes(Sort(s))
  {
    if s != [] {
      SortSorted(s[..|s| - 1]);
      InsertSorted(Sort(s[..|s| - 1]), s[|s| - 1]);
    }
  }

  lemma SiblingsSnoc(s: seq<Node>, x: Node, parent: Option<int>)
    ensures Siblings(s + [x], parent) == Siblings(s, parent) + if x.parentId == parent then [x] else []
  {
    assert (s + [x])[..|s|] == s;
  }

  lemma {:induction false} SiblingsAreItems(s: seq<Node>, parent: Option<int>, x: Node)
    requires x in Siblings(s, parent)
    ensures x in s
  {
    if s != [] {
      var n := |s| - 1;
      assert s == s[..n] + [s[n]];
      if x in Siblings(s[..n], parent) {
        SiblingsAreItems(s[..n], parent, x);
      }
    }
  }

  lemma InsertBeforeLast(init: seq<Node>, last: Node, x: Node)
    requires Less(x, last)
    ensures Insert(init + [last], x) == Insert(init, x) + [last]
  {
    assert (init + [last])[..|init|] == init;
  }

  lemma SortSnoc(s: seq<Node>, x: Node)
    ensures Sort(s + [x]) == Insert(Sort(s), x)
  {
    assert (s + [x])[..|s|] == s;
  }

  /** In a sorted list the last sibling is not after the last node. */
  lemma LastSibling(s: seq<Node>, x: Node, parent: Option<int>)
    requires SortedNodes(s) && s != [] && !Less(x, s[|s| - 1]) && Siblings(s, parent) != []
    ensures !Less(x, Siblings(s, parent)[|Siblings(s, parent)| - 1])
  {
    var sib := Siblings(s, parent);
    var last := sib[|sib| - 1];
    SiblingsAreItems(s, parent, last);
    var i :| 0 <= i < |s| && s[i] == last;
    assert i == |s| - 1 || InOrder(s[i], s[|s| - 1]);
  }

  /** Choosing siblings commutes with inserting into a sorted list. */
  lemma {:induction false} SiblingsOfInsert(s: seq<Node>, x: Node, parent: Option<int>)
    requires SortedNodes(s)
    ensures Siblings(Insert(s, x), parent) ==
            if x.parentId == parent then Insert(Siblings(s, parent), x) else Siblings(s, parent)
  {
    if s == [] || !Less(x, s[|s| - 1]) {
      SiblingsSnoc(s, x, parent);
      if Siblings(s, parent) != [] {
        LastSibling(s, x, parent);
      }
    } else {
      var init, last := s[..|s| - 1], s[|s| - 1];
      assert s == init + [last];
      SiblingsOfInsert(init, x, parent);
      assert Insert(s, x) == Insert(init, x) + [last];
      SiblingsSnoc(Insert(init, x), last, parent);
      SiblingsSnoc(init, last, parent);
      InsertBeforeLast(Siblings(init, parent), last, x);
      if last.parentId != parent {
        assert Siblings(s, parent) == Siblings(init, parent);
      }
    }
  }

  /** Sorting each list of siblings is choosing siblings from the sorted list. */
  lemma {:induction false} SortSiblings(s: seq<Node>, parent: Option<int>)
    ensures Sort(Siblings(s, parent)) == Siblings(Sort(s), parent)
  {
    if s != [] {
      var init, last := s[..|s| - 1], s[|s| - 1];
      assert s == init + [last];
      SortSiblings(init, parent);
      SortSorted(init);
      SiblingsOfInsert(Sort(init), last, parent);
      SiblingsSnoc(init, last, parent);
      SortSnoc(Siblings(init, parent), last);
      if last.parentId != parent {
        assert Siblings(s, parent) == Siblings(init, parent);
      }
    }
  }

  // ----- building the tree

  /** The parent a row is hung under: none when it is null, zero or not in the list. */
  function HangsUnder(rows: seq<MenuRow>, row: MenuRow): Option<int> {
    if row.parentId.Some? && row.parentId.value != 0 && exists r :: r in rows && r.id == row.parentId.value
    then row.parentId else None
  }

  function Nodes(rows: seq<MenuRow>): (r: seq<Node>)
    ensures |r| == |rows| && forall i :: 0 <= i < |r| ==> r[i] == Item(rows[i].id, HangsUnder(rows, rows[i]), rows[i])
  {
    seq(|rows|, i requires 0 <= i < |rows| => Item(rows[i].id, HangsUnder(rows, rows[i]), rows[i]))
  }

  ghost predicate DistinctRows(rows: seq<MenuRow>) {
    forall i, j :: 0 <= i < j < |rows| ==> rows[i].id != rows[j].id
  }

  /** The tree the page shows: the trees below nil over the sorted list. */
  ghost function MenuTrees(rows: seq<MenuRow>): seq<Tree<MenuRow>>
    requires DistinctRows(rows)
  {
    SortKeepsDistinct(rows);
    TreesUpTo(Sort(Nodes(rows)), |rows|, None, [])
  }

  lemma SortKeepsDistinct(rows: seq<MenuRow>)
    requires DistinctRows(rows)
    ensures |Sort(Nodes(rows))| == |rows| && DistinctIds(Nodes(rows)) && DistinctIds(Sort(Nodes(rows)))
    ensures forall n :: n in Sort(Nodes(rows)) <==> n in Nodes(rows)
  {
    var nodes := Nodes(rows);
    SortPermutes(nodes);
    PermutedDistinct(nodes, Sort(nodes));
    assert forall n :: n in Sort(nodes) <==> n in multiset(Sort(nodes));
  }

  lemma PermutedDistinct(a: seq<Node>, b: seq<Node>)
    requires DistinctIds(a) && multiset(a) == multiset(b)
    ensures |a| == |b| && DistinctIds(b)
  {
    assert |multiset(a)| == |multiset(b)|;
    forall i, j | 0 <= i < j < |b|
      ensures b[i].id != b[j].id
    {
      if b[i].id == b[j].id {
        TwiceInMultiset(b, i, j);
        assert b[i] in multiset(a) && b[j] in multiset(a);
        ItemById(a, b[i], b[j]);
        OnceInDistinct(a, b[i]);
        assert false;
      }
    }
  }

  lemma TwiceInMultiset(b: seq<Node>, i: nat, j: nat)
    requires i < j < |b|
    ensures b[i] == b[j] ==> multiset(b)[b[i]] >= 2
  {
    RemoveOne(b, j);
    var rest := b[..j] + b[j + 1..];
    assert rest[i] == b[i];
    assert rest[i] in multiset(rest);
  }

  lemma {:induction false} OnceInDistinct(a: seq<Node>, x: Node)
    requires DistinctIds(a)
    ensures multiset(a)[x] <= 1
  {
    forall i, j | 0 <= i < j < |a|
      ensures a[i] != a[j]
    {
    }
    DistinctMultiplicity(a, x);
  }

  function ListOf(children: map<int, seq<Node>>, id: int): seq<Node> {
    if id in children then children[id] else []
  }

  ghost predicate ChildrenListed(children: map<int, seq<Node>>, nodes: seq<Node>) {
    forall id {:trigger ListOf(children, id)} :: ListOf(children, id) == Siblings(nodes, Some(id))
  }

  lemma ListedStep(children: map<int, seq<Node>>, nodes: seq<Node>, node: Node)
    requires ChildrenListed(children, nodes)
    ensures node.parentId.None? ==> ChildrenListed(children, nodes + [node])
    ensures node.parentId.Some? ==>
      var p := node.parentId.value; ChildrenListed(children[p := ListOf(children, p) + [node]], nodes + [node])
  {
    if node.parentId.None? {
      forall id
        ensures ListOf(children, id) == Siblings(nodes + [node], Some(id))
      {
        SiblingsSnoc(nodes, node, Some(id));
        assert ListOf(children, id) == Siblings(nodes, Some(id));
      }
    } else {
      var p := node.parentId.value;
      var next := children[p := ListOf(children, p) + [node]];
      forall id
        ensures ListOf(next, id) == Siblings(nodes + [node], Some(id))
      {
        SiblingsSnoc(nodes, node, Some(id));
        assert ListOf(children, id) == Siblings(nodes, Some(id));
      }
    }
  }

  lemma NothingListed()
    ensures Siblings<MenuRow>([], None) == [] && ChildrenListed(map[], [])
  {
  }

  /** Hangs every row under its parent or among the roots, in list order. */
  method HangRows(rows: seq<MenuRow>) returns (roots: seq<Node>, children: map<int, seq<Node>>)
    ensures roots == Siblings(Nodes(rows), None) && ChildrenListed(children, Nodes(rows))
  {
    hide Siblings, ChildrenListed;
    var nodeById: map<int, MenuRow> := map[];
    for i := 0 to |rows|
      invariant forall id :: id in nodeById <==> exists r :: r in rows[..i] && r.id == id
    {
      assert rows[..i + 1] == rows[..i] + [rows[i]];
      nodeById := nodeById[rows[i].id := rows[i]];
    }
    assert rows[..|rows|] == rows;
    roots, children := [], map[];
    NothingListed();
    assert Nodes(rows)[..0] == [];
    for i := 0 to |rows|
      invariant roots == Siblings(Nodes(rows)[..i], None)
      invariant ChildrenListed(children, Nodes(rows)[..i])
    {
      var row := rows[i];
      var node := Item(row.id, HangsUnder(rows, row), row);
      assert Nodes(rows)[..i + 1] == Nodes(rows)[..i] + [node];
      SiblingsSnoc(Nodes(rows)[..i], node, None);
      ListedStep(children, Nodes(rows)[..i], node);
      if row.parentId.Some? && row.parentId.value != 0 && row.parentId.value in nodeById {
        children := children[row.parentId.value := ListOf(children, row.parentId.value) + [node]];
      } else {
        roots := roots + [node];
      }
    }
    assert Nodes(rows)[..|rows|] == Nodes(rows);
  }

  /** The i-th tree below a parent. */
  lemma TreeAt(items: seq<Node>, parent: Option<int>, chain: seq<int>, i: nat)
    requires DistinctIds(items) && ChainUp(items, parent, chain) && i < |Siblings(items, parent)|
    ensures var node := Siblings(items, parent)[i];
            && |TreesUpTo(items, |items|, parent, chain)| == |Siblings(items, parent)|
            && ChainUp(items, Some(node.id), [node.id] + chain) && |chain| < |items|
            && TreesUpTo(items, |items|, parent, chain)[i] ==
               Tree(node, TreesUpTo(items, |items|, Some(node.id), [node.id] + chain))
  {
    var node := Siblings(items, parent)[i];
    TreesShape(items, |items|, parent, chain);
    assert items[..|items|] == items;
    SiblingsAreItems(items, parent, node);
    SiblingsHaveParent(items, parent, node);
    ChainGrows(items, parent, chain, node);
  }

  lemma NoTrees(items: seq<Node>, parent: Option<int>, chain: seq<int>)
    requires DistinctIds(items) && ChainUp(items, parent, chain)
    ensures |TreesUpTo(items, |items|, parent, chain)| == |Siblings(items, parent)|
  {
    TreesShape(items, |items|, parent, chain);
    assert items[..|items|] == items;
  }

  /** Sorts a list of siblings and, below each, its children. */
  method SortTree(siblings: seq<Node>, children: map<int, seq<Node>>, ghost nodes: seq<Node>, ghost items: seq<Node>,
                  ghost parent: Option<int>, ghost chain: seq<int>) returns (trees: seq<Tree<MenuRow>>)
    requires items == Sort(nodes) && DistinctIds(items) && ChainUp(items, parent, chain)
    requires ChildrenListed(children, nodes) && siblings == Siblings(nodes, parent)
    ensures trees == TreesUpTo(items, |items|, parent, chain)
    decreases |items| - |chain|, 1
  {
    hide ChildrenListed, ChainUp, Insert, Less, DistinctIds;
    var sorted := Sort(siblings);
    SortSiblings(nodes, parent);
    NoTrees(items, parent, chain);
    ghost var all := TreesUpTo(items, |items|, parent, chain);
    trees := [];
    for i := 0 to |sorted|
      invariant |trees| == i && trees == all[..i]
    {
      var node := sorted[i];
      TreeAt(items, parent, chain, i);
      var below := SortChildren(node, children, nodes, items, chain);
      PrefixGrows(trees, Tree(node, below), all);
      trees := trees + [Tree(node, below)];
    }
  }

  method SortChildren(node: Node, children: map<int, seq<Node>>, ghost nodes: seq<Node>, ghost items: seq<Node>,
                      ghost chain: seq<int>) returns (trees: seq<Tree<MenuRow>>)
    requires items == Sort(nodes) && DistinctIds(items) && ChainUp(items, Some(node.id), [node.id] + chain)
    requires ChildrenListed(children, nodes) && |chain| < |items|
    ensures trees == TreesUpTo(items, |items|, Some(node.id), [node.id] + chain)
    decreases |items| - |chain|, 0
  {
    var list := ListOf(children, node.id);
    trees := SortTree(list, children, nodes, items, Some(node.id), [node.id] + chain);
  }

  lemma {:induction false} SiblingsHaveParent(s: seq<Node>, parent: Option<int>, x: Node)
    requires x in Siblings(s, parent)
    ensures x.parentId == parent
  {
    if s != [] && x in Siblings(s[..|s| - 1], parent) {
      SiblingsHaveParent(s[..|s| - 1], parent, x);
    }
  }

  method BuildMenuTree(rows: seq<MenuRow>) returns (trees: seq<Tree<MenuRow>>)
    requires DistinctRows(rows)
    ensures trees == MenuTrees(rows)
  {
    SortKeepsDistinct(rows);
    var roots, children := HangRows(rows);
    trees := SortTree(roots, children, Nodes(rows), Sort(Nodes(rows)), None, []);
  }

  /** Below every node, and at the top, siblings are ordered by sort order, then id. */
  ghost predicate OrderedSiblings(ts: seq<Tree<MenuRow>>) {
    SortedNodes(RowsOf(ts)) && forall i :: 0 <= i < |ts| ==> OrderedSiblings(ts[i].children)
  }

  lemma {:induction false} SiblingsSorted(s: seq<Node>, parent: Option<int>)
    requires SortedNodes(s)
    ensures SortedNodes(Siblings(s, parent))
  {
    if s != [] {
      var init, last := s[..|s| - 1], s[|s| - 1];
      assert s == init + [last];
      SiblingsSorted(init, parent);
      SiblingsSnoc(init, last, parent);
      forall x | x in Siblings(init, parent)
        ensures InOrder(x, last)
      {
        SiblingsAreItems(init, parent, x);
        var i :| 0 <= i < |init| && init[i] == x;
        assert s[i] == x && s[|s| - 1] == last;
      }
    }
  }

  lemma {:induction false} TreesOrdered(items: seq<Node>, parent: Option<int>, chain: seq<int>)
    requires DistinctIds(items) && ChainUp(items, parent, chain) && SortedNodes(items)
    ensures OrderedSiblings(TreesUpTo(items, |items|, parent, chain))
    decreases |items| - |chain|
  {
    var ts := TreesUpTo(items, |items|, parent, chain);
    TreesShape(items, |items|, parent, chain);
    assert items[..|items|] == items;
    SiblingsSorted(items, parent);
    assert RowsOf(ts) == Siblings(items, parent);
    forall i | 0 <= i < |ts|
      ensures OrderedSiblings(ts[i].children)
    {
      var node := ts[i].row;
      assert node in Siblings(items, parent);
      SiblingsAreItems(items, parent, node);
      SiblingsHaveParent(items, parent, node);
      ChainGrows(items, parent, chain, node);
      TreesOrdered(items, Some(node.id), [node.id] + chain);
    }
  }

  /** A row whose parent chain, as the page reads it, ends at a root. */
  ghost predicate Reaches(rows: seq<MenuRow>, x: nat)
    requires x < |rows|
  {
    Rooted(Nodes(rows), Nodes(rows)[x])
  }

  /** The page's tree holds every row whose parent chain ends, once, and loses the rows of cycles;
      siblings are in order, and each node is over exactly its own children. */
  lemma MenuTreeHoldsRows(rows: seq<MenuRow>)
    requires DistinctRows(rows)
    ensures forall x :: 0 <= x < |rows| ==> AllIds(MenuTrees(rows))[rows[x].id] == if Reaches(rows, x) then 1 else 0
    ensures OrderedSiblings(MenuTrees(rows))
    ensures RowsOf(MenuTrees(rows)) == Sort(Siblings(Nodes(rows), None))
    ensures forall t :: t in MenuTrees(rows) ==> Faithful(Sort(Nodes(rows)), t)
  {
    var nodes, items := Nodes(rows), Sort(Nodes(rows));
    SortKeepsDistinct(rows);
    SortSorted(nodes);
    forall x | 0 <= x < |rows|
      ensures AllIds(MenuTrees(rows))[rows[x].id] == if Reaches(rows, x) then 1 else 0
    {
      assert nodes[x] in items;
      var y :| 0 <= y < |items| && items[y] == nodes[x];
      TreeHoldsRootedOnce(items, y);
      SameChains(nodes, items, nodes[x]);
    }
    TreesOrdered(items, None, []);
    TreeIsFaithful(items);
    SortSiblings(nodes, None);
  }

  // ----- which rows sit where

  /** Below a node, at every depth, sit exactly the rows that name it as their parent. */
  ghost predicate OverOwnRows(rows: seq<MenuRow>, t: Tree<MenuRow>) {
    && (forall x :: 0 <= x < |rows| ==>
          (Nodes(rows)[x] in RowsOf(t.children) <==> t.row.id != 0 && rows[x].parentId == Some(t.row.id)))
    && forall i :: 0 <= i < |t.children| ==> OverOwnRows(rows, t.children[i])
  }

  ghost predicate IsRow(rows: seq<MenuRow>, id: int) {
    exists r :: r in rows && r.id == id
  }

  lemma {:induction false} SiblingsIff(s: seq<Node>, parent: Option<int>, x: Node)
    ensures x in Siblings(s, parent) <==> x in s && x.parentId == parent
  {
    if s != [] {
      assert s == s[..|s| - 1] + [s[|s| - 1]];
      SiblingsIff(s[..|s| - 1], parent, x);
    }
  }

  lemma {:induction false} FaithfulIsOver(rows: seq<MenuRow>, t: Tree<MenuRow>)
    requires DistinctRows(rows) && Faithful(Sort(Nodes(rows)), t) && IsRow(rows, t.row.id)
    ensures OverOwnRows(rows, t)
  {
    hide Siblings, Sort, IsRow, DistinctRows;
    var items := Sort(Nodes(rows));
    SortKeepsDistinct(rows);
    forall x | 0 <= x < |rows|
      ensures Nodes(rows)[x] in RowsOf(t.children) <==> t.row.id != 0 && rows[x].parentId == Some(t.row.id)
    {
      SiblingsIff(items, Some(t.row.id), Nodes(rows)[x]);
      HangsIff(rows, rows[x], t.row.id);
    }
    forall i | 0 <= i < |t.children|
      ensures OverOwnRows(rows, t.children[i])
    {
      var child := t.children[i].row;
      assert RowsOf(t.children)[i] == child;
      SiblingsIff(items, Some(t.row.id), child);
      NodeIsRow(rows, child);
      FaithfulIsOver(rows, t.children[i]);
    }
  }

  lemma HangsIff(rows: seq<MenuRow>, row: MenuRow, id: int)
    requires IsRow(rows, id)
    ensures HangsUnder(rows, row) == Some(id) <==> id != 0 && row.parentId == Some(id)
  {
  }

  lemma NodeIsRow(rows: seq<MenuRow>, node: Node)
    requires node in Nodes(rows)
    ensures IsRow(rows, node.id)
  {
    var x :| 0 <= x < |rows| && Nodes(rows)[x] == node;
    assert rows[x] in rows;
  }

  /** At the top sit exactly the rows whose parent is missing, zero or not in the list; below every
      node exactly the rows that name it. */
  lemma RowsSitUnderParents(rows: seq<MenuRow>)
    requires DistinctRows(rows)
    ensures forall x :: 0 <= x < |rows| ==>
              (Nodes(rows)[x] in RowsOf(MenuTrees(rows)) <==>
               rows[x].parentId.None? || rows[x].parentId.value == 0 || !IsRow(rows, rows[x].parentId.value))
    ensures forall t :: t in MenuTrees(rows) ==> OverOwnRows(rows, t)
  {
    hide MenuTrees, Siblings, Sort, IsRow, Faithful, DistinctRows;
    SortKeepsDistinct(rows);
    MenuTreeHoldsRows(rows);
    var tops := Siblings(Nodes(rows), None);
    SortPermutes(tops);
    assert forall n :: n in tops <==> n in multiset(tops);
    assert forall n :: n in Sort(tops) <==> n in multiset(Sort(tops));
    forall x | 0 <= x < |rows|
      ensures Nodes(rows)[x] in RowsOf(MenuTrees(rows)) <==>
              rows[x].parentId.None? || rows[x].parentId.value == 0 || !IsRow(rows, rows[x].parentId.value)
    {
      SiblingsIff(Nodes(rows), None, Nodes(rows)[x]);
      TopIff(rows, rows[x]);
    }
    forall t | t in MenuTrees(rows)
      ensures OverOwnRows(rows, t)
    {
      var i :| 0 <= i < |MenuTrees(rows)| && MenuTrees(rows)[i] == t;
      assert RowsOf(MenuTrees(rows))[i] == t.row;
      SiblingsIff(Nodes(rows), None, t.row);
      NodeIsRow(rows, t.row);
      FaithfulIsOver(rows, t);
    }
  }

  lemma TopIff(rows: seq<MenuRow>, row: MenuRow)
    ensures HangsUnder(rows, row).None? <==>
            row.parentId.None? || row.parentId.value == 0 || !IsRow(rows, row.parentId.value)
  {
  }

  lemma {:induction false} ChainInBoth(a: seq<Node>, b: seq<Node>, parent: Option<int>, chain: seq<int>)
    requires (forall n :: n in a ==> n in b) && ChainUp(a, parent, chain)
    ensures ChainUp(b, parent, chain)
    decreases |chain|
  {
    if chain != [] {
      var n :| n in a && n.id == chain[0] && ChainUp(a, n.parentId, chain[1..]);
      ChainInBoth(a, b, n.parentId, chain[1..]);
    }
  }

  lemma SameChains(a: seq<Node>, b: seq<Node>, x: Node)
    requires forall n :: n in a <==> n in b
    ensures Rooted(a, x) <==> Rooted(b, x)
  {
    if Rooted(a, x) {
      var chain :| ChainUp(a, x.parentId, chain);
      ChainInBoth(a, b, x.parentId, chain);
    }
    if Rooted(b, x) {
      var chain :| ChainUp(b, x.parentId, chain);
      ChainInBoth(b, a, x.parentId, chain);
    }
  }

  // ----- the parent picker

  datatype ParentOption = ParentOption(depth: nat, row: MenuRow)

  /** Options in display order: a subtree is skipped at the edited menu, buttons are not offered. */
  function Options(nodes: seq<Tree<MenuRow>>, depth: nat, editing: Option<int>): seq<ParentOption> {
    if nodes == [] then []
    else
      var t := nodes[|nodes| - 1];
      Options(nodes[..|nodes| - 1], depth, editing) +
      if Some(t.row.id) == editing then []
      else
        (if t.row.data.menuType != "button" then [ParentOption(depth, t.row.data)] else []) +
        Options(t.children, depth + 1, editing)
  }

  lemma OptionsNext(nodes: seq<Tree<MenuRow>>, i: nat, depth: nat, editing: Option<int>)
    requires i < |nodes|
    ensures Options(nodes[..i + 1], depth, editing) ==
            Options(nodes[..i], depth, editing) +
            if Some(nodes[i].row.id) == editing then []
            else
              (if nodes[i].row.data.menuType != "button" then [ParentOption(depth, nodes[i].row.data)] else []) +
              Options(nodes[i].children, depth + 1, editing)
  {
    assert nodes[..i + 1][..i] == nodes[..i];
  }

  lemma NoOptions(depth: nat, editing: Option<int>)
    ensures Options([], depth, editing) == []
  {
  }

  method Walk(nodes: seq<Tree<MenuRow>>, depth: nat, editing: Option<int>) returns (options: seq<ParentOption>)
    ensures options == Options(nodes, depth, editing)
  {
    hide Options;
    options := [];
    NoOptions(depth, editing);
    for i := 0 to |nodes|
      invariant options == Options(nodes[..i], depth, editing)
    {
      var node := nodes[i];
      OptionsNext(nodes, i, depth, editing);
      if Some(node.row.id) == editing {
        continue;
      }
      if node.row.data.menuType != "button" {
        options := options + [ParentOption(depth, node.row.data)];
      }
      var below := Walk(node.children, depth + 1, editing);
      options := options + below;
    }
    assert nodes[..|nodes|] == nodes;
  }

  method MenuParentOptions(rows: seq<MenuRow>, editing: Option<int>) returns (options: seq<ParentOption>)
    requires DistinctRows(rows)
    ensures options == Options(MenuTrees(rows), 0, editing)
  {
    var trees := BuildMenuTree(rows);
    options := Walk(trees, 0, editing);
  }

  ghost predicate Offered(options: seq<ParentOption>, id: int) {
    exists i :: 0 <= i < |options| && options[i].row.id == id
  }

  lemma OfferedInParts(a: seq<ParentOption>, b: seq<ParentOption>, id: int)
    ensures Offered(a + b, id) <==> Offered(a, id) || Offered(b, id)
  {
    if Offered(a, id) {
      var i :| 0 <= i < |a| && a[i].row.id == id;
      assert (a + b)[i].row.id == id;
    }
    if Offered(b, id) {
      var i :| 0 <= i < |b| && b[i].row.id == id;
      assert (a + b)[|a| + i].row.id == id;
    }
  }

  /** What the last tree of a list adds to the options. */
  lemma OptionsStep(ts: seq<Tree<MenuRow>>, t: Tree<MenuRow>, depth: nat, editing: Option<int>, id: int)
    requires t.row.data.id == t.row.id
    ensures Offered(Options(ts + [t], depth, editing), id) <==>
            || Offered(Options(ts, depth, editing), id)
            || (Some(t.row.id) != editing &&
                ((t.row.data.menuType != "button" && t.row.id == id) ||
                    Offered(Options(t.children, depth + 1, editing), id)))
  {
    var before := Options(ts, depth, editing);
    assert (ts + [t])[..|ts|] == ts;
    if Some(t.row.id) != editing {
      var own := if t.row.data.menuType != "button" then [ParentOption(depth, t.row.data)] else [];
      var below := Options(t.children, depth + 1, editing);
      OfferedInParts(before, own + below, id);
      OfferedInParts(own, below, id);
      assert before + (own + below) == Options(ts + [t], depth, editing);
      if own != [] {
        assert own[0].row.id == t.row.id;
      }
    } else {
      assert Options(ts + [t], depth, editing) == before;
    }
  }

  /** Rows carry their own ids. */
  ghost predicate OwnIds(items: seq<Node>) {
    forall i :: 0 <= i < |items| ==> items[i].data.id == items[i].id
  }

  /** An offered menu is a non-button listed below the chain, and the edited menu is neither it nor above it. */
  lemma {:induction false} OfferedMeans(
      items: seq<Node>, k: nat, parent: Option<int>, chain: seq<int>, depth: nat, editing: Option<int>, x: nat)
      returns (pre: seq<int>)
    requires DistinctIds(items) && OwnIds(items) && ChainUp(items, parent, chain) && k <= |items| && x < |items|
    requires Offered(Options(TreesUpTo(items, k, parent, chain), depth, editing), items[x].id)
    ensures Through(items, x, pre, chain) && items[x].data.menuType != "button"
    ensures editing.Some? ==> items[x].id != editing.value && editing.value !in pre
    decreases |items| - |chain|, k
  {
    var c := k - 1;
    var node := items[c];
    var before := TreesUpTo(items, c, parent, chain);
    if Offered(Options(before, depth, editing), items[x].id) {
      pre := OfferedMeans(items, c, parent, chain, depth, editing, x);
    } else {
      ChainGrows(items, parent, chain, node);
      var t := Tree(node, TreesUpTo(items, |items|, Some(node.id), [node.id] + chain));
      OptionsStep(before, t, depth, editing, items[x].id);
      if node.data.menuType != "button" && node.id == items[x].id {
        SameIdSameIndex(items, c, x);
        pre := [];
        assert pre + chain == chain;
      } else {
        var inner := OfferedMeans(items, |items|, Some(node.id), [node.id] + chain, depth + 1, editing, x);
        pre := inner + [node.id];
        assert pre + chain == inner + ([node.id] + chain);
      }
    }
  }

  lemma {:induction false} MeansOffered(
      items: seq<Node>, k: nat, parent: Option<int>, chain: seq<int>, depth: nat, editing: Option<int>, x: nat,
          pre: seq<int>, owner: nat)
    requires DistinctIds(items) && OwnIds(items) && ChainUp(items, parent, chain) && k <= |items| && x < |items| &&
             owner < k
    requires Through(items, x, pre, chain) && Owns(items, x, pre, owner) && items[x].data.menuType != "button"
    requires editing.Some? ==> items[x].id != editing.value && editing.value !in pre
    ensures Offered(Options(TreesUpTo(items, k, parent, chain), depth, editing), items[x].id)
    decreases |items| - |chain|, k
  {
    hide Options, Offered, HangsBelow;
    var c := k - 1;
    var node := items[c];
    var before := TreesUpTo(items, c, parent, chain);
    if node.parentId == parent {
      ChainGrows(items, parent, chain, node);
      var t := Tree(node, TreesUpTo(items, |items|, Some(node.id), [node.id] + chain));
      OptionsStep(before, t, depth, editing, items[x].id);
    }
    if owner < c {
      MeansOffered(items, c, parent, chain, depth, editing, x, pre, owner);
    } else {
      OwnerIsChild(items, x, pre, parent, chain, c);
      if pre != [] {
        assert pre[|pre| - 1] == node.id;
        var shorter := pre[..|pre| - 1];
        assert shorter + ([node.id] + chain) == pre + chain;
        var next := FindOwner(items, x, shorter, [node.id] + chain);
        MeansOffered(items, |items|, Some(node.id), [node.id] + chain, depth + 1, editing, x, shorter, next);
      }
    }
  }

  /** An option stands for an item, at the depth of its parent chain. */
  ghost predicate AtDepth(items: seq<Node>, o: ParentOption) {
    exists n, chain :: n in items && n.data == o.row && ChainUp(items, n.parentId, chain) && |chain| == o.depth
  }

  lemma LastOptions(ts: seq<Tree<MenuRow>>, t: Tree<MenuRow>, depth: nat, editing: Option<int>, o: ParentOption)
    requires o in Options(ts + [t], depth, editing)
    ensures || o in Options(ts, depth, editing) || o == ParentOption(depth, t.row.data)
            || o in Options(t.children, depth + 1, editing)
  {
    assert (ts + [t])[..|ts|] == ts;
  }

  lemma {:induction false} OptionsAtDepth(
      items: seq<Node>, k: nat, parent: Option<int>, chain: seq<int>, editing: Option<int>, o: ParentOption)
    requires DistinctIds(items) && ChainUp(items, parent, chain) && k <= |items|
    requires o in Options(TreesUpTo(items, k, parent, chain), |chain|, editing)
    ensures AtDepth(items, o)
    decreases |items| - |chain|, k
  {
    hide Options, ChainUp;
    if k == 0 {
      NoOptions(|chain|, editing);
      return;
    }
    var node := items[k - 1];
    var before := TreesUpTo(items, k - 1, parent, chain);
    if o in Options(before, |chain|, editing) {
      OptionsAtDepth(items, k - 1, parent, chain, editing, o);
    } else {
      ChainGrows(items, parent, chain, node);
      var longer := [node.id] + chain;
      LastOptions(before, Tree(node, TreesUpTo(items, |items|, Some(node.id), longer)), |chain|, editing, o);
      if o != ParentOption(|chain|, node.data) {
        OptionsAtDepth(items, |items|, Some(node.id), longer, editing, o);
      } else {
        assert node in items && ChainUp(items, node.parentId, chain);
      }
    }
  }

  /** A parent is offered at the depth at which its own row hangs: the length of its parent chain. */
  lemma OptionDepth(rows: seq<MenuRow>, editing: Option<int>, o: ParentOption)
    requires DistinctRows(rows) && o in Options(MenuTrees(rows), 0, editing)
    ensures exists x, chain :: 0 <= x < |rows| && rows[x] == o.row &&
              ChainUp(Nodes(rows), Nodes(rows)[x].parentId, chain) && |chain| == o.depth
  {
    hide Options, Sort, Siblings, HangsUnder, TreesUpTo;
    var nodes, items := Nodes(rows), Sort(Nodes(rows));
    SortKeepsDistinct(rows);
    OptionsAtDepth(items, |items|, None, [], editing, o);
    var n, chain :| n in items && n.data == o.row && ChainUp(items, n.parentId, chain) && |chain| == o.depth;
    ChainInBoth(items, nodes, n.parentId, chain);
    var x :| 0 <= x < |nodes| && nodes[x] == n;
    assert rows[x] == o.row;
  }

  // ----- the picker and the server

  /** The list the server sends: the active menus, each once, in some order. */
  ghost predicate Lists(rows: seq<MenuRow>, table: MenuTable.Rows) {
    && DistinctRows(rows)
    && (forall id :: MenuTable.Active(table, id) <==> exists r :: r in rows && r.id == id)
    && (forall r :: r in rows ==>
          MenuTable.Active(table, r.id) && r.parentId == table[r.id].parentId && r.menuType == table[r.id].menuType)
  }

  lemma ParentListed(rows: seq<MenuRow>, table: MenuTable.Rows, r: MenuRow)
    requires Lists(rows, table) && MenuTable.ValidRows(table) && r in rows
    ensures HangsUnder(rows, r) == r.parentId
  {
    if r.parentId.Some? {
      assert MenuTable.Active(table, r.id);
      var chain :| MenuTable.ChainUp(table, Some(r.id), chain);
      assert MenuTable.ChainUp(table, r.parentId, chain[1..]);
      assert MenuTable.Active(table, r.parentId.value);
    }
  }

  /** Chains in the list are chains in the table. */
  lemma {:induction false} ChainFromTable(rows: seq<MenuRow>, table: MenuTable.Rows, parent: Option<int>,
      chain: seq<int>)
    requires Lists(rows, table) && MenuTable.ValidRows(table) && MenuTable.ChainUp(table, parent, chain)
    ensures ChainUp(Nodes(rows), parent, chain)
    decreases |chain|
  {
    if chain != [] {
      assert MenuTable.Active(table, chain[0]);
      var r :| r in rows && r.id == chain[0];
      var i :| 0 <= i < |rows| && rows[i] == r;
      ParentListed(rows, table, r);
      assert Nodes(rows)[i].id == chain[0] && Nodes(rows)[i].parentId == table[chain[0]].parentId;
      ChainFromTable(rows, table, table[chain[0]].parentId, chain[1..]);
      assert Nodes(rows)[i] in Nodes(rows);
    }
  }

  /** Chains in the table are chains in the list, and the other way round. */
  lemma {:induction false} ChainToTable(rows: seq<MenuRow>, table: MenuTable.Rows, parent: Option<int>, chain: seq<int>)
    requires Lists(rows, table) && MenuTable.ValidRows(table) && ChainUp(Nodes(rows), parent, chain)
    ensures MenuTable.ChainUp(table, parent, chain)
    decreases |chain|
  {
    if chain != [] {
      var n :| n in Nodes(rows) && n.id == chain[0] && ChainUp(Nodes(rows), n.parentId, chain[1..]);
      var i :| 0 <= i < |rows| && Nodes(rows)[i] == n;
      ParentListed(rows, table, rows[i]);
      ChainToTable(rows, table, n.parentId, chain[1..]);
    }
  }

  /** A chain to nil that avoids the edited menu. */
  ghost predicate Avoids(nodes: seq<Node>, parent: Option<int>, editing: Option<int>, chain: seq<int>) {
    ChainUp(nodes, parent, chain) && (editing.Some? ==> editing.value !in chain)
  }

  lemma SortedOwnIds(rows: seq<MenuRow>)
    requires DistinctRows(rows)
    ensures OwnIds(Sort(Nodes(rows))) && |Sort(Nodes(rows))| == |rows| && DistinctIds(Sort(Nodes(rows)))
  {
    SortKeepsDistinct(rows);
    var nodes, items := Nodes(rows), Sort(Nodes(rows));
    forall i | 0 <= i < |items|
      ensures items[i].data.id == items[i].id
    {
      assert items[i] in nodes;
    }
  }

  lemma OfferedAvoids(rows: seq<MenuRow>, editing: Option<int>, x: nat, y: nat) returns (chain: seq<int>)
    requires DistinctRows(rows) && x < |rows| && y < |rows|
    requires |Sort(Nodes(rows))| == |rows| && Sort(Nodes(rows))[y] == Nodes(rows)[x]
    requires Offered(Options(MenuTrees(rows), 0, editing), rows[x].id)
    ensures rows[x].menuType != "button" && editing != Some(rows[x].id) &&
            Avoids(Nodes(rows), Nodes(rows)[x].parentId, editing, chain)
  {
    var items := Sort(Nodes(rows));
    SortedOwnIds(rows);
    SortKeepsDistinct(rows);
    chain := OfferedMeans(items, |items|, None, [], 0, editing, y);
    assert chain + [] == chain;
    ChainInBoth(items, Nodes(rows), Nodes(rows)[x].parentId, chain);
  }

  lemma AvoidsOffered(rows: seq<MenuRow>, editing: Option<int>, x: nat, y: nat, chain: seq<int>)
    requires DistinctRows(rows) && x < |rows| && y < |rows|
    requires |Sort(Nodes(rows))| == |rows| && Sort(Nodes(rows))[y] == Nodes(rows)[x]
    requires rows[x].menuType != "button" && editing != Some(rows[x].id) &&
             Avoids(Nodes(rows), Nodes(rows)[x].parentId, editing, chain)
    ensures Offered(Options(MenuTrees(rows), 0, editing), rows[x].id)
  {
    var items := Sort(Nodes(rows));
    SortedOwnIds(rows);
    SortKeepsDistinct(rows);
    ChainInBoth(Nodes(rows), items, Nodes(rows)[x].parentId, chain);
    assert chain + [] == chain;
    assert Through(items, y, chain, []);
    var owner := FindOwner(items, y, chain, []);
    MeansOffered(items, |items|, None, [], 0, editing, y, chain, owner);
  }

  /** Offered, in terms of the list alone: a non-button, other than the edited menu, with a chain
      that avoids the edited menu. */
  lemma OfferedIff(rows: seq<MenuRow>, editing: Option<int>, x: nat)
    requires DistinctRows(rows) && x < |rows|
    ensures Offered(Options(MenuTrees(rows), 0, editing), rows[x].id) <==>
            && rows[x].menuType != "button" && editing != Some(rows[x].id)
            && exists chain :: Avoids(Nodes(rows), Nodes(rows)[x].parentId, editing, chain)
  {
    SortKeepsDistinct(rows);
    assert Nodes(rows)[x] in Sort(Nodes(rows));
    var y :| 0 <= y < |rows| && Sort(Nodes(rows))[y] == Nodes(rows)[x];
    if Offered(Options(MenuTrees(rows), 0, editing), rows[x].id) {
      var chain := OfferedAvoids(rows, editing, x, y);
    }
    if rows[x].menuType != "button" && editing != Some(rows[x].id) {
      if chain :| Avoids(Nodes(rows), Nodes(rows)[x].parentId, editing, chain) {
        AvoidsOffered(rows, editing, x, y, chain);
      }
    }
  }

  /** On the active menus as the edits keep them, a menu that is not the edited one is above or
      below it according to the table. */
  lemma AvoidsIff(table: MenuTable.Rows, id: int, self: int)
    requires MenuTable.ValidRows(table) && MenuTable.Active(table, id) && id != self
    ensures MenuTable.Descends(table, id, self) <==>
            forall chain :: MenuTable.ChainUp(table, table[id].parentId, chain) ==> self in chain
  {
    var whole :| MenuTable.ChainUp(table, Some(id), whole);
    assert whole[0] == id && MenuTable.ChainUp(table, table[id].parentId, whole[1..]);
    if MenuTable.Descends(table, id, self) {
      var c, k: nat :| MenuTable.DescendsBy(table, id, self, c, k);
      forall chain | MenuTable.ChainUp(table, table[id].parentId, chain)
        ensures self in chain
      {
        assert MenuTable.ChainUp(table, table[id].parentId, c[1..]);
        MenuTable.ChainUnique(table, table[id].parentId, c[1..], chain);
        assert c[1..][k - 1] == self;
      }
    }
    if forall chain :: MenuTable.ChainUp(table, table[id].parentId, chain) ==> self in chain {
      assert self in whole[1..];
      var k :| 0 <= k < |whole[1..]| && whole[1..][k] == self;
      assert MenuTable.DescendsBy(table, id, self, whole, k + 1);
    }
  }

  /** The picker offers exactly the parents the server accepts: for an edited menu with its id, for
      a new one with id zero. */
  lemma PickerOffersAcceptedParents(rows: seq<MenuRow>, table: MenuTable.Rows, editing: Option<int>, id: int)
    requires MenuTable.ValidRows(table) && Lists(rows, table)
    requires editing.Some? ==> editing.value > 0
    ensures Offered(Options(MenuTrees(rows), 0, editing), id) <==>
            MenuTable.ParentCheck(table, Some(id), if editing.Some? then editing.value else 0) == None
  {
    hide Options, Offered, MenuTrees, Avoids, Nodes;
    if MenuTable.Active(table, id) {
      var r :| r in rows && r.id == id;
      var x :| 0 <= x < |rows| && rows[x] == r;
      OfferedIff(rows, editing, x);
      ParentListed(rows, table, r);
      if editing != Some(id) {
        ChosenIff(rows, table, editing, x);
      }
    } else {
      NotListedNotOffered(rows, editing, id);
    }
  }

  lemma ChosenIff(rows: seq<MenuRow>, table: MenuTable.Rows, editing: Option<int>, x: nat)
    requires MenuTable.ValidRows(table) && Lists(rows, table) && x < |rows|
    requires editing.Some? ==> rows[x].id != editing.value
    requires Nodes(rows)[x].parentId == table[rows[x].id].parentId
    ensures (exists chain :: Avoids(Nodes(rows), Nodes(rows)[x].parentId, editing, chain)) <==>
            !(editing.Some? && MenuTable.Descends(table, rows[x].id, editing.value))
  {
    var id, parent := rows[x].id, table[rows[x].id].parentId;
    assert MenuTable.Active(table, id);
    var whole :| MenuTable.ChainUp(table, Some(id), whole);
    assert whole[0] == id && MenuTable.ChainUp(table, parent, whole[1..]);
    ChainFromTable(rows, table, parent, whole[1..]);
    if editing.None? {
      assert Avoids(Nodes(rows), parent, editing, whole[1..]);
    } else {
      AvoidsIff(table, id, editing.value);
      if chain :| Avoids(Nodes(rows), parent, editing, chain) {
        ChainToTable(rows, table, parent, chain);
      }
      if !MenuTable.Descends(table, id, editing.value) {
        var chain :| MenuTable.ChainUp(table, parent, chain) && editing.value !in chain;
        ChainFromTable(rows, table, parent, chain);
        assert Avoids(Nodes(rows), parent, editing, chain);
      }
    }
  }

  lemma {:induction false} OptionsAreNodes(items: seq<Node>, k: nat, parent: Option<int>, chain: seq<int>, depth: nat,
      editing: Option<int>, id: int)
    requires DistinctIds(items) && OwnIds(items) && ChainUp(items, parent, chain) && k <= |items|
    requires Offered(Options(TreesUpTo(items, k, parent, chain), depth, editing), id)
    ensures exists x :: 0 <= x < |items| && items[x].id == id
    decreases |items| - |chain|, k
  {
    var node := items[k - 1];
    var before := TreesUpTo(items, k - 1, parent, chain);
    if Offered(Options(before, depth, editing), id) {
      OptionsAreNodes(items, k - 1, parent, chain, depth, editing, id);
    } else {
      ChainGrows(items, parent, chain, node);
      var t := Tree(node, TreesUpTo(items, |items|, Some(node.id), [node.id] + chain));
      OptionsStep(before, t, depth, editing, id);
      if node.id != id {
        OptionsAreNodes(items, |items|, Some(node.id), [node.id] + chain, depth + 1, editing, id);
      }
    }
  }

  lemma NotListedNotOffered(rows: seq<MenuRow>, editing: Option<int>, id: int)
    requires DistinctRows(rows) && !exists r :: r in rows && r.id == id
    ensures !Offered(Options(MenuTrees(rows), 0, editing), id)
  {
    var nodes, items := Nodes(rows), Sort(Nodes(rows));
    SortKeepsDistinct(rows);
    forall i | 0 <= i < |items|
      ensures items[i].data.id == items[i].id && items[i].data in rows
    {
      assert items[i] in nodes;
    }
    assert forall x :: 0 <= x < |items| ==> items[x].id != id;
    if Offered(Options(MenuTrees(rows), 0, editing), id) {
      OptionsAreNodes(items, |items|, None, [], 0, editing, id);
      assert false;
    }
  }

  /** Every active menu is shown exactly once. */
  lemma ActiveMenusShownOnce(rows: seq<MenuRow>, table: MenuTable.Rows)
    requires MenuTable.ValidRows(table) && Lists(rows, table)
    ensures forall x :: 0 <= x < |rows| ==> AllIds(MenuTrees(rows))[rows[x].id] == 1
  {
    MenuTreeHoldsRows(rows);
    forall x | 0 <= x < |rows|
      ensures Reaches(rows, x)
    {
      var r := rows[x];
      ParentListed(rows, table, r);
      assert MenuTable.Active(table, r.id);
      var whole :| MenuTable.ChainUp(table, Some(r.id), whole);
      assert whole[0] == r.id;
      ChainFromTable(rows, table, r.parentId, whole[1..]);
    }
  }
}
