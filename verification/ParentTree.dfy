/** Trees over a list of items that name their parents. A parent chain is followed upwards until
    it ends at nil; items on a cycle, or below a missing parent, have no such chain. */
module ParentTree {
  import opened Wrappers
  import opened Collections

  datatype Item<T> = Item(id: int, parentId: Option<int>, data: T)

  datatype Tree<T> = Tree(row: Item<T>, children: seq<Tree<T>>)

  ghost predicate DistinctIds<T>(items: seq<Item<T>>) {
    forall i, j :: 0 <= i < j < |items| ==> items[i].id != items[j].id
  }

  // ----- parent chains

  /** chain lists the ids from parent upwards, each an item's, and the last one has no parent. */
  ghost predicate ChainUp<T>(items: seq<Item<T>>, parent: Option<int>, chain: seq<int>)
    decreases |chain|
  {
    if chain == [] then parent == None
    else
      parent == Some(chain[0]) &&
      exists item :: item in items && item.id == chain[0] && ChainUp(items, item.parentId, chain[1..])
  }

  ghost predicate Rooted<T>(items: seq<Item<T>>, item: Item<T>) {
    exists chain :: ChainUp(items, item.parentId, chain)
  }

  lemma ItemById<T>(items: seq<Item<T>>, a: Item<T>, b: Item<T>)
    requires DistinctIds(items) && a in items && b in items && a.id == b.id
    ensures a == b
  {
  }

  lemma {:induction false} ChainUnique<T>(items: seq<Item<T>>, parent: Option<int>, a: seq<int>, b: seq<int>)
    requires DistinctIds(items) && ChainUp(items, parent, a) && ChainUp(items, parent, b)
    ensures a == b
    decreases |a|
  {
    if a != [] {
      var x :| x in items && x.id == a[0] && ChainUp(items, x.parentId, a[1..]);
      var y :| y in items && y.id == b[0] && ChainUp(items, y.parentId, b[1..]);
      ItemById(items, x, y);
      ChainUnique(items, x.parentId, a[1..], b[1..]);
    }
  }

  /** The same chain starts at the same parent. */
  lemma ChainHead<T>(items: seq<Item<T>>, a: Option<int>, b: Option<int>, chain: seq<int>)
    requires ChainUp(items, a, chain) && ChainUp(items, b, chain)
    ensures a == b
  {
  }

  lemma {:induction false} ChainSuffix<T>(items: seq<Item<T>>, parent: Option<int>, chain: seq<int>,
      k: nat) returns (item: Item<T>)
    requires ChainUp(items, parent, chain) && k < |chain|
    ensures item in items && item.id == chain[k] && ChainUp(items, item.parentId, chain[k + 1..])
    decreases k
  {
    item :| item in items && item.id == chain[0] && ChainUp(items, item.parentId, chain[1..]);
    if k > 0 {
      item := ChainSuffix(items, item.parentId, chain[1..], k - 1);
      assert chain[1..][k..] == chain[k + 1..];
    }
  }

  lemma ChainDistinct<T>(items: seq<Item<T>>, parent: Option<int>, chain: seq<int>)
    requires DistinctIds(items) && ChainUp(items, parent, chain)
    ensures Distinct(chain)
  {
    forall i, j | 0 <= i < j < |chain|
      ensures chain[i] != chain[j]
    {
      if chain[i] == chain[j] {
        var x := ChainSuffix(items, parent, chain, i);
        var y := ChainSuffix(items, parent, chain, j);
        ItemById(items, x, y);
        assert |chain[i + 1..]| != |chain[j + 1..]|;
        ChainUnique(items, x.parentId, chain[i + 1..], chain[j + 1..]);
      }
    }
  }

  ghost function IdSet<T>(items: seq<Item<T>>): set<int> {
    set item | item in items :: item.id
  }

  lemma {:induction false} IdSetSize<T>(items: seq<Item<T>>)
    ensures |IdSet(items)| <= |items|
  {
    if items != [] {
      var n := |items| - 1;
      IdSetSize(items[..n]);
      assert items == items[..n] + [items[n]];
      assert IdSet(items) == IdSet(items[..n]) + {items[n].id};
    }
  }

  /** A chain is no longer than the list. */
  lemma ChainFits<T>(items: seq<Item<T>>, parent: Option<int>, chain: seq<int>)
    requires DistinctIds(items) && ChainUp(items, parent, chain)
    ensures |chain| <= |items|
  {
    ChainDistinct(items, parent, chain);
    DistinctCardinality(chain);
    forall id | id in Elems(chain)
      ensures id in IdSet(items)
    {
      var k :| 0 <= k < |chain| && chain[k] == id;
      var x := ChainSuffix(items, parent, chain, k);
    }
    SubsetCardinality(Elems(chain), IdSet(items));
    IdSetSize(items);
  }

  lemma ChainGrows<T>(items: seq<Item<T>>, parent: Option<int>, chain: seq<int>, item: Item<T>)
    requires DistinctIds(items) && ChainUp(items, parent, chain) && item in items && item.parentId == parent
    ensures ChainUp(items, Some(item.id), [item.id] + chain) && |chain| < |items|
  {
    assert ([item.id] + chain)[1..] == chain;
    ChainFits(items, Some(item.id), [item.id] + chain);
  }

  // ----- the trees below a parent

  /** The trees under parent among the first k items; chain leads from parent to nil. */
  function TreesUpTo<T>(items: seq<Item<T>>, k: nat, parent: Option<int>, ghost chain: seq<int>): seq<Tree<T>>
    requires DistinctIds(items) && ChainUp(items, parent, chain) && k <= |items|
    decreases |items| - |chain|, k
  {
    if k == 0 then []
    else
      var before := TreesUpTo(items, k - 1, parent, chain);
      var item := items[k - 1];
      if item.parentId == parent then
        ChainGrows(items, parent, chain, item);
        before + [Tree(item, TreesUpTo(items, |items|, Some(item.id), [item.id] + chain))]
      else before
  }

  // ----- which items are in the tree

  function Ids<T>(t: Tree<T>): multiset<int> {
    multiset{t.row.id} + AllIds(t.children)
  }

  function AllIds<T>(ts: seq<Tree<T>>): multiset<int> {
    if ts == [] then multiset{} else AllIds(ts[..|ts| - 1]) + Ids(ts[|ts| - 1])
  }

  lemma TreesStep<T>(items: seq<Item<T>>, c: nat, parent: Option<int>, chain: seq<int>)
    requires DistinctIds(items) && ChainUp(items, parent, chain) && c < |items|
    ensures items[c].parentId == parent ==> ChainUp(items, Some(items[c].id), [items[c].id] + chain)
    ensures AllIds(TreesUpTo(items, c + 1, parent, chain)) ==
            AllIds(TreesUpTo(items, c, parent, chain)) +
            if items[c].parentId == parent
            then multiset{items[c].id} + AllIds(TreesUpTo(items, |items|, Some(items[c].id), [items[c].id] + chain))
            else multiset{}
  {
    var before, item := TreesUpTo(items, c, parent, chain), items[c];
    if item.parentId == parent {
      ChainGrows(items, parent, chain, item);
      var t := Tree(item, TreesUpTo(items, |items|, Some(item.id), [item.id] + chain));
      assert (before + [t])[..|before|] == before;
      assert Ids(t) == multiset{item.id} + AllIds(t.children);
    }
  }

  /** The item of the subtree, among the children of the chain's top, that x belongs to. */
  ghost predicate Owns<T>(items: seq<Item<T>>, x: nat, pre: seq<int>, c: nat)
    requires x < |items| && c < |items|
  {
    if pre == [] then c == x else items[c].id == pre[|pre| - 1]
  }

  ghost predicate Through<T>(items: seq<Item<T>>, x: nat, pre: seq<int>, chain: seq<int>)
    requires x < |items|
  {
    ChainUp(items, items[x].parentId, pre + chain)
  }

  ghost predicate HangsBelow<T>(items: seq<Item<T>>, x: nat, chain: seq<int>)
    requires x < |items|
  {
    exists pre :: Through(items, x, pre, chain)
  }

  lemma SameIdSameIndex<T>(items: seq<Item<T>>, i: nat, j: nat)
    requires DistinctIds(items) && i < |items| && j < |items|
    ensures items[i].id == items[j].id ==> i == j
  {
  }

  /** What does not hang below a chain is not listed there and does not hang below its extensions. */
  lemma NotBelowExtension<T>(items: seq<Item<T>>, x: nat, chain: seq<int>, id: int)
    requires x < |items| && !HangsBelow(items, x, chain)
    ensures !HangsBelow(items, x, [id] + chain) && !ChainUp(items, items[x].parentId, chain)
  {
    if HangsBelow(items, x, [id] + chain) {
      var pre :| Through(items, x, pre, [id] + chain);
      assert pre + ([id] + chain) == (pre + [id]) + chain;
      assert Through(items, x, pre + [id], chain);
    }
    assert [] + chain == chain;
    assert !Through(items, x, [], chain);
  }

  lemma {:induction false} NotUnder<T>(items: seq<Item<T>>, x: nat, parent: Option<int>, chain: seq<int>, k: nat)
    requires DistinctIds(items) && ChainUp(items, parent, chain) && k <= |items| && x < |items|
    requires !HangsBelow(items, x, chain)
    ensures AllIds(TreesUpTo(items, k, parent, chain))[items[x].id] == 0
    decreases |items| - |chain|, k
  {
    if k > 0 {
      var c := k - 1;
      NotUnder(items, x, parent, chain, c);
      TreesStep(items, c, parent, chain);
      if items[c].parentId == parent {
        ChainGrows(items, parent, chain, items[c]);
        NotBelowExtension(items, x, chain, items[c].id);
        SameIdSameIndex(items, c, x);
        NotUnder(items, x, Some(items[c].id), [items[c].id] + chain, |items|);
      }
    }
  }

  /** Only the owner's subtree can hold x. */
  lemma OnlyOwner<T>(items: seq<Item<T>>, x: nat, pre: seq<int>, chain: seq<int>, c: nat)
    requires DistinctIds(items) && x < |items| && c < |items| && Through(items, x, pre, chain)
    requires pre == [] || pre[|pre| - 1] != items[c].id
    ensures !HangsBelow(items, x, [items[c].id] + chain)
  {
    if HangsBelow(items, x, [items[c].id] + chain) {
      var p :| Through(items, x, p, [items[c].id] + chain);
      ChainUnique(items, items[x].parentId, p + ([items[c].id] + chain), pre + chain);
      LastOfPrefix(p, items[c].id, pre, chain);
    }
  }

  /** x hangs below the chain through pre: it is listed once, in the subtree that owns it. */
  lemma {:induction false} UnderOnce<T>(
      items: seq<Item<T>>, x: nat, pre: seq<int>, parent: Option<int>, chain: seq<int>, k: nat, owner: nat)
    requires DistinctIds(items) && ChainUp(items, parent, chain) && k <= |items| && x < |items| && owner < |items|
    requires Through(items, x, pre, chain) && Owns(items, x, pre, owner)
    ensures AllIds(TreesUpTo(items, k, parent, chain))[items[x].id] == if owner < k then 1 else 0
    decreases |items| - |chain|, k, 1
  {
    if k > 0 {
      var c := k - 1;
      UnderOnce(items, x, pre, parent, chain, c, owner);
      TreesStep(items, c, parent, chain);
      if c == owner {
        InOwner(items, x, pre, parent, chain, c);
      } else if items[c].parentId == parent {
        InOther(items, x, pre, parent, chain, c, owner);
      }
    }
  }

  lemma {:induction false} InOwner<T>(items: seq<Item<T>>, x: nat, pre: seq<int>, parent: Option<int>,
      chain: seq<int>, c: nat)
    requires DistinctIds(items) && ChainUp(items, parent, chain) && x < |items| && c < |items|
    requires Through(items, x, pre, chain) && Owns(items, x, pre, c)
    ensures items[c].parentId == parent && ChainUp(items, Some(items[c].id), [items[c].id] + chain)
    ensures var below := AllIds(TreesUpTo(items, |items|, Some(items[c].id), [items[c].id] + chain));
            (multiset{items[c].id} + below)[items[x].id] == 1
    decreases |items| - |chain|, c + 1, 0
  {
    OwnerIsChild(items, x, pre, parent, chain, c);
    ChainGrows(items, parent, chain, items[c]);
    var longer := [items[c].id] + chain;
    if pre == [] {
      OnlyOwner(items, x, pre, chain, c);
      NotUnder(items, x, Some(items[c].id), longer, |items|);
    } else {
      var shorter := pre[..|pre| - 1];
      assert shorter + longer == pre + chain;
      var next := FindOwner(items, x, shorter, longer);
      UnderOnce(items, x, shorter, Some(items[c].id), longer, |items|, next);
      NotItself(items, x, pre, parent, chain, c);
      SameIdSameIndex(items, c, x);
    }
  }

  lemma InOther<T>(items: seq<Item<T>>, x: nat, pre: seq<int>, parent: Option<int>, chain: seq<int>, c: nat, owner: nat)
    requires DistinctIds(items) && ChainUp(items, parent, chain) && x < |items| && c < |items| && owner < |items| &&
             c != owner
    requires Through(items, x, pre, chain) && Owns(items, x, pre, owner) && items[c].parentId == parent
    ensures ChainUp(items, Some(items[c].id), [items[c].id] + chain)
    ensures var below := AllIds(TreesUpTo(items, |items|, Some(items[c].id), [items[c].id] + chain));
            (multiset{items[c].id} + below)[items[x].id] == 0
  {
    ChainGrows(items, parent, chain, items[c]);
    SameIdSameIndex(items, c, owner);
    SameIdSameIndex(items, c, x);
    OnlyOwner(items, x, pre, chain, c);
    NotUnder(items, x, Some(items[c].id), [items[c].id] + chain, |items|);
    if pre != [] {
      NotItself(items, x, pre, parent, chain, c);
    }
  }

  lemma LastOfPrefix(p: seq<int>, id: int, pre: seq<int>, chain: seq<int>)
    requires p + ([id] + chain) == pre + chain
    ensures pre != [] && pre[|pre| - 1] == id
  {
    assert |pre| == |p| + 1;
    assert (pre + chain)[|p|] == id;
  }

  lemma OwnerIsChild<T>(items: seq<Item<T>>, x: nat, pre: seq<int>, parent: Option<int>, chain: seq<int>, owner: nat)
    requires DistinctIds(items) && ChainUp(items, parent, chain) && x < |items| && owner < |items|
    requires ChainUp(items, items[x].parentId, pre + chain) && Owns(items, x, pre, owner)
    ensures items[owner].parentId == parent
  {
    if pre == [] {
      assert pre + chain == chain;
      ChainHead(items, items[x].parentId, parent, chain);
    } else {
      var n := |pre| - 1;
      var item := ChainSuffix(items, items[x].parentId, pre + chain, n);
      assert (pre + chain)[n + 1..] == chain;
      ItemById(items, item, items[owner]);
      ChainHead(items, item.parentId, parent, chain);
    }
  }

  lemma FindOwner<T>(items: seq<Item<T>>, x: nat, pre: seq<int>, chain: seq<int>) returns (owner: nat)
    requires DistinctIds(items) && x < |items| && ChainUp(items, items[x].parentId, pre + chain)
    ensures owner < |items| && Owns(items, x, pre, owner)
  {
    if pre == [] {
      owner := x;
    } else {
      var item := ChainSuffix(items, items[x].parentId, pre + chain, |pre| - 1);
      owner :| 0 <= owner < |items| && items[owner] == item;
    }
  }

  /** An item strictly below c is not c. */
  lemma NotItself<T>(items: seq<Item<T>>, x: nat, pre: seq<int>, parent: Option<int>, chain: seq<int>, c: nat)
    requires DistinctIds(items) && ChainUp(items, parent, chain) && x < |items| && c < |items| && pre != []
    requires ChainUp(items, items[x].parentId, pre + chain) && items[c].parentId == parent
    ensures c != x
  {
    if c == x {
      assert |pre + chain| > |chain|;
      ChainUnique(items, parent, chain, pre + chain);
    }
  }

  /** The tree holds exactly the items whose parent chain ends at nil, each of them once. */
  lemma TreeHoldsRootedOnce<T>(items: seq<Item<T>>, x: nat)
    requires DistinctIds(items) && x < |items|
    ensures AllIds(TreesUpTo(items, |items|, None, []))[items[x].id] == if Rooted(items, items[x]) then 1 else 0
  {
    if Rooted(items, items[x]) {
      var pre :| ChainUp(items, items[x].parentId, pre);
      assert pre + [] == pre;
      var owner := FindOwner(items, x, pre, []);
      UnderOnce(items, x, pre, None, [], |items|, owner);
    } else {
      forall pre
        ensures !Through(items, x, pre, [])
      {
        assert pre + [] == pre;
      }
      NotUnder(items, x, None, [], |items|);
    }
  }

  // ----- siblings

  function Siblings<T>(items: seq<Item<T>>, parent: Option<int>): seq<Item<T>> {
    if items == [] then []
    else Siblings(items[..|items| - 1], parent) + if items[|items| - 1].parentId == parent then [items[|items| - 1]]
        else []
  }

  function RowsOf<T>(ts: seq<Tree<T>>): (r: seq<Item<T>>)
    ensures |r| == |ts| && forall i :: 0 <= i < |r| ==> r[i] == ts[i].row
  {
    seq(|ts|, i requires 0 <= i < |ts| => ts[i].row)
  }

  /** Below every node sit exactly the items that name it as parent, in input order. */
  ghost predicate Faithful<T>(items: seq<Item<T>>, t: Tree<T>) {
    RowsOf(t.children) == Siblings(items, Some(t.row.id)) &&
    forall i :: 0 <= i < |t.children| ==> Faithful(items, t.children[i])
  }

  lemma {:induction false} SiblingsInOrder<T>(items: seq<Item<T>>, k: nat, parent: Option<int>, chain: seq<int>)
    requires DistinctIds(items) && ChainUp(items, parent, chain) && k <= |items|
    ensures RowsOf(TreesUpTo(items, k, parent, chain)) == Siblings(items[..k], parent)
    ensures forall i :: 0 <= i < |TreesUpTo(items, k, parent, chain)| ==>
            Faithful(items, TreesUpTo(items, k, parent, chain)[i])
    decreases |items| - |chain|, k
  {
    hide ChainUp;
    if k > 0 {
      SiblingsInOrder(items, k - 1, parent, chain);
      assert items[..k][..k - 1] == items[..k - 1];
      var item := items[k - 1];
      if item.parentId == parent {
        ChainGrows(items, parent, chain, item);
        SiblingsInOrder(items, |items|, Some(item.id), [item.id] + chain);
        assert items[..|items|] == items;
      }
    }
  }

  /** At the top sit the items without a parent, in input order, and every subtree is faithful. */
  lemma TreeIsFaithful<T>(items: seq<Item<T>>)
    requires DistinctIds(items)
    ensures var ts := TreesUpTo(items, |items|, None, []);
            RowsOf(ts) == Siblings(items, None) && forall i :: 0 <= i < |ts| ==> Faithful(items, ts[i])
  {
    SiblingsInOrder(items, |items|, None, []);
    assert items[..|items|] == items;
  }

  /** The trees below a parent, given their roots: each root over the trees below it. */
  lemma {:induction false} TreesShape<T>(items: seq<Item<T>>, k: nat, parent: Option<int>, chain: seq<int>)
    requires DistinctIds(items) && ChainUp(items, parent, chain) && k <= |items|
    ensures var ts, roots := TreesUpTo(items, k, parent, chain), Siblings(items[..k], parent);
            && |ts| == |roots|
            && forall i :: 0 <= i < |ts| ==>
                 ts[i].row == roots[i] && ChainUp(items, Some(roots[i].id), [roots[i].id] + chain) &&
                 ts[i].children == TreesUpTo(items, |items|, Some(roots[i].id), [roots[i].id] + chain)
    decreases k
  {
    if k > 0 {
      TreesShape(items, k - 1, parent, chain);
      assert items[..k][..k - 1] == items[..k - 1];
      if items[k - 1].parentId == parent {
        ChainGrows(items, parent, chain, items[k - 1]);
      }
    }
  }
}
