/** The category tree (knowledgebase/handler.go): a recursion over the whole list for every node.
    It terminates on every list with distinct ids, cycles included, because from a nil parent it
    only ever follows parent chains that end at nil. */
module CategoryTree {
  import opened Wrappers
  import opened ParentTree

  datatype CategoryData = CategoryData(name: string, sortOrder: int, status: string)

  type Category = Item<CategoryData>

  method BuildTree(items: seq<Category>, parent: Option<int>,
      ghost chain: seq<int>) returns (result: seq<Tree<CategoryData>>)
    requires DistinctIds(items) && ChainUp(items, parent, chain)
    ensures result == TreesUpTo(items, |items|, parent, chain)
    decreases |items| - |chain|
  {
    result := [];
    for k := 0 to |items|
      invariant result == TreesUpTo(items, k, parent, chain)
    {
      var item := items[k];
      if (parent.None? && item.parentId.None?) ||
         (parent.Some? && item.parentId.Some? && item.parentId.value == parent.value) {
        ChainGrows(items, parent, chain, item);
        var children := BuildTree(items, Some(item.id), [item.id] + chain);
        result := result + [Tree(item, children)];
      }
    }
  }

  /** Called with a nil parent the builder needs nothing but distinct ids. */
  method TreeCategories(items: seq<Category>) returns (result: seq<Tree<CategoryData>>)
    requires DistinctIds(items)
    ensures result == TreesUpTo(items, |items|, None, [])
  {
    result := BuildTree(items, None, []);
  }

  /** The tree served to the client holds exactly the categories whose parent chain ends at nil,
      each once, and below every node exactly its own children, in input order. */
  lemma CategoriesInTree(items: seq<Category>)
    requires DistinctIds(items)
    ensures forall x :: 0 <= x < |items| ==>
      AllIds(TreesUpTo(items, |items|, None, []))[items[x].id] == if Rooted(items, items[x]) then 1 else 0
    ensures RowsOf(TreesUpTo(items, |items|, None, [])) == Siblings(items, None)
    ensures forall t :: t in TreesUpTo(items, |items|, None, []) ==> Faithful(items, t)
  {
    forall x | 0 <= x < |items|
      ensures AllIds(TreesUpTo(items, |items|, None, []))[items[x].id] == if Rooted(items, items[x]) then 1 else 0
    {
      TreeHoldsRootedOnce(items, x);
    }
    TreeIsFaithful(items);
  }
}
