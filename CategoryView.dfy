/** ViewModels/CategoryViewModel.cs: the node of the category tree view.
    Each node mirrors one category: it copies the name, starts out of edit
    mode, and builds one child node per child category, recursively. */
module CategoryView {
  import opened Wrappers
  import opened Records

  class CategoryViewModel {
    /** The category the node stands for. */
    var category: Category
    var name: string
    var isEditing: bool
    var children: seq<CategoryViewModel>
    /** This node and every node below it. */
    ghost var repr: set<object>

    /** The nodes form a tree: each child owns its own part of the tree,
        the parts do not overlap, and none holds this node. */
    ghost predicate Valid()
      reads this, repr
      decreases repr
    {
      && this in repr
      && (forall i :: 0 <= i < |children| ==>
            && children[i] in repr
            && children[i].repr <= repr
            && this !in children[i].repr
            && children[i].Valid())
      && (forall i, j :: 0 <= i < j < |children| ==> children[i].repr !! children[j].repr)
    }

    /** The node and the nodes below it copy the category tree `c`: same
        category, same name, not editing, and one child node per child
        category, in order. */
    ghost predicate Mirrors(c: Category)
      reads this, repr
      decreases repr
    {
      && Valid()
      && category == c && name == c.name && !isEditing
      && |children| == |c.children|
      && (forall i :: 0 <= i < |children| ==> children[i].Mirrors(c.children[i]))
    }

    function Id(): int
      reads this
    {
      category.id
    }

    function ParentId(): Option<int>
      reads this
    {
      category.parentId
    }

    /** Builds the node for `c` and, one by one, the nodes for its
        children. */
    constructor (c: Category)
      ensures Mirrors(c) && fresh(repr)
      decreases c
    {
      category := c;
      name := c.name;
      isEditing := false;
      new;
      var kids: seq<CategoryViewModel> := [];
      ghost var below: set<object> := {};
      for i := 0 to |c.children|
        invariant |kids| == i && this !in below && fresh(below)
        invariant forall k :: 0 <= k < i ==> kids[k] in below && kids[k].repr <= below && this !in kids[k].repr
        invariant forall k :: 0 <= k < i ==> kids[k].Mirrors(c.children[k])
        invariant forall k, l :: 0 <= k < l < i ==> kids[k].repr !! kids[l].repr
        invariant category == c && name == c.name && !isEditing
      {
        var child := new CategoryViewModel(c.children[i]);
        kids := kids + [child];
        below := below + child.repr;
      }
      children := kids;
      repr := {this} + below;
    }

    /** Writes the node's current name into its category and returns that
        category; a node whose name was not edited returns its category
        unchanged. */
    method ToModel() returns (r: Category)
      requires Valid()
      modifies this
      ensures name == old(name) && isEditing == old(isEditing) && children == old(children) && repr == old(repr)
      ensures category == old(category).(name := name) && r == category
      ensures old(name) == old(category).name ==> r == old(category)
      ensures Valid()
    {
      category := category.(name := name);
      r := category;
    }
  }

  /** A mirror node reads its Id and ParentId straight from the category,
      and so do its children. */
  lemma MirrorKeys(node: CategoryViewModel, c: Category)
    requires node.Mirrors(c)
    ensures node.Id() == c.id && node.ParentId() == c.parentId
    ensures |node.children| == |c.children|
    ensures forall i :: 0 <= i < |c.children| ==>
              node.children[i].Id() == c.children[i].id && node.children[i].ParentId() == c.children[i].parentId
  {
  }
}
