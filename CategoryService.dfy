/** The category repository: the Categories table as a map from key to row.
    A row keeps its own fields and the Ids of its books (its rows of the
    category-book join table; the records themselves live in the Books
    table); its Children are not stored but loaded from the rows whose
    ParentId points at it, to the depth a query includes. */
module CategoryService {
  import opened Wrappers
  import opened Records
  import opened Tables

  /** Name of the category every installation falls back on. */
  const DefaultCategoryName: string := "默认分类"

  /** Row `k` with its children loaded `depth` levels down. */
  function Tree(m: map<int, Category>, all: seq<int>, k: int, depth: nat): (r: Category)
    requires k in m && forall i :: 0 <= i < |all| ==> all[i] in m
    ensures r.id == m[k].id && r.name == m[k].name && r.parentId == m[k].parentId && r.bookIds == m[k].bookIds
    ensures forall c :: c in r.children ==> c.parentId == Some(k)
    ensures depth == 0 ==> r.children == []
    decreases depth, 0
  {
    m[k].(children := if depth == 0 then [] else ChildRows(m, all, |all|, k, depth - 1))
  }

  /** The rows among the first `upto` keys whose ParentId is `parent`, in
      key order, each loaded `depth` levels down. */
  function ChildRows(m: map<int, Category>, all: seq<int>, upto: nat, parent: int, depth: nat): (r: seq<Category>)
    requires upto <= |all| && forall i :: 0 <= i < |all| ==> all[i] in m
    ensures forall c :: c in r ==> c.parentId == Some(parent)
    ensures |r| <= upto
    decreases depth, upto + 1
  {
    if upto == 0 then []
    else
      var k := all[upto - 1];
      ChildRows(m, all, upto - 1, parent, depth)
        + (if m[k].parentId == Some(parent) then [Tree(m, all, k, depth)] else [])
  }

  /** The keys among the first `upto` whose row is a root, in key order. */
  function RootKeys(m: map<int, Category>, all: seq<int>, upto: nat): (r: seq<int>)
    requires upto <= |all| && forall i :: 0 <= i < |all| ==> all[i] in m
    ensures forall k :: k in r <==> k in all[..upto] && m[k].parentId.None?
    ensures Increasing(all) ==> Increasing(r)
  {
    if upto == 0 then []
    else
      assert all[..upto] == all[..upto - 1] + [all[upto - 1]];
      var rest := RootKeys(m, all, upto - 1);
      assert Increasing(all) ==> forall i :: 0 <= i < |rest| ==> rest[i] < all[upto - 1] by {
        if Increasing(all) {
          forall i | 0 <= i < |rest| ensures rest[i] < all[upto - 1] {
            assert rest[i] in all[..upto - 1];
          }
        }
      }
      rest + (if m[all[upto - 1]].parentId.None? then [all[upto - 1]] else [])
  }

  /** The first key, in key order, whose row has the given name. */
  function FirstNamed(m: map<int, Category>, all: seq<int>, name: string): (r: Option<nat>)
    requires forall i :: 0 <= i < |all| ==> all[i] in m
    ensures r.Some? ==> r.value < |all| && m[all[r.value]].name == name
    ensures r.Some? ==> forall i :: 0 <= i < r.value ==> m[all[i]].name != name
    ensures r.None? ==> forall i :: 0 <= i < |all| ==> m[all[i]].name != name
  {
    if all == [] then None
    else if m[all[0]].name == name then Some(0)
    else match FirstNamed(m, all[1..], name)
      case None => None
      case Some(i) => Some(i + 1)
  }

  /** The table's invariant: the key list holds exactly the map's keys in
      ascending order, each key is positive and below the next generated
      key and is its row's Id, and no stored row holds loaded children. */
  ghost predicate Consistent(m: map<int, Category>, keys: seq<int>, nextId: int) {
    && 1 <= nextId
    && Increasing(keys)
    && |keys| == |m|
    && (forall i :: 0 <= i < |keys| ==> keys[i] in m)
    && (forall k :: k in m ==> k in keys)
    && (forall k :: k in m ==> 1 <= k < nextId && m[k].id == k && m[k].children == [])
  }

  /** Removing a key from both the map and the key list keeps them
      consistent. */
  lemma RemovePreserves(m: map<int, Category>, keys: seq<int>, nextId: int, id: int)
    requires Consistent(m, keys, nextId)
    ensures Consistent(m - {id}, RemoveKey(keys, id), nextId)
  {
    var m', keys' := m - {id}, RemoveKey(keys, id);
    if id in m {
      assert m'.Keys == m.Keys - {id};
      assert |m'.Keys| == |m.Keys| - 1;
    } else {
      assert m' == m;
      RemoveAbsent(keys, id);
    }
    assert forall i :: 0 <= i < |keys'| ==> keys'[i] in keys';
  }

  /** The root rows of a consistent table, in key order, each loaded three
      levels down. */
  function Roots(m: map<int, Category>, all: seq<int>): (r: seq<Category>)
    requires forall i :: 0 <= i < |all| ==> all[i] in m
    requires forall k :: k in m ==> k in all && m[k].id == k
    ensures forall c :: c in r ==> c.parentId.None? && c.id in m && c == Tree(m, all, c.id, 3)
    ensures forall k :: k in m && m[k].parentId.None? ==> exists c :: c in r && c.id == k
    ensures Increasing(all) ==> forall a, b :: 0 <= a < b < |r| ==> r[a].id < r[b].id
  {
    var ks := RootKeys(m, all, |all|);
    assert all[..|all|] == all;
    forall i | 0 <= i < |ks| ensures ks[i] in m && m[ks[i]].parentId.None? {
      assert ks[i] in ks;
    }
    var r := seq(|ks|, i requires 0 <= i < |ks| => Tree(m, all, ks[i], 3));
    forall i | 0 <= i < |r| ensures r[i].id == ks[i] && r[i].parentId.None? && r[i] == Tree(m, all, r[i].id, 3) {
    }
    forall k | k in m && m[k].parentId.None?
      ensures exists c :: c in r && c.id == k
    {
      var i :| 0 <= i < |ks| && ks[i] == k;
      assert r[i] in r && r[i].id == k;
    }
    r
  }

  class CategoryStore {
    var categories: map<int, Category>
    /** The keys in ascending order. */
    var keys: seq<int>
    var nextId: int

    ghost predicate Valid()
      reads this
    {
      Consistent(categories, keys, nextId)
    }

    constructor ()
      ensures Valid() && categories == map[] && nextId == 1
    {
      categories := map[];
      keys := [];
      nextId := 1;
    }

    /** Some row carries the default category's name. */
    ghost predicate HasDefault()
      reads this
    {
      exists k :: k in categories && categories[k].name == DefaultCategoryName
    }

    /** GetCategoryByIdAsync: the row with that Id with its direct children
        loaded, or None. */
    function CategoryById(id: int): (r: Option<Category>)
      reads this
      requires Valid()
      ensures r.Some? <==> id in categories
      ensures r.Some? ==> && r.value.id == id
                          && r.value.name == categories[id].name
                          && r.value.parentId == categories[id].parentId
                          && r.value.bookIds == categories[id].bookIds
                          && forall c :: c in r.value.children ==> c.parentId == Some(id)
    {
      if id in categories then Some(Tree(categories, keys, id, 1)) else None
    }

    /** Stores a new row under the next key. */
    method Append(c: Category) returns (stored: Category)
      requires Valid() && c.children == []
      modifies this
      ensures Valid()
      ensures stored == c.(id := old(nextId))
      ensures categories == old(categories)[old(nextId) := stored] && nextId == old(nextId) + 1
      ensures keys == old(keys) + [old(nextId)]
    {
      stored := c.(id := nextId);
      categories := categories[nextId := stored];
      keys := keys + [nextId];
      nextId := nextId + 1;
    }

    /** CreateCategoryAsync: adds exactly one row, with the given name and
        parent and no books, and returns it. */
    method CreateCategory(name: string, parentId: Option<int>) returns (c: Category)
      requires Valid()
      modifies this
      ensures Valid()
      ensures c.id == old(nextId) && c.id !in old(categories)
      ensures c.name == name && c.parentId == parentId && c.bookIds == []
      ensures categories == old(categories)[c.id := c]
      ensures |categories| == |old(categories)| + 1
    {
      c := Append(NewCategory(name, parentId));
    }

    /** UpdateCategoryAsync: None for an unknown Id; otherwise only the name
        of that row changes. */
    method UpdateCategory(id: int, name: string) returns (r: Option<Category>)
      requires Valid()
      modifies this
      ensures Valid() && keys == old(keys) && nextId == old(nextId)
      ensures id !in old(categories) ==> r.None? && categories == old(categories)
      ensures id in old(categories) ==>
                && r == Some(old(categories)[id].(name := name))
                && categories == old(categories)[id := r.value]
    {
      if id !in categories {
        return None;
      }
      var c := categories[id].(name := name);
      categories := categories[id := c];
      r := Some(c);
    }

    /** DeleteCategoryAsync: removes the row with that Id, if any. */
    method DeleteCategory(id: int)
      requires Valid()
      modifies this
      ensures Valid() && nextId == old(nextId)
      ensures categories == old(categories) - {id}
      ensures keys == RemoveKey(old(keys), id)
    {
      RemovePreserves(categories, keys, nextId, id);
      categories := categories - {id};
      keys := RemoveKey(keys, id);
    }

    /** GetRootCategoriesAsync: exactly the rows without a parent, in key
        order, with three levels of children loaded. */
    function RootCategories(): (r: seq<Category>)
      reads this
      requires Valid()
      ensures forall c :: c in r ==> c.parentId.None? && c.id in categories && c == Tree(categories, keys, c.id, 3)
      ensures forall k :: k in categories && categories[k].parentId.None? ==>
                exists c :: c in r && c.id == k
      ensures forall a, b :: 0 <= a < b < |r| ==> r[a].id < r[b].id
    {
      Roots(categories, keys)
    }

    /** GetOrCreateDefaultCategoryAsync: the first row named "默认分类" if
        there is one, and nothing is added; otherwise a new root row with
        that name. */
    method GetOrCreateDefaultCategory() returns (c: Category)
      requires Valid()
      modifies this
      ensures Valid() && HasDefault()
      ensures c.name == DefaultCategoryName && c.id in categories && c == categories[c.id]
      ensures old(HasDefault()) ==> categories == old(categories) && keys == old(keys) && nextId == old(nextId)
      ensures old(HasDefault()) ==>
                var f := FirstNamed(categories, keys, DefaultCategoryName);
                f.Some? && c == categories[keys[f.value]]
      ensures !old(HasDefault()) ==>
                && c.parentId.None? && c.bookIds == [] && c.id !in old(categories)
                && categories == old(categories)[c.id := c]
    {
      match FirstNamed(categories, keys, DefaultCategoryName)
      case Some(i) =>
        c := categories[keys[i]];
      case None =>
        assert !HasDefault() by {
          forall k | k in categories ensures categories[k].name != DefaultCategoryName {
            var i :| 0 <= i < |keys| && keys[i] == k;
          }
        }
        c := Append(NewCategory(DefaultCategoryName, None));
        assert categories[c.id].name == DefaultCategoryName;
    }

    /** UpdateCategoryBooksAsync: ArgumentException for an unknown Id;
        otherwise that row's join rows are cleared and one is added per
        record of `books`, in order. */
    method UpdateCategoryBooks(categoryId: int, books: seq<Book>) returns (r: Result<Category>)
      requires Valid()
      modifies this
      ensures Valid() && keys == old(keys) && nextId == old(nextId)
      ensures categoryId !in old(categories) ==> r == Err(Argument) && categories == old(categories)
      ensures categoryId in old(categories) ==>
                && r.Ok?
                && r.value == old(categories)[categoryId].(bookIds := r.value.bookIds)
                && |r.value.bookIds| == |books|
                && (forall k :: 0 <= k < |books| ==> r.value.bookIds[k] == books[k].id)
                && categories == old(categories)[categoryId := r.value]
    {
      if categoryId !in categories {
        return Err(Argument);
      }
      var list: seq<int> := [];
      for i := 0 to |books|
        invariant |list| == i
        invariant forall k :: 0 <= k < i ==> list[k] == books[k].id
      {
        list := list + [books[i].id];
      }
      var c := categories[categoryId].(bookIds := list);
      categories := categories[categoryId := c];
      r := Ok(c);
    }
  }

  lemma RemoveAbsent(s: seq<int>, x: int)
    requires Increasing(s) && x !in s
    ensures RemoveKey(s, x) == s
  {
    if s != [] {
      assert s == [s[0]] + s[1..];
      RemoveAbsent(s[1..], x);
    }
  }
}
