/** `get_categories_structured`: the flat category list of the service desk
    turned into a tree of roots and children. */
module ServerCategories {
  import opened Common
  import opened ServerIds

  /** A JSON field that may be absent, null, or hold a value. */
  datatype Field<T> = Absent | JsonNull | Present(v: T)

  /** One category as the API lists it. `parentId` is `None` when the
      field is absent or null. */
  datatype RawCategory = RawCategory(id: Option<JsonId>, name: Field<string>, parentId: Option<JsonId>)

  /** The dict built for a category. Children are named by their id; in
      the source they are the children's own dicts. */
  datatype Node = Node(id: JsonId, name: Option<string>, parentId: Option<JsonId>, children: seq<JsonId>)

  /** What the tool reports: the category map in key order, the roots, and
      the two counts. */
  datatype Hierarchy = Hierarchy(
    order: seq<JsonId>,
    nodes: map<JsonId, Node>,
    roots: seq<JsonId>,
    totalCount: nat,
    rootCount: nat)

  /** `category.get("name", "Unknown")`: a null name stays null. */
  function NameOf(name: Field<string>): Option<string> {
    match name
    case Absent => Some("Unknown")
    case JsonNull => None
    case Present(s) => Some(s)
  }

  /** The fresh dict for a category with an id. */
  function NodeOf(c: RawCategory): Node
    requires c.id.Some?
  {
    Node(c.id.value, NameOf(c.name), c.parentId, [])
  }

  /** A category the map keeps: it has a truthy id. */
  predicate Kept(c: RawCategory) { TruthyField(c.id) }

  /** The keys of `category_map` in dict order: each kept id at its first
      occurrence (a later duplicate replaces the value, not the position). */
  function KeyOrder(cs: seq<RawCategory>): (ks: seq<JsonId>)
    decreases |cs|
  {
    if |cs| == 0 then []
    else
      var init := KeyOrder(cs[..|cs| - 1]);
      var c := cs[|cs| - 1];
      if Kept(c) && c.id.value !in init then init + [c.id.value] else init
  }

  /** `category_map` after the first loop: each kept id maps to the dict of
      its last category. */
  function NodeMap(cs: seq<RawCategory>): (m: map<JsonId, Node>)
    ensures forall k :: k in m ==> Truthy(k) && m[k].id == k && m[k].children == []
    decreases |cs|
  {
    if |cs| == 0 then map[]
    else
      var m := NodeMap(cs[..|cs| - 1]);
      var c := cs[|cs| - 1];
      if Kept(c) then m[c.id.value := NodeOf(c)] else m
  }

  /** The ids among `ks` whose category has a falsy parent id, in order. */
  function RootsOf(ks: seq<JsonId>, m: map<JsonId, Node>): (r: seq<JsonId>)
    decreases |ks|
  {
    if |ks| == 0 then []
    else
      var k := ks[|ks| - 1];
      RootsOf(ks[..|ks| - 1], m) + (if k in m && !TruthyField(m[k].parentId) then [k] else [])
  }

  /** The ids among `ks` whose category names `p` as its parent, in order. */
  function ChildrenOf(ks: seq<JsonId>, m: map<JsonId, Node>, p: JsonId): (r: seq<JsonId>)
    decreases |ks|
  {
    if |ks| == 0 then []
    else
      var k := ks[|ks| - 1];
      ChildrenOf(ks[..|ks| - 1], m, p) + (if k in m && m[k].parentId == Some(p) then [k] else [])
  }

  /** The tree as a function of the response: every map entry with the
      children that name it as parent, the roots, and the counts. */
  function Structure(cs: seq<RawCategory>): Hierarchy {
    var ks := KeyOrder(cs);
    var m := NodeMap(cs);
    var tree := map k | k in m :: m[k].(children := ChildrenOf(ks, m, k));
    var roots := RootsOf(ks, m);
    Hierarchy(ks, tree, roots, |cs|, |roots|)
  }

  /** `get_categories_structured` after the API call: the map, then the
      links. */
  method BuildHierarchy(response: seq<RawCategory>) returns (h: Hierarchy)
    ensures h == Structure(response)
  {
    var order, categoryMap := IndexCategories(response);
    var tree, roots := LinkCategories(order, categoryMap);
    h := Hierarchy(order, tree, roots, |response|, |roots|);
  }

  /** The first loop: one dict per category with a truthy id. */
  method IndexCategories(response: seq<RawCategory>) returns (order: seq<JsonId>, categoryMap: map<JsonId, Node>)
    ensures order == KeyOrder(response) && categoryMap == NodeMap(response)
    ensures forall k :: k in order <==> k in categoryMap
  {
    order := [];
    categoryMap := map[];
    for i := 0 to |response|
      invariant order == KeyOrder(response[..i])
      invariant categoryMap == NodeMap(response[..i])
    {
      var category := response[i];
      assert response[..i + 1][..i] == response[..i];
      if TruthyField(category.id) {
        var catId := category.id.value;
        if catId !in order {
          order := order + [catId];
        }
        categoryMap := categoryMap[catId := Node(catId, NameOf(category.name), category.parentId, [])];
      }
    }
    assert response[..|response|] == response;
    KeyOrderIsMapKeys(response);
  }

  /** The second loop, over the map in key order: a category with a falsy
      parent id becomes a root; one whose parent is in the map is appended
      to the parent's children; any other is dropped. */
  method LinkCategories(order: seq<JsonId>, categoryMap: map<JsonId, Node>)
    returns (tree: map<JsonId, Node>, roots: seq<JsonId>)
    requires forall k :: k in order ==> k in categoryMap
    requires forall k :: k in categoryMap ==> Truthy(k) && categoryMap[k].children == []
    ensures tree == map q | q in categoryMap :: categoryMap[q].(children := ChildrenOf(order, categoryMap, q))
    ensures roots == RootsOf(order, categoryMap)
  {
    tree := categoryMap;
    roots := [];
    for j := 0 to |order|
      invariant tree.Keys == categoryMap.Keys
      invariant forall q :: q in tree ==>
        tree[q] == categoryMap[q].(children := ChildrenOf(order[..j], categoryMap, q))
      invariant roots == RootsOf(order[..j], categoryMap)
    {
      var catId := order[j];
      var parentId := categoryMap[catId].parentId;
      RootsStep(order, categoryMap, j);
      ghost var prev := tree;
      if !TruthyField(parentId) {
        roots := roots + [catId];
      } else if parentId.value in tree {
        var p := parentId.value;
        tree := tree[p := tree[p].(children := tree[p].children + [catId])];
      }
      forall q | q in tree
        ensures tree[q] == categoryMap[q].(children := ChildrenOf(order[..j + 1], categoryMap, q))
      {
        ChildrenStep(order, categoryMap, j, q);
        if parentId == Some(q) {
          assert tree[q].children == prev[q].children + [catId];
        } else {
          assert tree[q] == prev[q];
        }
      }
    }
    assert order[..|order|] == order;
  }

  lemma RootsStep(ks: seq<JsonId>, m: map<JsonId, Node>, j: nat)
    requires j < |ks|
    ensures RootsOf(ks[..j + 1], m) ==
      RootsOf(ks[..j], m) + (if ks[j] in m && !TruthyField(m[ks[j]].parentId) then [ks[j]] else [])
  {
    assert ks[..j + 1][..j] == ks[..j];
  }

  lemma ChildrenStep(ks: seq<JsonId>, m: map<JsonId, Node>, j: nat, p: JsonId)
    requires j < |ks|
    ensures ChildrenOf(ks[..j + 1], m, p) ==
      ChildrenOf(ks[..j], m, p) + (if ks[j] in m && m[ks[j]].parentId == Some(p) then [ks[j]] else [])
  {
    assert ks[..j + 1][..j] == ks[..j];
  }

  /** The key order lists each key of the map exactly once. */
  lemma {:induction false} KeyOrderIsMapKeys(cs: seq<RawCategory>)
    ensures forall k :: k in KeyOrder(cs) <==> k in NodeMap(cs)
    ensures forall i, j :: 0 <= i < j < |KeyOrder(cs)| ==> KeyOrder(cs)[i] != KeyOrder(cs)[j]
    decreases |cs|
  {
    if |cs| > 0 {
      KeyOrderIsMapKeys(cs[..|cs| - 1]);
    }
  }

  /** A category is in the map exactly when some listed category has that
      truthy id. */
  lemma {:induction false} MapKeys(cs: seq<RawCategory>, k: JsonId)
    ensures k in NodeMap(cs) <==> exists i :: 0 <= i < |cs| && cs[i].id == Some(k) && Truthy(k)
    decreases |cs|
  {
    if |cs| > 0 {
      var init := cs[..|cs| - 1];
      MapKeys(init, k);
      if k in NodeMap(init) {
        var i :| 0 <= i < |init| && init[i].id == Some(k) && Truthy(k);
        assert cs[i] == init[i];
      }
      if exists i :: 0 <= i < |cs| && cs[i].id == Some(k) && Truthy(k) {
        var i :| 0 <= i < |cs| && cs[i].id == Some(k) && Truthy(k);
        if i < |init| {
          assert init[i] == cs[i];
        }
      }
    }
  }

  /** Later duplicates overwrite earlier ones: an id maps to the dict of
      the last category listed with it. */
  lemma {:induction false} LastDuplicateWins(cs: seq<RawCategory>, i: nat)
    requires i < |cs| && Kept(cs[i])
    requires forall j :: i < j < |cs| ==> cs[j].id != cs[i].id
    ensures cs[i].id.value in NodeMap(cs)
    ensures NodeMap(cs)[cs[i].id.value] == NodeOf(cs[i])
    decreases |cs|
  {
    if i < |cs| - 1 {
      var init := cs[..|cs| - 1];
      assert init[i] == cs[i];
      LastDuplicateWins(init, i);
    }
  }

  /** An id is among the roots exactly when it is a map key whose category
      has a falsy parent id. */
  lemma {:induction false} RootsMembers(ks: seq<JsonId>, m: map<JsonId, Node>, k: JsonId)
    ensures k in RootsOf(ks, m) <==> k in ks && k in m && !TruthyField(m[k].parentId)
    decreases |ks|
  {
    if |ks| > 0 {
      RootsMembers(ks[..|ks| - 1], m, k);
      assert ks == ks[..|ks| - 1] + [ks[|ks| - 1]];
    }
  }

  /** An id is among the children of `p` exactly when it is a map key
      whose category names `p` as parent. */
  lemma {:induction false} ChildrenMembers(ks: seq<JsonId>, m: map<JsonId, Node>, p: JsonId, k: JsonId)
    ensures k in ChildrenOf(ks, m, p) <==> k in ks && k in m && m[k].parentId == Some(p)
    decreases |ks|
  {
    if |ks| > 0 {
      ChildrenMembers(ks[..|ks| - 1], m, p, k);
      assert ks == ks[..|ks| - 1] + [ks[|ks| - 1]];
    }
  }

  /** Every category in the map lands in exactly one place: among the
      roots when its parent id is falsy, under its parent when the parent
      is in the map, and nowhere when the parent is missing. */
  lemma Placement(cs: seq<RawCategory>, k: JsonId)
    requires k in NodeMap(cs)
    ensures var h := Structure(cs); var parent := h.nodes[k].parentId;
      && (k in h.roots <==> !TruthyField(parent))
      && (forall q :: q in h.nodes ==> (k in h.nodes[q].children <==> parent == Some(q)))
  {
    var ks := KeyOrder(cs);
    var m := NodeMap(cs);
    KeyOrderIsMapKeys(cs);
    RootsMembers(ks, m, k);
    forall q | q in m
      ensures k in ChildrenOf(ks, m, q) <==> m[k].parentId == Some(q)
    {
      ChildrenMembers(ks, m, q, k);
    }
  }

  /** `total_count` counts every listed category, kept or not, and
      `root_count` is the number of roots. */
  lemma Counts(cs: seq<RawCategory>)
    ensures Structure(cs).totalCount == |cs|
    ensures Structure(cs).rootCount == |Structure(cs).roots|
  {
  }
}
