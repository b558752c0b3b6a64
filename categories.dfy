/** The category map `categories_list`, built by a loop over the categories
    fetched in id order. */
module Categories {
  import opened Model

  /** The ids of `cats`. */
  function Ids(cats: seq<Category>): (ids: set<int>)
    ensures forall c :: c in cats ==> c.id in ids
    ensures forall k :: k in ids ==> exists c :: c in cats && c.id == k
  {
    set c | c in cats :: c.id
  }

  /** Category ids strictly increase along `cats`, as `order_by(Category.id)`
      over a primary key returns them. */
  predicate CategoryIdsIncreasing(cats: seq<Category>)
  {
    forall i, j :: 0 <= i < j < |cats| ==> cats[i].id < cats[j].id
  }

  /** The map the loop leaves once it has assigned `m[c.id] := c.kind` for
      every category of `cats`, in order. */
  function CategoryMap(cats: seq<Category>): (m: map<int, string>)
    ensures m.Keys == Ids(cats)
  {
    if cats == [] then map[]
    else
      var init := cats[..|cats| - 1];
      var last := cats[|cats| - 1];
      assert cats == init + [last];
      CategoryMap(init)[last.id := last.kind]
  }

  /** Each category is mapped to its own type label unless a later category
      carries the same id (the later assignment wins). */
  lemma {:induction false} CategoryMapLastWins(cats: seq<Category>, i: int)
    requires 0 <= i < |cats|
    requires forall j :: i < j < |cats| ==> cats[j].id != cats[i].id
    ensures cats[i].id in CategoryMap(cats)
    ensures CategoryMap(cats)[cats[i].id] == cats[i].kind
  {
    if i < |cats| - 1 {
      var init := cats[..|cats| - 1];
      assert init[i] == cats[i];
      CategoryMapLastWins(init, i);
    }
  }

  /** With ids in increasing order every category is mapped to its type. */
  lemma CategoryMapOfOrdered(cats: seq<Category>)
    requires CategoryIdsIncreasing(cats)
    ensures forall c :: c in cats ==> c.id in CategoryMap(cats) && CategoryMap(cats)[c.id] == c.kind
  {
    forall c | c in cats
      ensures c.id in CategoryMap(cats) && CategoryMap(cats)[c.id] == c.kind
    {
      var i :| 0 <= i < |cats| && cats[i] == c;
      CategoryMapLastWins(cats, i);
    }
  }

  /** The loop of `get_categories` and of the question listing. */
  method BuildCategoryMap(cats: seq<Category>) returns (m: map<int, string>)
    ensures m == CategoryMap(cats)
    ensures m.Keys == Ids(cats)
  {
    m := map[];
    var i := 0;
    while i < |cats|
      invariant 0 <= i <= |cats|
      invariant m == CategoryMap(cats[..i])
    {
      assert cats[..i + 1][..i] == cats[..i];
      m := m[cats[i].id := cats[i].kind];
      i := i + 1;
    }
    assert cats[..|cats|] == cats;
  }
}
