/**
 * The product catalog as the listing sees it: products joined with their
 * category, the where clause of the listing query, and the page of rows the
 * store returns for a limit and an offset.
 */
module Catalog {
  import opened Options
  import opened Text

  datatype Category = Category(id: int, name: string)

  /** A product row with its joined category (absent when the product has none) and its image files. */
  datatype Product = Product(
    id: int,
    name: string,
    price: int,
    discount: int,
    description: string,
    category: Option<Category>,
    images: seq<string>)

  /** The category's name contains `search`; a product without a category never matches this way. */
  predicate CategoryContains(p: Product, search: string) {
    p.category.Some? && Contains(p.category.value.name, search)
  }

  /**
   * The where clause of the listing: the name, the description or the
   * category's name contains `search`, and the discount is at least `sale`.
   */
  predicate Matches(p: Product, search: string, sale: int) {
    && (Contains(p.name, search) || Contains(p.description, search) || CategoryContains(p, search))
    && p.discount >= sale
  }

  /** The rows the listing query selects, in the order the store returns them. */
  function Search(ps: seq<Product>, search: string, sale: int): (r: seq<Product>)
    ensures |r| <= |ps|
    decreases |ps|
  {
    if ps == [] then [] else (if Matches(ps[0], search, sale) then [ps[0]] else []) + Search(ps[1..], search, sale)
  }

  /** A product is selected exactly when it is in the catalog and matches the where clause. */
  lemma {:induction false} SearchMembers(ps: seq<Product>, search: string, sale: int)
    ensures forall p :: p in Search(ps, search, sale) <==> p in ps && Matches(p, search, sale)
    decreases |ps|
  {
    if ps != [] {
      SearchMembers(ps[1..], search, sale);
      assert forall p :: p in ps <==> p == ps[0] || p in ps[1..];
    }
  }

  /** Reference definition: the rows whose discount reaches the floor, ignoring the text search. */
  function AtLeastDiscount(ps: seq<Product>, sale: int): seq<Product>
    decreases |ps|
  {
    if ps == [] then []
    else (if ps[0].discount >= sale then [ps[0]] else []) + AtLeastDiscount(ps[1..], sale)
  }

  /** Filtering keeps the relative order: the rows selected from `a + b` are those from `a`, then those from `b`. */
  lemma {:induction false} SearchAppend(a: seq<Product>, b: seq<Product>, search: string, sale: int)
    ensures Search(a + b, search, sale) == Search(a, search, sale) + Search(b, search, sale)
    decreases |a|
  {
    if a == [] {
      assert a + b == b;
    } else {
      var head := if Matches(a[0], search, sale) then [a[0]] else [];
      assert (a + b)[0] == a[0] && (a + b)[1..] == a[1..] + b;
      assert Search(a + b, search, sale) == head + Search(a[1..] + b, search, sale);
      SearchAppend(a[1..], b, search, sale);
      assert Search(a, search, sale) == head + Search(a[1..], search, sale);
    }
  }

  /** The empty search is a no-op: only the discount floor selects. */
  lemma EmptySearchMatches(p: Product, sale: int)
    ensures Matches(p, "", sale) <==> p.discount >= sale
  {
  }

  /** With the empty search the listing selects exactly the rows at or above the discount floor. */
  lemma {:induction false} EmptySearchIsDiscountFloor(ps: seq<Product>, sale: int)
    ensures Search(ps, "", sale) == AtLeastDiscount(ps, sale)
    decreases |ps|
  {
    if ps != [] {
      EmptySearchIsDiscountFloor(ps[1..], sale);
      EmptySearchMatches(ps[0], sale);
    }
  }

  // ---------------------------------------------------------------------------
  // Pages of rows (LIMIT and OFFSET)
  // ---------------------------------------------------------------------------

  function Min(a: int, b: int): int {
    if a <= b then a else b
  }

  /** At most `limit` rows of `rows`, starting at position `offset`. */
  function Window<T>(rows: seq<T>, offset: int, limit: int): (r: seq<T>)
    requires 0 <= offset && 0 <= limit
    ensures |r| == if offset >= |rows| then 0 else Min(limit, |rows| - offset)
    ensures forall k :: 0 <= k < |r| ==> r[k] == rows[offset + k]
  {
    if offset >= |rows| then [] else rows[offset..Min(offset + limit, |rows|)]
  }

  /** Two consecutive pages neither overlap nor leave a gap: together they are the double page. */
  lemma ConsecutivePages<T>(rows: seq<T>, offset: int, limit: int)
    requires 0 <= offset && 0 <= limit
    ensures Window(rows, offset, limit) + Window(rows, offset + limit, limit) == Window(rows, offset, 2 * limit)
  {
    var a, b, c := Window(rows, offset, limit), Window(rows, offset + limit, limit), Window(rows, offset, 2 * limit);
    assert |a + b| == |c|;
    forall k | 0 <= k < |c| ensures (a + b)[k] == c[k] {
      if k >= |a| {
        assert |a| == limit;
        assert (a + b)[k] == b[k - limit];
      }
    }
  }
}
