/**
 * The product list kept in the JSON data file, and the two handlers that
 * rewrite it: `update` replaces the edited product's fields with the form's,
 * `destroy` keeps every product but the one deleted.
 */
module ProductFile {
  import opened Text

  /** A product as the data file stores it; `category` is the category id the form sent. */
  datatype Record = Record(
    id: int,
    name: string,
    price: int,
    description: string,
    discount: int,
    category: string,
    image: string)

  /** The edit form's fields, with price and discount already read as numbers. */
  datatype Form = Form(name: string, price: int, discount: int, description: string, category: string)

  /**
   * The edited product: the id and the image are kept, the rest comes from the
   * form; name and description lose their surrounding white space and so
   * neither starts nor ends with white space.
   */
  function Updated(product: Record, form: Form): (r: Record)
    ensures r.id == product.id && r.image == product.image
    ensures r.price == form.price && r.discount == form.discount && r.category == form.category
    ensures TrimmedOf(r.name, form.name) && TrimmedOf(r.description, form.description)
  {
    Record(product.id, Trim(form.name), form.price, Trim(form.description), form.discount, form.category, product.image)
  }

  /** What the edit does to one product of the list: the one with the id is edited, any other is kept. */
  function Edit(p: Record, id: int, form: Form): Record {
    if p.id == id then Updated(p, form) else p
  }

  /** Every product with the given id is replaced by its edited form; every other product is kept, in place. */
  function Update(ps: seq<Record>, id: int, form: Form): (r: seq<Record>)
    ensures |r| == |ps|
    ensures forall i :: 0 <= i < |ps| ==> r[i] == Edit(ps[i], id, form)
    decreases |ps|
  {
    if ps == [] then []
    else
      var rest := Update(ps[1..], id, form);
      var r := [Edit(ps[0], id, form)] + rest;
      assert forall i :: 1 <= i < |ps| ==> r[i] == rest[i - 1] && ps[i] == ps[1..][i - 1];
      r
  }

  /** The products whose id is not the given one, in their order. */
  function Destroy(ps: seq<Record>, id: int): (r: seq<Record>)
    ensures |r| <= |ps|
    decreases |ps|
  {
    if ps == [] then [] else (if ps[0].id != id then [ps[0]] else []) + Destroy(ps[1..], id)
  }

  predicate HasId(ps: seq<Record>, id: int) {
    exists i :: 0 <= i < |ps| && ps[i].id == id
  }

  function Ids(ps: seq<Record>): (r: seq<int>)
    ensures |r| == |ps| && forall i :: 0 <= i < |ps| ==> r[i] == ps[i].id
  {
    seq(|ps|, i requires 0 <= i < |ps| => ps[i].id)
  }

  // ---------------------------------------------------------------------------
  // Properties of update
  // ---------------------------------------------------------------------------

  /** Updating an id no product has leaves the list as it was. */
  lemma UpdateAbsent(ps: seq<Record>, id: int, form: Form)
    requires !HasId(ps, id)
    ensures Update(ps, id, form) == ps
  {
  }

  /** Update never adds, removes or reorders products: the ids stay as they were. */
  lemma UpdateKeepsIds(ps: seq<Record>, id: int, form: Form)
    ensures Ids(Update(ps, id, form)) == Ids(ps)
  {
  }

  /** Submitting the same form twice gives the same list as submitting it once. */
  lemma UpdateIdempotent(ps: seq<Record>, id: int, form: Form)
    ensures Update(Update(ps, id, form), id, form) == Update(ps, id, form)
  {
    var once := Update(ps, id, form);
    forall i | 0 <= i < |ps| && ps[i].id == id
      ensures Updated(once[i], form) == once[i]
    {
      TrimIdempotent(form.name);
      TrimIdempotent(form.description);
    }
  }

  // ---------------------------------------------------------------------------
  // Properties of destroy
  // ---------------------------------------------------------------------------

  /** A product survives the deletion exactly when it was in the list and has another id. */
  lemma {:induction false} DestroyMembers(ps: seq<Record>, id: int)
    ensures forall p :: p in Destroy(ps, id) <==> p in ps && p.id != id
    decreases |ps|
  {
    if ps != [] {
      DestroyMembers(ps[1..], id);
      assert forall p :: p in ps <==> p == ps[0] || p in ps[1..];
    }
  }

  /** After the deletion no product has the deleted id. */
  lemma DestroyRemovesId(ps: seq<Record>, id: int)
    ensures !HasId(Destroy(ps, id), id)
  {
    var r := Destroy(ps, id);
    DestroyMembers(ps, id);
    assert forall i :: 0 <= i < |r| ==> r[i] in r;
  }

  /** Deleting from `a + b` deletes from each part, keeping the order. */
  lemma {:induction false} DestroyAppend(a: seq<Record>, b: seq<Record>, id: int)
    ensures Destroy(a + b, id) == Destroy(a, id) + Destroy(b, id)
    decreases |a|
  {
    if a == [] {
      assert a + b == b;
    } else {
      var head := if a[0].id != id then [a[0]] else [];
      assert (a + b)[0] == a[0] && (a + b)[1..] == a[1..] + b;
      assert Destroy(a + b, id) == head + Destroy(a[1..] + b, id);
      DestroyAppend(a[1..], b, id);
      assert Destroy(a, id) == head + Destroy(a[1..], id);
    }
  }

  /** Deleting an id no product has leaves the list as it was. */
  lemma {:induction false} DestroyAbsent(ps: seq<Record>, id: int)
    requires !HasId(ps, id)
    ensures Destroy(ps, id) == ps
    decreases |ps|
  {
    if ps != [] {
      assert !HasId(ps[1..], id) by {
        assert forall i :: 0 <= i < |ps| - 1 ==> ps[1..][i] == ps[i + 1];
      }
      DestroyAbsent(ps[1..], id);
    }
  }

  /** Deleting twice is deleting once. */
  lemma DestroyIdempotent(ps: seq<Record>, id: int)
    ensures Destroy(Destroy(ps, id), id) == Destroy(ps, id)
  {
    var r := Destroy(ps, id);
    DestroyMembers(ps, id);
    assert forall i :: 0 <= i < |r| ==> r[i] in r;
    DestroyAbsent(r, id);
  }

  /** Deleting removes exactly the products with that id: one product fewer for each. */
  lemma {:induction false} DestroyCount(ps: seq<Record>, id: int)
    ensures |Destroy(ps, id)| == |ps| - |IdMatches(ps, id)|
    decreases |ps|
  {
    if ps != [] {
      DestroyCount(ps[1..], id);
    }
  }

  /** Deleting a product after editing it is the same as deleting it unedited. */
  lemma {:induction false} DestroyAfterUpdate(ps: seq<Record>, id: int, form: Form)
    ensures Destroy(Update(ps, id, form), id) == Destroy(ps, id)
    decreases |ps|
  {
    if ps != [] {
      DestroyAfterUpdate(ps[1..], id, form);
      assert Update(ps, id, form)[1..] == Update(ps[1..], id, form);
    }
  }

  /** The products that have the given id, in their order. */
  function IdMatches(ps: seq<Record>, id: int): seq<Record>
    decreases |ps|
  {
    if ps == [] then [] else (if ps[0].id == id then [ps[0]] else []) + IdMatches(ps[1..], id)
  }
}
