/** `buscarProducto` (inventario.cpp:288-425): lookup by id, partial
    case-insensitive search on name or code, and listing by supplier. The
    matches, printed by the source, are returned in storage order. */
module ProductQuery {
  import opened Entities
  import opened Text
  import opened Inventory

  /** Menu options 2, 3 and 4; `text` is the filter as typed. */
  datatype Query =
    | ByName(text: string)
    | ByCode(text: string)
    | BySupplier(supplierId: int)

  /** Both sides of a partial match are lower-cased; a supplier id must be equal. */
  ghost predicate Matches(p: Product, q: Query) {
    match q
    case ByName(t) => Contains(Lower(p.name), Lower(t))
    case ByCode(t) => Contains(Lower(p.code), Lower(t))
    case BySupplier(id) => p.supplierId == id
  }

  /** The products matching `q`, in storage order. */
  ghost function Hits(ps: seq<Product>, q: Query): seq<Product>
  {
    if |ps| == 0 then []
    else Hits(ps[..|ps| - 1], q) + (if Matches(ps[|ps| - 1], q) then [ps[|ps| - 1]] else [])
  }

  /** A hit is exactly a stored product that matches, and there are no more
      hits than products. */
  lemma {:induction false} HitsExact(ps: seq<Product>, q: Query)
    ensures |Hits(ps, q)| <= |ps|
    ensures forall p :: p in Hits(ps, q) <==> p in ps && Matches(p, q)
  {
    if |ps| > 0 {
      var init := ps[..|ps| - 1];
      HitsExact(init, q);
      assert ps == init + [ps[|ps| - 1]];
    }
  }

  /** Option 1: the first product with `id`. */
  method LookupById(s: Store, id: int) returns (r: Option<Product>)
    requires s.WellFormed()
    ensures r.None? <==> !HasProduct(s.Products(), id)
    ensures r.Some? ==> exists i :: FirstWithId(s.Products(), id, i) && r.value == s.Products()[i]
  {
    var index := FindProduct(s, id);
    if index == -1 {
      return None;
    }
    return Some(s.products.slots[index]);
  }

  /** Options 2-4: every matching product, in storage order. The typed
      filter is lower-cased once, as the source does before scanning. */
  method Search(s: Store, q: Query) returns (hits: seq<Product>)
    requires s.WellFormed()
    ensures hits == Hits(s.Products(), q)
    ensures forall p :: p in hits <==> p in s.Products() && Matches(p, q)
  {
    var filter := if q.BySupplier? then "" else Lower(q.text);
    hits := [];
    var i := 0;
    while i < s.products.count
      invariant 0 <= i <= s.products.count
      invariant hits == Hits(s.Products()[..i], q)
    {
      var p := s.products.slots[i];
      var keep: bool;
      match q {
        case ByName(_) => keep := FieldContains(p.name, filter);
        case ByCode(_) => keep := FieldContains(p.code, filter);
        case BySupplier(id) => keep := p.supplierId == id;
      }
      assert s.Products()[..i + 1][..i] == s.Products()[..i];
      if keep {
        hits := hits + [p];
      }
      i := i + 1;
    }
    assert s.Products()[..i] == s.Products();
    HitsExact(s.Products(), q);
  }
}
