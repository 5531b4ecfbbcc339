/** The store aggregate `Tienda` (inventario.cpp:62-88), its initialisation,
    the integrity rules that bind products to suppliers, and the linear scans
    that check them. */
module Inventory {
  import opened Entities
  import opened Buffers

  const InitialCapacity: nat := 5
  const FirstId: int := 1
  /** `obtenerNombreProveedor`'s answer for an id no supplier holds. */
  const UnknownSupplierName: string := "Desconocido"

  /** One dynamic array per entity kind and one id counter per kind. */
  datatype Store = Store(
    name: string,
    taxId: string,
    products: Buffer<Product>,
    suppliers: Buffer<Supplier>,
    customers: Buffer<Customer>,
    transactions: Buffer<Transaction>,
    nextProductId: int,
    nextSupplierId: int,
    nextCustomerId: int,
    nextTransactionId: int)
  {
    /** Every array is allocated and its count within its capacity. */
    predicate WellFormed() {
      && products.WellFormed()
      && suppliers.WellFormed()
      && customers.WellFormed()
      && transactions.WellFormed()
    }

    function Products(): seq<Product>
      requires WellFormed()
    {
      products.Live()
    }

    function Suppliers(): seq<Supplier>
      requires WellFormed()
    {
      suppliers.Live()
    }

    function Transactions(): seq<Transaction>
      requires WellFormed()
    {
      transactions.Live()
    }
  }

  // ---------------------------------------------------------------------
  // Rules over a product sequence

  predicate HasProduct(ps: seq<Product>, id: int) {
    exists i :: 0 <= i < |ps| && ps[i].id == id
  }

  /** `i` is where a front-to-back scan for `id` stops. */
  predicate FirstWithId(ps: seq<Product>, id: int, i: int) {
    && 0 <= i < |ps|
    && ps[i].id == id
    && forall j :: 0 <= j < i ==> ps[j].id != id
  }

  /** Some product other than the one whose id is `ignore` holds `code`. */
  predicate CodeTaken(ps: seq<Product>, code: string, ignore: int) {
    exists i :: 0 <= i < |ps| && ps[i].id != ignore && ps[i].code == code
  }

  predicate SupplierRegistered(sups: seq<Supplier>, id: int) {
    exists i :: 0 <= i < |sups| && sups[i].id == id
  }

  predicate ReferencedByTransaction(ts: seq<Transaction>, productId: int) {
    exists i :: 0 <= i < |ts| && ts[i].productId == productId
  }

  /** Ids ascend in storage order: appends take a fresh, larger id and
      deletion keeps the order, so no id occurs twice. */
  ghost predicate IdsIncreasing(ps: seq<Product>) {
    forall i, j :: 0 <= i < j < |ps| ==> ps[i].id < ps[j].id
  }

  /** Every id was issued by the counter: at least 1 and below the next one. */
  ghost predicate IdsIssued(ps: seq<Product>, next: int) {
    forall i :: 0 <= i < |ps| ==> FirstId <= ps[i].id < next
  }

  ghost predicate CodesDistinct(ps: seq<Product>) {
    forall i, j :: 0 <= i < j < |ps| ==> ps[i].code != ps[j].code
  }

  ghost predicate SuppliersKnown(ps: seq<Product>, sups: seq<Supplier>) {
    forall i :: 0 <= i < |ps| ==> SupplierRegistered(sups, ps[i].supplierId)
  }

  ghost predicate ValuesInRange(ps: seq<Product>) {
    forall i :: 0 <= i < |ps| ==> ps[i].price > 0.0 && ps[i].stock >= 0
  }

  /** Identity, uniqueness and referential integrity of the products. */
  ghost predicate Structural(s: Store) {
    && s.WellFormed()
    && s.nextProductId >= FirstId
    && IdsIncreasing(s.Products())
    && IdsIssued(s.Products(), s.nextProductId)
    && CodesDistinct(s.Products())
    && SuppliersKnown(s.Products(), s.Suppliers())
  }

  /** The full store invariant: also every price positive, every stock non-negative. */
  ghost predicate Valid(s: Store) {
    Structural(s) && ValuesInRange(s.Products())
  }

  /** `inicializarTienda`: four empty arrays of capacity 5, every counter at 1. */
  function Init(name: string, taxId: string): (r: Store)
    ensures Valid(r)
    ensures r.Products() == [] && r.Suppliers() == [] && r.Transactions() == []
    ensures r.customers.Live() == []
    ensures r.products.Capacity() == InitialCapacity && r.suppliers.Capacity() == InitialCapacity
    ensures r.customers.Capacity() == InitialCapacity && r.transactions.Capacity() == InitialCapacity
    ensures r.nextProductId == FirstId && r.nextSupplierId == FirstId
    ensures r.nextCustomerId == FirstId && r.nextTransactionId == FirstId
    ensures r.name == name && r.taxId == taxId
  {
    Store(name, taxId,
      Empty(InitialCapacity, BlankProduct),
      Empty(InitialCapacity, BlankSupplier),
      Empty(InitialCapacity, BlankCustomer),
      Empty(InitialCapacity, BlankTransaction),
      FirstId, FirstId, FirstId, FirstId)
  }

  // ---------------------------------------------------------------------
  // The linear scans

  /** `existeProveedor`. */
  method ExistsSupplier(s: Store, id: int) returns (b: bool)
    requires s.WellFormed()
    ensures b <==> SupplierRegistered(s.Suppliers(), id)
  {
    var i := 0;
    while i < s.suppliers.count
      invariant 0 <= i <= s.suppliers.count
      invariant forall j :: 0 <= j < i ==> s.Suppliers()[j].id != id
    {
      if s.suppliers.slots[i].id == id {
        assert s.Suppliers()[i].id == id;
        return true;
      }
      i := i + 1;
    }
    return false;
  }

  /** `codigoProductoDuplicado(code, ignore)`. */
  method IsDuplicateCode(s: Store, code: string, ignore: int) returns (b: bool)
    requires s.WellFormed()
    ensures b <==> CodeTaken(s.Products(), code, ignore)
  {
    var i := 0;
    while i < s.products.count
      invariant 0 <= i <= s.products.count
      invariant forall j :: 0 <= j < i ==> s.Products()[j].id == ignore || s.Products()[j].code != code
    {
      if s.products.slots[i].id != ignore && s.products.slots[i].code == code {
        assert s.Products()[i].id != ignore && s.Products()[i].code == code;
        return true;
      }
      i := i + 1;
    }
    return false;
  }

  /** The scan shared by lookup, update, stock adjustment and delete: the
      index of the first product with `id`, or -1. */
  method FindProduct(s: Store, id: int) returns (index: int)
    requires s.WellFormed()
    ensures index == -1 <==> !HasProduct(s.Products(), id)
    ensures index != -1 ==> FirstWithId(s.Products(), id, index)
  {
    var i := 0;
    while i < s.products.count
      invariant 0 <= i <= s.products.count
      invariant forall j :: 0 <= j < i ==> s.Products()[j].id != id
    {
      if s.products.slots[i].id == id {
        assert s.Products()[i].id == id;
        return i;
      }
      i := i + 1;
    }
    return -1;
  }

  /** The scan behind the delete warning: does any transaction name the product? */
  method HasTransactions(s: Store, productId: int) returns (b: bool)
    requires s.WellFormed()
    ensures b <==> ReferencedByTransaction(s.Transactions(), productId)
  {
    var i := 0;
    while i < s.transactions.count
      invariant 0 <= i <= s.transactions.count
      invariant forall j :: 0 <= j < i ==> s.Transactions()[j].productId != productId
    {
      if s.transactions.slots[i].productId == productId {
        assert s.Transactions()[i].productId == productId;
        return true;
      }
      i := i + 1;
    }
    return false;
  }

  /** `obtenerNombreProveedor`: the name of the first supplier with `id`, or
      "Desconocido". */
  method SupplierName(s: Store, id: int) returns (name: string)
    requires s.WellFormed()
    ensures !SupplierRegistered(s.Suppliers(), id) ==> name == UnknownSupplierName
    ensures forall i :: 0 <= i < |s.Suppliers()| && s.Suppliers()[i].id == id
                        && (forall j :: 0 <= j < i ==> s.Suppliers()[j].id != id)
                        ==> name == s.Suppliers()[i].name
  {
    var i := 0;
    while i < s.suppliers.count
      invariant 0 <= i <= s.suppliers.count
      invariant forall j :: 0 <= j < i ==> s.Suppliers()[j].id != id
    {
      if s.suppliers.slots[i].id == id {
        return s.suppliers.slots[i].name;
      }
      i := i + 1;
    }
    return UnknownSupplierName;
  }

  // ---------------------------------------------------------------------
  // Consequences of the invariant

  /** With ascending ids, the first match is the only match. */
  lemma OnlyMatchIsFirst(ps: seq<Product>, id: int, i: int)
    requires IdsIncreasing(ps)
    requires 0 <= i < |ps| && ps[i].id == id
    ensures FirstWithId(ps, id, i)
    ensures forall j :: 0 <= j < |ps| && j != i ==> ps[j].id != id
  {
  }

  /** Under the invariant, a stored product's own code is held by no other
      product, so an update that keeps its code passes the duplicate check. */
  lemma OwnCodeNotTaken(ps: seq<Product>, i: int)
    requires IdsIncreasing(ps) && CodesDistinct(ps)
    requires 0 <= i < |ps|
    ensures !CodeTaken(ps, ps[i].code, ps[i].id)
  {
  }

  /** The counter's next value is larger than every stored id, so the id a
      create hands out was never held by a product, live or deleted. */
  lemma NextIdIsFresh(s: Store)
    requires Structural(s)
    ensures !HasProduct(s.Products(), s.nextProductId)
  {
  }
}
