/** `crearProducto` (inventario.cpp:190-285): validate the entered fields in
    order, then on confirmation grow the array if full, take the next id and
    append. */
module ProductCreate {
  import opened Entities
  import opened Buffers
  import opened Text
  import opened Inventory

  /** Everything the console would read, in prompt order. */
  datatype ProductForm = ProductForm(
    start: string,          // "register a new product? (S/N)"
    code: string,
    name: string,
    description: string,
    supplierId: int,
    price: real,
    stock: int,
    date: string,           // the current date, supplied by the caller
    confirmation: string)   // "save product? (S/N)"

  datatype CreateOutcome =
    | Declined              // the opening question was not answered yes
    | Cancelled             // a cancel token was entered
    | DuplicateCode
    | UnknownSupplier
    | InvalidPrice
    | InvalidStock
    | NotSaved              // the closing question was not answered yes
    | Created(id: int)

  /** The text fields accept "CANCELAR" or "0" to abandon the form. */
  predicate IsCancelToken(t: string) {
    t == "CANCELAR" || t == "0"
  }

  /** The form got past the opening question, the code, name and
      description prompts and the supplier prompt without a refusal or a
      cancel: the supplier existence check is the next one to run. */
  predicate FieldsEntered(s: Store, f: ProductForm)
    requires s.WellFormed()
  {
    && Affirmative(f.start)
    && !IsCancelToken(f.code)
    && !CodeTaken(s.Products(), f.code, -1)
    && !IsCancelToken(f.name)
    && !IsCancelToken(f.description)
    && f.supplierId != 0
  }

  /** Every check of the form passes and both questions are answered yes. */
  predicate Admissible(s: Store, f: ProductForm)
    requires s.WellFormed()
  {
    && Affirmative(f.start)
    && !IsCancelToken(f.code)
    && !CodeTaken(s.Products(), f.code, -1)
    && !IsCancelToken(f.name)
    && !IsCancelToken(f.description)
    && f.supplierId != 0
    && SupplierRegistered(s.Suppliers(), f.supplierId)
    && f.price > 0.0
    && f.stock >= 0
    && Affirmative(f.confirmation)
  }

  /** The record a successful create stores. */
  function Record(f: ProductForm, id: int): Product {
    Product(id, f.code, f.name, f.description, f.supplierId, f.price, f.stock, f.date)
  }

  method CreateProduct(s: Store, f: ProductForm) returns (s': Store, o: CreateOutcome)
    requires s.WellFormed()
    ensures s'.WellFormed()
    ensures o.Created? <==> Admissible(s, f)
    // every refusal leaves the store exactly as it was
    ensures !o.Created? ==> s' == s
    // each refusal names the FIRST check that failed, in prompt order
    ensures o == Declined ==> !Affirmative(f.start)
    ensures o == Cancelled ==>
      && Affirmative(f.start)
      && (|| IsCancelToken(f.code)
          || (!CodeTaken(s.Products(), f.code, -1) &&
              (IsCancelToken(f.name) || IsCancelToken(f.description) || f.supplierId == 0)))
    ensures o == DuplicateCode ==>
      Affirmative(f.start) && !IsCancelToken(f.code) && CodeTaken(s.Products(), f.code, -1)
    ensures o == UnknownSupplier ==>
      FieldsEntered(s, f) && !SupplierRegistered(s.Suppliers(), f.supplierId)
    ensures o == InvalidPrice ==>
      FieldsEntered(s, f) && SupplierRegistered(s.Suppliers(), f.supplierId) && f.price <= 0.0
    ensures o == InvalidStock ==>
      FieldsEntered(s, f) && SupplierRegistered(s.Suppliers(), f.supplierId) && f.price > 0.0 && f.stock < 0
    ensures o == NotSaved ==>
      FieldsEntered(s, f) && SupplierRegistered(s.Suppliers(), f.supplierId) && f.price > 0.0 && f.stock >= 0
      && !Affirmative(f.confirmation)
    // a duplicate code is refused before any later field is looked at
    ensures Affirmative(f.start) && !IsCancelToken(f.code) && CodeTaken(s.Products(), f.code, -1)
            ==> o == DuplicateCode
    // success: next id taken, counter bumped, record appended, array doubled iff it was full
    ensures o.Created? ==>
      && o.id == s.nextProductId
      && s'.nextProductId == s.nextProductId + 1
      && s'.Products() == s.Products() + [Record(f, o.id)]
      && s'.products.Capacity() ==
           (if s.products.count == s.products.Capacity() then 2 * s.products.Capacity()
            else s.products.Capacity())
      && s' == s.(products := s'.products, nextProductId := s'.nextProductId)
    ensures o.Created? && Structural(s) ==> !HasProduct(s.Products(), o.id)
    ensures Structural(s) ==> Structural(s')
    ensures Valid(s) ==> Valid(s')
  {
    if !Affirmative(f.start) {
      return s, Declined;
    }
    if IsCancelToken(f.code) {
      return s, Cancelled;
    }
    var duplicate := IsDuplicateCode(s, f.code, -1);
    if duplicate {
      return s, DuplicateCode;
    }
    if IsCancelToken(f.name) || IsCancelToken(f.description) || f.supplierId == 0 {
      return s, Cancelled;
    }
    var known := ExistsSupplier(s, f.supplierId);
    if !known {
      return s, UnknownSupplier;
    }
    if f.price <= 0.0 {
      return s, InvalidPrice;
    }
    if f.stock < 0 {
      return s, InvalidStock;
    }
    if !Affirmative(f.confirmation) {
      return s, NotSaved;
    }
    var p := Record(f, s.nextProductId);
    var products := Append(s.products, p, BlankProduct);
    s' := s.(products := products, nextProductId := s.nextProductId + 1);
    o := Created(p.id);
    if Structural(s) {
      NextIdIsFresh(s);
      AppendKeepsInvariant(s, s', p);
    }
  }

  /** Appending a record that takes the next id and passed the code and
      supplier checks keeps the structural invariant, and the value ranges
      too when its price and stock passed theirs. */
  lemma AppendKeepsInvariant(s: Store, s': Store, p: Product)
    requires Structural(s) && s'.WellFormed()
    requires s'.Products() == s.Products() + [p]
    requires s'.Suppliers() == s.Suppliers()
    requires p.id == s.nextProductId && s'.nextProductId == s.nextProductId + 1
    requires !CodeTaken(s.Products(), p.code, -1)
    requires SupplierRegistered(s.Suppliers(), p.supplierId)
    ensures Structural(s')
    ensures ValuesInRange(s.Products()) && p.price > 0.0 && p.stock >= 0 ==> Valid(s')
  {
  }
}
