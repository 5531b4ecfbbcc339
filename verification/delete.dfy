/** `eliminarProducto` (inventario.cpp:639-700): locate the record, warn when
    transactions name it, and on confirmation compact the array. */
module ProductDelete {
  import opened Entities
  import opened Buffers
  import opened Text
  import opened Inventory

  datatype DeleteOutcome = DeleteNotFound | DeleteDeclined | Deleted

  /** `warned` is whether the transaction warning was shown; it never blocks. */
  method DeleteProduct(s: Store, id: int, answer: string) returns (s': Store, o: DeleteOutcome, warned: bool)
    requires s.WellFormed()
    ensures s'.WellFormed()
    ensures o == DeleteNotFound <==> !HasProduct(s.Products(), id)
    ensures o == DeleteNotFound ==> !warned
    ensures o != Deleted ==> s' == s
    ensures forall i :: FirstWithId(s.Products(), id, i) ==>
      && (warned <==> ReferencedByTransaction(s.Transactions(), id))
      && (o == Deleted <==> Affirmative(answer))
      && (o == Deleted ==> s'.Products() == s.Products()[..i] + s.Products()[i + 1..])
    // the id counter, the other arrays and the capacity are untouched
    ensures o == Deleted ==> s' == s.(products := s'.products)
    ensures s'.products.Capacity() == s.products.Capacity()
    // with unique ids the removed record was the only one holding `id`
    ensures o == Deleted && Structural(s) ==> !HasProduct(s'.Products(), id)
    ensures Structural(s) ==> Structural(s')
    ensures Valid(s) ==> Valid(s')
  {
    var index := FindProduct(s, id);
    if index == -1 {
      return s, DeleteNotFound, false;
    }
    warned := HasTransactions(s, id);
    if !Affirmative(answer) {
      return s, DeleteDeclined, warned;
    }
    var products := RemoveAt(s.products, index);
    s' := s.(products := products);
    o := Deleted;
    if Structural(s) {
      RemoveKeepsInvariant(s, s', index);
      OnlyMatchIsFirst(s.Products(), id, index);
    }
  }

  /** Removing one record keeps the survivors in order, so every rule over
      the products still holds. */
  lemma RemoveKeepsInvariant(s: Store, s': Store, index: int)
    requires Structural(s) && s'.WellFormed()
    requires 0 <= index < |s.Products()|
    requires s'.Products() == s.Products()[..index] + s.Products()[index + 1..]
    requires s'.Suppliers() == s.Suppliers() && s'.nextProductId == s.nextProductId
    ensures Structural(s')
    ensures ValuesInRange(s.Products()) ==> Valid(s')
    ensures forall k :: 0 <= k < |s'.Products()| ==>
              s'.Products()[k] == s.Products()[if k < index then k else k + 1]
  {
  }
}
