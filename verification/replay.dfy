/** Any run of the product menu, seen as a sequence of completed operations
    on one store. Searches and listings read only, so they are not replayed. */
module ProductSession {
  import opened Entities
  import opened Inventory
  import opened ProductCreate
  import opened ProductEdit
  import opened ProductDelete

  datatype Operation =
    | CreateOp(form: ProductForm)
    | UpdateOp(id: int, cmds: seq<EditCommand>)
    | AdjustOp(id: int, delta: int, answer: string)
    | DeleteOp(id: int, answer: string)

  /** Replays `ops` in order with the update as the program writes it. Unique
      ascending ids below the counter, distinct codes and known suppliers hold
      after every step; the price and stock rules may not (an update can save
      an invalid price or stock). The id counter never goes back, and
      suppliers, customers and transactions are only read. */
  method ReplayAsWritten(s: Store, ops: seq<Operation>) returns (s': Store)
    requires s.WellFormed()
    ensures s'.WellFormed()
    ensures Structural(s) ==> Structural(s')
    ensures s'.nextProductId >= s.nextProductId
    ensures s'.suppliers == s.suppliers && s'.customers == s.customers
    ensures s'.transactions == s.transactions
    ensures s'.name == s.name && s'.taxId == s.taxId
  {
    s' := Run(s, ops, false);
  }

  /** Replays `ops` in order with the corrected update, which refuses invalid
      price and stock edits. Then the whole store invariant, value ranges
      included, holds after every step. */
  method Replay(s: Store, ops: seq<Operation>) returns (s': Store)
    requires s.WellFormed()
    ensures s'.WellFormed()
    ensures Structural(s) ==> Structural(s')
    ensures Valid(s) ==> Valid(s')
    ensures s'.nextProductId >= s.nextProductId
    ensures s'.suppliers == s.suppliers && s'.customers == s.customers
    ensures s'.transactions == s.transactions
    ensures s'.name == s.name && s'.taxId == s.taxId
  {
    s' := Run(s, ops, true);
  }

  /** The shared loop; `strict` selects the corrected update. */
  method Run(s: Store, ops: seq<Operation>, strict: bool) returns (s': Store)
    requires s.WellFormed()
    ensures s'.WellFormed()
    ensures Structural(s) ==> Structural(s')
    ensures strict && Valid(s) ==> Valid(s')
    ensures s'.nextProductId >= s.nextProductId
    ensures s'.suppliers == s.suppliers && s'.customers == s.customers
    ensures s'.transactions == s.transactions
    ensures s'.name == s.name && s'.taxId == s.taxId
  {
    s' := s;
    var i := 0;
    while i < |ops|
      invariant 0 <= i <= |ops|
      invariant s'.WellFormed()
      invariant Structural(s) ==> Structural(s')
      invariant strict && Valid(s) ==> Valid(s')
      invariant s'.nextProductId >= s.nextProductId
      invariant s'.suppliers == s.suppliers && s'.customers == s.customers
      invariant s'.transactions == s.transactions
      invariant s'.name == s.name && s'.taxId == s.taxId
    {
      match ops[i] {
        case CreateOp(form) =>
          var created;
          s', created := CreateProduct(s', form);
        case UpdateOp(id, cmds) =>
          var updated;
          s', updated := RunUpdate(s', id, cmds, strict);
        case AdjustOp(id, delta, answer) =>
          var adjusted;
          s', adjusted := AdjustStock(s', id, delta, answer);
        case DeleteOp(id, answer) =>
          var deleted, warned;
          s', deleted, warned := DeleteProduct(s', id, answer);
      }
      i := i + 1;
    }
  }
}
