/** `actualizarProducto` (inventario.cpp:428-551) and
    `actualizarStockProducto` (inventario.cpp:554-600). An update session edits
    a scratch copy of the record and writes it back only when it ends with
    "save" and a yes. */
module ProductEdit {
  import opened Entities
  import opened Text
  import opened Inventory

  /** One pass of the edit menu: options 1-6 carry the value typed, 7 the
      answer to "confirm changes?", 0 cancels, anything else is ignored. */
  datatype EditCommand =
    | SetCode(code: string)
    | SetName(name: string)
    | SetDescription(description: string)
    | SetSupplier(supplierId: int)
    | SetPrice(price: real)
    | SetStock(stock: int)
    | Save(answer: string)
    | Cancel
    | Unrecognised

  datatype SessionEnd = Commit(draft: Product) | Abandon

  predicate Ends(c: EditCommand) {
    c.Save? || c.Cancel?
  }

  /** One edit of the scratch copy. Code and supplier edits are checked
      against the live store and refused on failure. In the source a price
      or stock edit that fails its check is reported but KEPT; `strict`
      selects the evidently intended behaviour, which refuses it. */
  function ApplyEdit(s: Store, draft: Product, c: EditCommand, strict: bool): (r: Product)
    requires s.WellFormed()
    ensures r.id == draft.id && r.registered == draft.registered
    ensures !CodeTaken(s.Products(), draft.code, draft.id) ==> !CodeTaken(s.Products(), r.code, r.id)
    ensures SupplierRegistered(s.Suppliers(), draft.supplierId) ==> SupplierRegistered(s.Suppliers(), r.supplierId)
    ensures strict && draft.price > 0.0 ==> r.price > 0.0
    ensures strict && draft.stock >= 0 ==> r.stock >= 0
    // a refused edit leaves the draft as it was ...
    ensures c.SetCode? && CodeTaken(s.Products(), c.code, draft.id) ==> r == draft
    ensures c.SetSupplier? && !SupplierRegistered(s.Suppliers(), c.supplierId) ==> r == draft
    ensures c.SetPrice? && strict && c.price <= 0.0 ==> r == draft
    ensures c.SetStock? && strict && c.stock < 0 ==> r == draft
    // ... an accepted one writes the entered value and nothing else
    ensures c.SetCode? && !CodeTaken(s.Products(), c.code, draft.id) ==> r == draft.(code := c.code)
    ensures c.SetName? ==> r == draft.(name := c.name)
    ensures c.SetDescription? ==> r == draft.(description := c.description)
    ensures c.SetSupplier? && SupplierRegistered(s.Suppliers(), c.supplierId) ==>
              r == draft.(supplierId := c.supplierId)
    ensures c.SetPrice? && (!strict || c.price > 0.0) ==> r == draft.(price := c.price)
    ensures c.SetStock? && (!strict || c.stock >= 0) ==> r == draft.(stock := c.stock)
    // save, cancel and an unknown option edit nothing
    ensures c.Save? || c.Cancel? || c.Unrecognised? ==> r == draft
  {
    match c
    case SetCode(code) =>
      if CodeTaken(s.Products(), code, draft.id) then draft else draft.(code := code)
    case SetName(name) => draft.(name := name)
    case SetDescription(description) => draft.(description := description)
    case SetSupplier(id) =>
      if SupplierRegistered(s.Suppliers(), id) then draft.(supplierId := id) else draft
    case SetPrice(price) =>
      if strict && price <= 0.0 then draft else draft.(price := price)
    case SetStock(stock) =>
      if strict && stock < 0 then draft else draft.(stock := stock)
    case Save(_) => draft
    case Cancel => draft
    case Unrecognised => draft
  }

  /** Runs the menu until "save" or "cancel". Running out of commands
      discards the draft. Whatever is committed keeps the record's identity
      and every rule the starting draft satisfied. */
  function Session(s: Store, draft: Product, cmds: seq<EditCommand>, strict: bool): (r: SessionEnd)
    requires s.WellFormed()
    ensures r.Commit? ==> r.draft.id == draft.id && r.draft.registered == draft.registered
    ensures r.Commit? && !CodeTaken(s.Products(), draft.code, draft.id) ==>
              !CodeTaken(s.Products(), r.draft.code, r.draft.id)
    ensures r.Commit? && SupplierRegistered(s.Suppliers(), draft.supplierId) ==>
              SupplierRegistered(s.Suppliers(), r.draft.supplierId)
    ensures r.Commit? && strict && draft.price > 0.0 && draft.stock >= 0 ==>
              r.draft.price > 0.0 && r.draft.stock >= 0
    decreases |cmds|
  {
    if |cmds| == 0 then Abandon
    else match cmds[0]
      case Save(answer) => if Affirmative(answer) then Commit(draft) else Abandon
      case Cancel => Abandon
      case _ => Session(s, ApplyEdit(s, draft, cmds[0], strict), cmds[1..], strict)
  }

  /** Position `k` holds the first "save" or "cancel", and it is a save
      answered yes. */
  ghost predicate ConfirmedSaveAt(cmds: seq<EditCommand>, k: int) {
    && 0 <= k < |cmds|
    && cmds[k].Save?
    && Affirmative(cmds[k].answer)
    && forall j :: 0 <= j < k ==> !Ends(cmds[j])
  }

  /** A session commits exactly when its first terminating command is a
      confirmed save. */
  lemma {:induction false} CommitsIffConfirmedSave(s: Store, draft: Product, cmds: seq<EditCommand>, strict: bool)
    requires s.WellFormed()
    ensures Session(s, draft, cmds, strict).Commit? <==> exists k :: ConfirmedSaveAt(cmds, k)
    decreases |cmds|
  {
    if |cmds| > 0 && !Ends(cmds[0]) {
      var next := ApplyEdit(s, draft, cmds[0], strict);
      CommitsIffConfirmedSave(s, next, cmds[1..], strict);
      if exists k :: ConfirmedSaveAt(cmds[1..], k) {
        var k :| ConfirmedSaveAt(cmds[1..], k);
        assert ConfirmedSaveAt(cmds, k + 1);
      }
      if exists k :: ConfirmedSaveAt(cmds, k) {
        var k :| ConfirmedSaveAt(cmds, k);
        assert ConfirmedSaveAt(cmds[1..], k - 1);
      }
    } else if |cmds| > 0 && cmds[0].Save? && Affirmative(cmds[0].answer) {
      assert ConfirmedSaveAt(cmds, 0);
    } else if |cmds| > 0 {
      assert forall k :: !ConfirmedSaveAt(cmds, k);
    }
  }

  /** The draft after every command of `cmds` has been applied in order,
      defined from the last command back. */
  ghost function EditAll(s: Store, draft: Product, cmds: seq<EditCommand>, strict: bool): Product
    requires s.WellFormed()
    decreases |cmds|
  {
    if |cmds| == 0 then draft
    else ApplyEdit(s, EditAll(s, draft, cmds[..|cmds| - 1], strict), cmds[|cmds| - 1], strict)
  }

  /** Applying one command and then the rest is applying them all. */
  lemma {:induction false} EditAllCons(s: Store, draft: Product, c: EditCommand, cmds: seq<EditCommand>, strict: bool)
    requires s.WellFormed()
    ensures EditAll(s, ApplyEdit(s, draft, c, strict), cmds, strict) == EditAll(s, draft, [c] + cmds, strict)
    decreases |cmds|
  {
    if |cmds| > 0 {
      var init := cmds[..|cmds| - 1];
      EditAllCons(s, draft, c, init, strict);
      assert ([c] + cmds)[..|cmds|] == [c] + init;
    }
  }

  /** A confirmed save commits the draft carrying every edit entered before
      it, in order: the copy written back is the edited copy. */
  lemma {:induction false} CommitCarriesEdits(s: Store, draft: Product, cmds: seq<EditCommand>, k: int, strict: bool)
    requires s.WellFormed()
    requires ConfirmedSaveAt(cmds, k)
    ensures Session(s, draft, cmds, strict) == Commit(EditAll(s, draft, cmds[..k], strict))
    decreases |cmds|
  {
    if k > 0 {
      assert !Ends(cmds[0]);
      var next := ApplyEdit(s, draft, cmds[0], strict);
      assert ConfirmedSaveAt(cmds[1..], k - 1);
      CommitCarriesEdits(s, next, cmds[1..], k - 1, strict);
      EditAllCons(s, draft, cmds[0], cmds[1..][..k - 1], strict);
      assert [cmds[0]] + cmds[1..][..k - 1] == cmds[..k];
    }
  }

  datatype UpdateOutcome = UpdateNotFound | Discarded | Saved

  /** The update workflow as the source writes it: invalid price and stock
      edits reach the store. */
  method UpdateProductAsWritten(s: Store, id: int, cmds: seq<EditCommand>) returns (s': Store, o: UpdateOutcome)
    requires s.WellFormed()
    ensures s'.WellFormed()
    ensures o == UpdateNotFound <==> !HasProduct(s.Products(), id)
    ensures o != Saved ==> s' == s
    ensures forall i :: FirstWithId(s.Products(), id, i) ==>
      var e := Session(s, s.Products()[i], cmds, false);
      && (o == Saved <==> e.Commit?)
      && (o == Saved ==> s'.Products() == s.Products()[i := e.draft])
    ensures o == Saved ==> s' == s.(products := s'.products)
    ensures s'.products.Capacity() == s.products.Capacity()
    ensures Structural(s) ==> Structural(s')
  {
    s', o := RunUpdate(s, id, cmds, false);
  }

  /** The update workflow with price and stock edits checked like the
      others, so the whole store invariant survives a save. */
  method UpdateProduct(s: Store, id: int, cmds: seq<EditCommand>) returns (s': Store, o: UpdateOutcome)
    requires s.WellFormed()
    ensures s'.WellFormed()
    ensures o == UpdateNotFound <==> !HasProduct(s.Products(), id)
    ensures o != Saved ==> s' == s
    ensures forall i :: FirstWithId(s.Products(), id, i) ==>
      var e := Session(s, s.Products()[i], cmds, true);
      && (o == Saved <==> e.Commit?)
      && (o == Saved ==> s'.Products() == s.Products()[i := e.draft])
    ensures o == Saved ==> s' == s.(products := s'.products)
    ensures s'.products.Capacity() == s.products.Capacity()
    ensures Structural(s) ==> Structural(s')
    ensures Valid(s) ==> Valid(s')
  {
    s', o := RunUpdate(s, id, cmds, true);
  }

  /** Locate, edit a copy, write the copy back over the live record on a
      committed session. */
  method RunUpdate(s: Store, id: int, cmds: seq<EditCommand>, strict: bool) returns (s': Store, o: UpdateOutcome)
    requires s.WellFormed()
    ensures s'.WellFormed()
    ensures o == UpdateNotFound <==> !HasProduct(s.Products(), id)
    ensures o != Saved ==> s' == s
    ensures forall i :: FirstWithId(s.Products(), id, i) ==>
      var e := Session(s, s.Products()[i], cmds, strict);
      && (o == Saved <==> e.Commit?)
      && (o == Saved ==> s'.Products() == s.Products()[i := e.draft])
    ensures o == Saved ==> s' == s.(products := s'.products)
    ensures s'.products.Capacity() == s.products.Capacity()
    ensures Structural(s) ==> Structural(s')
    ensures strict && Valid(s) ==> Valid(s')
  {
    var index := FindProduct(s, id);
    if index == -1 {
      return s, UpdateNotFound;
    }
    var original := s.products.slots[index];
    var e := Session(s, original, cmds, strict);
    if e.Abandon? {
      return s, Discarded;
    }
    var products := s.products.(slots := s.products.slots[index := e.draft]);
    s' := s.(products := products);
    o := Saved;
    assert s'.Products() == s.Products()[index := e.draft];
    if Structural(s) {
      OwnCodeNotTaken(s.Products(), index);
      ReplaceKeepsInvariant(s, s', index, e.draft);
    }
  }

  /** Writing back a draft that kept the record's id and passed the code and
      supplier checks preserves the structural invariant, and the value
      ranges too when the draft respects them. */
  lemma ReplaceKeepsInvariant(s: Store, s': Store, index: int, d: Product)
    requires Structural(s) && s'.WellFormed()
    requires 0 <= index < |s.Products()|
    requires s'.Products() == s.Products()[index := d]
    requires s'.Suppliers() == s.Suppliers() && s'.nextProductId == s.nextProductId
    requires d.id == s.Products()[index].id
    requires !CodeTaken(s.Products(), d.code, d.id)
    requires SupplierRegistered(s.Suppliers(), d.supplierId)
    ensures Structural(s')
    ensures ValuesInRange(s.Products()) && d.price > 0.0 && d.stock >= 0 ==> Valid(s')
  {
  }

  /** Demonstrates the defect of the as-written session: a negative stock
      entered at option 6 and saved reaches the store and breaks the
      non-negative stock rule. */
  lemma AsWrittenSavesNegativeStock(s: Store, i: int)
    requires Valid(s) && 0 <= i < |s.Products()|
    ensures var e := Session(s, s.Products()[i], [SetStock(-1), Save("S")], false);
            && e == Commit(s.Products()[i].(stock := -1))
            && !ValuesInRange(s.Products()[i := e.draft])
  {
    var d := s.Products()[i];
    var cmds := [SetStock(-1), Save("S")];
    assert cmds[1..] == [Save("S")];
    assert Session(s, d.(stock := -1), cmds[1..], false) == Commit(d.(stock := -1));
    assert s.Products()[i := d.(stock := -1)][i].stock < 0;
  }

  /** Same defect for option 5: a zero price is saved. */
  lemma AsWrittenSavesZeroPrice(s: Store, i: int)
    requires Valid(s) && 0 <= i < |s.Products()|
    ensures var e := Session(s, s.Products()[i], [SetPrice(0.0), Save("S")], false);
            && e == Commit(s.Products()[i].(price := 0.0))
            && !ValuesInRange(s.Products()[i := e.draft])
  {
    var d := s.Products()[i];
    var cmds := [SetPrice(0.0), Save("S")];
    assert cmds[1..] == [Save("S")];
    assert Session(s, d.(price := 0.0), cmds[1..], false) == Commit(d.(price := 0.0));
    assert s.Products()[i := d.(price := 0.0)][i].price <= 0.0;
  }

  datatype StockOutcome = StockNotFound | WouldGoNegative | NotConfirmed | Adjusted(stock: int)

  /** `actualizarStockProducto`: add a signed `delta` to the first product
      with `id`, refusing a negative result and asking for confirmation. */
  method AdjustStock(s: Store, id: int, delta: int, answer: string) returns (s': Store, o: StockOutcome)
    requires s.WellFormed()
    ensures s'.WellFormed()
    ensures o == StockNotFound <==> !HasProduct(s.Products(), id)
    ensures !o.Adjusted? ==> s' == s
    ensures forall i :: FirstWithId(s.Products(), id, i) ==>
      var p := s.Products()[i];
      && (o == WouldGoNegative <==> p.stock + delta < 0)
      && (o.Adjusted? <==> p.stock + delta >= 0 && Affirmative(answer))
      && (o.Adjusted? ==> o.stock == p.stock + delta
                          && s'.Products() == s.Products()[i := p.(stock := p.stock + delta)])
    ensures o.Adjusted? ==> s' == s.(products := s'.products)
    ensures s'.products.Capacity() == s.products.Capacity()
    ensures Structural(s) ==> Structural(s')
    ensures Valid(s) ==> Valid(s')
  {
    var index := FindProduct(s, id);
    if index == -1 {
      return s, StockNotFound;
    }
    var p := s.products.slots[index];
    var newStock := p.stock + delta;
    if newStock < 0 {
      return s, WouldGoNegative;
    }
    if !Affirmative(answer) {
      return s, NotConfirmed;
    }
    var products := s.products.(slots := s.products.slots[index := p.(stock := newStock)]);
    s' := s.(products := products);
    o := Adjusted(newStock);
    assert s'.Products() == s.Products()[index := p.(stock := newStock)];
    if Structural(s) {
      OwnCodeNotTaken(s.Products(), index);
      ReplaceKeepsInvariant(s, s', index, p.(stock := newStock));
    }
  }
}
