# In-memory product store of `inventario.cpp`, in Dafny

This project models the product side of the store aggregate `Tienda`. The
store keeps one dynamic array per entity kind: products, suppliers,
customers and transactions. Each array has a capacity and a count, and each
kind has its own auto-increment id counter. The model covers:

- initialising the store: capacity 5 per array, count 0, every counter at 1;
- creating a product: the fields are validated in prompt order; on
  confirmation the array doubles if it is full, the next id is taken, and
  the record is appended;
- the queries: lookup by id, case-insensitive partial search on name or
  code, and exact listing by supplier id;
- the update session: edits go to a scratch copy, which replaces the live
  record only on "save" followed by a yes;
- the signed stock adjustment, which is refused when the result would be
  negative;
- delete: the first match is removed by shifting later records left; a
  transaction that names the product only triggers a warning;
- the helpers `existeProveedor`, `codigoProductoDuplicado`, `toLower`,
  `contiene` and `obtenerNombreProveedor`.

Modules:

- `Entities` (`entities.dfy`): the four record kinds.
- `Text` (`text.dfy`): ASCII lower-casing, `std::string::find`, `contiene`,
  and the yes/no answer test.
- `Buffers` (`buffer.dfy`): the dynamic arrays. A `Buffer<T>` is the whole
  allocation (`slots`, whose length is the capacity) plus `count`. It has
  the doubling `Grow` and the shift-left `RemoveAt`, each proved with loop
  invariants, and `Append`, which grows a full array and then writes the
  next slot.
- `Inventory` (`inventory.dfy`): the store, `Init`, the integrity
  predicates, the linear scans and the store invariant `Valid`. `Valid`
  requires that ids ascend in storage order, that every id was issued by
  the counter, that codes are distinct, that every supplier exists, that
  prices are positive and that stocks are non-negative.
- `ProductCreate`, `ProductQuery`, `ProductEdit`, `ProductDelete`: one
  module per workflow.
- `ProductSession` (`replay.dfy`): any sequence of the mutating workflows
  preserves the structural invariant, and with the corrected update the
  whole invariant.

Every console interaction becomes a parameter:

- each yes/no question is a string answer, read as yes when its first
  character is `S` or `s`;
- each typed field is a value;
- an update session is a list of menu commands.

The registration date comes from the system clock in the source. Here it is
an input field of the create form.

## Model

| member | source | states |
|---|---|---|
| Inventory.Init | inventario.cpp:137-165 | A new store has four empty arrays of capacity 5 and every id counter at 1. It already satisfies the whole store invariant. |
| Inventory.ExistsSupplier | inventario.cpp:101-107 | The scan answers true exactly when some live supplier has the given id. |
| Inventory.IsDuplicateCode | inventario.cpp:109-116 | The scan answers true exactly when a live product has the code and its id differs from the ignored id. |
| Inventory.FindProduct | inventario.cpp:435-440 | The scan returns -1 exactly when no live product has the id. Otherwise it returns the first index holding that id. |
| Inventory.HasTransactions | inventario.cpp:669-676 | The scan answers true exactly when some live transaction names the product. |
| Inventory.SupplierName | inventario.cpp:127-133 | The result is the name of the first supplier with the id, or "Desconocido" when no supplier has it. |
| Inventory.OnlyMatchIsFirst | inventario.cpp:435-440 | When ids ascend, the index where the scan stops is the only index holding that id. |
| Inventory.OwnCodeNotTaken | inventario.cpp:482 | Under the invariant, no other product holds a stored product's own code. So keeping the code passes the duplicate check that excludes the product's own id. |
| Inventory.NextIdIsFresh | inventario.cpp:281 | Under the invariant, no live product holds the counter's next value. |
| Text.LowerChar | inventario.cpp:91-95 | In the "C" locale, 'A'..'Z' map to the matching lower-case letter (code + 32) and every other character is kept. No result is an upper-case letter. |
| Text.Lower | inventario.cpp:91-95 | Lowercasing keeps the length and changes each character on its own, by the per-character rule. |
| Text.Find | inventario.cpp:99 | The result is -1 exactly when the pattern does not occur. Otherwise it is the first position where the pattern occurs. The empty pattern occurs at 0. |
| Text.FieldContains | inventario.cpp:97-100 | The result is true exactly when the filter, as given, is a substring of the ASCII-lowercased field. |
| Text.UpperFilterNeverMatches | inventario.cpp:97-100 | A filter with an upper-case letter never matches. This is why callers lowercase the filter first. |
| Text.OccurrenceSurvivesLowering | inventario.cpp:91-95 | If the query occurs in the field in any mix of cases, lowercasing both sides keeps that occurrence at the same position. |
| Buffers.Grow | inventario.cpp:268-278 | The capacity doubles, the count is unchanged, and the records in use keep their positions and order. |
| Buffers.Append | inventario.cpp:268-282 | The capacity doubles exactly when the array was full. The new record lands at index n, the count rises by one, and records 0..n-1 are unchanged. |
| Buffers.RemoveAt | inventario.cpp:692-697 | The count drops by one and the survivors keep their relative order. The capacity is unchanged. The vacated last slot keeps its old contents. |
| Buffers.AppendAll | inventario.cpp:268-282 | Appending a batch past capacity returns every earlier record and every new record at its own index. The final capacity is the first capacity times a power of two. |
| ProductCreate.CreateProduct | inventario.cpp:190-285 | A product is created exactly when every check passes and both questions get a yes. Any refusal leaves the store exactly as it was. Each refusal outcome names the first check that failed in prompt order: every earlier check passed. A duplicate code is refused before later fields are read. On success the id is the old counter value, and when the structural invariant holds no live record holds that id. The counter rises by 1, the record is appended, and the array doubles if and only if it was full. The structural invariant is preserved, and so is the full invariant. |
| ProductCreate.AppendKeepsInvariant | inventario.cpp:206-209 | Appending a record that takes the next id and passed the code and supplier checks preserves the structural invariant; codes stay pairwise distinct. When it also passed the price and stock checks, the full invariant is preserved. |
| ProductQuery.LookupById | inventario.cpp:311-334 | The lookup returns nothing exactly when no product has the id. Otherwise it returns the first product with that id in storage order. |
| ProductQuery.Search | inventario.cpp:337-419 | The hits are the matching products in storage order. Name and code searches lowercase both sides and test for a substring. The supplier listing tests exact equality of supplier id. A product is a hit exactly when it is stored and matches. |
| ProductQuery.HitsExact | inventario.cpp:344-352 | A hit is exactly a stored product that matches, and there are never more hits than products. |
| ProductEdit.ApplyEdit | inventario.cpp:476-526 | A single edit never changes the id or the registration date. A code edit that collides with another product, or a supplier edit naming an unknown supplier, leaves the draft unchanged. Otherwise the edit writes exactly the entered value into its field. Name and description edits always do. A price or stock edit does as written; under the corrected rules an invalid one is refused. So a draft that obeyed the code and supplier rules still obeys them. |
| ProductEdit.Session | inventario.cpp:461-550 | A committed draft keeps the record's id and registration date. Its code passes the check that excludes its own id when the starting record's code did. Its supplier exists when the starting record's supplier did. Under the corrected rules its price is positive and its stock non-negative when the starting record's were. Which edits the committed draft carries is stated by `ProductEdit.CommitCarriesEdits`. |
| ProductEdit.CommitCarriesEdits | inventario.cpp:461-534 | When the first save or cancel is a save answered yes, the session commits the draft with every earlier edit applied in order. |
| ProductEdit.CommitsIffConfirmedSave | inventario.cpp:528-544 | A session commits exactly when its first save or cancel command is a save answered yes. |
| ProductEdit.UpdateProductAsWritten | inventario.cpp:428-551 | A missing id gives not-found, and nothing changes unless a save is confirmed. A confirmed save replaces only the first record with that id and touches no other record, capacity or counter. Id order, code uniqueness and supplier references survive. Stock and price rules are not preserved (see Findings). |
| ProductEdit.UpdateProduct | inventario.cpp:428-551 | This is the same workflow with invalid price and stock edits refused. A confirmed save preserves the structural invariant and the whole store invariant. |
| ProductEdit.ReplaceKeepsInvariant | inventario.cpp:534 | Writing back a draft that kept its id and passed the code and supplier checks preserves the invariant. |
| ProductEdit.AsWrittenSavesNegativeStock | inventario.cpp:520-526 | Entering stock -1 and then saving with a yes commits stock -1, which breaks the non-negative stock rule. |
| ProductEdit.AsWrittenSavesZeroPrice | inventario.cpp:512-518 | Entering price 0 and then saving with a yes commits price 0, which breaks the positive price rule. |
| ProductEdit.AdjustStock | inventario.cpp:554-600 | A missing id gives not-found. A negative stock + delta is refused with no change. Otherwise, only with a yes, exactly that product's stock becomes stock + delta and nothing else changes. The structural invariant is preserved, and so is the full invariant. |
| ProductDelete.DeleteProduct | inventario.cpp:639-700 | A missing id or an answer other than yes leaves the store unchanged. The warning is shown exactly when a transaction names the product, and it never blocks. A delete removes the first match, keeps the order of the rest, and leaves the counter, the other arrays and the capacity untouched. When ids are unique, no record with the id remains afterwards. The structural invariant is preserved, and so is the full invariant. |
| ProductDelete.RemoveKeepsInvariant | inventario.cpp:692-697 | Removing one record shifts every later survivor down by one place. This preserves the structural invariant, and the full invariant when values were in range. |
| ProductSession.ReplayAsWritten | inventario.cpp:190-700 | Any sequence of create, update (as written), stock-adjust and delete steps keeps ids unique, ascending and issued, codes distinct and suppliers known. The id counter never decreases, so ids are never reused. Suppliers, customers and transactions are only read. |
| ProductSession.Replay | inventario.cpp:190-700 | The corrected replay: the same sequence with the corrected update also preserves the price and stock rules, so the whole store invariant holds after every step. |

## Findings

| source | as written | input that shows it | evidently intended | confidence | as-written member | corrected member |
|---|---|---|---|---|---|---|
| inventario.cpp:520-526 | The stock edit reads into the scratch copy. A negative value prints "Stock inválido" but stays in the copy, and a later save stores it. | Edit option 6 with -1, then option 7 answered "S". | The negative stock is refused and the previous value kept, like the code and supplier edits. | high, not executed | ProductEdit.AsWrittenSavesNegativeStock | ProductEdit.UpdateProduct |
| inventario.cpp:512-518 | The price edit reads into the scratch copy. A price ≤ 0 prints "Precio inválido" but stays in the copy, and a later save stores it. | Edit option 5 with 0, then option 7 answered "S". | The invalid price is refused and the previous value kept. | high, not executed | ProductEdit.AsWrittenSavesZeroPrice | ProductEdit.UpdateProduct |

`ProductEdit.UpdateProductAsWritten` is the update exactly as the source
writes it. `ProductEdit.UpdateProduct` is the corrected one. Both share `Session` and
`ApplyEdit`; the `strict` flag chooses between the two behaviours. In the
same way `ProductSession.ReplayAsWritten` replays the program as written and
`ProductSession.Replay` replays it with the corrected update.

## Left out

- Console I/O is not modelled: prompts, menu text, the `setw` table of
  `listarProductos` and the printed search results. The search methods
  return their matches instead of printing them.
- `obtenerFechaActual` is not modelled, because it reads the system clock.
  The registration date is an input.
- Memory management is not modelled: `liberarTienda` and `delete[]` have no
  counterpart in Dafny. Only capacity and count are kept.
- Prices are reals rather than floats. Only the `> 0` check is kept.
- `char[]` widths and truncation are not modelled: `cin >>` into 20-byte
  code buffers, `getline` limits and `strcpy`. Text is an unbounded string.
- Cancel tokens are taken as given. The model compares a whole field
  against "CANCELAR" and "0" and does not model how `cin` splits tokens.
- `tolower` is modelled for the "C" locale, where only 'A'..'Z' change.
  The program's locale setup is not part of this model.
- Supplier, customer and transaction create, update and delete are not in
  this source, so they are not modelled. Suppliers and transactions are
  only read by the existence check and the delete warning.
- Transaction posting, supplier-delete blocking, e-mail validation and the
  tax-id and id-document uniqueness rules have no code in this source.
- Stock adjustment reports no available or requested amounts. The
  source's error message shows neither, and the model follows the source.
- ProductEdit.AdjustStock: does not model 32-bit overflow of
  `stock + ajuste`. Signed overflow is undefined in C++, and stock is an
  unbounded integer here.
- ProductCreate.CreateProduct: does not model overflow of the id counter
  after 2^31 - 1 products. The counter is an unbounded integer.
- ProductSession.Replay: uses the corrected update, so its full-invariant
  result does not hold for the program as written; `ReplayAsWritten` states
  what does (the structural invariant and the id counter).
- ProductEdit.Session: an update session that runs out of commands
  discards the draft. The source would keep reading standard input.
- Uninitialised slots of `new Producto[n]` are indeterminate in C++. The
  model fills them with one fixed blank record per entity kind.
