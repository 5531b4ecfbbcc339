/** The records kept by the store (inventario.cpp, structs Producto, Proveedor,
    Cliente and Transaccion). Fixed-width `char[]` fields become strings, and
    `float` amounts become reals. */
module Entities {

  datatype Option<+T> = None | Some(value: T)

  /** A catalogue entry. `supplierId` refers to a Supplier's `id`. */
  datatype Product = Product(
    id: int,
    code: string,
    name: string,
    description: string,
    supplierId: int,
    price: real,
    stock: int,
    registered: string)

  datatype Supplier = Supplier(
    id: int,
    name: string,
    taxId: string,
    phone: string,
    email: string,
    address: string,
    registered: string)

  datatype Customer = Customer(
    id: int,
    name: string,
    idDocument: string,
    phone: string,
    email: string,
    address: string,
    registered: string)

  /** "COMPRA" or "VENTA". */
  datatype TransactionKind = Purchase | Sale

  /** A posted movement. `relatedId` is a supplier for a purchase and a
      customer for a sale. */
  datatype Transaction = Transaction(
    id: int,
    kind: TransactionKind,
    productId: int,
    relatedId: int,
    quantity: int,
    unitPrice: real,
    total: real,
    date: string,
    notes: string)

  /* The contents of a freshly allocated, never written array slot. C++ leaves
     them indeterminate; the model fixes one arbitrary value per record kind. */
  const BlankProduct := Product(0, "", "", "", 0, 0.0, 0, "")
  const BlankSupplier := Supplier(0, "", "", "", "", "", "")
  const BlankCustomer := Customer(0, "", "", "", "", "", "")
  const BlankTransaction := Transaction(0, Purchase, 0, 0, 0, 0.0, 0.0, "", "")
}
