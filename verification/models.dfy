/** The records the parsers produce and the ways a parse can fail. */
module Models {

  /** One receipt line item. Quantities are kept as exact reals: `int` for counted
      items, the weight for weighed ones, `0` for a discount. */
  datatype Product = Product(
    name: string,
    totalPrice: real,
    unit: string,
    quantity: real,
    unitPrice: real)

  /** The field of an invoice whose extraction failed. */
  datatype Field = OrderNumber | InvoiceNumber | PaymentDate | Total

  /** Why reading or parsing a receipt failed. Each case is a point where the
      program stops with an exception or `SystemExit`. */
  datatype Error =
    | FileNotFound
    | IsDirectory
    | UnsupportedFileType
    | ReaderFailed
    | EmptyText
    | UnsupportedVendor
    | MissingField(field: Field)
    | MalformedNumber(token: string)
    | MissingUnitPrice(name: string)
    | InvalidDate
}
