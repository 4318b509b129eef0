# Receipt parsing for two supermarkets, in Dafny

This project models the receipt-parsing engine of a small program that turns
supermarket receipts into product records and invoice metadata. It covers:

- **Consum**: four line grammars (unitary, multi-quantity, fractional,
  discount) and three header extractors. The order and invoice numbers come
  from one search; the payment date and the declared total each have their own.
- **Mercadona**: the "normal" grammar, recognised within one line, and the
  "special" (weighed) grammar, recognised within a pair of lines. When the
  quantity is above one, the unit-price suffix is split off the name. There are four header extractors: order number, invoice
  number, payment date and total.
- **Dispatch**: the vendor is chosen by a case-insensitive search for the
  supermarket's name in the text.
- **Reading the file**: `detect_file_type` classifies a file by its magic bytes,
  and `read_invoice_file` applies its error rules.

Each regular expression is written as a deterministic recogniser over a line
(line grammars) or over text positions (header searches). Its **shape
predicate** is a ghost predicate that writes the pattern out as pieces and
index cuts. For each recogniser, `Witness`/`Captures`/`Match` lemmas show two
things:

- the recogniser accepts exactly the inputs that have a shape;
- every split the pattern allows yields the same groups, so the regex
  engine's backtracking choices do not matter.

Other modelling choices:

- **Searches.** `re.search` is the leftmost position at which a recogniser
  succeeds (`Scan.FirstMatch`). A greedy `.*` that gives characters back is the
  rightmost such position (`Scan.LastMatch`).
- **Collections.** `re.findall` feeding a list comprehension is a walk over the
  lines in text order (`Scan.Gather`/`Scan.Collected`).
- **Numbers.** Amounts are exact reals. `round(x, d)` is round-half-even on the
  exact value (`Numeric.Round`). `float(t.replace(",", "."))` is the exact
  decimal value of the token.
- **Exceptions.** Every exception or `SystemExit` of the program is a typed
  failure (`Models.Error`).

Modules, one per file:

| file | module |
|---|---|
| `wrappers.dfy` | `Option` and `Result` |
| `strings.dfy` | character classes, spans, stripping, lines, case folding |
| `numeric.dfy` | digit runs, decimal tokens and their values, rounding |
| `models.dfy` | `Product` and the error cases |
| `calendar.dfy` | `datetime`'s range checks |
| `scan.dfy` | leftmost and rightmost search; line-by-line collection |
| `consum_lines.dfy`, `consum.dfy` | Consum grammars and receipt |
| `mercadona_lines.dfy`, `mercadona.dfy` | Mercadona grammars and receipt |
| `files.dfy` | file-type detection and `read_invoice_file` |
| `dispatch.dfy` | vendor dispatch |

Mercadona's normal items keep their total and unit price unrounded, as the
code computes them (`src/mdona_scrapper/__init__.py` lines 100 and 113); only
the weighed items and the Consum prices are rounded.

## Model

| member | source | states |
|---|---|---|
| Numeric.SeparatorsInterchangeable | src/consum_scrapper/__init__.py:99-100 | writing a decimal token with `,` or `.` as its separator changes neither its shape nor its parsed value |
| Numeric.RoundError | src/consum_scrapper/__init__.py:82 | `round(x, d)` is within half a unit of the `d`-th decimal of `x` and lies on that grid, at the nearest grid point (ties to even) |
| Numeric.RoundToken | src/consum_scrapper/__init__.py:99-100 | rounding a token with at most `d` decimals to `d` decimals gives its own value back |
| Numeric.UnitPrice | src/consum_scrapper/__init__.py:118 | the guarded unit price: 0 when the quantity is 0, otherwise within half a cent of total/quantity, so there is never a division by zero |
| Calendar.MakeDateTime | src/consum_scrapper/__init__.py:165 | `datetime(...)` succeeds exactly when month, day (leap years included), hour and minute are in range; otherwise it is the date error |
| ConsumLines.UnitaryMatch | src/consum_scrapper/__init__.py:58-61 | a line is a unitary item exactly when it splits as `-?1`, spaces, name, spaces, price; every such split gives the same record |
| ConsumLines.UnitaryRecord | src/consum_scrapper/__init__.py:76-90 | a unitary item has quantity 1 or -1, an empty unit, and a unit price equal to its total, which lies on the cent grid |
| ConsumLines.MultipleMatch | src/consum_scrapper/__init__.py:62-65 | a line is matched by the multi-quantity grammar exactly when it has the pattern's split; all splits give the same outcome, and a malformed unit price is a failure |
| ConsumLines.MultipleRecord | src/consum_scrapper/__init__.py:93-108 | a multi-quantity item has an integral quantity, an empty unit, and total and unit price rounded to cents |
| ConsumLines.FractionalMatch | src/consum_scrapper/__init__.py:66-68 | a line is a weighed item exactly when it splits as quantity, name, total; every split gives the same record |
| ConsumLines.FractionalRecord | src/consum_scrapper/__init__.py:111-125 | quantity on the 3-decimal grid and total on the cent grid; the unit price is 0 for a zero quantity and otherwise within half a cent of total/quantity |
| ConsumLines.DiscountMatch | src/consum_scrapper/__init__.py:70-73 | a line is a discount exactly when it starts with `Descuento` or `Dto Mis Fav` and ends in an amount; every split gives the same record |
| ConsumLines.DiscountRecord | src/consum_scrapper/__init__.py:128-141 | a discount has quantity 0 and unit price 0, and its total keeps the sign of the amount |
| ConsumLines.UnitarySeparators | src/consum_scrapper/__init__.py:82 | changing the price's separator between `,` and `.` leaves the unitary record unchanged |
| ConsumLines.MultipleSeparators | src/consum_scrapper/__init__.py:99-100 | changing the separators of both prices leaves the multi-quantity outcome unchanged |
| ConsumLines.FractionalSeparators | src/consum_scrapper/__init__.py:114-117 | changing the separators of the quantity and the total leaves the weighed record unchanged |
| ConsumLines.DiscountSeparators | src/consum_scrapper/__init__.py:134 | changing the amount's separator leaves the discount record unchanged |
| ConsumLines.DiscountExcludes | src/consum_scrapper/__init__.py:58-73 | a discount line is matched by none of the other three grammars |
| ConsumLines.FractionalExcludes | src/consum_scrapper/__init__.py:58-68 | a weighed line is matched by neither the unitary nor the multi-quantity grammar |
| ConsumLines.UnitaryMultipleOverlap | src/consum_scrapper/__init__.py:58-65 | a line `±1 name price total` is matched by both the unitary and the multi-quantity grammar, so it yields two products |
| ConsumLines.Products | src/consum_scrapper/__init__.py:144-150 | the products are the unitary matches, then the multi-quantity, then the weighed, then the discounts, each group in text order; the first malformed multi-quantity line is the failure |
| ConsumLines.ProductsMembers | src/consum_scrapper/__init__.py:144-150 | a product is in the list exactly when some line yields it under one of the four grammars |
| Consum.InvoiceMatch | src/consum_scrapper/__init__.py:52-54 | the invoice-number recogniser matches at a position exactly when the text there has the pattern's shape, and yields its two groups |
| Consum.NumbersOfOneMatch | src/consum_scrapper/__init__.py:152-158 | the order and invoice numbers are found together, as groups 1 and 2 of the leftmost match of the same search |
| Consum.TotalMatch | src/consum_scrapper/__init__.py:55 | the total recogniser matches exactly the shape `importe a abonar` (any case), whitespace, amount |
| Consum.TotalOfFirstMatch | src/consum_scrapper/__init__.py:167-169 | the total is found exactly when the pattern occurs, and it is the value of the amount of the leftmost occurrence |
| Consum.PaymentDateMissing | src/consum_scrapper/__init__.py:160-165 | the date is the missing-field failure exactly when no position holds `dd.mm.yyyy hh:mm` |
| Consum.PaymentDateLeftmost | src/consum_scrapper/__init__.py:160-165 | otherwise it is the leftmost date, accepted exactly when `datetime` accepts its fields |
| Consum.PaymentDateRoundTrip | src/consum_scrapper/__init__.py:56 | printing a valid date as `dd.mm.yyyy hh:mm` and extracting it gives the date back |
| Consum.ParseConsum | src/consum_scrapper/__init__.py:196-202 | the invoice is built exactly when the products, the numbers, the date and the total are all found; otherwise the first failure in evaluation order |
| MercadonaLines.NormalMatch | src/mdona_scrapper/__init__.py:62 | a line is a normal item exactly when it splits as `[1-9]\d*`, whitespace, name, whitespace, amount; the groups are those of the pattern with its greedy name |
| MercadonaLines.NormalProduct | src/mdona_scrapper/__init__.py:95-122 | quantity 1 gives the stripped name, an empty unit and unit price equal to the unrounded total; above 1 the name must end in a price, or it fails |
| MercadonaLines.NormalUnitOfName | src/mdona_scrapper/__init__.py:102-114 | above 1, the trailing ` d,dd` leaves the name and becomes the unit `(q x d.dd€)`, and the unit price is total/quantity unrounded |
| MercadonaLines.NormalItem | src/mdona_scrapper/__init__.py:124-130 | every normal item has quantity at least 1, a non-negative total and unit price times quantity equal to the total |
| MercadonaLines.PriceMatch | src/mdona_scrapper/__init__.py:63 | the unit-price recogniser succeeds exactly when the text ends in whitespace and a two-decimal price, taking the leftmost start for group 1 |
| MercadonaLines.SpecialMatch | src/mdona_scrapper/__init__.py:58-60 | a pair of lines is a weighed item exactly when the first has the quantity-and-name shape and the second the weight, unit, total shape; the greedy split is the one taken |
| MercadonaLines.TailCaptures | src/mdona_scrapper/__init__.py:59 | because the unit group is greedy, the captured total keeps a single digit before its separator |
| MercadonaLines.SpecialProduct | src/mdona_scrapper/__init__.py:66-84 | quantity is the weight, unrounded; the unit is `weight unit` stripped; the total is rounded to cents; the unit price is 0 for zero weight and otherwise within half a cent of total/weight |
| MercadonaLines.SpecialProducts | src/mdona_scrapper/__init__.py:66-84 | the weighed items come from non-overlapping pairs of lines, in text order |
| MercadonaLines.Products | src/mdona_scrapper/__init__.py:132-134 | the products are all weighed items, then all normal items; the first malformed normal line is the failure |
| MercadonaLines.ProductsSections | src/mdona_scrapper/__init__.py:132-134 | a product is in the list exactly when it is a weighed or a normal item of the text |
| MercadonaLines.UnitPriceAsWrittenIsName | src/mdona_scrapper/__init__.py:86-92 | `_get_unit_price` as written returns the text in front of the price, not the price |
| MercadonaLines.UnitPriceAsWrittenExample | src/mdona_scrapper/__init__.py:86-92 | on `PAN 1,50` the helper as written gives `PAN`, the corrected one `1.50` |
| MercadonaLines.UnitPriceOfPrice | src/mdona_scrapper/__init__.py:86-92 | the corrected helper returns the trailing price with `.` as separator, whatever precedes it |
| Mercadona.OrderMatch | src/mdona_scrapper/__init__.py:51 | the order recogniser matches exactly `Pedido Nº:` or `OP:`, whitespace, digits, taking the whole digit run |
| Mercadona.OrderOfFirstMatch | src/mdona_scrapper/__init__.py:136-138 | the order number is found exactly when the pattern occurs, and it is `int()` of the leftmost occurrence's digits |
| Mercadona.OrderRoundTrip | src/mdona_scrapper/__init__.py:51 | either label followed by a printed number gives that number back |
| Mercadona.InvoiceMatch | src/mdona_scrapper/__init__.py:52 | the invoice recogniser yields exactly the group of a `Factura \w+:` match (any case) whose whitespace gap is as long as the greedy engine makes it |
| Mercadona.InvoiceOfFirstMatch | src/mdona_scrapper/__init__.py:140-142 | the invoice number is found exactly when the pattern occurs, and it is the group of the leftmost occurrence |
| Mercadona.InvoiceRoundTrip | src/mdona_scrapper/__init__.py:52 | `Factura word: ` and a number of digits, dashes and spaces ending the line gives that number back |
| Mercadona.TotalLineMatch | src/mdona_scrapper/__init__.py:53 | after `TOTAL`, the amount is the first one after the last `€` of the line that is followed by an amount |
| Mercadona.TotalOfFirstMatch | src/mdona_scrapper/__init__.py:151-153 | the total is found exactly when some `TOTAL` line matches, and it is the value of the leftmost match's amount |
| Mercadona.TotalRoundTrip | src/mdona_scrapper/__init__.py:53 | `TOTAL (€) ` and an amount gives the amount's value back |
| Mercadona.DateMatch | src/mdona_scrapper/__init__.py:54-56 | the date recogniser matches at a position exactly when the text has the pattern's shape there, and yields `int()` of its five groups |
| Mercadona.PrefixIrrelevant | src/mdona_scrapper/__init__.py:54-56 | the optional `Cobrado el ` prefix never changes which date the search finds |
| Mercadona.FindPaymentDate | src/mdona_scrapper/__init__.py:144-149 | the payment date is valid whenever it is found; a failure is the missing-field or the date error |
| Mercadona.PaymentDateMissing | src/mdona_scrapper/__init__.py:144-149 | the date is the missing-field failure exactly when no position holds a date |
| Mercadona.PaymentDateLeftmost | src/mdona_scrapper/__init__.py:144-149 | otherwise it is the leftmost date, accepted exactly when `datetime` accepts its fields |
| Mercadona.PaymentDateRoundTrip | src/mdona_scrapper/__init__.py:54-56 | `Cobrado el d/m/yyyy a las h:m` of a valid date gives the date back |
| Mercadona.ParseMercadona | src/mdona_scrapper/__init__.py:167-173 | the invoice is built exactly when all five extractors succeed; otherwise the first failure in evaluation order |
| Files.DetectFileType | src/utils/__init__.py:24-34 | `pdf` exactly when the content starts with `%PDF`, `png` exactly when it starts with the PNG signature, and nothing otherwise |
| Files.DetectIgnoresTail | src/utils/__init__.py:27-28 | bytes after the first eight never change the classification |
| Files.DetectByHeader | src/utils/__init__.py:27-28 | contents with the same first eight bytes are classified alike |
| Files.ReadInvoiceFile | src/utils/__init__.py:97-113 | file-not-found exactly when the path is absent, directory exactly when it names one, unsupported type exactly when no magic number matches; a success is the detected extractor's non-empty text |
| Dispatch.SelectVendor | src/invoice_scrapper/__init__.py:10-21 | Consum exactly when `consum` occurs in any case; Mercadona exactly when `mercadona` occurs and `consum` does not; otherwise the unsupported-vendor failure |
| Dispatch.VendorIgnoresCase | src/invoice_scrapper/__init__.py:10 | ASCII upper- or lower-casing of the text does not change the chosen vendor |
| Dispatch.ConsumFirst | src/invoice_scrapper/__init__.py:10-15 | a text naming both supermarkets goes to Consum |
| Dispatch.ParseWith | src/invoice_scrapper/__init__.py:13-19 | the result carries the vendor's name, and it succeeds or fails exactly as that vendor's parser does on the text |
| Dispatch.ParseText | src/invoice_scrapper/__init__.py:10-21 | a parsed invoice is tagged Consum exactly when the text names Consum; with neither name the result is the unsupported-vendor failure |
| Dispatch.GetInvoice | src/invoice_scrapper/__init__.py:7-21 | a read failure is returned as is; otherwise the result is the dispatch on the text read |
| Dispatch.GetInvoiceAsWritten | src/invoice_scrapper/__init__.py:8-19 | as the program has it: a success needs a file named by the extracted text |
| Dispatch.AsWrittenLosesText | src/invoice_scrapper/__init__.py:14 | when the text read is not itself a file name, every supported receipt ends in the file-not-found failure (a path too long to open included) |
| Dispatch.AsWrittenDiffers | src/invoice_scrapper/__init__.py:19 | a receipt the corrected dispatch parses is lost by the program as written |
| Dispatch.AsWrittenExample | src/invoice_scrapper/__init__.py:15-19 | a PDF whose text is `mercadona` goes to the Mercadona parser in the corrected dispatch and to the file-not-found failure as written |

## Left out

- OCR, image preprocessing and PDF text extraction (`pytesseract`, PIL, `pypdf`) are foreign libraries. They are parameters: each extractor is a function that yields the text or fails.
- The CLI script, logging, the network client, the ML model and the pandas `dataframe` properties are not part of the parsing core.
- Process exits (`SystemExit`, `exit(1)`) and their messages become typed failures. `print` is dropped.
- Binary floating point is not modelled: `float` is the exact decimal value, and `round` rounds half to even on that exact value. Floating-point representation error can make Python round a tie differently.
- Case folding (`IGNORECASE`, `str.lower`, `str.upper`), `\d` and `\w` cover ASCII only. Python's Unicode classes and case mappings are wider: `str.upper` maps `ſ` (U+017F) to `S`, so `"conſum".upper().lower()` contains `consum` while `"conſum".lower()` does not.
- Dispatch.VendorIgnoresCase: is about ASCII upper- and lower-casing only; with Python's `str.upper` the example above picks Consum for the upper-cased text and no vendor for the original.
- Consum's line grammars are single-line recognisers. `\s+` in those patterns could cross a line feed, and such cross-line matches are not modelled.
- MercadonaLines.NormalMatch: recognises one line at a time. In `NORMAL_PRODUCT_RE` (with `re.MULTILINE`) both `\s+` and `\s` also take a line feed, and those matches are not modelled.
- MercadonaLines.NormalGroups: for the same reason, on `2 LECHE 1,20` followed by a line `3,40` Python finds one item (name `LECHE`, total 3.40, unit `(2 x 1.20€)`) where the model reads the first line alone as quantity 2, name `LECHE`, total `1,20`, whose name lacks the unit price.
- MercadonaLines.Products: inherits both gaps. On `2 LECHE 1,20\n3,40` it is the missing-unit-price failure where Python yields a product; on `2\nLECHE 1,20` it yields no product where Python raises `TypeError`. Items of the special grammar whose `\s+` crosses a further line feed (the three lines `1`, `PLATANO`, `0,766 kg 2,20 €/kg 1,69`) are not recognised either.
- `datetime` raises `OverflowError` rather than `ValueError` on a field too large for a C integer. Both are the one date error.
- `Invoice.supermarket` is a class attribute set before parsing. Here the vendor name is part of the result instead.
- Dispatch.AsWrittenLosesText: a text too long to be a path makes `open` raise `OSError` (name too long) instead of `FileNotFoundError`, and only the latter is caught (`src/consum_scrapper/__init__.py` line 191, `src/mdona_scrapper/__init__.py` line 164), so the program stops with an uncaught error. The model folds that case into the file-not-found failure.
- `read_png_file` catches `FileNotFoundError`, and `read_invoice_file` has a branch for a type that is neither absent nor known. Neither can happen once the path exists and the type is known, so neither is modelled.

## Findings

| source | as written | input that shows it | evidently intended | confidence | as-written member | corrected member |
|---|---|---|---|---|---|---|
| src/mdona_scrapper/__init__.py:88-92 | `_get_unit_price` returns group 1 of `(.*)\s(\d+[,.]\d{2})$`, the text before the price | `PAN 1,50` gives `PAN` | the trailing price `1.50` (group 2), as the name says; nothing calls the helper (`_normal_tuple_to_product` applies the pattern itself, lines 104-106), so the defect has no visible effect | medium, not executed | MercadonaLines.UnitPriceAsWritten | MercadonaLines.UnitPriceOf |
| src/invoice_scrapper/__init__.py:14 | the vendor's `get_invoice` is handed the extracted text, and opens it as a file (`Image.open`, `PdfReader`) | a PDF whose text is `mercadona`, in a directory with no file of that name, ends in "File not found" | the vendor's parser applied to the text already read | high, not executed | Dispatch.GetInvoiceAsWritten | Dispatch.GetInvoice |
