/** `InvoiceScrapper.get_invoice`: read the receipt file, choose the vendor by
    a case-insensitive search for its name in the text, and hand over to that
    vendor's parser. The vendor is part of the result rather than a class
    attribute set on the way. */
module Dispatch {
  import opened Wrappers
  import opened Strings
  import opened Models
  import opened Files
  import Consum
  import Mercadona

  datatype Vendor = ConsumVendor | MercadonaVendor

  /** What the vendor's parser produced. */
  datatype Body = FromConsum(consum: Consum.ConsumInvoice) | FromMercadona(mercadona: Mercadona.MercadonaInvoice)

  /** An invoice with the name of its supermarket. */
  datatype Invoice = Invoice(supermarket: string, body: Body)

  const ConsumSignature: string := "consum"
  const MercadonaSignature: string := "mercadona"

  /** The name recorded for each vendor. */
  function Supermarket(v: Vendor): string {
    match v
    case ConsumVendor => "Consum"
    case MercadonaVendor => "Mercadona"
  }

  /** `word` occurs somewhere in `text` when letters are compared without case. */
  ghost predicate CiContains(text: string, word: string) {
    exists i: nat :: CiOccursAt(text, word, i)
  }

  /** A lower-case word occurs in the lower-cased text exactly where it occurs
      in the text without regard to case. */
  lemma LowerOccurs(text: string, word: string, i: nat)
    requires ToLower(word) == word
    ensures OccursAt(ToLower(text), word, i) <==> CiOccursAt(text, word, i)
  {
    if i + |word| <= |text| {
      var t := ToLower(text);
      forall k | 0 <= k < |word| ensures t[i + k] == word[k] <==> CiEq(text[i + k], word[k]) {
        assert Lower(word[k]) == ToLower(word)[k];
      }
      if CiOccursAt(text, word, i) {
        assert forall k :: 0 <= k < |word| ==> t[i..i + |word|][k] == word[k];
      }
    }
  }

  /** `word in text.lower()` for a lower-case word is a search without case. */
  lemma LowerContains(text: string, word: string)
    requires ToLower(word) == word
    ensures Contains(ToLower(text), word) <==> CiContains(text, word)
  {
    if Contains(ToLower(text), word) {
      var i: nat :| OccursAt(ToLower(text), word, i);
      LowerOccurs(text, word, i);
    }
    if CiContains(text, word) {
      var i: nat :| CiOccursAt(text, word, i);
      LowerOccurs(text, word, i);
    }
  }

  /** The branch `get_invoice` takes: Consum when its name appears in the text
      in any case, otherwise Mercadona when that name does, otherwise the
      unsupported-vendor exit. */
  function SelectVendor(text: string): (r: Result<Vendor, Error>)
    ensures r == Success(ConsumVendor) <==> CiContains(text, ConsumSignature)
    ensures r == Success(MercadonaVendor) <==>
      !CiContains(text, ConsumSignature) && CiContains(text, MercadonaSignature)
    ensures r.Failure? <==> !CiContains(text, ConsumSignature) && !CiContains(text, MercadonaSignature)
    ensures r.Failure? ==> r.error == UnsupportedVendor
  {
    LowerContains(text, ConsumSignature);
    LowerContains(text, MercadonaSignature);
    var t := ToLower(text);
    if Contains(t, ConsumSignature) then Success(ConsumVendor)
    else if Contains(t, MercadonaSignature) then Success(MercadonaVendor)
    else Failure(UnsupportedVendor)
  }

  /** Upper-casing or lower-casing the receipt never changes the vendor. */
  lemma VendorIgnoresCase(text: string)
    ensures SelectVendor(ToUpper(text)) == SelectVendor(text)
    ensures SelectVendor(ToLower(text)) == SelectVendor(text)
  {
    LowerUpper(text);
    assert ToLower(ToLower(text)) == ToLower(text);
  }

  /** A receipt naming both supermarkets is read as a Consum receipt. */
  lemma ConsumFirst(text: string)
    requires CiContains(text, ConsumSignature) && CiContains(text, MercadonaSignature)
    ensures SelectVendor(text) == Success(ConsumVendor)
  {
  }

  /** The chosen vendor's parser applied to the text, tagged with the vendor. */
  function ParseWith(v: Vendor, text: string): (r: Result<Invoice, Error>)
    ensures r.Success? ==> r.value.supermarket == Supermarket(v)
    ensures v == ConsumVendor ==>
      && (r.Success? <==> Consum.ParseConsum(text).Success?)
      && (r.Success? ==> r.value.body == FromConsum(Consum.ParseConsum(text).value))
      && (r.Failure? ==> r.error == Consum.ParseConsum(text).error)
    ensures v == MercadonaVendor ==>
      && (r.Success? <==> Mercadona.ParseMercadona(text).Success?)
      && (r.Success? ==> r.value.body == FromMercadona(Mercadona.ParseMercadona(text).value))
      && (r.Failure? ==> r.error == Mercadona.ParseMercadona(text).error)
  {
    match v
    case ConsumVendor =>
      var c :- Consum.ParseConsum(text);
      Success(Invoice(Supermarket(v), FromConsum(c)))
    case MercadonaVendor =>
      var m :- Mercadona.ParseMercadona(text);
      Success(Invoice(Supermarket(v), FromMercadona(m)))
  }

  /** The dispatch on the text of a receipt, with the parser given that text. */
  function ParseText(text: string): (r: Result<Invoice, Error>)
    ensures r.Success? ==> (r.value.supermarket == "Consum" <==> CiContains(text, ConsumSignature))
    ensures r.Success? ==> (r.value.supermarket == "Mercadona" <==> !CiContains(text, ConsumSignature))
    ensures !CiContains(text, ConsumSignature) && !CiContains(text, MercadonaSignature) ==>
      r == Failure(UnsupportedVendor)
  {
    var v :- SelectVendor(text);
    ParseWith(v, text)
  }

  /** A receipt that names no supermarket is rejected before any parser runs;
      one that names either is parsed by that vendor's parser alone. */
  lemma ParseTextVendors(text: string)
    ensures CiContains(text, ConsumSignature) ==> ParseText(text) == ParseWith(ConsumVendor, text)
    ensures !CiContains(text, ConsumSignature) && CiContains(text, MercadonaSignature) ==>
      ParseText(text) == ParseWith(MercadonaVendor, text)
  {
  }

  /** `get_invoice` with the vendor's parser given the text that was read. */
  function GetInvoice(fs: FileSystem, path: string, readers: Readers): (r: Result<Invoice, Error>)
    ensures ReadInvoiceFile(fs, path, readers).Failure? ==> r == Failure(ReadInvoiceFile(fs, path, readers).error)
    ensures ReadInvoiceFile(fs, path, readers).Success? ==> r == ParseText(ReadInvoiceFile(fs, path, readers).value)
  {
    var text :- ReadInvoiceFile(fs, path, readers);
    ParseText(text)
  }

  // ----- as written -----

  /** `get_invoice` as the program has it: the vendor's `get_invoice` is
      handed the extracted text, and opens it as a path. Consum's opens it as
      an image and runs its own OCR on it, Mercadona's opens it with the PDF
      reader. A text that names no file ends in the file-not-found exit (a
      text too long to be a path is folded into that exit). */
  function GetInvoiceAsWritten(fs: FileSystem, path: string, readers: Readers): (r: Result<Invoice, Error>)
    ensures ReadInvoiceFile(fs, path, readers).Failure? ==> r == Failure(ReadInvoiceFile(fs, path, readers).error)
    ensures r.Success? ==> ReadInvoiceFile(fs, path, readers).value in fs
  {
    var text :- ReadInvoiceFile(fs, path, readers);
    var v :- SelectVendor(text);
    if text !in fs then Failure(FileNotFound)
    else match fs[text]
      case Directory => Failure(IsDirectory)
      case File(content) =>
        var again := match v
          case ConsumVendor => readers.consumImageText(content)
          case MercadonaVendor => readers.pdfText(content);
        match again
        case None => Failure(ReaderFailed)
        case Some(t) => ParseWith(v, t)
  }

  /** The text read from the receipt is never parsed: unless it happens to be
      the name of a file, every receipt of either supermarket ends in the
      file-not-found exit, the model's one failure for a path that names no
      file. */
  lemma AsWrittenLosesText(fs: FileSystem, path: string, readers: Readers)
    requires ReadInvoiceFile(fs, path, readers).Success?
    requires ReadInvoiceFile(fs, path, readers).value !in fs
    requires SelectVendor(ReadInvoiceFile(fs, path, readers).value).Success?
    ensures GetInvoiceAsWritten(fs, path, readers) == Failure(FileNotFound)
  {
  }

  /** So a receipt the corrected dispatch parses is lost by the program as
      written. */
  lemma AsWrittenDiffers(fs: FileSystem, path: string, readers: Readers)
    requires ReadInvoiceFile(fs, path, readers).Success?
    requires ReadInvoiceFile(fs, path, readers).value !in fs
    requires ParseText(ReadInvoiceFile(fs, path, readers).value).Success?
    ensures GetInvoice(fs, path, readers).Success?
    ensures GetInvoiceAsWritten(fs, path, readers) == Failure(FileNotFound)
  {
    var text := ReadInvoiceFile(fs, path, readers).value;
    assert SelectVendor(text).Success?;
    AsWrittenLosesText(fs, path, readers);
  }

  /** A concrete case: a PDF whose text is `mercadona`. The corrected dispatch
      hands that text to the Mercadona parser; the program as written looks
      for a file called `mercadona`. */
  lemma AsWrittenExample()
    ensures GetInvoiceAsWritten(map["ticket.pdf" := File(PdfMagic)],
                                "ticket.pdf", Readers(_ => Some("mercadona"), _ => None, _ => None)) == Failure(FileNotFound)
    ensures GetInvoice(map["ticket.pdf" := File(PdfMagic)],
                       "ticket.pdf", Readers(_ => Some("mercadona"), _ => None, _ => None))
            == ParseWith(MercadonaVendor, "mercadona")
  {
    var text := "mercadona";
    assert CiOccursAt(text, MercadonaSignature, 0);
    assert !CiContains(text, ConsumSignature) by {
      forall i: nat ensures !CiOccursAt(text, ConsumSignature, i) {
        if i + |ConsumSignature| <= |text| {
          assert i <= 3;
          assert !CiEq(text[i], ConsumSignature[0]) || !CiEq(text[i + 1], ConsumSignature[1]);
        }
      }
    }
    assert StartsWith(PdfMagic, PdfMagic);
  }
}
