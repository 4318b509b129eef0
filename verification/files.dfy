/** Reading a receipt file: the magic-byte classifier `detect_file_type` and the
    error rules of `read_invoice_file`.

    The file system is a map from paths to entries, and the two text
    extractors (the PDF reader and the OCR of an image) are parameters: each
    either yields the text or fails. */
module Files {
  import opened Wrappers
  import opened Models

  newtype byte = b: int | 0 <= b < 256

  /** What a path names. */
  datatype Entry = File(content: seq<byte>) | Directory

  type FileSystem = map<string, Entry>

  datatype FileType = Pdf | Png

  /** The text extractors. `pdfText` is the PDF reader, whose pages are joined
      by line feeds both in `read_pdf_file` and in Mercadona's `get_invoice`.
      `imageText` is the OCR of `read_png_file` (upscaled, sharpened, `spa+eng`);
      `consumImageText` is the different OCR of Consum's `get_invoice`
      (median filter, stronger sharpening, threshold, `spa`), so the two may
      read different text from the same image. `None` is the library's error
      on a file it cannot read. */
  datatype Readers = Readers(pdfText: seq<byte> -> Option<string>, imageText: seq<byte> -> Option<string>,
                             consumImageText: seq<byte> -> Option<string>)

  /** How many bytes `detect_file_type` reads. */
  const HeaderLength: nat := 8

  /** `%PDF`. */
  const PdfMagic: seq<byte> := [0x25, 0x50, 0x44, 0x46]

  /** The PNG signature (section 5.2 of the PNG specification, ISO/IEC 15948). */
  const PngSignature: seq<byte> := [0x89, 0x50, 0x4E, 0x47, 0x0D, 0x0A, 0x1A, 0x0A]

  /** `bytes.startswith`. */
  predicate StartsWith(b: seq<byte>, p: seq<byte>) {
    |p| <= |b| && b[..|p|] == p
  }

  /** `f.read(8)`: at most the first eight bytes. */
  function Header(content: seq<byte>): (h: seq<byte>)
    ensures |h| <= HeaderLength
  {
    if |content| <= HeaderLength then content else content[..HeaderLength]
  }

  /** A prefix no longer than the header starts the header exactly when it
      starts the whole content. */
  lemma HeaderStartsWith(content: seq<byte>, p: seq<byte>)
    requires |p| <= HeaderLength
    ensures StartsWith(Header(content), p) <==> StartsWith(content, p)
  {
    if |content| > HeaderLength && |p| <= |content| {
      assert Header(content)[..|p|] == content[..|p|];
    }
  }

  /** `detect_file_type` on the bytes of a file. The magic numbers are read in
      the header, but since neither is longer than it, the classification is
      the one of the whole content: `%PDF` first, then the PNG signature. */
  function DetectFileType(content: seq<byte>): (r: Option<FileType>)
    ensures r == Some(Pdf) <==> StartsWith(content, PdfMagic)
    ensures r == Some(Png) <==> StartsWith(content, PngSignature)
    ensures r.None? <==> !StartsWith(content, PdfMagic) && !StartsWith(content, PngSignature)
  {
    HeaderStartsWith(content, PdfMagic);
    HeaderStartsWith(content, PngSignature);
    // The two magic numbers differ in their first byte.
    assert StartsWith(content, PngSignature) ==> !StartsWith(content, PdfMagic) by {
      if StartsWith(content, PngSignature) {
        assert content[0] == PngSignature[0];
      }
    }
    var h := Header(content);
    if StartsWith(h, PdfMagic) then Some(Pdf)
    else if StartsWith(h, PngSignature) then Some(Png)
    else None
  }

  /** Only the first eight bytes are inspected: whatever follows them never
      changes the classification. */
  lemma DetectIgnoresTail(content: seq<byte>, tail: seq<byte>)
    requires |content| >= HeaderLength
    ensures DetectFileType(content + tail) == DetectFileType(content)
  {
    assert (content + tail)[..HeaderLength] == content[..HeaderLength];
    HeaderStartsWith(content, PdfMagic);
    HeaderStartsWith(content, PngSignature);
    HeaderStartsWith(content + tail, PdfMagic);
    HeaderStartsWith(content + tail, PngSignature);
  }

  /** Two contents with the same header are classified alike. */
  lemma DetectByHeader(a: seq<byte>, b: seq<byte>)
    requires Header(a) == Header(b)
    ensures DetectFileType(a) == DetectFileType(b)
  {
    HeaderStartsWith(a, PdfMagic);
    HeaderStartsWith(a, PngSignature);
    HeaderStartsWith(b, PdfMagic);
    HeaderStartsWith(b, PngSignature);
  }

  /** The extractor for a detected type. */
  function Extract(readers: Readers, t: FileType, content: seq<byte>): Option<string> {
    match t
    case Pdf => readers.pdfText(content)
    case Png => readers.imageText(content)
  }

  /** `read_invoice_file`. The checks come in the program's order: the path
      must exist, it must be a file (opening a directory fails inside
      `detect_file_type`), its type must be known, its extractor must succeed,
      and the text must not be empty. */
  function ReadInvoiceFile(fs: FileSystem, path: string, readers: Readers): (r: Result<string, Error>)
    ensures r == Failure(FileNotFound) <==> path !in fs
    ensures r == Failure(IsDirectory) <==> path in fs && fs[path].Directory?
    ensures r == Failure(UnsupportedFileType) <==>
      path in fs && fs[path].File? && DetectFileType(fs[path].content).None?
    ensures r.Success? ==> r.value != ""
    ensures r.Success? ==>
      && path in fs && fs[path].File? && DetectFileType(fs[path].content).Some?
      && Extract(readers, DetectFileType(fs[path].content).value, fs[path].content) == Some(r.value)
  {
    if path !in fs then Failure(FileNotFound)
    else match fs[path]
      case Directory => Failure(IsDirectory)
      case File(content) =>
        match DetectFileType(content)
        case None => Failure(UnsupportedFileType)
        case Some(t) =>
          match Extract(readers, t, content)
          case None => Failure(ReaderFailed)
          case Some(text) => if text == "" then Failure(EmptyText) else Success(text)
  }

  /** A readable file of a known type yields exactly its extractor's text, and
      an extractor's empty text is the empty-text error. */
  lemma ReadKnownFile(fs: FileSystem, path: string, readers: Readers, t: FileType, text: string)
    requires path in fs && fs[path].File?
    requires DetectFileType(fs[path].content) == Some(t)
    requires Extract(readers, t, fs[path].content) == Some(text)
    ensures text != "" ==> ReadInvoiceFile(fs, path, readers) == Success(text)
    ensures text == "" ==> ReadInvoiceFile(fs, path, readers) == Failure(EmptyText)
  {
  }

  /** A file the extractor cannot read is the reader's error. */
  lemma ReadUnreadableFile(fs: FileSystem, path: string, readers: Readers, t: FileType)
    requires path in fs && fs[path].File?
    requires DetectFileType(fs[path].content) == Some(t)
    requires Extract(readers, t, fs[path].content).None?
    ensures ReadInvoiceFile(fs, path, readers) == Failure(ReaderFailed)
  {
  }
}
