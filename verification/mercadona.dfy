/** The header rules of the Mercadona receipt (`ORDER_NUMBER_RE`,
    `INVOICE_NUMBER_RE`, `TOTAL_INVOICE_RE`, `PAYMENT_DATE_RE`) and the
    assembly of a `MercadonaInvoice` from the text of a receipt.

    As for the Consum receipt, these patterns are searched for in the whole
    text: each recogniser `XAt(text, i)` says what the pattern matches when the
    regex engine tries it at position `i`, and the search takes the leftmost
    position at which it succeeds (`Scan.FirstMatch`). Where the engine has to
    give back characters of a greedy run, the recogniser tries the candidates
    in the same order (`Scan.LastMatch`). */
module Mercadona {
  import opened Wrappers
  import opened Strings
  import opened Numeric
  import opened Models
  import opened Calendar
  import opened Scan
  import MercadonaLines

  datatype MercadonaInvoice = MercadonaInvoice(
    products: seq<Product>,
    orderNumber: nat,
    invoiceNumber: string,
    paymentDate: DateTime,
    total: real)

  // ----- ORDER_NUMBER_RE: `(?:Pedido Nº|OP):\s+([0-9]+)` -----

  const PedidoLabel: string := "Pedido N\U{BA}:"
  const OpLabel: string := "OP:"

  /** One of the two labels, colon included, starts at `i` and ends at `k`. */
  predicate OrderLabel(text: string, i: nat, k: nat) {
    || (OccursAt(text, PedidoLabel, i) && k == i + |PedidoLabel|)
    || (OccursAt(text, OpLabel, i) && k == i + |OpLabel|)
  }

  /** Where the label at `i` ends. The two labels start with different letters,
      so at most one of them is there. */
  function LabelEnd(text: string, i: nat): (r: Option<nat>)
    ensures forall k: nat :: OrderLabel(text, i, k) <==> r == Some(k)
  {
    if OccursAt(text, PedidoLabel, i) then
      assert text[i] == PedidoLabel[0];
      Some(i + |PedidoLabel|)
    else if OccursAt(text, OpLabel, i) then Some(i + |OpLabel|)
    else None
  }

  /** `\s+([0-9]+)` from `k`: where the digits start and end. A digit is not
      whitespace, so both greedy runs are the longest ones. */
  function DigitsAfter(text: string, k: nat): (r: Option<(nat, nat)>)
    requires k <= |text|
    ensures r.Some? ==> k < r.value.0 < r.value.1 <= |text|
  {
    var b := SpanEnd(text, k, IsSpace);
    var d := SpanEnd(text, b, IsDigit);
    if k < b < d then Some((b, d)) else None
  }

  /** The pattern matches at `i` with group `n`: a label ending at `k`,
      whitespace up to `b`, then the whole digit run `n`. */
  ghost predicate OrderShape(text: string, i: nat, k: nat, b: nat, n: string) {
    && OrderLabel(text, i, k)
    && k < b <= |text| && AllSpace(text[k..b])
    && OccursAt(text, n, b) && IsDigits(n) && DigitsEndAt(text, b + |n|)
  }

  /** The group of a match at `i`. */
  function OrderAt(text: string, i: nat): (r: Option<string>)
    ensures r.Some? ==> IsDigits(r.value)
  {
    match LabelEnd(text, i)
    case None => None
    case Some(k) =>
      match DigitsAfter(text, k)
      case None => None
      case Some(g) =>
        DigitRun(text, g.0, g.1);
        Some(text[g.0..g.1])
  }

  lemma DigitsAfterWitness(text: string, k: nat)
    requires k <= |text| && DigitsAfter(text, k).Some?
    ensures AllSpace(text[k..DigitsAfter(text, k).value.0])
    ensures DigitsEndAt(text, DigitsAfter(text, k).value.1)
  {
    var b := SpanEnd(text, k, IsSpace);
    assert forall j :: 0 <= j < b - k ==> text[k..b][j] == text[k + j];
  }

  lemma DigitsAfterCaptures(text: string, k: nat, b: nat, n: string)
    requires k < b <= |text| && AllSpace(text[k..b])
    requires OccursAt(text, n, b) && IsDigits(n) && DigitsEndAt(text, b + |n|)
    ensures DigitsAfter(text, k) == Some((b, b + |n|))
  {
    CharInside(text, b, n, 0);
    SpaceRunTo(text, k, b);
    assert n[0..] == n;
    RunToEnd(text, b, n, 0);
  }

  /** The recogniser finds exactly the matches the pattern allows at `i`. */
  lemma OrderMatch(text: string, i: nat, n: string)
    ensures OrderAt(text, i) == Some(n) <==> exists k: nat, b: nat :: OrderShape(text, i, k, b, n)
  {
    if OrderAt(text, i) == Some(n) {
      OrderWitness(text, i, n);
    }
    if exists k: nat, b: nat :: OrderShape(text, i, k, b, n) {
      var k: nat, b: nat :| OrderShape(text, i, k, b, n);
      OrderCaptures(text, i, k, b, n);
    }
  }

  lemma OrderWitness(text: string, i: nat, n: string)
    requires OrderAt(text, i) == Some(n)
    ensures exists k: nat, b: nat :: OrderShape(text, i, k, b, n)
  {
    var k := LabelEnd(text, i).value;
    var g := DigitsAfter(text, k).value;
    DigitsAfterWitness(text, k);
    OccursAtSlice(text, g.0, g.1);
    assert OrderShape(text, i, k, g.0, n);
  }

  lemma OrderCaptures(text: string, i: nat, k: nat, b: nat, n: string)
    requires OrderShape(text, i, k, b, n)
    ensures OrderAt(text, i) == Some(n)
  {
    DigitsAfterCaptures(text, k, b, n);
    assert text[b..b + |n|] == n;
  }

  /** `_get_order_number`: `int()` of the group of the first match. */
  function FindOrderNumber(text: string): (r: Result<nat, Error>)
    ensures r.Failure? ==> r.error == MissingField(Field.OrderNumber)
  {
    match FirstMatch(text, 0, OrderAt)
    case None => Failure(MissingField(Field.OrderNumber))
    case Some(n) => Success(DigitsValue(n))
  }

  /** The order number is the value of the digits after the leftmost label
      followed by whitespace and digits, and it is missing exactly when no
      label is. */
  lemma OrderOfFirstMatch(text: string)
    ensures FindOrderNumber(text).Success? <==>
      exists i: nat, k: nat, b: nat, n: string :: i <= |text| && OrderShape(text, i, k, b, n)
    ensures FindOrderNumber(text).Success? ==>
      exists i: nat, k: nat, b: nat, n: string :: i <= |text| && OrderShape(text, i, k, b, n)
        && FindOrderNumber(text).value == DigitsValue(n)
        && forall j: nat, k': nat, b': nat, n': string :: j < i ==> !OrderShape(text, j, k', b', n')
  {
    var r := FirstMatch(text, 0, OrderAt);
    if r.Some? {
      var i :| 0 <= i <= |text| && OrderAt(text, i) == r && forall j :: 0 <= j < i ==> OrderAt(text, j).None?;
      OrderMatch(text, i, r.value);
      forall j: nat, k': nat, b': nat, n': string | j < i ensures !OrderShape(text, j, k', b', n') {
        OrderMatch(text, j, n');
      }
    } else {
      forall i: nat, k: nat, b: nat, n: string | i <= |text| ensures !OrderShape(text, i, k, b, n) {
        OrderMatch(text, i, n);
      }
    }
  }

  /** A receipt whose text is one of the labels, a space and a printed number has that
      order number. */
  lemma OrderRoundTrip(tag: string, n: nat)
    requires tag == PedidoLabel || tag == OpLabel
    ensures FindOrderNumber(tag + " " + NatToString(n)) == Success(n)
  {
    var q := NatToString(n);
    var s := tag + " " + q;
    var k := |tag|;
    assert s[..k] == tag;
    assert OrderLabel(s, 0, k);
    assert s[k..k + 1] == " ";
    assert s[k + 1..k + 1 + |q|] == q;
    OrderCaptures(s, 0, k, k + 1, q);
    FirstMatchLeast(s, 0, OrderAt, 0);
  }

  // ----- INVOICE_NUMBER_RE: `Factura \w+:\s+([0-9\- ]+)\n`, IGNORECASE -----

  const InvoiceWord: string := "factura "

  /** `[0-9\- ]`. */
  predicate IsInvoiceChar(c: char) {
    IsDigit(c) || c == '-' || c == ' '
  }

  /** `Factura \w+:` in any case at `i`, ending at `k`, just after the colon. */
  ghost predicate ColonShape(text: string, i: nat, k: nat) {
    && CiOccursAt(text, InvoiceWord, i)
    && i + |InvoiceWord| + 1 < k <= |text|
    && (forall j :: i + |InvoiceWord| <= j < k - 1 ==> IsWordChar(text[j]))
    && text[k - 1] == ':'
  }

  /** `([0-9\- ]+)\n` at `s` with group `g`. */
  ghost predicate GroupShape(text: string, s: nat, g: string) {
    && OccursAt(text, g, s) && |g| > 0
    && (forall j :: 0 <= j < |g| ==> IsInvoiceChar(g[j]))
    && s + |g| < |text| && text[s + |g|] == '\n'
  }

  /** The pattern can match at `i` with its group starting at `s`. */
  ghost predicate InvoiceShape(text: string, i: nat, k: nat, s: nat, g: string) {
    ColonShape(text, i, k) && k < s && GroupShape(text, s, g) && AllSpace(text[k..s])
  }

  /** Where `Factura \w+:` at `i` ends. The word run cannot give characters
      back, since `:` is not a word character. */
  function ColonEnd(text: string, i: nat): (r: Option<nat>)
    ensures r.Some? ==> r.value <= |text|
  {
    if CiOccursAt(text, InvoiceWord, i) then
      var w := SpanEnd(text, i + |InvoiceWord|, IsWordChar);
      if i + |InvoiceWord| < w < |text| && text[w] == ':' then Some(w + 1) else None
    else None
  }

  lemma ColonMatch(text: string, i: nat, k: nat)
    ensures ColonShape(text, i, k) <==> ColonEnd(text, i) == Some(k)
  {
    if ColonShape(text, i, k) {
      SpanEndUnique(text, i + |InvoiceWord|, IsWordChar, k - 1);
    }
  }

  /** The group starting at `s`: its characters run to the first one outside
      the class, which has to be a line feed. */
  function GroupFrom(text: string, s: nat): Option<string> {
    if s <= |text| then
      var n := SpanEnd(text, s, IsInvoiceChar);
      if s < n < |text| && text[n] == '\n' then Some(text[s..n]) else None
    else None
  }

  lemma GroupMatch(text: string, s: nat, g: string)
    ensures GroupShape(text, s, g) <==> GroupFrom(text, s) == Some(g)
  {
    if GroupFrom(text, s).Some? {
      var n := SpanEnd(text, s, IsInvoiceChar);
      GroupFromShape(text, s, n);
    } else if GroupShape(text, s, g) {
      assert forall j :: s <= j < s + |g| ==> text[j] == g[j - s];
      SpanEndUnique(text, s, IsInvoiceChar, s + |g|);
    }
  }

  lemma GroupFromShape(text: string, s: nat, n: nat)
    requires s < n < |text| && text[n] == '\n' && forall j :: s <= j < n ==> IsInvoiceChar(text[j])
    ensures GroupShape(text, s, text[s..n])
    ensures forall g :: GroupShape(text, s, g) ==> g == text[s..n]
  {
    assert forall j :: 0 <= j < n - s ==> text[s..n][j] == text[s + j];
    forall g | GroupShape(text, s, g) ensures g == text[s..n] {
      assert forall j :: s <= j < s + |g| ==> text[j] == g[j - s];
      SpanEndUnique(text, s, IsInvoiceChar, s + |g|);
      SpanEndUnique(text, s, IsInvoiceChar, n);
    }
  }

  /** A match at `i`. The `\s+` first takes the whole whitespace run and then
      gives it back one character at a time, so the group starts at the last
      position of the run from which the rest of the pattern matches. A space
      belongs both to `\s` and to the group, so that position can lie before a
      line feed inside the run. */
  function InvoiceAt(text: string, i: nat): Option<string> {
    match ColonEnd(text, i)
    case None => None
    case Some(k) => GroupAfter(text, k)
  }

  /** `\s+([0-9\- ]+)\n` from `k`. */
  function GroupAfter(text: string, k: nat): Option<string>
    requires k <= |text|
  {
    LastMatch(text, k, SpaceEnd(text, k), GroupFrom)
  }

  /** The end of the whitespace run from `k`. It is kept apart from `SpanEnd`
      so that the character facts of the run come into a proof only through
      `SpaceUpTo`. */
  function SpaceEnd(text: string, k: nat): (e: nat)
    requires k <= |text|
    ensures k <= e <= |text|
    decreases |text| - k
  {
    if k == |text| || !IsSpace(text[k]) then k else SpaceEnd(text, k + 1)
  }

  lemma {:induction false} SpaceEndIsSpan(text: string, k: nat)
    requires k <= |text|
    ensures SpaceEnd(text, k) == SpanEnd(text, k, IsSpace)
    decreases |text| - k
  {
    if k < |text| && IsSpace(text[k]) {
      SpaceEndIsSpan(text, k + 1);
    }
  }

  /** Whitespace from `k` to `s` is exactly the part of the run up to `s`. */
  lemma SpaceUpTo(text: string, k: nat, s: nat)
    requires k <= s <= |text|
    ensures AllSpace(text[k..s]) <==> s <= SpaceEnd(text, k)
  {
    SpaceEndIsSpan(text, k);
    var e := SpanEnd(text, k, IsSpace);
    assert forall j :: k <= j < s ==> text[j] == text[k..s][j - k];
    if s <= e {
      assert forall j :: 0 <= j < s - k ==> text[k..s][j] == text[k + j];
    }
  }

  /** The recogniser finds the match the engine finds at `i`: the pattern
      matches with the group at `s`, and with no later group start. */
  lemma InvoiceMatch(text: string, i: nat, g: string)
    ensures InvoiceAt(text, i) == Some(g) <==>
      exists k: nat, s: nat :: InvoiceShape(text, i, k, s, g)
        && forall s': nat, g': string :: s < s' ==> !InvoiceShape(text, i, k, s', g')
  {
    if InvoiceAt(text, i) == Some(g) {
      InvoiceWitness(text, i, g);
    }
    if exists k: nat, s: nat :: InvoiceShape(text, i, k, s, g)
        && forall s': nat, g': string :: s < s' ==> !InvoiceShape(text, i, k, s', g') {
      var k: nat, s: nat :| InvoiceShape(text, i, k, s, g)
        && forall s': nat, g': string :: s < s' ==> !InvoiceShape(text, i, k, s', g');
      InvoiceCaptures(text, i, k, s, g);
    }
  }

  lemma InvoiceWitness(text: string, i: nat, g: string)
    requires InvoiceAt(text, i) == Some(g)
    ensures exists k: nat, s: nat :: (InvoiceShape(text, i, k, s, g)
      && forall s': nat, g': string :: s < s' ==> !InvoiceShape(text, i, k, s', g'))
  {
    var k := ColonEnd(text, i).value;
    var e := SpaceEnd(text, k);
    var s :| k < s <= e && GroupFrom(text, s) == Some(g)
      && forall j :: s < j <= e ==> GroupFrom(text, j).None?;
    GroupShapeBack(text, i, k, s);
    forall s': nat, g': string | s < s' ensures !InvoiceShape(text, i, k, s', g') {
      if InvoiceShape(text, i, k, s', g') {
        ShapeGroup(text, i, k, s', g');
      }
    }
  }

  lemma InvoiceCaptures(text: string, i: nat, k: nat, s: nat, g: string)
    requires InvoiceShape(text, i, k, s, g)
    requires forall s': nat, g': string :: s < s' ==> !InvoiceShape(text, i, k, s', g')
    ensures InvoiceAt(text, i) == Some(g)
  {
    var e := SpaceEnd(text, k);
    ShapeGroup(text, i, k, s, g);
    forall j | s < j <= e ensures GroupFrom(text, j).None? {
      if GroupFrom(text, j).Some? {
        GroupShapeBack(text, i, k, j);
      }
    }
    LastGroup(text, k, s);
    assert InvoiceAt(text, i) == GroupAfter(text, k);
  }

  /** The recogniser takes the last start in the run that it accepts. */
  lemma LastGroup(text: string, k: nat, s: nat)
    requires k <= |text| && k < s <= SpaceEnd(text, k) && GroupFrom(text, s).Some?
    requires forall j :: s < j <= SpaceEnd(text, k) ==> GroupFrom(text, j).None?
    ensures GroupAfter(text, k) == GroupFrom(text, s)
  {
    LastMatchGreatest(text, k, SpaceEnd(text, k), GroupFrom, s);
  }

  /** A group start allowed by the pattern lies in the whitespace run and is
      one the recogniser tries. */
  lemma ShapeGroup(text: string, i: nat, k: nat, s: nat, g: string)
    requires InvoiceShape(text, i, k, s, g)
    ensures ColonEnd(text, i) == Some(k)
    ensures s <= SpaceEnd(text, k) && GroupFrom(text, s) == Some(g)
  {
    ColonMatch(text, i, k);
    GroupMatch(text, s, g);
    SpaceUpTo(text, k, s);
  }

  /** A start the recogniser tries and accepts is allowed by the pattern. */
  lemma GroupShapeBack(text: string, i: nat, k: nat, s: nat)
    requires ColonEnd(text, i) == Some(k)
    requires k < s <= SpaceEnd(text, k) && GroupFrom(text, s).Some?
    ensures InvoiceShape(text, i, k, s, GroupFrom(text, s).value)
  {
    ColonMatch(text, i, k);
    GroupMatch(text, s, GroupFrom(text, s).value);
    SpaceUpTo(text, k, s);
  }

  /** `_get_invoice_number`: the group of the first match. */
  function FindInvoiceNumber(text: string): (r: Result<string, Error>)
    ensures r.Failure? ==> r.error == MissingField(Field.InvoiceNumber)
  {
    match FirstMatch(text, 0, InvoiceAt)
    case None => Failure(MissingField(Field.InvoiceNumber))
    case Some(g) => Success(g)
  }

  /** The pattern can match somewhere from `i`. */
  ghost predicate InvoiceMatchesAt(text: string, i: nat) {
    exists k: nat, s: nat, g: string :: InvoiceShape(text, i, k, s, g)
  }

  /** The invoice number is missing exactly when the pattern matches nowhere;
      otherwise it is the group of the engine's match at the leftmost position
      where the pattern matches. */
  lemma InvoiceOfFirstMatch(text: string)
    ensures FindInvoiceNumber(text).Success? <==> exists i: nat :: i <= |text| && InvoiceMatchesAt(text, i)
    ensures FindInvoiceNumber(text).Success? ==>
      exists i: nat :: i <= |text| && InvoiceAt(text, i) == Some(FindInvoiceNumber(text).value)
        && InvoiceMatchesAt(text, i) && forall j: nat :: j < i ==> !InvoiceMatchesAt(text, j)
  {
    var r := FirstMatch(text, 0, InvoiceAt);
    if r.Some? {
      var i :| 0 <= i <= |text| && InvoiceAt(text, i) == r && forall j :: 0 <= j < i ==> InvoiceAt(text, j).None?;
      InvoiceMatchesWhere(text, i);
      forall j: nat | j < i ensures !InvoiceMatchesAt(text, j) {
        InvoiceMatchesWhere(text, j);
      }
    } else {
      forall i: nat | i <= |text| ensures !InvoiceMatchesAt(text, i) {
        InvoiceMatchesWhere(text, i);
      }
    }
  }

  /** The engine finds a match at `i` exactly where the pattern can match. */
  lemma InvoiceMatchesWhere(text: string, i: nat)
    ensures InvoiceMatchesAt(text, i) <==> InvoiceAt(text, i).Some?
  {
    if InvoiceMatchesAt(text, i) {
      var k: nat, s: nat, g: string :| InvoiceShape(text, i, k, s, g);
      ShapeGroup(text, i, k, s, g);
      var e := SpaceEnd(text, k);
      assert LastMatch(text, k, e, GroupFrom).Some?;
    }
    if InvoiceAt(text, i).Some? {
      InvoiceWitness(text, i, InvoiceAt(text, i).value);
    }
  }

  /** A receipt whose text is `Factura`, a word, a colon, a space and an invoice
      number starting with a digit or dash, ended by a line feed, has that
      invoice number. */
  lemma InvoiceRoundTrip(word: string, g: string)
    requires |word| > 0 && forall j :: 0 <= j < |word| ==> IsWordChar(word[j])
    requires |g| > 0 && g[0] != ' ' && forall j :: 0 <= j < |g| ==> IsInvoiceChar(g[j])
    ensures FindInvoiceNumber("Factura " + word + ": " + g + "\n") == Success(g)
  {
    var text := "Factura " + word + ": " + g + "\n";
    var k := 8 + |word| + 1;
    assert CiOccursAt(text, InvoiceWord, 0);
    assert ColonShape(text, 0, k);
    assert text[k..k + 1] == " ";
    assert text[k + 1..k + 1 + |g|] == g;
    assert GroupShape(text, k + 1, g);
    assert !IsSpace(text[k + 1]);
    SpanEndUnique(text, k, IsSpace, k + 1);
    forall s': nat, g': string | k + 1 < s' ensures !InvoiceShape(text, 0, k, s', g') {
      if InvoiceShape(text, 0, k, s', g') {
        ShapeGroup(text, 0, k, s', g');
      }
    }
    InvoiceCaptures(text, 0, k, k + 1, g);
    FirstMatchLeast(text, 0, InvoiceAt, 0);
  }

  // ----- TOTAL_INVOICE_RE: `TOTAL.*€.*?(\d+[.,]\d+)`, IGNORECASE -----

  const TotalWord: string := "total"

  /** The rest of the line from `k`: what `.` can run over. */
  function LineAfter(text: string, k: nat): (l: string)
    requires k <= |text|
    ensures '\n' !in l
  {
    var e := SpanEnd(text, k, IsNotNewline);
    assert forall j :: 0 <= j < e - k ==> text[k..e][j] == text[k + j];
    text[k..e]
  }

  /** `\d+[.,]\d+` at `x` with group `g`; the last `\d+` is greedy. */
  ghost predicate AmountShape(l: string, x: nat, g: string) {
    OccursAt(l, g, x) && IsDecimal(g) && DigitsEndAt(l, x + |g|)
  }

  /** The amount at `x`. The first digit run cannot give characters back, since
      the separator is not a digit. */
  function AmountAt(l: string, x: nat): (r: Option<string>)
    ensures r.Some? ==> IsDecimal(r.value)
  {
    if x <= |l| then
      var c := SpanEnd(l, x, IsDigit);
      if x < c < |l| && IsSep(l[c]) then
        var d := SpanEnd(l, c + 1, IsDigit);
        if c + 1 < d then
          AmountParts(l, x, c, d);
          Some(l[x..d])
        else None
      else None
    else None
  }

  lemma AmountParts(l: string, x: nat, c: nat, d: nat)
    requires x < c < d <= |l| && c + 1 < d && IsSep(l[c])
    requires forall j :: x <= j < c ==> IsDigit(l[j])
    requires forall j :: c < j < d ==> IsDigit(l[j])
    ensures IsDecimal(l[x..d]) && SepIndex(l[x..d]) == c - x
  {
    var g := l[x..d];
    assert forall j :: 0 <= j < d - x ==> g[j] == l[x + j];
    SpanEndUnique(g, 0, IsDigit, c - x);
    var h := g[c - x + 1..];
    assert forall j :: 0 <= j < |h| ==> h[j] == l[c + 1 + j];
  }

  lemma AmountMatch(l: string, x: nat, g: string)
    ensures AmountAt(l, x) == Some(g) <==> AmountShape(l, x, g)
  {
    if AmountAt(l, x) == Some(g) {
      AmountWitness(l, x);
    }
    if AmountShape(l, x, g) {
      AmountCaptures(l, x, g);
    }
  }

  lemma AmountWitness(l: string, x: nat)
    requires AmountAt(l, x).Some?
    ensures AmountShape(l, x, AmountAt(l, x).value)
  {
    var c := SpanEnd(l, x, IsDigit);
    var d := SpanEnd(l, c + 1, IsDigit);
    OccursAtSlice(l, x, d);
  }

  lemma AmountCaptures(l: string, x: nat, g: string)
    requires AmountShape(l, x, g)
    ensures AmountAt(l, x) == Some(g)
  {
    DecimalRuns(l, x, g);
    assert l[x..x + |g|] == g;
  }

  /** A euro sign ends just before `q` and an amount follows at `x`. */
  ghost predicate EuroShape(l: string, q: nat, x: nat, g: string) {
    0 < q <= x && AmountShape(l, x, g) && l[q - 1] == '€'
  }

  /** What `.*?(\d+[.,]\d+)` makes of the line after a euro sign ending
      before `q`: the lazy `.*?` stops at the first amount. */
  function EuroAmount(l: string, q: nat): (r: Option<string>)
    ensures r.Some? ==> IsDecimal(r.value)
  {
    if 0 < q <= |l| && l[q - 1] == '€' then FirstMatch(l, q, AmountAt) else None
  }

  /** The part of the pattern after `TOTAL` on a line. The greedy `.*` before
      `€` gives characters back from the end of the line, so the last euro
      sign that an amount follows is the one used. */
  function TotalInLine(l: string): (r: Option<string>)
    ensures r.Some? ==> IsDecimal(r.value)
  {
    LastMatch(l, 0, |l|, EuroAmount)
  }

  lemma EuroMatch(l: string, q: nat, g: string)
    ensures EuroAmount(l, q) == Some(g) <==>
      exists x: nat :: EuroShape(l, q, x, g) && forall x': nat, g': string :: x' < x ==> !EuroShape(l, q, x', g')
  {
    if EuroAmount(l, q) == Some(g) {
      EuroWitness(l, q, g);
    }
    if exists x: nat :: EuroShape(l, q, x, g) && forall x': nat, g': string :: x' < x ==> !EuroShape(l, q, x', g') {
      var x: nat :| EuroShape(l, q, x, g) && forall x': nat, g': string :: x' < x ==> !EuroShape(l, q, x', g');
      EuroCaptures(l, q, x, g);
    }
  }

  lemma EuroWitness(l: string, q: nat, g: string)
    requires EuroAmount(l, q) == Some(g)
    ensures exists x: nat :: EuroShape(l, q, x, g) && forall x': nat, g': string :: x' < x ==> !EuroShape(l, q, x', g')
  {
    var x :| q <= x <= |l| && AmountAt(l, x) == Some(g) && forall k :: q <= k < x ==> AmountAt(l, k).None?;
    AmountWitness(l, x);
    forall x': nat, g': string | x' < x ensures !EuroShape(l, q, x', g') {
      if EuroShape(l, q, x', g') {
        AmountCaptures(l, x', g');
      }
    }
    assert EuroShape(l, q, x, g);
  }

  lemma EuroCaptures(l: string, q: nat, x: nat, g: string)
    requires EuroShape(l, q, x, g)
    requires forall x': nat, g': string :: x' < x ==> !EuroShape(l, q, x', g')
    ensures EuroAmount(l, q) == Some(g)
  {
    AmountCaptures(l, x, g);
    forall k | q <= k < x ensures AmountAt(l, k).None? {
      if AmountAt(l, k).Some? {
        AmountWitness(l, k);
        assert EuroShape(l, q, k, AmountAt(l, k).value);
      }
    }
    FirstMatchLeast(l, q, AmountAt, x);
  }

  /** A euro sign is followed by an amount exactly when the lazy search finds one. */
  lemma EuroSome(l: string, q: nat)
    ensures EuroAmount(l, q).Some? <==> exists x: nat, g: string :: EuroShape(l, q, x, g)
  {
    if EuroAmount(l, q).Some? {
      EuroMatch(l, q, EuroAmount(l, q).value);
    }
    if exists x: nat, g: string :: EuroShape(l, q, x, g) {
      var x: nat, g: string :| EuroShape(l, q, x, g);
      AmountMatch(l, x, g);
    }
  }

  /** Some euro sign on the line is followed by an amount. */
  ghost predicate EuroLine(l: string) {
    exists q: nat, x: nat, g: string :: EuroShape(l, q, x, g)
  }

  /** The engine's choice on the line: the amount at `x` is the first one after
      the euro sign ending before `q`, and no later euro sign has an amount
      after it. */
  ghost predicate TotalLineShape(l: string, q: nat, x: nat, g: string) {
    && EuroShape(l, q, x, g)
    && (forall q': nat, x': nat, g': string :: q < q' ==> !EuroShape(l, q', x', g'))
    && (forall x': nat, g': string :: x' < x ==> !EuroShape(l, q, x', g'))
  }

  /** The line yields the first amount after the last euro sign that an amount
      follows. */
  lemma TotalLineMatch(l: string, g: string)
    ensures TotalInLine(l) == Some(g) <==> exists q: nat, x: nat :: TotalLineShape(l, q, x, g)
  {
    if TotalInLine(l) == Some(g) {
      TotalLineWitness(l, g);
    }
    if exists q: nat, x: nat :: TotalLineShape(l, q, x, g) {
      var q: nat, x: nat :| TotalLineShape(l, q, x, g);
      TotalLineCaptures(l, q, x, g);
    }
  }

  lemma TotalLineWitness(l: string, g: string)
    requires TotalInLine(l) == Some(g)
    ensures exists q: nat, x: nat :: TotalLineShape(l, q, x, g)
  {
    var q :| 0 < q <= |l| && EuroAmount(l, q) == Some(g) && forall k :: q < k <= |l| ==> EuroAmount(l, k).None?;
    EuroWitness(l, q, g);
    var x: nat :| EuroShape(l, q, x, g) && forall x': nat, g': string :: x' < x ==> !EuroShape(l, q, x', g');
    forall q': nat, x': nat, g': string | q < q' ensures !EuroShape(l, q', x', g') {
      if EuroShape(l, q', x', g') {
        EuroSome(l, q');
      }
    }
    assert TotalLineShape(l, q, x, g);
  }

  lemma TotalLineCaptures(l: string, q: nat, x: nat, g: string)
    requires TotalLineShape(l, q, x, g)
    ensures TotalInLine(l) == Some(g)
  {
    EuroCaptures(l, q, x, g);
    forall k | q < k <= |l| ensures EuroAmount(l, k).None? {
      EuroSome(l, k);
    }
    LastMatchGreatest(l, 0, |l|, EuroAmount, q);
  }

  /** The group of a match at `i`. */
  function TotalAt(text: string, i: nat): (r: Option<string>)
    ensures r.Some? ==> IsDecimal(r.value)
  {
    if CiOccursAt(text, TotalWord, i) then TotalInLine(LineAfter(text, i + |TotalWord|)) else None
  }

  /** `_get_invoice_total`: `float()` of the group of the first match, with `,`
      read as `.`. */
  function FindTotal(text: string): (r: Result<real, Error>)
    ensures r.Failure? ==> r.error == MissingField(Field.Total)
  {
    match FirstMatch(text, 0, TotalAt)
    case None => Failure(MissingField(Field.Total))
    case Some(g) =>
      DecimalIsSigned(g);
      Success(DecimalValue(g))
  }

  /** `TOTAL` in any case at `i`, and a euro sign followed by an amount later on
      its line. */
  ghost predicate TotalMatchesAt(text: string, i: nat) {
    && CiOccursAt(text, TotalWord, i)
    && EuroLine(LineAfter(text, i + |TotalWord|))
  }

  /** The total is missing exactly when the pattern matches nowhere; otherwise
      it is the value of the group the engine takes at the leftmost position
      where the pattern matches. */
  lemma TotalOfFirstMatch(text: string)
    ensures FindTotal(text).Success? <==> exists i: nat :: i <= |text| && TotalMatchesAt(text, i)
    ensures FindTotal(text).Success? ==>
      exists i: nat, g: string :: i <= |text| && TotalMatchesAt(text, i) && TotalAt(text, i) == Some(g)
        && IsSignedDecimal(g) && FindTotal(text).value == DecimalValue(g)
        && forall j: nat :: j < i ==> !TotalMatchesAt(text, j)
  {
    var r := FirstMatch(text, 0, TotalAt);
    if r.Some? {
      var i :| 0 <= i <= |text| && TotalAt(text, i) == r && forall j :: 0 <= j < i ==> TotalAt(text, j).None?;
      TotalMatchesWhere(text, i);
      DecimalIsSigned(r.value);
      forall j: nat | j < i ensures !TotalMatchesAt(text, j) {
        TotalMatchesWhere(text, j);
      }
    } else {
      forall i: nat | i <= |text| ensures !TotalMatchesAt(text, i) {
        TotalMatchesWhere(text, i);
      }
    }
  }

  lemma TotalMatchesWhere(text: string, i: nat)
    ensures TotalMatchesAt(text, i) <==> TotalAt(text, i).Some?
  {
    if CiOccursAt(text, TotalWord, i) {
      var l := LineAfter(text, i + |TotalWord|);
      if EuroLine(l) {
        var q: nat, x: nat, g: string :| EuroShape(l, q, x, g);
        EuroSome(l, q);
      }
      if TotalInLine(l).Some? {
        TotalLineMatch(l, TotalInLine(l).value);
      }
    }
  }

  /** A receipt whose text is `TOTAL (€) ` and an amount has that amount as its
      total. */
  lemma TotalRoundTrip(t: string)
    requires IsDecimal(t)
    ensures FindTotal("TOTAL (€) " + t) == Success(DecimalValue(t))
  {
    var text := "TOTAL (€) " + t;
    assert CiOccursAt(text, TotalWord, 0);
    assert text[5..] == " (€) " + t;
    EuroLineClass(t);
    LineAfterWhole(text, 5);
    EuroLineOf(t);
    assert TotalAt(text, 0) == Some(t);
    FirstMatchLeast(text, 0, TotalAt, 0);
  }

  /** On a line without a line feed, `.` runs to the end of the text. */
  lemma LineAfterWhole(text: string, k: nat)
    requires k <= |text| && '\n' !in text[k..]
    ensures LineAfter(text, k) == text[k..]
  {
    forall j | k <= j < |text| ensures IsNotNewline(text[j]) {
      assert text[j] == text[k..][j - k];
    }
    SpanEndUnique(text, k, IsNotNewline, |text|);
  }

  /** After its euro sign, the line ` (€) ` and an amount holds no other euro
      sign and no line feed. */
  lemma EuroLineClass(t: string)
    requires IsDecimal(t)
    ensures forall j :: 3 <= j < |" (€) " + t| ==> (" (€) " + t)[j] != '€' && (" (€) " + t)[j] != '\n'
  {
    var l := " (€) " + t;
    DecimalCharClass(t);
    forall j | 5 <= j < |l| ensures l[j] == t[j - 5] {
    }
  }

  /** Its euro sign is followed by the amount. */
  lemma EuroOfLine(t: string)
    requires IsDecimal(t)
    ensures EuroAmount(" (€) " + t, 3) == Some(t)
  {
    var l := " (€) " + t;
    AmountOfLine(t);
    assert AmountAt(l, 3).None? by {
      SpanEndUnique(l, 3, IsDigit, 3);
    }
    assert AmountAt(l, 4).None? by {
      SpanEndUnique(l, 4, IsDigit, 4);
    }
    FirstMatchLeast(l, 3, AmountAt, 5);
  }

  lemma AmountOfLine(t: string)
    requires IsDecimal(t)
    ensures AmountAt(" (€) " + t, 5) == Some(t)
  {
    var l := " (€) " + t;
    assert l[5..5 + |t|] == t;
    assert 5 + |t| == |l|;
    AmountCaptures(l, 5, t);
  }

  /** No later position follows a euro sign. */
  lemma NoLaterEuro(t: string)
    requires IsDecimal(t)
    ensures forall k :: 3 < k <= |" (€) " + t| ==> EuroAmount(" (€) " + t, k).None?
  {
    var l := " (€) " + t;
    EuroLineClass(t);
    forall k | 3 < k <= |l| ensures EuroAmount(l, k).None? {
      assert l[k - 1] != '€';
    }
  }

  /** The line ` (€) ` and an amount yields the amount. */
  lemma EuroLineOf(t: string)
    requires IsDecimal(t)
    ensures TotalInLine(" (€) " + t) == Some(t)
  {
    EuroOfLine(t);
    NoLaterEuro(t);
    LastMatchGreatest(" (€) " + t, 0, |" (€) " + t|, EuroAmount, 3);
  }

  // ----- PAYMENT_DATE_RE: `(?:Cobrado el )?([0-9]+)/([0-9]+)/([0-9]+)(?: a las)?\s+([0-9]+):([0-9]+)` -----

  const PaidPrefix: string := "Cobrado el "
  const AtWords: string := " a las"

  /** `([0-9]+)/([0-9]+)/([0-9]+)` at `k`, with its slashes at `a` and `b` and
      its end at `c`. */
  ghost predicate DayMonthYearShape(text: string, k: nat, a: nat, b: nat, c: nat) {
    && k < a && a + 1 < b && b + 1 < c <= |text|
    && IsDigits(text[k..a]) && text[a] == '/'
    && IsDigits(text[a + 1..b]) && text[b] == '/'
    && IsDigits(text[b + 1..c]) && DigitsEndAt(text, c)
  }

  /** What separates the year from the hour: ` a las` and whitespace, or
      whitespace alone. */
  ghost predicate DateGap(text: string, c: nat, s: nat) {
    || (OccursAt(text, AtWords, c) && c + |AtWords| < s <= |text| && AllSpace(text[c + |AtWords|..s]))
    || (c < s <= |text| && AllSpace(text[c..s]))
  }

  /** `(?: a las)?\s+([0-9]+):([0-9]+)` from `c`, the hour at `s`, the colon at
      `h`, the end at `m`. */
  ghost predicate TimeShape(text: string, c: nat, s: nat, h: nat, m: nat) {
    && DateGap(text, c, s)
    && s < h && h + 1 < m <= |text|
    && IsDigits(text[s..h]) && text[h] == ':'
    && IsDigits(text[h + 1..m]) && DigitsEndAt(text, m)
  }

  /** The day, month and year at `k`. The slashes and the whitespace after the
      year are not digits, so no digit run can give characters back. */
  function DayMonthYear(text: string, k: nat): (r: Option<(nat, nat, nat)>)
    ensures r.Some? ==> DayMonthYearShape(text, k, r.value.0, r.value.1, r.value.2)
  {
    if k <= |text| then
      var a := SpanEnd(text, k, IsDigit);
      if k < a < |text| && text[a] == '/' then
        var b := SpanEnd(text, a + 1, IsDigit);
        if a + 1 < b < |text| && text[b] == '/' then
          var c := SpanEnd(text, b + 1, IsDigit);
          if b + 1 < c then
            DigitRun(text, k, a);
            DigitRun(text, a + 1, b);
            DigitRun(text, b + 1, c);
            Some((a, b, c))
          else None
        else None
      else None
    else None
  }

  /** The time after the year ending at `c`. The optional ` a las` is tried
      first; when it is there, leaving it out cannot match, since its `a` is
      neither whitespace nor a digit. */
  function TimeAfter(text: string, c: nat): (r: Option<(nat, nat, nat)>)
    requires c <= |text|
    ensures r.Some? ==> TimeShape(text, c, r.value.0, r.value.1, r.value.2)
  {
    var w := if OccursAt(text, AtWords, c) then c + |AtWords| else c;
    var s := SpaceEnd(text, w);
    if w < s then
      var h := SpanEnd(text, s, IsDigit);
      if s < h < |text| && text[h] == ':' then
        var m := SpanEnd(text, h + 1, IsDigit);
        if h + 1 < m then
          SpaceUpTo(text, w, s);
          DigitRun(text, s, h);
          DigitRun(text, h + 1, m);
          Some((s, h, m))
        else None
      else None
    else None
  }

  /** `int()` of each group, in the order `datetime` takes them. */
  function Fields(text: string, k: nat, a: nat, b: nat, c: nat, s: nat, h: nat, m: nat): DateTime
    requires DayMonthYearShape(text, k, a, b, c) && TimeShape(text, c, s, h, m)
  {
    DateTime(DigitsValue(text[b + 1..c]), DigitsValue(text[a + 1..b]), DigitsValue(text[k..a]),
             DigitsValue(text[s..h]), DigitsValue(text[h + 1..m]))
  }

  /** The fields of a match of the date and time at `k`, without the prefix. */
  function DateGroupsAt(text: string, k: nat): Option<DateTime> {
    match DayMonthYear(text, k)
    case None => None
    case Some(p) =>
      match TimeAfter(text, p.2)
      case None => None
      case Some(t) => Some(Fields(text, k, p.0, p.1, p.2, t.0, t.1, t.2))
  }

  lemma DigitsOfSlice(text: string, i: nat, j: nat)
    requires i <= j <= |text| && AllDigits(text[i..j])
    ensures forall x :: i <= x < j ==> IsDigit(text[x])
  {
    assert forall x :: i <= x < j ==> text[x] == text[i..j][x - i];
  }

  lemma DayMonthYearCaptures(text: string, k: nat, a: nat, b: nat, c: nat)
    requires DayMonthYearShape(text, k, a, b, c)
    ensures DayMonthYear(text, k) == Some((a, b, c))
  {
    DigitsOfSlice(text, k, a);
    SpanEndUnique(text, k, IsDigit, a);
    DigitsOfSlice(text, a + 1, b);
    SpanEndUnique(text, a + 1, IsDigit, b);
    DigitsOfSlice(text, b + 1, c);
    SpanEndUnique(text, b + 1, IsDigit, c);
  }

  /** The whitespace before the hour is the whole run after `w`. */
  lemma GapEnd(text: string, w: nat, s: nat)
    requires w < s < |text| && AllSpace(text[w..s]) && IsDigit(text[s])
    ensures SpaceEnd(text, w) == s
  {
    SpaceEndIsSpan(text, w);
    assert forall x :: w <= x < s ==> text[x] == text[w..s][x - w];
    SpanEndUnique(text, w, IsSpace, s);
  }

  /** With ` a las` after the year, a run of bare whitespace cannot reach the
      hour: its second character is the `a`. */
  lemma GapTakesWords(text: string, c: nat, s: nat)
    requires OccursAt(text, AtWords, c) && c < s < |text| && IsDigit(text[s])
    ensures !AllSpace(text[c..s])
  {
    assert text[c + 1] == AtWords[1];
    if c + 1 < s {
      assert text[c + 1] == text[c..s][1];
    }
  }

  /** The hour and minute runs are the whole digit runs after `s` and the colon. */
  lemma HourMinute(text: string, s: nat, h: nat, m: nat)
    requires s < h && h + 1 < m <= |text| && IsDigits(text[s..h]) && text[h] == ':'
    requires IsDigits(text[h + 1..m]) && DigitsEndAt(text, m)
    ensures SpanEnd(text, s, IsDigit) == h && SpanEnd(text, h + 1, IsDigit) == m
  {
    DigitsOfSlice(text, s, h);
    SpanEndUnique(text, s, IsDigit, h);
    DigitsOfSlice(text, h + 1, m);
    SpanEndUnique(text, h + 1, IsDigit, m);
  }

  /** The whitespace before the hour starts where `TimeAfter` starts it. */
  lemma GapStart(text: string, c: nat, s: nat)
    requires DateGap(text, c, s) && s < |text| && IsDigit(text[s])
    ensures OccursAt(text, AtWords, c) ==> c + |AtWords| < s && SpaceEnd(text, c + |AtWords|) == s
    ensures !OccursAt(text, AtWords, c) ==> c < s && SpaceEnd(text, c) == s
  {
    if OccursAt(text, AtWords, c) {
      GapTakesWords(text, c, s);
      GapEnd(text, c + |AtWords|, s);
    } else {
      GapEnd(text, c, s);
    }
  }

  lemma TimeCaptures(text: string, c: nat, s: nat, h: nat, m: nat)
    requires TimeShape(text, c, s, h, m)
    ensures TimeAfter(text, c) == Some((s, h, m))
  {
    assert IsDigit(text[s]) by {
      assert text[s] == text[s..h][0];
    }
    GapStart(text, c, s);
    HourMinute(text, s, h, m);
  }

  /** The groups of a match at `k` end at `a`, `b`, `c`, `h` and `m`, and `d`
      holds their values. */
  ghost predicate DateParts(text: string, k: nat, a: nat, b: nat, c: nat, s: nat, h: nat, m: nat, d: DateTime) {
    && DayMonthYearShape(text, k, a, b, c) && TimeShape(text, c, s, h, m)
    && d == Fields(text, k, a, b, c, s, h, m)
  }

  ghost predicate DateShape(text: string, k: nat, d: DateTime) {
    exists a: nat, b: nat, c: nat, s: nat, h: nat, m: nat :: DateParts(text, k, a, b, c, s, h, m, d)
  }

  lemma DateWitness(text: string, k: nat)
    requires DateGroupsAt(text, k).Some?
    ensures DateShape(text, k, DateGroupsAt(text, k).value)
  {
    var p := DayMonthYear(text, k).value;
    var q := TimeAfter(text, p.2).value;
    assert DateParts(text, k, p.0, p.1, p.2, q.0, q.1, q.2, DateGroupsAt(text, k).value);
  }

  lemma DateCapturesAt(text: string, k: nat, a: nat, b: nat, c: nat, s: nat, h: nat, m: nat)
    requires DayMonthYearShape(text, k, a, b, c) && TimeShape(text, c, s, h, m)
    ensures DateGroupsAt(text, k) == Some(Fields(text, k, a, b, c, s, h, m))
  {
    DayMonthYearCaptures(text, k, a, b, c);
    TimeCaptures(text, c, s, h, m);
  }

  lemma DateCaptures(text: string, k: nat, d: DateTime)
    requires DateShape(text, k, d)
    ensures DateGroupsAt(text, k) == Some(d)
  {
    var a: nat, b: nat, c: nat, s: nat, h: nat, m: nat :| DateParts(text, k, a, b, c, s, h, m, d);
    DateCapturesAt(text, k, a, b, c, s, h, m);
  }

  /** The recogniser finds exactly the matches the pattern allows at `k`, with
      the fields `int()` makes of the groups. */
  lemma DateMatch(text: string, k: nat, d: DateTime)
    ensures DateGroupsAt(text, k) == Some(d) <==> DateShape(text, k, d)
  {
    if DateGroupsAt(text, k) == Some(d) {
      DateWitness(text, k);
    }
    if DateShape(text, k, d) {
      DateCaptures(text, k, d);
    }
  }

  /** A date starts with a digit. */
  lemma DateStartsWithDigit(text: string, k: nat)
    requires DateGroupsAt(text, k).Some?
    ensures k < |text| && IsDigit(text[k])
  {
    var p := DayMonthYear(text, k).value;
    assert text[k] == text[k..p.0][0];
  }

  /** A match at `j`. The optional prefix is tried first; it adds nothing to the
      groups. */
  function DateMatchAt(text: string, j: nat): Option<DateTime> {
    if OccursAt(text, PaidPrefix, j) && DateGroupsAt(text, j + |PaidPrefix|).Some? then
      DateGroupsAt(text, j + |PaidPrefix|)
    else DateGroupsAt(text, j)
  }

  /** `_get_payment_date`: the fields of the first match, or the missing-field
      error when there is none, or the `datetime` error when they are out of
      range. */
  function FindPaymentDate(text: string): (r: Result<DateTime, Error>)
    ensures r.Failure? ==> r.error == MissingField(Field.PaymentDate) || r.error == InvalidDate
    ensures r.Success? ==> Valid(r.value)
  {
    match FirstMatch(text, 0, DateMatchAt)
    case None => Failure(MissingField(Field.PaymentDate))
    case Some(d) => MakeDateTime(d.year, d.month, d.day, d.hour, d.minute)
  }

  /** No character of the prefix is a digit, so no date starts inside it. */
  lemma PrefixHasNoDigit(text: string, j: nat, x: nat)
    requires OccursAt(text, PaidPrefix, j) && j <= x < j + |PaidPrefix|
    ensures !IsDigit(text[x])
  {
    assert text[x] == PaidPrefix[x - j];
  }

  lemma PrefixNoDateAt(text: string, j: nat)
    requires DateGroupsAt(text, j).None?
    requires OccursAt(text, PaidPrefix, j) ==> DateGroupsAt(text, j + |PaidPrefix|).None?
    ensures DateMatchAt(text, j).None?
  {
  }

  /** Without any date, the search with the prefix finds nothing either. */
  lemma PrefixNoDate(text: string)
    requires forall j :: 0 <= j <= |text| ==> DateGroupsAt(text, j).None?
    ensures FirstMatch(text, 0, DateMatchAt).None?
  {
    forall j | 0 <= j <= |text| ensures DateMatchAt(text, j).None? {
      if OccursAt(text, PaidPrefix, j) {
        assert j + |PaidPrefix| <= |text|;
      }
      PrefixNoDateAt(text, j);
    }
  }

  /** Before the position `m` at which the first date (at `k`) is taken, with
      or without its prefix, nothing matches. */
  lemma PrefixEarlier(text: string, k: nat, m: nat, j: nat)
    requires k <= |text| && DateGroupsAt(text, k).Some?
    requires forall x :: 0 <= x < k ==> DateGroupsAt(text, x).None?
    requires m == (if k >= |PaidPrefix| && OccursAt(text, PaidPrefix, k - |PaidPrefix|) then k - |PaidPrefix| else k)
    requires j < m
    ensures DateMatchAt(text, j).None?
  {
    DateStartsWithDigit(text, k);
    if OccursAt(text, PaidPrefix, j) && j + |PaidPrefix| > k {
      PrefixHasNoDigit(text, j, k);
    }
  }

  /** The position `m` takes the first date, with its prefix when it has one. */
  lemma PrefixAt(text: string, k: nat, m: nat)
    requires k <= |text| && DateGroupsAt(text, k).Some?
    requires m == (if k >= |PaidPrefix| && OccursAt(text, PaidPrefix, k - |PaidPrefix|) then k - |PaidPrefix| else k)
    ensures DateMatchAt(text, m) == DateGroupsAt(text, k)
  {
    DateStartsWithDigit(text, k);
    if m == k && OccursAt(text, PaidPrefix, k) {
      PrefixHasNoDigit(text, k, k);
    }
  }

  /** The optional `Cobrado el ` never changes which date is found: the search
      with it gives the same fields as the search for the date alone. */
  lemma PrefixIrrelevant(text: string)
    ensures FirstMatch(text, 0, DateMatchAt) == FirstMatch(text, 0, DateGroupsAt)
  {
    if FirstMatch(text, 0, DateGroupsAt).None? {
      PrefixNoDate(text);
    } else {
      var k :| 0 <= k <= |text| && DateGroupsAt(text, k) == FirstMatch(text, 0, DateGroupsAt)
        && forall j :: 0 <= j < k ==> DateGroupsAt(text, j).None?;
      var m := if k >= |PaidPrefix| && OccursAt(text, PaidPrefix, k - |PaidPrefix|) then k - |PaidPrefix| else k;
      PrefixAt(text, k, m);
      forall j | 0 <= j < m ensures DateMatchAt(text, j).None? {
        PrefixEarlier(text, k, m, j);
      }
      FirstMatchLeast(text, 0, DateMatchAt, m);
      FirstMatchLeast(text, 0, DateGroupsAt, k);
    }
  }

  lemma NoDateShape(text: string)
    requires FirstMatch(text, 0, DateGroupsAt).None?
    ensures forall k: nat, d: DateTime :: !DateShape(text, k, d)
  {
    forall k: nat, d: DateTime ensures !DateShape(text, k, d) {
      if DateShape(text, k, d) {
        DateCaptures(text, k, d);
        assert false;
      }
    }
  }

  lemma SomeDateShape(text: string)
    requires FirstMatch(text, 0, DateGroupsAt).Some?
    ensures exists k: nat, d: DateTime :: DateShape(text, k, d)
  {
    var k :| 0 <= k <= |text| && DateGroupsAt(text, k) == FirstMatch(text, 0, DateGroupsAt);
    DateWitness(text, k);
  }

  /** The date is missing exactly when no position holds one. */
  lemma PaymentDateMissing(text: string)
    ensures FindPaymentDate(text) == Failure(MissingField(Field.PaymentDate)) <==>
      forall k: nat, d: DateTime :: !DateShape(text, k, d)
  {
    PrefixIrrelevant(text);
    if FirstMatch(text, 0, DateGroupsAt).None? {
      NoDateShape(text);
    } else {
      SomeDateShape(text);
      var d := FirstMatch(text, 0, DateGroupsAt).value;
      assert FindPaymentDate(text) == MakeDateTime(d.year, d.month, d.day, d.hour, d.minute);
    }
  }

  /** Otherwise the date is the leftmost one, accepted exactly when `datetime`
      accepts its fields. */
  lemma PaymentDateLeftmost(text: string, i: nat, e: DateTime) returns (k: nat, d: DateTime)
    requires DateShape(text, i, e)
    ensures k <= i && DateShape(text, k, d) && forall j: nat, d': DateTime :: j < k ==> !DateShape(text, j, d')
    ensures FindPaymentDate(text).Success? <==> Valid(d)
    ensures FindPaymentDate(text).Success? ==> FindPaymentDate(text).value == d
  {
    DateCaptures(text, i, e);
    DateStartsWithDigit(text, i);
    PrefixIrrelevant(text);
    var r := FirstMatch(text, 0, DateGroupsAt);
    k :| 0 <= k <= |text| && DateGroupsAt(text, k) == r && forall j :: 0 <= j < k ==> DateGroupsAt(text, j).None?;
    d := r.value;
    DateWitness(text, k);
    forall j: nat, d': DateTime | j < k ensures !DateShape(text, j, d') {
      if DateShape(text, j, d') {
        DateCaptures(text, j, d');
      }
    }
  }

  // ----- the printed payment date -----

  /** `d/m/yyyy`, each field as `str()` prints it. */
  function DatePart(d: DateTime): string
    requires Valid(d)
  {
    NatToString(d.day) + "/" + NatToString(d.month) + "/" + NatToString(d.year)
  }

  /** ` a las h:m`. */
  function TimePart(d: DateTime): string
    requires Valid(d)
  {
    AtWords + " " + NatToString(d.hour) + ":" + NatToString(d.minute)
  }

  /** The payment line as the receipt prints it. */
  function FormatPaymentDate(d: DateTime): string
    requires Valid(d)
  {
    PaidPrefix + DatePart(d) + TimePart(d)
  }

  lemma DatePartShape(x: string, d: DateTime, y: string) returns (a: nat, b: nat, c: nat)
    requires Valid(d) && |y| > 0 && !IsDigit(y[0])
    ensures c == |x + DatePart(d)| && DayMonthYearShape(x + DatePart(d) + y, |x|, a, b, c)
    ensures DigitsValue((x + DatePart(d) + y)[|x|..a]) == d.day
    ensures DigitsValue((x + DatePart(d) + y)[a + 1..b]) == d.month
    ensures DigitsValue((x + DatePart(d) + y)[b + 1..c]) == d.year
  {
    var t := x + DatePart(d) + y;
    var dd, mm, yy := NatToString(d.day), NatToString(d.month), NatToString(d.year);
    a := |x| + |dd|;
    b := a + 1 + |mm|;
    c := b + 1 + |yy|;
    assert t[|x|..a] == dd;
    assert t[a] == '/' && t[a + 1..b] == mm;
    assert t[b] == '/' && t[b + 1..c] == yy;
    assert t[c] == y[0];
  }

  lemma TimePartShape(x: string, d: DateTime) returns (s: nat, h: nat, m: nat)
    requires Valid(d)
    ensures TimeShape(x + TimePart(d), |x|, s, h, m)
    ensures DigitsValue((x + TimePart(d))[s..h]) == d.hour
    ensures DigitsValue((x + TimePart(d))[h + 1..m]) == d.minute
  {
    var t := x + TimePart(d);
    var hh, mi := NatToString(d.hour), NatToString(d.minute);
    var c := |x|;
    s := c + |AtWords| + 1;
    h := s + |hh|;
    m := h + 1 + |mi|;
    assert t[c..c + |AtWords|] == AtWords;
    assert t[c + |AtWords|..s] == " ";
    assert t[s..h] == hh;
    assert t[h] == ':' && t[h + 1..m] == mi;
  }

  /** Nothing inside the prefix starts a date. */
  lemma NoDateInPrefix(t: string, j: nat)
    requires OccursAt(t, PaidPrefix, 0) && j < |PaidPrefix|
    ensures DateGroupsAt(t, j).None?
  {
    if DateGroupsAt(t, j).Some? {
      DateStartsWithDigit(t, j);
      PrefixHasNoDigit(t, 0, j);
    }
  }

  /** The printed date matches just after the prefix. */
  lemma FormatDateShape(d: DateTime)
    requires Valid(d)
    ensures DateGroupsAt(FormatPaymentDate(d), |PaidPrefix|) == Some(d)
  {
    var t := FormatPaymentDate(d);
    var a, b, c := DatePartShape(PaidPrefix, d, TimePart(d));
    var s, h, m := TimePartShape(PaidPrefix + DatePart(d), d);
    assert DateParts(t, |PaidPrefix|, a, b, c, s, h, m, d);
    DateCaptures(t, |PaidPrefix|, d);
  }

  /** It is also the first date of the text. */
  lemma FormatFirstDate(d: DateTime)
    requires Valid(d)
    ensures FirstMatch(FormatPaymentDate(d), 0, DateGroupsAt) == Some(d)
  {
    var t := FormatPaymentDate(d);
    FormatDateShape(d);
    assert t[..|PaidPrefix|] == PaidPrefix;
    forall j | 0 <= j < |PaidPrefix| ensures DateGroupsAt(t, j).None? {
      NoDateInPrefix(t, j);
    }
    FirstMatchLeast(t, 0, DateGroupsAt, |PaidPrefix|);
  }

  /** A receipt whose only text is a printed valid payment date pays on that date. */
  lemma PaymentDateRoundTrip(d: DateTime)
    requires Valid(d)
    ensures FindPaymentDate(FormatPaymentDate(d)) == Success(d)
  {
    FormatFirstDate(d);
    PrefixIrrelevant(FormatPaymentDate(d));
  }

  // ----- the receipt -----

  /** `get_invoice` once the text is extracted: the products, then the order
      number, the invoice number, the payment date and the total, in the order
      the constructor's arguments are evaluated; the first failing extractor
      ends the parse with its error. */
  function ParseMercadona(text: string): (r: Result<MercadonaInvoice, Error>)
    ensures r.Success? <==>
      && MercadonaLines.Products(text).Success? && FindOrderNumber(text).Success?
      && FindInvoiceNumber(text).Success? && FindPaymentDate(text).Success? && FindTotal(text).Success?
    ensures r.Success? ==>
      r.value == MercadonaInvoice(MercadonaLines.Products(text).value, FindOrderNumber(text).value,
                                  FindInvoiceNumber(text).value, FindPaymentDate(text).value, FindTotal(text).value)
    ensures MercadonaLines.Products(text).Failure? ==> r == Failure(MercadonaLines.Products(text).error)
    ensures MercadonaLines.Products(text).Success? && FindOrderNumber(text).Failure? ==>
      r == Failure(MissingField(Field.OrderNumber))
    ensures MercadonaLines.Products(text).Success? && FindOrderNumber(text).Success? && FindInvoiceNumber(text).Failure? ==>
      r == Failure(MissingField(Field.InvoiceNumber))
    ensures && MercadonaLines.Products(text).Success? && FindOrderNumber(text).Success?
            && FindInvoiceNumber(text).Success? && FindPaymentDate(text).Failure? ==>
      r == Failure(FindPaymentDate(text).error)
    ensures && MercadonaLines.Products(text).Success? && FindOrderNumber(text).Success?
            && FindInvoiceNumber(text).Success? && FindPaymentDate(text).Success? && FindTotal(text).Failure? ==>
      r == Failure(MissingField(Field.Total))
  {
    var products :- MercadonaLines.Products(text);
    var order :- FindOrderNumber(text);
    var invoice :- FindInvoiceNumber(text);
    var date :- FindPaymentDate(text);
    var total :- FindTotal(text);
    Success(MercadonaInvoice(products, order, invoice, date, total))
  }
}
