/** The header rules of the Consum receipt (`INVOICE_NUMBER_RE`,
    `TOTAL_INVOICE_RE`, `PAYMENT_DATE_RE`) and the assembly of a
    `ConsumInvoice` from the text of a receipt.

    These patterns are used with `re.search` on the whole text, so they are
    read over positions of the text rather than over lines, and their `\s`
    may be a line feed. Each recogniser `XAt(text, i)` says what the pattern
    matches when the regex engine tries it at position `i`; the search is the
    leftmost position at which it succeeds (`Scan.FirstMatch`). */
module Consum {
  import opened Wrappers
  import opened Strings
  import opened Numeric
  import opened Models
  import opened Calendar
  import opened Scan
  import ConsumLines

  datatype ConsumInvoice = ConsumInvoice(
    products: seq<Product>,
    orderNumber: string,
    invoiceNumber: string,
    paymentDate: DateTime,
    total: real)

  // ----- fixed-width pieces -----

  /** `\d{2}` at `k`. */
  predicate TwoDigits(text: string, k: nat) {
    k + 2 <= |text| && IsDigit(text[k]) && IsDigit(text[k + 1])
  }

  /** `\d{2}\.\d{2}\.\d{4}\s\d{2}:\d{2}` at `k`: a date and time sixteen
      characters wide, `dd.mm.yyyy hh:mm`. */
  predicate DateAt(text: string, k: nat) {
    && k + 16 <= |text|
    && TwoDigits(text, k) && text[k + 2] == '.' && TwoDigits(text, k + 3) && text[k + 5] == '.'
    && TwoDigits(text, k + 6) && TwoDigits(text, k + 8) && IsSpace(text[k + 10])
    && TwoDigits(text, k + 11) && text[k + 13] == ':' && TwoDigits(text, k + 14)
  }

  /** `\s\d{2}\.\d{2}\.\d{4}\s\d{2}:\d{2}\s` at `c`: the eighteen-character
      time stamp between the two groups of `INVOICE_NUMBER_RE`. */
  predicate StampAt(text: string, c: nat) {
    c + 18 <= |text| && IsSpace(text[c]) && DateAt(text, c + 1) && IsSpace(text[c + 17])
  }

  // ----- INVOICE_NUMBER_RE: `(C:\d+\s\d+\/\d+)\s\d{2}\.\d{2}\.\d{4}\s\d{2}:\d{2}\s(\d+)`, IGNORECASE -----

  /** Group 1: `C:` in either case, digits, one whitespace character, digits,
      a slash, digits. */
  ghost predicate OrderShape(o: string) {
    exists a: nat, b: nat :: OrderSplit(o, a, b)
  }

  /** Group 1 with its whitespace at `a` and its slash at `b`. */
  ghost predicate OrderSplit(o: string, a: nat, b: nat) {
    && 2 < a && a + 1 < b && b + 1 < |o|
    && CiEq(o[0], 'C') && o[1] == ':'
    && AllDigits(o[2..a]) && IsSpace(o[a]) && AllDigits(o[a + 1..b]) && o[b] == '/' && AllDigits(o[b + 1..])
  }

  /** The pattern matches at `i` with groups `o` and `n`: the greedy `(\d+)`
      takes every digit that follows the stamp. */
  ghost predicate InvoiceShape(text: string, i: nat, o: string, n: string) {
    && OrderShape(o) && OccursAt(text, o, i)
    && StampAt(text, i + |o|)
    && IsDigits(n) && OccursAt(text, n, i + |o| + 18)
    && DigitsEndAt(text, i + |o| + 18 + |n|)
  }

  /** Where group 1 ends when the pattern is tried at `i`. Each `\d+` is followed
      by a character that is not a digit, so each run is the longest one. */
  function OrderEnd(text: string, i: nat): (r: Option<nat>)
    ensures r.Some? ==> i < r.value <= |text|
  {
    if i + 2 <= |text| && CiEq(text[i], 'C') && text[i + 1] == ':' then
      var a := SpanEnd(text, i + 2, IsDigit);
      if i + 2 < a < |text| && IsSpace(text[a]) then
        var b := SpanEnd(text, a + 1, IsDigit);
        if a + 1 < b < |text| && text[b] == '/' then
          var c := SpanEnd(text, b + 1, IsDigit);
          if b + 1 < c then Some(c) else None
        else None
      else None
    else None
  }

  /** Where group 2 ends when group 1 ends at `c`: after the stamp, the greedy
      `(\d+)` takes the longest run of digits. */
  function NumberEnd(text: string, c: nat): (r: Option<nat>)
    ensures r.Some? ==> c + 18 < r.value <= |text|
  {
    if StampAt(text, c) then
      var e := SpanEnd(text, c + 18, IsDigit);
      if c + 18 < e then Some(e) else None
    else None
  }

  /** The two groups of a match at `i`. */
  function InvoiceAt(text: string, i: nat): Option<(string, string)> {
    match OrderEnd(text, i)
    case None => None
    case Some(c) =>
      match NumberEnd(text, c)
      case None => None
      case Some(e) => Some((text[i..c], text[c + 18..e]))
  }

  /** The recogniser finds exactly the matches the pattern allows at `i`. */
  lemma InvoiceMatch(text: string, i: nat, o: string, n: string)
    ensures InvoiceAt(text, i) == Some((o, n)) <==> InvoiceShape(text, i, o, n)
  {
    if InvoiceAt(text, i) == Some((o, n)) {
      InvoiceWitness(text, i);
    }
    if InvoiceShape(text, i, o, n) {
      InvoiceCaptures(text, i, o, n);
    }
  }

  lemma InvoiceWitness(text: string, i: nat)
    requires InvoiceAt(text, i).Some?
    ensures InvoiceShape(text, i, InvoiceAt(text, i).value.0, InvoiceAt(text, i).value.1)
  {
    var c := InvoiceAtOrder(text, i);
    var e := InvoiceAtNumber(text, i);
    OrderWitness(text, i);
    NumberWitness(text, c, e);
    GroupsShape(text, i, c, e);
  }

  /** A match at `i` has group 1 ending where `OrderEnd` says. */
  lemma InvoiceAtOrder(text: string, i: nat) returns (c: nat)
    requires InvoiceAt(text, i).Some?
    ensures OrderEnd(text, i) == Some(c) && NumberEnd(text, c).Some?
    ensures InvoiceAt(text, i).value.0 == text[i..c]
  {
    c := OrderEnd(text, i).value;
  }

  /** A match at `i` has group 2 ending where `NumberEnd` says. */
  lemma InvoiceAtNumber(text: string, i: nat) returns (e: nat)
    requires InvoiceAt(text, i).Some?
    ensures OrderEnd(text, i).Some? && NumberEnd(text, OrderEnd(text, i).value) == Some(e)
    ensures InvoiceAt(text, i).value.1 == text[OrderEnd(text, i).value + 18..e]
  {
    e := NumberEnd(text, OrderEnd(text, i).value).value;
  }

  /** The slices the recogniser returns fit the pattern. */
  lemma GroupsShape(text: string, i: nat, c: nat, e: nat)
    requires i <= c && c + 18 < e <= |text|
    requires OrderShape(text[i..c]) && StampAt(text, c) && IsDigits(text[c + 18..e]) && DigitsEndAt(text, e)
    ensures InvoiceShape(text, i, text[i..c], text[c + 18..e])
  {
    OccursAtSlice(text, i, c);
    OccursAtSlice(text, c + 18, e);
    assert i + |text[i..c]| == c;
  }

  /** What `NumberEnd` accepts is a stamp and a longest run of digits. */
  lemma NumberWitness(text: string, c: nat, e: nat)
    requires NumberEnd(text, c) == Some(e)
    ensures StampAt(text, c) && c + 18 < e && IsDigits(text[c + 18..e]) && DigitsEndAt(text, e)
  {
    DigitRun(text, c + 18, e);
  }

  /** What `OrderEnd` accepts is a group 1. */
  lemma OrderWitness(text: string, i: nat)
    requires OrderEnd(text, i).Some?
    ensures OrderShape(text[i..OrderEnd(text, i).value])
  {
    var a, b, c := OrderEndParts(text, i);
    OrderSplitOf(text, i, a, b, c);
  }

  /** The runs and characters `OrderEnd` found. */
  lemma OrderEndParts(text: string, i: nat) returns (a: nat, b: nat, c: nat)
    requires OrderEnd(text, i).Some?
    ensures c == OrderEnd(text, i).value
    ensures i + 2 < a && a + 1 < b && b + 1 < c <= |text|
    ensures CiEq(text[i], 'C') && text[i + 1] == ':' && IsSpace(text[a]) && text[b] == '/'
    ensures forall k :: i + 2 <= k < a ==> IsDigit(text[k])
    ensures forall k :: a + 1 <= k < b ==> IsDigit(text[k])
    ensures forall k :: b + 1 <= k < c ==> IsDigit(text[k])
  {
    a := SpanEnd(text, i + 2, IsDigit);
    b := SpanEnd(text, a + 1, IsDigit);
    c := SpanEnd(text, b + 1, IsDigit);
  }

  /** Such runs and characters make a group 1. */
  lemma OrderSplitOf(text: string, i: nat, a: nat, b: nat, c: nat)
    requires i + 2 < a && a + 1 < b && b + 1 < c <= |text|
    requires CiEq(text[i], 'C') && text[i + 1] == ':' && IsSpace(text[a]) && text[b] == '/'
    requires forall k :: i + 2 <= k < a ==> IsDigit(text[k])
    requires forall k :: a + 1 <= k < b ==> IsDigit(text[k])
    requires forall k :: b + 1 <= k < c ==> IsDigit(text[k])
    ensures OrderSplit(text[i..c], a - i, b - i)
  {
    var o := text[i..c];
    DigitRun(text, i + 2, a);
    DigitRun(text, a + 1, b);
    DigitRun(text, b + 1, c);
    SliceOfSlice(text, i, c, 2, a - i);
    SliceOfSlice(text, i, c, a - i + 1, b - i);
    SliceOfSlice(text, i, c, b - i + 1, c - i);
    assert o[0] == text[i] && o[1] == text[i + 1] && o[a - i] == text[a] && o[b - i] == text[b];
  }

  /** A group 1 followed by something other than a digit is where `OrderEnd`
      stops. */
  lemma OrderCaptures(text: string, i: nat, o: string, a: nat, b: nat)
    requires OrderSplit(o, a, b) && OccursAt(text, o, i) && DigitsEndAt(text, i + |o|)
    ensures OrderEnd(text, i) == Some(i + |o|)
  {
    OrderRuns(text, i, o, a, b);
    OrderChars(text, i, o, a, b);
    OrderEndOf(text, i, i + a, i + b, i + |o|);
  }

  /** The three digit runs of group 1, read where it occurs. */
  lemma OrderRuns(text: string, i: nat, o: string, a: nat, b: nat)
    requires OrderSplit(o, a, b) && OccursAt(text, o, i) && DigitsEndAt(text, i + |o|)
    ensures SpanEnd(text, i + 2, IsDigit) == i + a
    ensures SpanEnd(text, i + a + 1, IsDigit) == i + b
    ensures SpanEnd(text, i + b + 1, IsDigit) == i + |o|
  {
    RunInside(text, i, o, 2, a);
    RunInside(text, i, o, a + 1, b);
    RunToEnd(text, i, o, b + 1);
  }

  /** The fixed characters of group 1, read where it occurs. */
  lemma OrderChars(text: string, i: nat, o: string, a: nat, b: nat)
    requires OrderSplit(o, a, b) && OccursAt(text, o, i)
    ensures i + |o| <= |text| && CiEq(text[i], 'C') && text[i + 1] == ':'
    ensures IsSpace(text[i + a]) && text[i + b] == '/'
  {
    CharInside(text, i, o, 0);
    CharInside(text, i, o, 1);
    CharInside(text, i, o, a);
    CharInside(text, i, o, b);
  }

  /** `OrderEnd` read off the three digit runs it finds. */
  lemma OrderEndOf(text: string, i: nat, a: nat, b: nat, c: nat)
    requires i + 2 <= |text| && CiEq(text[i], 'C') && text[i + 1] == ':'
    requires SpanEnd(text, i + 2, IsDigit) == a && i + 2 < a < |text| && IsSpace(text[a])
    requires SpanEnd(text, a + 1, IsDigit) == b && a + 1 < b < |text| && text[b] == '/'
    requires SpanEnd(text, b + 1, IsDigit) == c && b + 1 < c
    ensures OrderEnd(text, i) == Some(c)
  {
  }

  lemma InvoiceCaptures(text: string, i: nat, o: string, n: string)
    requires InvoiceShape(text, i, o, n)
    ensures InvoiceAt(text, i) == Some((o, n))
  {
    ShapeEnds(text, i, o, n);
    GroupsOf(text, i, i + |o|, i + |o| + 18 + |n|);
  }

  /** Where the recognisers stop on a line that fits the pattern. */
  lemma ShapeEnds(text: string, i: nat, o: string, n: string)
    requires InvoiceShape(text, i, o, n)
    ensures OrderEnd(text, i) == Some(i + |o|)
    ensures NumberEnd(text, i + |o|) == Some(i + |o| + 18 + |n|)
    ensures text[i..i + |o|] == o && text[i + |o| + 18..i + |o| + 18 + |n|] == n
  {
    var a: nat, b: nat :| OrderSplit(o, a, b);
    OrderCaptures(text, i, o, a, b);
    NumberCaptures(text, i + |o|, n);
  }

  /** The digits after the stamp, followed by something other than a digit,
      are where `NumberEnd` stops. */
  lemma NumberCaptures(text: string, c: nat, n: string)
    requires StampAt(text, c) && IsDigits(n) && OccursAt(text, n, c + 18)
    requires DigitsEndAt(text, c + 18 + |n|)
    ensures NumberEnd(text, c) == Some(c + 18 + |n|)
  {
    var j := c + 18;
    DigitsInside(text, j, n, 0, |n|);
    SpanEndUnique(text, j, IsDigit, j + |n|);
  }

  lemma GroupsOf(text: string, i: nat, c: nat, e: nat)
    requires OrderEnd(text, i) == Some(c) && NumberEnd(text, c) == Some(e)
    ensures InvoiceAt(text, i) == Some((text[i..c], text[c + 18..e]))
  {
  }

  /** `re.search` for `INVOICE_NUMBER_RE`. */
  function InvoiceSearch(text: string): Option<(string, string)> {
    FirstMatch(text, 0, InvoiceAt)
  }

  /** `_get_order_number`: group 1 of the first match. The source annotates it
      as `int` but returns the matched text, `C:` included. */
  function FindOrderNumber(text: string): (r: Result<string, Error>)
    ensures r.Failure? ==> r.error == MissingField(Field.OrderNumber)
  {
    match InvoiceSearch(text)
    case None => Failure(MissingField(Field.OrderNumber))
    case Some(g) => Success(g.0)
  }

  /** `_get_invoice_number`: group 2 of the first match. */
  function FindInvoiceNumber(text: string): (r: Result<string, Error>)
    ensures r.Failure? ==> r.error == MissingField(Field.InvoiceNumber)
  {
    match InvoiceSearch(text)
    case None => Failure(MissingField(Field.InvoiceNumber))
    case Some(g) => Success(g.1)
  }

  /** The order and invoice numbers are the two groups of one and the same match,
      the leftmost one; both are missing exactly when the pattern matches nowhere. */
  lemma NumbersOfOneMatch(text: string)
    ensures FindOrderNumber(text).Success? <==> exists i: nat, o: string, n: string :: i <= |text| && InvoiceShape(text, i, o, n)
    ensures FindOrderNumber(text).Success? <==> FindInvoiceNumber(text).Success?
    ensures FindOrderNumber(text).Success? ==>
      exists i: nat :: i <= |text| && InvoiceShape(text, i, FindOrderNumber(text).value, FindInvoiceNumber(text).value)
        && forall k: nat, o: string, n: string :: k < i ==> !InvoiceShape(text, k, o, n)
  {
    var r := InvoiceSearch(text);
    if r.Some? {
      var i :| 0 <= i <= |text| && InvoiceAt(text, i) == r && forall k :: 0 <= k < i ==> InvoiceAt(text, k).None?;
      InvoiceMatch(text, i, r.value.0, r.value.1);
      forall k: nat, o, n | k < i ensures !InvoiceShape(text, k, o, n) {
        InvoiceMatch(text, k, o, n);
      }
    } else {
      forall i: nat, o: string, n: string | i <= |text| ensures !InvoiceShape(text, i, o, n) {
        InvoiceMatch(text, i, o, n);
      }
    }
  }

  // ----- TOTAL_INVOICE_RE: `importe a abonar\s+(\d+[.,]\d+)`, IGNORECASE -----

  const TotalLabel: string := "importe a abonar"

  /** The pattern matches at `i` and its group is `t`: the label in any case,
      whitespace up to `b`, then the amount, whose last digit run is taken
      whole by the greedy `\d+`. */
  ghost predicate TotalShape(text: string, i: nat, b: nat, t: string) {
    && CiOccursAt(text, TotalLabel, i)
    && i + |TotalLabel| < b <= |text| && AllSpace(text[i + |TotalLabel|..b])
    && OccursAt(text, t, b) && IsDecimal(t) && DigitsEndAt(text, b + |t|)
  }

  /** `\s+(\d+[.,]\d+)` from `k`: where the amount starts and ends. A digit is
      not whitespace and a separator is not a digit, so every greedy run is the
      longest one. */
  function AmountAfter(text: string, k: nat): (r: Option<(nat, nat)>)
    requires k <= |text|
    ensures r.Some? ==> k < r.value.0 < r.value.1 <= |text|
  {
    var b := SpanEnd(text, k, IsSpace);
    var c := SpanEnd(text, b, IsDigit);
    if k < b && b < c < |text| && IsSep(text[c]) then
      var d := SpanEnd(text, c + 1, IsDigit);
      if c + 1 < d then Some((b, d)) else None
    else None
  }

  /** `AmountAfter` read off the whitespace run and the two digit runs it finds. */
  lemma AmountAfterOf(text: string, k: nat, b: nat, c: nat, d: nat)
    requires k <= |text| && SpanEnd(text, k, IsSpace) == b
    requires SpanEnd(text, b, IsDigit) == c && k < b && b < c < |text| && IsSep(text[c])
    requires SpanEnd(text, c + 1, IsDigit) == d && c + 1 < d
    ensures AmountAfter(text, k) == Some((b, d))
  {
  }

  /** The group of a match at `i`. */
  function TotalAt(text: string, i: nat): Option<string> {
    if CiOccursAt(text, TotalLabel, i) then
      match AmountAfter(text, i + |TotalLabel|)
      case None => None
      case Some(g) => Some(text[g.0..g.1])
    else None
  }

  lemma AmountWitness(text: string, k: nat)
    requires k <= |text| && AmountAfter(text, k).Some?
    ensures AllSpace(text[k..AmountAfter(text, k).value.0])
    ensures IsDecimal(text[AmountAfter(text, k).value.0..AmountAfter(text, k).value.1])
    ensures DigitsEndAt(text, AmountAfter(text, k).value.1)
  {
    var b := SpanEnd(text, k, IsSpace);
    var c := SpanEnd(text, b, IsDigit);
    var d := SpanEnd(text, c + 1, IsDigit);
    var t := text[b..d];
    assert forall j :: 0 <= j < b - k ==> text[k..b][j] == text[k + j];
    assert forall j :: 0 <= j < c - b ==> t[j] == text[b + j];
    SpanEndUnique(t, 0, IsDigit, c - b);
    DigitRun(text, c + 1, d);
    assert t[c - b + 1..] == text[c + 1..d];
  }

  lemma AmountCaptures(text: string, k: nat, b: nat, t: string)
    requires k < b <= |text| && AllSpace(text[k..b]) && OccursAt(text, t, b) && IsDecimal(t) && DigitsEndAt(text, b + |t|)
    ensures AmountAfter(text, k) == Some((b, b + |t|))
  {
    DecimalRuns(text, b, t);
    SpaceRunTo(text, k, b);
    AmountAfterOf(text, k, b, b + SepIndex(t), b + |t|);
  }

  /** The recogniser finds exactly the matches the pattern allows at `i`. */
  lemma TotalMatch(text: string, i: nat, t: string)
    ensures TotalAt(text, i) == Some(t) <==> exists b: nat :: TotalShape(text, i, b, t)
  {
    if TotalAt(text, i) == Some(t) {
      TotalWitness(text, i, t);
    }
    if exists b: nat :: TotalShape(text, i, b, t) {
      var b: nat :| TotalShape(text, i, b, t);
      TotalCaptures(text, i, b, t);
    }
  }

  lemma TotalWitness(text: string, i: nat, t: string)
    requires TotalAt(text, i) == Some(t)
    ensures exists b: nat :: TotalShape(text, i, b, t)
  {
    var k := i + |TotalLabel|;
    var g := AmountAfter(text, k).value;
    assert t == text[g.0..g.1];
    AmountWitness(text, k);
    OccursAtSlice(text, g.0, g.1);
    assert g.0 + |t| == g.1;
    assert TotalShape(text, i, g.0, t);
  }

  lemma TotalCaptures(text: string, i: nat, b: nat, t: string)
    requires TotalShape(text, i, b, t)
    ensures TotalAt(text, i) == Some(t)
  {
    var k := i + |TotalLabel|;
    AmountCaptures(text, k, b, t);
    TotalAtOf(text, i, k, b, b + |t|);
  }

  /** `TotalAt` read off the amount `AmountAfter` finds. */
  lemma TotalAtOf(text: string, i: nat, k: nat, b: nat, e: nat)
    requires CiOccursAt(text, TotalLabel, i) && k == i + |TotalLabel|
    requires AmountAfter(text, k) == Some((b, e))
    ensures TotalAt(text, i) == Some(text[b..e])
  {
  }

  /** `_get_invoice_total`: `float()` of the group of the first match, with `,`
      read as `.`. */
  function FindTotal(text: string): (r: Result<real, Error>)
    ensures r.Failure? ==> r.error == MissingField(Field.Total)
  {
    match FirstMatch(text, 0, TotalAt)
    case None => Failure(MissingField(Field.Total))
    case Some(t) =>
      var j :| 0 <= j <= |text| && TotalAt(text, j) == Some(t);
      TotalMatch(text, j, t);
      DecimalIsSigned(t);
      Success(DecimalValue(t))
  }

  /** The total is the value of the amount after the leftmost label followed by
      an amount, and it is missing exactly when no label is. */
  lemma TotalOfFirstMatch(text: string)
    ensures FindTotal(text).Success? <==> exists i: nat, b: nat, t: string :: i <= |text| && TotalShape(text, i, b, t)
    ensures FindTotal(text).Success? ==>
      exists i: nat, b: nat, t: string :: i <= |text| && TotalShape(text, i, b, t)
        && IsSignedDecimal(t) && FindTotal(text).value == DecimalValue(t)
        && forall k: nat, b': nat, t': string :: k < i ==> !TotalShape(text, k, b', t')
  {
    var r := FirstMatch(text, 0, TotalAt);
    if r.Some? {
      var i :| 0 <= i <= |text| && TotalAt(text, i) == r && forall k :: 0 <= k < i ==> TotalAt(text, k).None?;
      TotalMatch(text, i, r.value);
      var b: nat :| TotalShape(text, i, b, r.value);
      DecimalIsSigned(r.value);
      forall k: nat, b': nat, t': string | k < i ensures !TotalShape(text, k, b', t') {
        TotalMatch(text, k, t');
      }
    } else {
      forall i: nat, b: nat, t: string | i <= |text| ensures !TotalShape(text, i, b, t) {
        TotalMatch(text, i, t);
      }
    }
  }

  // ----- PAYMENT_DATE_RE: `(\d{2})\.(\d{2})\.(\d{4})\s(\d{2}):(\d{2})` -----

  /** `int()` of the two digits at `k`. */
  function TwoAt(text: string, k: nat): (n: nat)
    requires TwoDigits(text, k)
    ensures n < 100
  {
    DigitValue(text[k]) * 10 + DigitValue(text[k + 1])
  }

  /** The five groups of a match at `k`, converted by `int()` but not yet checked
      by `datetime`. */
  function DateFieldsAt(text: string, k: nat): (r: Option<DateTime>)
    ensures r.Some? <==> DateAt(text, k)
    ensures r.Some? ==> 0 <= r.value.year < 10000 && r.value.month < 100 && r.value.day < 100
  {
    if DateAt(text, k) then
      Some(DateTime(TwoAt(text, k + 6) * 100 + TwoAt(text, k + 8), TwoAt(text, k + 3), TwoAt(text, k),
                    TwoAt(text, k + 11), TwoAt(text, k + 14)))
    else None
  }

  /** `_get_payment_date`: the leftmost date and time in the text, or the
      missing-field error when there is none, or the `datetime` error when its
      fields are out of range. */
  function FindPaymentDate(text: string): (r: Result<DateTime, Error>)
    ensures r.Failure? ==> r.error == MissingField(Field.PaymentDate) || r.error == InvalidDate
    ensures r.Success? ==> Valid(r.value)
  {
    match FirstMatch(text, 0, DateFieldsAt)
    case None => Failure(MissingField(Field.PaymentDate))
    case Some(d) => MakeDateTime(d.year, d.month, d.day, d.hour, d.minute)
  }

  /** The date is missing exactly when no position holds one. */
  lemma PaymentDateMissing(text: string)
    ensures FindPaymentDate(text) == Failure(MissingField(Field.PaymentDate)) <==> forall k: nat :: !DateAt(text, k)
  {
    if FirstMatch(text, 0, DateFieldsAt).None? {
      forall k: nat ensures !DateAt(text, k) {
        if k <= |text| {
          assert DateFieldsAt(text, k).None?;
        }
      }
    } else {
      var d := FirstMatch(text, 0, DateFieldsAt).value;
      assert FindPaymentDate(text) == MakeDateTime(d.year, d.month, d.day, d.hour, d.minute);
    }
  }

  /** Otherwise the date is the leftmost one, accepted exactly when `datetime`
      accepts its fields. */
  lemma PaymentDateLeftmost(text: string, i: nat) returns (k: nat)
    requires DateAt(text, i)
    ensures k <= i && DateAt(text, k) && forall j: nat :: j < k ==> !DateAt(text, j)
    ensures FindPaymentDate(text).Success? <==> Valid(DateFieldsAt(text, k).value)
    ensures FindPaymentDate(text).Success? ==> FindPaymentDate(text).value == DateFieldsAt(text, k).value
  {
    assert DateFieldsAt(text, i).Some?;
    var r := FirstMatch(text, 0, DateFieldsAt);
    k :| 0 <= k <= |text| && DateFieldsAt(text, k) == r && forall j :: 0 <= j < k ==> DateFieldsAt(text, j).None?;
    forall j: nat | j < k ensures !DateAt(text, j) {
      assert DateFieldsAt(text, j).None?;
    }
  }

  /** Two decimal digits, zero-padded. */
  function Pad2(n: nat): (s: string)
    requires n < 100
    ensures |s| == 2 && IsDigit(s[0]) && IsDigit(s[1])
    ensures DigitValue(s[0]) * 10 + DigitValue(s[1]) == n
  {
    [DigitChar(n / 10), DigitChar(n % 10)]
  }

  /** A date and time as the receipt prints it, `dd.mm.yyyy hh:mm`. */
  function FormatDate(d: DateTime): (s: string)
    requires Valid(d)
    ensures |s| == 16
  {
    Pad2(d.day) + "." + Pad2(d.month) + "." + Pad2(d.year / 100) + Pad2(d.year % 100) + " "
      + Pad2(d.hour) + ":" + Pad2(d.minute)
  }

  /** Reading a printed date back gives the date. */
  lemma {:induction false} FormatDateFields(d: DateTime)
    requires Valid(d)
    ensures DateFieldsAt(FormatDate(d), 0) == Some(d)
  {
    var s := FormatDate(d);
    assert s[0..2] == Pad2(d.day) && s[3..5] == Pad2(d.month);
    assert s[6..8] == Pad2(d.year / 100) && s[8..10] == Pad2(d.year % 100);
    assert s[11..13] == Pad2(d.hour) && s[14..16] == Pad2(d.minute);
  }

  /** A receipt whose only text is a printed valid date pays on that date. */
  lemma PaymentDateRoundTrip(d: DateTime)
    requires Valid(d)
    ensures FindPaymentDate(FormatDate(d)) == Success(d)
  {
    FormatDateFields(d);
    FirstMatchLeast(FormatDate(d), 0, DateFieldsAt, 0);
  }

  // ----- the receipt -----

  /** `get_invoice` once the text is recognised: the products, then the order
      number, the invoice number, the payment date and the total, the first
      failing extractor ending the parse with its error. */
  function ParseConsum(text: string): (r: Result<ConsumInvoice, Error>)
    ensures r.Success? <==>
      && ConsumLines.Products(text).Success? && FindOrderNumber(text).Success?
      && FindPaymentDate(text).Success? && FindTotal(text).Success?
    ensures r.Success? ==> r.value == ConsumInvoice(ConsumLines.Products(text).value, FindOrderNumber(text).value,
                                                     FindInvoiceNumber(text).value, FindPaymentDate(text).value, FindTotal(text).value)
    ensures ConsumLines.Products(text).Failure? ==> r == Failure(ConsumLines.Products(text).error)
    ensures ConsumLines.Products(text).Success? && FindOrderNumber(text).Failure? ==> r == Failure(MissingField(Field.OrderNumber))
    ensures ConsumLines.Products(text).Success? && FindOrderNumber(text).Success? && FindPaymentDate(text).Failure? ==>
      r == Failure(FindPaymentDate(text).error)
    ensures && ConsumLines.Products(text).Success? && FindOrderNumber(text).Success?
            && FindPaymentDate(text).Success? && FindTotal(text).Failure? ==>
      r == Failure(MissingField(Field.Total))
  {
    var products :- ConsumLines.Products(text);
    // Both numbers are groups of the same search, so the invoice number is
    // present whenever the order number is.
    match InvoiceSearch(text)
    case None => Failure(MissingField(Field.OrderNumber))
    case Some(numbers) =>
      var date :- FindPaymentDate(text);
      var total :- FindTotal(text);
      Success(ConsumInvoice(products, numbers.0, numbers.1, date, total))
  }
}
