/** The four line grammars of the Consum receipt (`UNITARY_PRODUCT_RE`,
    `MULTIPLE_PRODUCT_RE`, `FRACTIONAL_PRODUCT_RE`, `DISCOUNT_RE`).

    Each pattern is anchored with `^` and `$` under `re.MULTILINE`, so it is
    read here as a recogniser of one line. A `Shape` predicate spells out the
    pattern as a concatenation of its pieces; the recogniser finds the pieces
    deterministically. For each grammar, a `Captures` lemma shows that every
    split of the line that fits the pattern yields the record the recogniser
    returns (so the choices of the regex engine do not matter), a `Witness`
    lemma that an accepted line has such a split, and a `Match` lemma puts the
    two together. */
module ConsumLines {
  import opened Wrappers
  import opened Strings
  import opened Numeric
  import opened Models
  import opened Scan

  // ----- UNITARY_PRODUCT_RE: `^(-?1)\s+(.+?)\s+(-?\d+[.,]\d+)$` -----

  ghost predicate UnitaryShape(line: Line, q: string, s1: string, n: string, s2: string, t: string) {
    && line == q + s1 + n + s2 + t
    && (q == "1" || q == "-1")
    && SpaceRun(s1) && |n| > 0 && SpaceRun(s2)
    && IsSignedDecimal(t)
  }

  /** The record `_get_unitary_products` builds from the groups of one match,
      given the stripped name. */
  function UnitaryProduct(q: string, name: string, t: string): Product
    requires (q == "1" || q == "-1") && IsSignedDecimal(t)
  {
    UnitQuantity(q);
    var price := Round(DecimalValue(t), 2);
    Product(name, price, "", IntValue(q) as real, price)
  }

  /** `int("1")` and `int("-1")`. */
  lemma UnitQuantity(q: string)
    requires q == "1" || q == "-1"
    ensures IsSignedInt(q) && (IntValue(q) == 1 || IntValue(q) == -1)
  {
    assert Unsigned(q) == "1";
    assert DigitsValue("1") == 1;
  }

  /** The first token is the quantity, the last the amount, and between them
      lies a name padded by whitespace. */
  predicate UnitaryAccepts(line: Line) {
    var e := FirstTokenEnd(line);
    var b := LastTokenStart(line);
    (line[..e] == "1" || line[..e] == "-1") && e <= b && IsGap(line[e..b]) && IsSignedDecimal(line[b..])
  }

  function MatchUnitary(line: Line): Option<Product> {
    var e := FirstTokenEnd(line);
    var b := LastTokenStart(line);
    if UnitaryAccepts(line) then Some(UnitaryProduct(line[..e], Strip(line[e..b]), line[b..])) else None
  }

  lemma UnitaryCaptures(line: Line, q: string, s1: string, n: string, s2: string, t: string)
    requires UnitaryShape(line, q, s1, n, s2, t)
    ensures MatchUnitary(line) == Some(UnitaryProduct(q, Strip(n), t))
  {
    LooseDecimalHasNoSpace(t);
    UnitNoSpace(q);
    GapFrame(line, q, s1, n, s2, t);
    UnitaryAt(line, |q|, |line| - |t|);
  }

  lemma UnitNoSpace(q: string)
    requires q == "1" || q == "-1"
    ensures |q| > 0 && NoSpace(q)
  {
    assert forall k :: 0 <= k < |q| ==> q[k] == '1' || q[k] == '-';
  }

  /** The reading of a line whose tokens end at `e` and start again at `b`. */
  lemma UnitaryAt(line: Line, e: nat, b: nat)
    requires e == FirstTokenEnd(line) && b == LastTokenStart(line)
    requires (line[..e] == "1" || line[..e] == "-1") && e <= b && IsGap(line[e..b]) && IsSignedDecimal(line[b..])
    ensures MatchUnitary(line) == Some(UnitaryProduct(line[..e], Strip(line[e..b]), line[b..]))
  {
  }

  lemma UnitaryWitness(line: Line) returns (q: string, s1: string, n: string, s2: string, t: string)
    requires UnitaryAccepts(line)
    ensures UnitaryShape(line, q, s1, n, s2, t)
  {
    var e, b := FirstTokenEnd(line), LastTokenStart(line);
    q, t := line[..e], line[b..];
    assert q == "1" || q == "-1";
    assert e <= b && IsGap(line[e..b]);
    assert IsSignedDecimal(t);
    s1, n, s2 := GapWitness(line, e, b);
  }

  /** A line yields a unitary product exactly when the pattern matches it, and
      the product is the one built from the groups of any match. */
  lemma UnitaryMatch(line: Line)
    ensures MatchUnitary(line).Some? <==> exists q, s1, n, s2, t :: UnitaryShape(line, q, s1, n, s2, t)
    ensures forall q, s1, n, s2, t :: UnitaryShape(line, q, s1, n, s2, t) ==> MatchUnitary(line) == Some(UnitaryProduct(q, Strip(n), t))
  {
    forall q, s1, n, s2, t | UnitaryShape(line, q, s1, n, s2, t)
      ensures MatchUnitary(line) == Some(UnitaryProduct(q, Strip(n), t))
    {
      UnitaryCaptures(line, q, s1, n, s2, t);
    }
    if UnitaryAccepts(line) {
      var q, s1, n, s2, t := UnitaryWitness(line);
    }
  }

  // ----- MULTIPLE_PRODUCT_RE: `^(-?\d+)\s+(.+)\s+(-?\d*[.,]\d*)\s+(-?\d+[.,]\d+)$` -----

  ghost predicate MultipleShape(line: Line, q: string, s1: string, n: string, s2: string, u: string, s3: string, t: string) {
    && line == q + s1 + n + s2 + u + s3 + t
    && IsSignedInt(q)
    && SpaceRun(s1) && |n| > 0 && SpaceRun(s2)
    && IsLooseDecimal(u) && SpaceRun(s3)
    && IsSignedDecimal(t)
  }

  /** What `_get_multiple_products` makes of the groups of one match: the record,
      or the `ValueError` of `float()` on a unit price without digits. */
  function MultipleOutcomeOf(q: string, name: string, u: string, t: string): Outcome<Product, Error>
    requires IsSignedInt(q) && IsLooseDecimal(u) && IsSignedDecimal(t)
  {
    match ParseFloat(u)
    case None => Malformed(MalformedNumber(Replace(u, ',', '.')))
    case Some(price) => Matched(Product(name, Round(DecimalValue(t), 2), "", IntValue(q) as real, Round(price, 2)))
  }

  /** What precedes the whitespace before the amount reads as quantity, name
      and unit price. */
  predicate HeadAccepts(p: string) {
    var e := FirstTokenEnd(p);
    var d := LastTokenStart(p);
    e <= d && IsGap(p[e..d]) && IsSignedInt(p[..e]) && IsLooseDecimal(p[d..])
  }

  /** The amount is the last token and the whitespace before it is maximal. */
  predicate MultipleAccepts(line: Line) {
    var b := LastTokenStart(line);
    var c := SpanStart(line, b, IsSpace);
    c < b && HeadAccepts(line[..c]) && IsSignedDecimal(line[b..])
  }

  function HeadOutcome(p: string, t: string): Outcome<Product, Error>
    requires HeadAccepts(p) && IsSignedDecimal(t)
  {
    var e := FirstTokenEnd(p);
    var d := LastTokenStart(p);
    MultipleOutcomeOf(p[..e], Strip(p[e..d]), p[d..], t)
  }

  function MultipleOutcome(line: Line): Outcome<Product, Error> {
    var b := LastTokenStart(line);
    var c := SpanStart(line, b, IsSpace);
    if MultipleAccepts(line) then HeadOutcome(line[..c], line[b..]) else NoMatch
  }

  /** The whitespace before the amount sits in a fixed place when the head
      ends in a non-space: the line is read as that head and that amount. */
  lemma MultipleFrame(line: Line, p: string, s3: string, t: string)
    requires line == p + s3 + t && |p| > 0 && !IsSpace(p[|p| - 1]) && SpaceRun(s3) && NoSpace(t)
    requires HeadAccepts(p) && IsSignedDecimal(t)
    ensures MultipleOutcome(line) == HeadOutcome(p, t)
  {
    TokenAfterRun(line, p, s3, t);
    MultipleAt(line, |p| + |s3|, |p|);
  }

  /** The reading of a line whose amount starts at `b` after the run starting at `c`. */
  lemma MultipleAt(line: Line, b: nat, c: nat)
    requires b == LastTokenStart(line) && c == SpanStart(line, b, IsSpace) && c < b
    requires HeadAccepts(line[..c]) && IsSignedDecimal(line[b..])
    ensures MultipleOutcome(line) == HeadOutcome(line[..c], line[b..])
  {
  }

  lemma MultipleCaptures(line: Line, q: string, s1: string, n: string, s2: string, u: string, s3: string, t: string)
    requires MultipleShape(line, q, s1, n, s2, u, s3, t)
    ensures MultipleOutcome(line) == MultipleOutcomeOf(q, Strip(n), u, t)
  {
    var p := q + s1 + n + s2 + u;
    LooseDecimalHasNoSpace(t);
    LooseDecimalHasNoSpace(u);
    LastOfToken(q + s1 + n + s2, u);
    HeadCaptures(p, q, s1, n, s2, u, t);
    MultipleFrame(line, p, s3, t);
  }

  lemma HeadCaptures(p: string, q: string, s1: string, n: string, s2: string, u: string, t: string)
    requires p == q + s1 + n + s2 + u && IsSignedInt(q) && SpaceRun(s1) && |n| > 0 && SpaceRun(s2) && IsLooseDecimal(u) && IsSignedDecimal(t)
    ensures HeadAccepts(p) && HeadOutcome(p, t) == MultipleOutcomeOf(q, Strip(n), u, t)
  {
    SignedIntHasNoSpace(q);
    LooseDecimalHasNoSpace(u);
    GapFrame(p, q, s1, n, s2, u);
  }

  lemma MultipleWitness(line: Line) returns (q: string, s1: string, n: string, s2: string, u: string, s3: string, t: string)
    requires MultipleAccepts(line)
    ensures MultipleShape(line, q, s1, n, s2, u, s3, t)
  {
    var b := LastTokenStart(line);
    var c := SpanStart(line, b, IsSpace);
    SpaceRunBefore(line, b);
    Split3(line, c, b);
    var p := line[..c];
    var e, d := FirstTokenEnd(p), LastTokenStart(p);
    s1, n, s2 := GapWitness(p, e, d);
    q, u, s3, t := p[..e], p[d..], line[c..b], line[b..];
    assert line == p + s3 + t;
  }

  /** A line is a multi-quantity line exactly when the pattern matches it; every
      match yields the same record, or the same failure. */
  lemma MultipleMatch(line: Line)
    ensures !MultipleOutcome(line).NoMatch? <==> exists q, s1, n, s2, u, s3, t :: MultipleShape(line, q, s1, n, s2, u, s3, t)
    ensures forall q, s1, n, s2, u, s3, t :: MultipleShape(line, q, s1, n, s2, u, s3, t) ==> MultipleOutcome(line) == MultipleOutcomeOf(q, Strip(n), u, t)
  {
    forall q, s1, n, s2, u, s3, t | MultipleShape(line, q, s1, n, s2, u, s3, t)
      ensures MultipleOutcome(line) == MultipleOutcomeOf(q, Strip(n), u, t)
    {
      MultipleCaptures(line, q, s1, n, s2, u, s3, t);
    }
    if MultipleAccepts(line) {
      var q, s1, n, s2, u, s3, t := MultipleWitness(line);
    }
  }

  // ----- FRACTIONAL_PRODUCT_RE: `^(-?\d+[.,]\d+)\s+(.+)\s+(-?\d+[.,]\d+)$` -----

  ghost predicate FractionalShape(line: Line, q: string, s1: string, n: string, s2: string, t: string) {
    && line == q + s1 + n + s2 + t
    && IsSignedDecimal(q)
    && SpaceRun(s1) && |n| > 0 && SpaceRun(s2)
    && IsSignedDecimal(t)
  }

  /** The record `_get_fractional_products` builds: the weight to three decimals,
      the price to two, and their guarded quotient. */
  function FractionalProduct(q: string, name: string, t: string): Product
    requires IsSignedDecimal(q) && IsSignedDecimal(t)
  {
    var quantity := Round(DecimalValue(q), 3);
    var total := Round(DecimalValue(t), 2);
    Product(name, total, "", quantity, UnitPrice(total, quantity))
  }

  predicate FractionalAccepts(line: Line) {
    var e := FirstTokenEnd(line);
    var b := LastTokenStart(line);
    e <= b && IsGap(line[e..b]) && IsSignedDecimal(line[..e]) && IsSignedDecimal(line[b..])
  }

  function MatchFractional(line: Line): Option<Product> {
    var e := FirstTokenEnd(line);
    var b := LastTokenStart(line);
    if FractionalAccepts(line) then Some(FractionalProduct(line[..e], Strip(line[e..b]), line[b..])) else None
  }

  lemma FractionalCaptures(line: Line, q: string, s1: string, n: string, s2: string, t: string)
    requires FractionalShape(line, q, s1, n, s2, t)
    ensures MatchFractional(line) == Some(FractionalProduct(q, Strip(n), t))
  {
    LooseDecimalHasNoSpace(q);
    LooseDecimalHasNoSpace(t);
    GapFrame(line, q, s1, n, s2, t);
  }

  lemma FractionalWitness(line: Line) returns (q: string, s1: string, n: string, s2: string, t: string)
    requires FractionalAccepts(line)
    ensures FractionalShape(line, q, s1, n, s2, t)
  {
    var e, b := FirstTokenEnd(line), LastTokenStart(line);
    q, t := line[..e], line[b..];
    assert e <= b && IsGap(line[e..b]);
    assert IsSignedDecimal(q) && IsSignedDecimal(t);
    s1, n, s2 := GapWitness(line, e, b);
  }

  lemma FractionalMatch(line: Line)
    ensures MatchFractional(line).Some? <==> exists q, s1, n, s2, t :: FractionalShape(line, q, s1, n, s2, t)
    ensures forall q, s1, n, s2, t :: FractionalShape(line, q, s1, n, s2, t) ==> MatchFractional(line) == Some(FractionalProduct(q, Strip(n), t))
  {
    forall q, s1, n, s2, t | FractionalShape(line, q, s1, n, s2, t)
      ensures MatchFractional(line) == Some(FractionalProduct(q, Strip(n), t))
    {
      FractionalCaptures(line, q, s1, n, s2, t);
    }
    if FractionalAccepts(line) {
      var q, s1, n, s2, t := FractionalWitness(line);
    }
  }

  // ----- DISCOUNT_RE: `^(Descuento.+|Dto Mis Fav.+)\s+(-?\d+[.,]\d+)$` -----

  /** `Descuento.+|Dto Mis Fav.+`: a keyword and at least one more character. */
  predicate IsDiscountLabel(g: string) {
    (OccursAt(g, "Descuento", 0) && |g| > 9) || (OccursAt(g, "Dto Mis Fav", 0) && |g| > 11)
  }

  ghost predicate DiscountShape(line: Line, g: string, s: string, t: string) {
    line == g + s + t && IsDiscountLabel(g) && SpaceRun(s) && IsSignedDecimal(t)
  }

  /** The record `_get_discount` builds: no quantity and no unit price. */
  function DiscountProduct(name: string, t: string): Product
    requires IsSignedDecimal(t)
  {
    Product(name, Round(DecimalValue(t), 2), "", 0.0, 0.0)
  }

  /** The greedy label takes all but the last whitespace character before the amount. */
  predicate DiscountAccepts(line: Line) {
    var b := LastTokenStart(line);
    0 < b && IsDiscountLabel(line[..b - 1]) && IsSignedDecimal(line[b..])
  }

  function MatchDiscount(line: Line): Option<Product> {
    var b := LastTokenStart(line);
    if DiscountAccepts(line) then
      Some(DiscountProduct(Strip(line[..b - 1]), line[b..]))
    else
      None
  }

  /** A label followed by whitespace strips to the label stripped. */
  lemma StripTrailing(x: string, g: string, s: string)
    requires x == g + s && AllSpace(s)
    ensures Strip(x) == Strip(g)
  {
    assert x[..0] == [] && x[|g|..] == s && x[0..|g|] == g;
    StripPadded(x, 0, |g|);
  }

  lemma DiscountCaptures(line: Line, g: string, s: string, t: string)
    requires DiscountShape(line, g, s, t)
    ensures MatchDiscount(line) == Some(DiscountProduct(Strip(g), t))
  {
    LooseDecimalHasNoSpace(t);
    LastTokenOf(line, g + s, t);
    DropLastSpace(line, g, s, t);
  }

  /** Dropping the last whitespace character before the amount leaves a label
      that strips to the same name. */
  lemma DropLastSpace(line: Line, g: string, s: string, t: string)
    requires line == g + s + t && IsDiscountLabel(g) && SpaceRun(s)
    ensures IsDiscountLabel(line[..|g| + |s| - 1]) && Strip(line[..|g| + |s| - 1]) == Strip(g)
  {
    var r := s[..|s| - 1];
    assert AllSpace(r) by {
      forall k | 0 <= k < |r| ensures IsSpace(r[k]) {
        assert r[k] == s[k];
      }
    }
    assert line[..|g| + |s| - 1] == g + r;
    LabelExtend(g, r);
    StripTrailing(g + r, g, r);
  }

  /** Text after a label keeps it a label. */
  lemma LabelExtend(g: string, r: string)
    requires IsDiscountLabel(g)
    ensures IsDiscountLabel(g + r)
  {
    assert (g + r)[..|g|] == g;
  }

  lemma DiscountWitness(line: Line) returns (g: string, s: string, t: string)
    requires DiscountAccepts(line)
    ensures DiscountShape(line, g, s, t)
  {
    var b := LastTokenStart(line);
    SpaceAt(line, b - 1);
    Split3(line, b - 1, b);
    g, s, t := line[..b - 1], line[b - 1..b], line[b..];
  }

  lemma DiscountMatch(line: Line)
    ensures MatchDiscount(line).Some? <==> exists g, s, t :: DiscountShape(line, g, s, t)
    ensures forall g, s, t :: DiscountShape(line, g, s, t) ==> MatchDiscount(line) == Some(DiscountProduct(Strip(g), t))
  {
    forall g, s, t | DiscountShape(line, g, s, t)
      ensures MatchDiscount(line) == Some(DiscountProduct(Strip(g), t))
    {
      DiscountCaptures(line, g, s, t);
    }
    if DiscountAccepts(line) {
      var g, s, t := DiscountWitness(line);
    }
  }

  // ----- what each kind of line promises -----

  /** A unitary line: quantity 1 or -1, no unit, and a unit price equal to the
      total, which is a whole number of cents. */
  lemma UnitaryRecord(line: Line, p: Product)
    requires MatchUnitary(line) == Some(p)
    ensures p.quantity == 1.0 || p.quantity == -1.0
    ensures p.unit == "" && p.unitPrice == p.totalPrice && Round(p.totalPrice, 2) == p.totalPrice
  {
    var e, b := FirstTokenEnd(line), LastTokenStart(line);
    assert UnitaryAccepts(line);
    UnitaryFields(line[..e], Strip(line[e..b]), line[b..]);
  }

  lemma UnitaryFields(q: string, name: string, t: string)
    requires (q == "1" || q == "-1") && IsSignedDecimal(t)
    ensures UnitaryProduct(q, name, t).quantity == 1.0 || UnitaryProduct(q, name, t).quantity == -1.0
    ensures UnitaryProduct(q, name, t).unitPrice == UnitaryProduct(q, name, t).totalPrice
    ensures Round(UnitaryProduct(q, name, t).totalPrice, 2) == UnitaryProduct(q, name, t).totalPrice
  {
    UnitQuantity(q);
    RoundIdempotent(DecimalValue(t), 2);
  }

  /** A multi-quantity line: an integer quantity, no unit, and both prices in
      whole cents. */
  lemma MultipleRecord(line: Line, p: Product)
    requires MultipleOutcome(line) == Matched(p)
    ensures p.quantity == p.quantity.Floor as real
    ensures p.unit == "" && Round(p.totalPrice, 2) == p.totalPrice && Round(p.unitPrice, 2) == p.unitPrice
  {
    var q, s1, n, s2, u, s3, t := MultipleWitness(line);
    MultipleCaptures(line, q, s1, n, s2, u, s3, t);
    RoundIdempotent(DecimalValue(t), 2);
    RoundIdempotent(SignedMagnitude(u), 2);
  }

  /** A weighed line: the weight in whole thousandths, the total in whole cents,
      and a unit price that is zero for a zero weight and otherwise within half a
      cent of total over weight, so there is never a division by zero. */
  lemma FractionalRecord(line: Line, p: Product)
    requires MatchFractional(line) == Some(p)
    ensures p.unit == "" && Round(p.quantity, 3) == p.quantity && Round(p.totalPrice, 2) == p.totalPrice
    ensures p.quantity == 0.0 ==> p.unitPrice == 0.0
    ensures p.quantity != 0.0 ==> -0.005 <= p.unitPrice - p.totalPrice / p.quantity <= 0.005
  {
    var e, b := FirstTokenEnd(line), LastTokenStart(line);
    RoundIdempotent(DecimalValue(line[..e]), 3);
    RoundIdempotent(DecimalValue(line[b..]), 2);
  }

  /** A discount line: no quantity, no unit price, and a total with the sign of
      the amount printed on the line. */
  lemma DiscountRecord(line: Line, g: string, s: string, t: string)
    requires DiscountShape(line, g, s, t)
    ensures MatchDiscount(line).Some? && MatchDiscount(line).value.quantity == 0.0 && MatchDiscount(line).value.unitPrice == 0.0
    ensures IsNegative(t) ==> MatchDiscount(line).value.totalPrice <= 0.0
    ensures !IsNegative(t) ==> MatchDiscount(line).value.totalPrice >= 0.0
  {
    DiscountCaptures(line, g, s, t);
    SignedMagnitudeSign(t);
    RoundSign(DecimalValue(t), 2);
  }

  // ----- `,` and `.` are interchangeable -----

  /** Writing the amount of a unitary line with the other separator gives the same product. */
  lemma UnitarySeparators(line: Line, line': Line, q: string, s1: string, n: string, s2: string, t: string, sep: char)
    requires UnitaryShape(line, q, s1, n, s2, t) && IsSep(sep)
    requires line' == q + s1 + n + s2 + WithSeparator(t, sep)
    ensures MatchUnitary(line') == MatchUnitary(line)
  {
    SignedDecimalIsLoose(t);
    SeparatorsInterchangeable(t, sep);
    UnitaryCaptures(line, q, s1, n, s2, t);
    UnitaryCaptures(line', q, s1, n, s2, WithSeparator(t, sep));
  }

  /** Writing either number of a multi-quantity line with the other separator
      gives the same outcome. */
  lemma MultipleSeparators(line: Line, line': Line, q: string, s1: string, n: string, s2: string, u: string, s3: string, t: string, sep: char, sep': char)
    requires MultipleShape(line, q, s1, n, s2, u, s3, t) && IsSep(sep) && IsSep(sep')
    requires line' == q + s1 + n + s2 + WithSeparator(u, sep) + s3 + WithSeparator(t, sep')
    ensures MultipleOutcome(line') == MultipleOutcome(line)
  {
    SignedDecimalIsLoose(t);
    SeparatorsInterchangeable(u, sep);
    SeparatorsInterchangeable(t, sep');
    MultipleCaptures(line, q, s1, n, s2, u, s3, t);
    MultipleCaptures(line', q, s1, n, s2, WithSeparator(u, sep), s3, WithSeparator(t, sep'));
    OutcomeSeparators(q, Strip(n), u, t, sep, sep');
  }

  lemma OutcomeSeparators(q: string, name: string, u: string, t: string, sep: char, sep': char)
    requires IsSignedInt(q) && IsLooseDecimal(u) && IsSignedDecimal(t) && IsSep(sep) && IsSep(sep')
    ensures IsLooseDecimal(WithSeparator(u, sep)) && IsSignedDecimal(WithSeparator(t, sep'))
    ensures MultipleOutcomeOf(q, name, WithSeparator(u, sep), WithSeparator(t, sep')) == MultipleOutcomeOf(q, name, u, t)
  {
    SignedDecimalIsLoose(t);
    SeparatorsInterchangeable(u, sep);
    SeparatorsInterchangeable(t, sep');
    ReplaceSeparator(u, sep);
  }

  /** Writing either number of a weighed line with the other separator gives the same product. */
  lemma FractionalSeparators(line: Line, line': Line, q: string, s1: string, n: string, s2: string, t: string, sep: char, sep': char)
    requires FractionalShape(line, q, s1, n, s2, t) && IsSep(sep) && IsSep(sep')
    requires line' == WithSeparator(q, sep) + s1 + n + s2 + WithSeparator(t, sep')
    ensures MatchFractional(line') == MatchFractional(line)
  {
    SignedDecimalIsLoose(q);
    SignedDecimalIsLoose(t);
    SeparatorsInterchangeable(q, sep);
    SeparatorsInterchangeable(t, sep');
    FractionalCaptures(line, q, s1, n, s2, t);
    FractionalCaptures(line', WithSeparator(q, sep), s1, n, s2, WithSeparator(t, sep'));
  }

  /** Writing the amount of a discount line with the other separator gives the same product. */
  lemma DiscountSeparators(line: Line, line': Line, g: string, s: string, t: string, sep: char)
    requires DiscountShape(line, g, s, t) && IsSep(sep)
    requires line' == g + s + WithSeparator(t, sep)
    ensures MatchDiscount(line') == MatchDiscount(line)
  {
    SignedDecimalIsLoose(t);
    SeparatorsInterchangeable(t, sep);
    DiscountCaptures(line, g, s, t);
    DiscountCaptures(line', g, s, WithSeparator(t, sep));
  }

  // ----- which grammars can share a line -----

  /** A discount line starts with a letter, every other kind with a number: a
      discount line is no other kind of line. */
  lemma DiscountExcludes(line: Line)
    requires MatchDiscount(line).Some?
    ensures MatchUnitary(line).None? && MultipleOutcome(line).NoMatch? && MatchFractional(line).None?
  {
    DiscountStartsWithD(line);
    FirstTokenNotNumber(line);
    var b := LastTokenStart(line);
    HeadNotNumber(line, SpanStart(line, b, IsSpace));
  }

  lemma DiscountStartsWithD(line: Line)
    requires DiscountAccepts(line)
    ensures |line| > 0 && line[0] == 'D'
  {
    var b := LastTokenStart(line);
    var g := line[..b - 1];
    if OccursAt(g, "Descuento", 0) {
      assert g[0] == g[..9][0];
    } else {
      assert g[0] == g[..11][0];
    }
    assert line[0] == g[0];
  }

  /** A line starting with a letter has no number as its first token. */
  lemma FirstTokenNotNumber(line: Line)
    requires |line| > 0 && line[0] == 'D'
    ensures !UnitaryAccepts(line) && !FractionalAccepts(line)
  {
    var e := FirstTokenEnd(line);
    if e > 0 {
      assert line[..e][0] == 'D';
      if IsSignedInt(line[..e]) || IsSignedDecimal(line[..e]) {
        LeadingChar(line[..e]);
      }
    }
  }

  lemma HeadNotNumber(line: Line, c: nat)
    requires c <= |line| && |line| > 0 && line[0] == 'D'
    ensures !HeadAccepts(line[..c])
  {
    var head := line[..c];
    var e := FirstTokenEnd(head);
    if 0 < e {
      assert head[..e][0] == 'D';
      if IsSignedInt(head[..e]) {
        LeadingChar(head[..e]);
      }
    }
  }

  /** A weighed line starts with a decimal, a unitary or multi-quantity line with
      an integer: the kinds are disjoint. */
  lemma FractionalExcludes(line: Line)
    requires MatchFractional(line).Some?
    ensures MatchUnitary(line).None? && MultipleOutcome(line).NoMatch?
  {
    assert FractionalAccepts(line);
    FractionalNotInteger(line);
  }

  lemma FractionalNotInteger(line: Line)
    requires FractionalAccepts(line)
    ensures !UnitaryAccepts(line) && !MultipleAccepts(line)
  {
    var e := FirstTokenEnd(line);
    assert IsSignedDecimal(line[..e]);
    assert !IsSignedDecimal("1") && !IsSignedDecimal("-1");
    var b := LastTokenStart(line);
    var c := SpanStart(line, b, IsSpace);
    var head := line[..c];
    if MultipleAccepts(line) {
      assert HeadAccepts(head);
      var e' := FirstTokenEnd(head);
      assert e' < c && IsSignedInt(head[..e']);
      FirstTokenOfPrefix(line, c);
      IntIsNotDecimal(head[..e']);
    }
  }

  /** A multi-quantity line whose quantity is 1 or -1 and whose unit price has
      digits on both sides of the separator is also a unitary line, read with
      the unit price as part of the name: it is listed twice among the products. */
  lemma UnitaryMultipleOverlap(line: Line, q: string, s1: string, n: string, s2: string, u: string, s3: string, t: string)
    requires MultipleShape(line, q, s1, n, s2, u, s3, t) && (q == "1" || q == "-1") && IsSignedDecimal(u)
    ensures MatchUnitary(line) == Some(UnitaryProduct(q, Strip(n + s2 + u), t))
    ensures MultipleOutcome(line).Matched?
  {
    UnitaryReading(line, q, s1, n, s2, u, s3, t);
    UnitaryCaptures(line, q, s1, n + s2 + u, s3, t);
    MultipleCaptures(line, q, s1, n, s2, u, s3, t);
    assert ParseFloat(u) == Some(DecimalValue(u));
  }

  lemma UnitaryReading(line: Line, q: string, s1: string, n: string, s2: string, u: string, s3: string, t: string)
    requires MultipleShape(line, q, s1, n, s2, u, s3, t) && (q == "1" || q == "-1")
    ensures UnitaryShape(line, q, s1, n + s2 + u, s3, t)
  {
    var p := q + s1;
    Assoc(p, n + s2, u);
    Assoc(p, n, s2);
  }

  // ----- `_get_products` -----

  function UnitaryOutcome(line: Line): Outcome<Product, Error> {
    Lift(MatchUnitary(line))
  }

  function FractionalOutcome(line: Line): Outcome<Product, Error> {
    Lift(MatchFractional(line))
  }

  function DiscountOutcome(line: Line): Outcome<Product, Error> {
    Lift(MatchDiscount(line))
  }

  /** The comprehensions over grammars that cannot fail do not raise. */
  lemma LiftedGathers(ls: seq<Line>)
    ensures Gather(ls, UnitaryOutcome, 0).Success?
    ensures Gather(ls, FractionalOutcome, 0).Success?
    ensures Gather(ls, DiscountOutcome, 0).Success?
  {
    assert forall j :: 0 <= j < |ls| ==> !UnitaryOutcome(ls[j]).Malformed?;
    assert forall j :: 0 <= j < |ls| ==> !FractionalOutcome(ls[j]).Malformed?;
    assert forall j :: 0 <= j < |ls| ==> !DiscountOutcome(ls[j]).Malformed?;
  }

  /** `_get_products`: the unitary, multi-quantity, fractional and discount
      comprehensions concatenated in that order. Only the multi-quantity one can
      raise, and it raises at its first malformed line. */
  function Products(text: string): (r: Result<seq<Product>, Error>)
    ensures r.Success? ==> forall j :: 0 <= j < |Lines(text)| ==> !MultipleOutcome(Lines(text)[j]).Malformed?
    ensures (forall j :: 0 <= j < |Lines(text)| ==> !MultipleOutcome(Lines(text)[j]).Malformed?) ==> r.Success?
    ensures r.Success? ==> r.value == Collected(Lines(text), UnitaryOutcome, 0) + Collected(Lines(text), MultipleOutcome, 0) + Collected(Lines(text), FractionalOutcome, 0) + Collected(Lines(text), DiscountOutcome, 0)
    ensures r.Failure? ==> exists j :: 0 <= j < |Lines(text)| && MultipleOutcome(Lines(text)[j]) == Malformed(r.error) && forall l :: 0 <= l < j ==> !MultipleOutcome(Lines(text)[l]).Malformed?
  {
    var ls := Lines(text);
    LiftedGathers(ls);
    var multiple := Gather(ls, MultipleOutcome, 0);
    if multiple.Failure? then
      Failure(multiple.error)
    else
      Success(Gather(ls, UnitaryOutcome, 0).value + multiple.value + Gather(ls, FractionalOutcome, 0).value + Gather(ls, DiscountOutcome, 0).value)
  }

  /** A product is listed exactly when some line of the text yields it under
      one of the four grammars. */
  lemma ProductsMembers(text: string, ps: seq<Product>, p: Product)
    requires Products(text) == Success(ps)
    ensures p in ps <==> || (exists j :: 0 <= j < |Lines(text)| && UnitaryOutcome(Lines(text)[j]) == Matched(p))
                         || (exists j :: 0 <= j < |Lines(text)| && MultipleOutcome(Lines(text)[j]) == Matched(p))
                         || (exists j :: 0 <= j < |Lines(text)| && FractionalOutcome(Lines(text)[j]) == Matched(p))
                         || (exists j :: 0 <= j < |Lines(text)| && DiscountOutcome(Lines(text)[j]) == Matched(p))
  {
    ProductsSections(text, ps, p);
    UnitaryMembers(Lines(text), p);
    MultipleMembers(Lines(text), p);
    FractionalMembers(Lines(text), p);
    DiscountMembers(Lines(text), p);
  }

  lemma ProductsSections(text: string, ps: seq<Product>, p: Product)
    requires Products(text) == Success(ps)
    ensures p in ps <==> || p in Collected(Lines(text), UnitaryOutcome, 0) || p in Collected(Lines(text), MultipleOutcome, 0)
                         || p in Collected(Lines(text), FractionalOutcome, 0) || p in Collected(Lines(text), DiscountOutcome, 0)
  {
    ConcatMembers(ps, Collected(Lines(text), UnitaryOutcome, 0), Collected(Lines(text), MultipleOutcome, 0), Collected(Lines(text), FractionalOutcome, 0), Collected(Lines(text), DiscountOutcome, 0), p);
  }

  lemma UnitaryMembers(ls: seq<Line>, p: Product)
    ensures p in Collected(ls, UnitaryOutcome, 0) <==> exists j :: 0 <= j < |ls| && UnitaryOutcome(ls[j]) == Matched(p)
  {
    CollectedMembers(ls, UnitaryOutcome, 0, p);
  }

  lemma MultipleMembers(ls: seq<Line>, p: Product)
    ensures p in Collected(ls, MultipleOutcome, 0) <==> exists j :: 0 <= j < |ls| && MultipleOutcome(ls[j]) == Matched(p)
  {
    CollectedMembers(ls, MultipleOutcome, 0, p);
  }

  lemma FractionalMembers(ls: seq<Line>, p: Product)
    ensures p in Collected(ls, FractionalOutcome, 0) <==> exists j :: 0 <= j < |ls| && FractionalOutcome(ls[j]) == Matched(p)
  {
    CollectedMembers(ls, FractionalOutcome, 0, p);
  }

  lemma DiscountMembers(ls: seq<Line>, p: Product)
    ensures p in Collected(ls, DiscountOutcome, 0) <==> exists j :: 0 <= j < |ls| && DiscountOutcome(ls[j]) == Matched(p)
  {
    CollectedMembers(ls, DiscountOutcome, 0, p);
  }

  lemma ConcatMembers<T>(ps: seq<T>, a: seq<T>, b: seq<T>, c: seq<T>, d: seq<T>, x: T)
    requires ps == a + b + c + d
    ensures x in ps <==> x in a || x in b || x in c || x in d
  {
  }
}
