/** The product grammars of the Mercadona receipt: the "normal" item
    (`NORMAL_PRODUCT_RE`), the trailing unit price split off its name
    (`UNIT_PRODUCT_PRICE_RE`), and the "special" weighed item
    (`SPECIAL_PRODUCT_RE`). The normal item is recognised within one line and
    the special item within a pair of lines; the matches in which a `\s`
    of either pattern takes a further line feed are not recognised.

    As for the Consum grammars, each pattern gets a `Shape` predicate (the
    pattern as a concatenation of its pieces) and a deterministic recogniser.
    Unlike there, the exact text of a group matters here, because a group is fed
    to a second pattern before it is stripped; so the `Shape` is paired with the
    condition that singles out the split the regular expression engine takes
    (greedy quantifiers first, each as long as the rest allows). */
module MercadonaLines {
  import opened Wrappers
  import opened Strings
  import opened Numeric
  import opened Models
  import opened Scan

  // ----- `\s+(.+)` in front of a fixed part -----

  /** The split of `\s+(.+)` the engine makes: the whitespace as long as it can
      be while leaving the group at least one character. Either the group starts
      at a non-whitespace character, or the whole stretch is whitespace and the
      group is its last character. */
  ghost predicate LongestSpace(s1: string, n: string) {
    SpaceRun(s1) && |n| > 0 && (!IsSpace(n[0]) || |n| == 1)
  }

  /** Where the group of `\s+(.+)` starts when the two span `line[e..b]`. */
  function GroupStart(line: string, e: nat, b: nat): (r: nat)
    requires e + 2 <= b <= |line|
    ensures e < r < b
  {
    var s := SpanEnd(line, e, IsSpace);
    if e < s < b then s else b - 1
  }

  /** The engine's split is the one `GroupStart` finds. */
  lemma GroupStartOf(line: string, e: nat, b: nat, s1: string, n: string)
    requires e + |s1| + |n| == b <= |line| && line[e..b] == s1 + n && LongestSpace(s1, n)
    ensures GroupStart(line, e, b) == e + |s1|
  {
    assert forall k :: e <= k < e + |s1| ==> line[k] == s1[k - e];
    if !IsSpace(n[0]) {
      assert line[e + |s1|] == n[0];
      SpanEndUnique(line, e, IsSpace, e + |s1|);
    } else {
      assert line[b - 1] == n[0];
    }
  }

  /** Conversely, `GroupStart` makes such a split whenever the stretch starts
      with whitespace. */
  lemma GroupSplit(line: string, e: nat, b: nat)
    requires e + 2 <= b <= |line| && IsSpace(line[e])
    ensures LongestSpace(line[e..GroupStart(line, e, b)], line[GroupStart(line, e, b)..b])
    ensures line[e..b] == line[e..GroupStart(line, e, b)] + line[GroupStart(line, e, b)..b]
  {
    var s := SpanEnd(line, e, IsSpace);
    var r := GroupStart(line, e, b);
    assert forall k :: 0 <= k < r - e ==> line[e..r][k] == line[e + k];
    assert line[r..b][0] == line[r];
  }

  // ----- NORMAL_PRODUCT_RE: `^([1-9]\d*)\s+(.+)\s(\d+[.,]\d+)$` -----

  /** The pattern as a concatenation: quantity, whitespace, name, one whitespace
      character, amount. */
  ghost predicate NormalShape(line: Line, q: string, s1: string, n: string, c: char, t: string) {
    && line == q + s1 + n + [c] + t
    && IsPositiveInt(q) && SpaceRun(s1) && |n| > 0 && IsSpace(c) && IsDecimal(t)
  }

  /** The first token is a quantity without a leading zero, the last an amount,
      and at least two characters lie between them. */
  predicate NormalAccepts(line: Line) {
    var e := FirstTokenEnd(line);
    var b := LastTokenStart(line);
    IsPositiveInt(line[..e]) && e + 3 <= b && IsDecimal(line[b..])
  }

  /** The three groups of a match: quantity, name (exactly as captured) and amount. */
  function NormalGroups(line: Line): Option<(string, string, string)> {
    var e := FirstTokenEnd(line);
    var b := LastTokenStart(line);
    if NormalAccepts(line) then Some((line[..e], line[GroupStart(line, e, b - 1)..b - 1], line[b..])) else None
  }

  /** An amount holds no whitespace. */
  lemma DecimalHasNoSpace(t: string)
    requires IsDecimal(t)
    ensures |t| > 0 && NoSpace(t)
  {
    DecimalIsSigned(t);
    SignedDecimalIsLoose(t);
    LooseDecimalHasNoSpace(t);
  }

  lemma DigitsHaveNoSpace(q: string)
    requires IsDigits(q)
    ensures NoSpace(q)
  {
    assert forall k :: 0 <= k < |q| ==> IsDigit(q[k]);
  }

  /** Every split of the line that fits the pattern has the quantity and the
      amount in the places the recogniser looks, and the engine's split has the
      name there too. */
  lemma NormalCaptures(line: Line, q: string, s1: string, n: string, c: char, t: string)
    requires NormalShape(line, q, s1, n, c, t)
    ensures NormalGroups(line).Some? && NormalGroups(line).value.0 == q && NormalGroups(line).value.2 == t
    ensures LongestSpace(s1, n) ==> NormalGroups(line) == Some((q, n, t))
  {
    NormalFrame(line, q, s1, n, c, t);
    var e, b := |q|, |line| - |t|;
    if LongestSpace(s1, n) {
      GroupStartOf(line, e, b - 1, s1, n);
      assert line[e + |s1|..b - 1] == n;
    }
  }

  lemma NormalFrame(line: Line, q: string, s1: string, n: string, c: char, t: string)
    requires NormalShape(line, q, s1, n, c, t)
    ensures FirstTokenEnd(line) == |q| && LastTokenStart(line) == |line| - |t|
    ensures line[..|q|] == q && line[|line| - |t|..] == t && line[|q|..|line| - |t| - 1] == s1 + n
    ensures NormalAccepts(line)
  {
    DecimalHasNoSpace(t);
    DigitsHaveNoSpace(q);
    GapFrame(line, q, s1, n, [c], t);
    NameSlice(q, s1, n, c, t);
  }

  lemma NameSlice(q: string, s1: string, n: string, c: char, t: string)
    ensures (q + s1 + n + [c] + t)[|q|..|q| + |s1| + |n|] == s1 + n
  {
    var line := q + s1 + n + [c] + t;
    assert forall k :: 0 <= k < |s1| ==> line[|q| + k] == s1[k];
    assert forall k :: 0 <= k < |n| ==> line[|q| + |s1| + k] == n[k];
  }

  lemma NormalWitness(line: Line) returns (s1: string, c: char)
    requires NormalGroups(line).Some?
    ensures var g := NormalGroups(line).value; NormalShape(line, g.0, s1, g.1, c, g.2) && LongestSpace(s1, g.1)
  {
    var e, b := FirstTokenEnd(line), LastTokenStart(line);
    var r := GroupStart(line, e, b - 1);
    NormalGroupsAt(line, e, b, r);
    GroupSplit(line, e, b - 1);
    s1, c := line[e..r], line[b - 1];
    NormalShapeAt(line, e, r, b);
  }

  /** The pieces of a line cut at the recogniser's positions fit the pattern. */
  lemma NormalShapeAt(line: Line, e: nat, r: nat, b: nat)
    requires e <= r < b <= |line| && IsPositiveInt(line[..e]) && IsDecimal(line[b..]) && IsSpace(line[b - 1])
    requires LongestSpace(line[e..r], line[r..b - 1])
    ensures NormalShape(line, line[..e], line[e..r], line[r..b - 1], line[b - 1], line[b..])
  {
    Split5(line, e, r, b - 1);
  }

  /** The groups of an accepted line, at the recogniser's positions. */
  lemma NormalGroupsAt(line: Line, e: nat, b: nat, r: nat)
    requires e == FirstTokenEnd(line) && b == LastTokenStart(line) && NormalAccepts(line)
    requires r == GroupStart(line, e, b - 1)
    ensures NormalGroups(line) == Some((line[..e], line[r..b - 1], line[b..]))
    ensures IsPositiveInt(line[..e]) && IsDecimal(line[b..]) && IsSpace(line[b - 1]) && IsSpace(line[e])
  {
  }

  /** A line is a normal item exactly when it fits the pattern; the engine's
      groups are the recogniser's. */
  lemma NormalMatch(line: Line)
    ensures NormalGroups(line).Some? <==> exists q, s1, n, c, t :: NormalShape(line, q, s1, n, c, t)
    ensures forall q, s1, n, c, t :: NormalShape(line, q, s1, n, c, t) && LongestSpace(s1, n) ==> NormalGroups(line) == Some((q, n, t))
  {
    forall q, s1, n, c, t | NormalShape(line, q, s1, n, c, t)
      ensures NormalGroups(line).Some? && (LongestSpace(s1, n) ==> NormalGroups(line) == Some((q, n, t)))
    {
      NormalCaptures(line, q, s1, n, c, t);
    }
    if NormalGroups(line).Some? {
      var s1, c := NormalWitness(line);
    }
  }

  // ----- UNIT_PRODUCT_PRICE_RE: `(.*)\s(\d+[,.]\d{2})$`, searched -----

  /** `\d+[,.]\d{2}`: a price with exactly two decimals. */
  predicate IsCents(u: string) {
    IsDecimal(u) && SepIndex(u) == |u| - 3
  }

  /** A price, character by character. */
  lemma CentsChars(u: string)
    ensures IsCents(u) <==>
      && |u| >= 4 && AllDigits(u[..|u| - 3]) && IsSep(u[|u| - 3]) && IsDigit(u[|u| - 2]) && IsDigit(u[|u| - 1])
  {
    if |u| >= 4 && AllDigits(u[..|u| - 3]) && IsSep(u[|u| - 3]) && IsDigit(u[|u| - 2]) && IsDigit(u[|u| - 1]) {
      assert forall k :: 0 <= k < |u| - 3 ==> IsDigit(u[k]) by {
        forall k | 0 <= k < |u| - 3 ensures IsDigit(u[k]) {
          assert u[..|u| - 3][k] == u[k];
        }
      }
      SpanEndUnique(u, 0, IsDigit, |u| - 3);
      assert u[|u| - 2..] == [u[|u| - 2], u[|u| - 1]];
    }
    if IsCents(u) {
      assert u[..|u| - 3] == u[..SepIndex(u)];
      assert u[|u| - 2] == u[SepIndex(u) + 1..][0] && u[|u| - 1] == u[SepIndex(u) + 1..][1];
    }
  }

  /** Where `$` can stand at the end of the pattern's last token: at the end of
      the text, or before a line feed that ends it. */
  predicate IsDollar(s: string, d: nat) {
    d == |s| || (d + 1 == |s| && s[d] == '\n')
  }

  /** A match of the pattern: group 1 is `s[p..k - 1]`, free of line feeds;
      `s[k - 1]` is the whitespace; group 2 is the price `s[k..d]`, which ends
      where `$` can stand. */
  ghost predicate PriceShape(s: string, p: nat, k: nat, d: nat) {
    && p < k <= d <= |s| && IsDollar(s, d)
    && (forall j :: p <= j < k - 1 ==> s[j] != '\n')
    && IsSpace(s[k - 1]) && IsCents(s[k..d])
  }

  /** `UNIT_PRODUCT_PRICE_RE.search(s)`: the start of group 1 and the bounds of
      group 2. The price and the whitespace before it are fixed by the end of
      the text; the search then takes the earliest start that keeps group 1
      on one line. */
  function PriceCut(s: string): (r: Option<(nat, nat, nat)>)
    ensures r.Some? ==> r.value.0 < r.value.1 <= r.value.2 <= |s|
  {
    var d := if |s| > 0 && s[|s| - 1] == '\n' then |s| - 1 else |s|;
    if d < 4 then None
    else
      var k := SpanStart(s, d - 3, IsDigit);
      if 0 < k < d - 3 && IsSpace(s[k - 1]) && IsSep(s[d - 3]) && IsDigit(s[d - 2]) && IsDigit(s[d - 1]) then
        Some((SpanStart(s, k - 1, IsNotNewline), k, d))
      else None
  }

  lemma PriceWitness(s: string)
    requires PriceCut(s).Some?
    ensures var c := PriceCut(s).value; PriceShape(s, c.0, c.1, c.2)
  {
    var c := PriceCut(s).value;
    var k, d := c.1, c.2;
    assert forall j :: 0 <= j < d - 3 - k ==> s[k..d][j] == s[k + j];
    assert s[k..d][..d - 3 - k] == s[k..d - 3];
    CentsChars(s[k..d]);
  }

  /** Any match has its price where the recogniser looks, and the search starts
      no later than it. */
  lemma PriceCaptures(s: string, p: nat, k: nat, d: nat)
    requires PriceShape(s, p, k, d)
    ensures PriceCut(s).Some? && PriceCut(s).value.0 <= p && PriceCut(s).value.1 == k && PriceCut(s).value.2 == d
  {
    CentsAt(s, k, d);
    SpanStartUnique(s, d - 3, IsDigit, k);
  }

  /** A price read in place: digits from `k`, then the separator and two digits
      before `d`. */
  lemma CentsAt(s: string, k: nat, d: nat)
    requires k <= d <= |s| && IsCents(s[k..d])
    ensures k + 4 <= d && IsSep(s[d - 3]) && IsDigit(s[d - 2]) && IsDigit(s[d - 1])
    ensures forall j :: k <= j < d - 3 ==> IsDigit(s[j])
  {
    CentsChars(s[k..d]);
    assert s[d - 1] == s[k..d][d - 1 - k] && s[d - 2] == s[k..d][d - 2 - k] && s[d - 3] == s[k..d][d - 3 - k];
    forall j | k <= j < d - 3 ensures IsDigit(s[j]) {
      assert s[j] == s[k..d][..d - 3 - k][j - k];
    }
  }

  /** The search succeeds exactly when the text ends in whitespace and a price;
      its groups are those of the match that starts first. */
  lemma PriceMatch(s: string)
    ensures PriceCut(s).Some? <==> exists p, k, d :: PriceShape(s, p, k, d)
    ensures PriceCut(s).Some? ==> PriceShape(s, PriceCut(s).value.0, PriceCut(s).value.1, PriceCut(s).value.2)
    ensures forall p, k, d :: PriceShape(s, p, k, d) ==> PriceCut(s).value.0 <= p
  {
    forall p, k, d | PriceShape(s, p, k, d) ensures PriceCut(s).Some? && PriceCut(s).value.0 <= p {
      PriceCaptures(s, p, k, d);
    }
    if PriceCut(s).Some? {
      PriceWitness(s);
    }
  }

  /** A slice that does not start or end with whitespace is its own strip. */
  lemma StripTrimmed(s: string)
    requires |s| > 0 && !IsSpace(s[0]) && !IsSpace(s[|s| - 1])
    ensures Strip(s) == s
  {
    StripUnique(s, 0, |s|);
  }

  /** Replacing `,` by `.` keeps a price a price. */
  lemma CentsReplace(u: string)
    requires IsCents(u)
    ensures IsCents(Replace(u, ',', '.')) && Replace(u, ',', '.')[|u| - 3] == '.'
  {
    var v := Replace(u, ',', '.');
    CentsChars(u);
    assert forall k :: 0 <= k < |u| - 3 ==> IsDigit(v[k]) by {
      forall k | 0 <= k < |u| - 3 ensures IsDigit(v[k]) {
        assert u[..|u| - 3][k] == u[k];
      }
    }
    assert forall k :: 0 <= k < |u| - 3 ==> v[..|u| - 3][k] == v[k];
    CentsChars(v);
  }

  /** A price written after whitespace at the very end of a text is found,
      whatever comes before it. */
  lemma PriceAtEnd(a: string, c: char, u: string)
    requires IsSpace(c) && IsCents(u)
    ensures PriceCut(a + [c] + u).Some?
    ensures PriceCut(a + [c] + u).value.1 == |a| + 1 && PriceCut(a + [c] + u).value.2 == |a + [c] + u|
    ensures '\n' !in a ==> PriceCut(a + [c] + u).value.0 == 0
  {
    var s := a + [c] + u;
    if '\n' !in a {
      PriceShapeAtEnd(a, c, u, 0);
      PriceCaptures(s, 0, |a| + 1, |s|);
    } else {
      PriceShapeAtEnd(a, c, u, |a|);
      PriceCaptures(s, |a|, |a| + 1, |s|);
    }
  }

  lemma PriceShapeAtEnd(a: string, c: char, u: string, p: nat)
    requires IsSpace(c) && IsCents(u)
    requires p <= |a| && forall j :: p <= j < |a| ==> a[j] != '\n'
    ensures PriceShape(a + [c] + u, p, |a| + 1, |a + [c] + u|)
  {
    var s := a + [c] + u;
    assert s[|a| + 1..|s|] == u;
    assert s[|a|] == c;
    assert forall j :: p <= j < |a| ==> s[j] == a[j];
  }

  // ----- `_normal_tuple_to_product` and `_get_normal_products` -----

  /** The unit price times the quantity gives back the total, exactly. */
  predicate PricedPerUnit(p: Product) {
    p.unitPrice * p.quantity == p.totalPrice
  }

  /** A counted item whose unit price is its total over its quantity. */
  function PerUnit(name: string, total: real, unit: string, quantity: nat): (p: Product)
    requires quantity >= 1
    ensures p.name == name && p.totalPrice == total && p.unit == unit && p.quantity == quantity as real
  {
    Product(name, total, unit, quantity as real, total / quantity as real)
  }

  /** Its unit price times its quantity is its total. Kept apart from the
      function, so that the product of reals is only in view where it is used. */
  lemma PerUnitPriced(name: string, total: real, unit: string, quantity: nat)
    requires quantity >= 1
    ensures PricedPerUnit(PerUnit(name, total, unit, quantity))
  {
    DivMulCancel(total, quantity as real);
  }

  /** A product counting `quantity` units for `total`, priced per unit. */
  predicate Counts(p: Product, quantity: nat, total: real) {
    p.quantity == quantity as real && p.totalPrice == total && PricedPerUnit(p)
  }

  /** The product of one normal line, from its groups. A quantity above one needs
      a price at the end of the name: it is removed from the name and shown as
      `(q x p€)`. Without one, unpacking `None` raises a `TypeError`, which the
      `except ValueError` around it does not catch: here `MissingUnitPrice`.
      Neither amount is rounded. */
  function NormalProduct(q: string, name: string, t: string): (r: Result<Product, Error>)
    requires IsPositiveInt(q) && IsDecimal(t)
    ensures r.Failure? <==> DigitsValue(q) > 1 && PriceCut(name).None?
    ensures r.Failure? ==> r.error == MissingUnitPrice(name)
    ensures r.Success? ==> Counts(r.value, DigitsValue(q), DecimalValue(t)) && DigitsValue(q) >= 1
    ensures DigitsValue(q) == 1 ==> r == Success(Product(Strip(name), DecimalValue(t), "", 1.0, DecimalValue(t)))
  {
    DecimalIsSigned(t);
    DigitsValuePositive(q);
    var quantity := DigitsValue(q);
    if quantity > 1 then CountedProduct(name, DecimalValue(t), quantity)
    else Success(SingleProduct(Strip(name), DecimalValue(t)))
  }

  /** One unit: no annotation, and the unit price is the total. */
  function SingleProduct(name: string, total: real): (p: Product)
    ensures Counts(p, 1, total) && p.unitPrice == total
    ensures p == Product(name, total, "", 1.0, total)
  {
    PerUnitPriced(name, total, "", 1);
    PerUnit(name, total, "", 1)
  }

  /** More than one unit: the name must end in the unit price. */
  function CountedProduct(name: string, total: real, quantity: nat): (r: Result<Product, Error>)
    requires quantity > 1
    ensures r.Failure? <==> PriceCut(name).None?
    ensures r.Failure? ==> r.error == MissingUnitPrice(name)
    ensures r.Success? ==> Counts(r.value, quantity, total)
  {
    match PriceCut(name)
    case None => Failure(MissingUnitPrice(name))
    case Some(c) =>
      PerUnitPriced(Strip(name[c.0..c.1 - 1]), total, UnitAnnotation(quantity, name[c.1..c.2]), quantity);
      Success(CutProduct(name, c.0, c.1 - 1, c.2, total, quantity))
  }

  /** `(q x p€)`: the quantity and the unit price with a `.` separator. */
  function UnitAnnotation(quantity: nat, price: string): string {
    "(" + NatToString(quantity) + " x " + Strip(Replace(price, ',', '.')) + "€)"
  }

  /** A counted item whose name ends in its unit price: the name from `i` up
      to the whitespace at `w`, the price after it up to `d`. */
  function CutProduct(name: string, i: nat, w: nat, d: nat, total: real, quantity: nat): (p: Product)
    requires i <= w < d <= |name| && quantity >= 1
    ensures p.quantity == quantity as real && p.totalPrice == total
  {
    PerUnit(Strip(name[i..w]), total, UnitAnnotation(quantity, name[w + 1..d]), quantity)
  }

  /** With more than one unit, a name ending in whitespace and a price gives up
      the price to the unit annotation `(q x p€)`, written with the quantity as
      on the receipt and a `.` separator; the name keeps the rest, stripped. */
  lemma NormalUnitOfName(q: string, a: string, c: char, u: string, t: string)
    requires IsPositiveInt(q) && DigitsValue(q) > 1 && IsDecimal(t)
    requires '\n' !in a && IsSpace(c) && IsCents(u)
    ensures NormalProduct(q, a + [c] + u, t) == Success(PerUnit(Strip(a), DecimalValue(t), "(" + q + " x " + Replace(u, ',', '.') + "€)", DigitsValue(q)))
  {
    DecimalIsSigned(t);
    var total, quantity := DecimalValue(t), DigitsValue(q);
    CountedAtEnd(q, a, c, u, t);
    CutAtEnd(a, c, u, total, quantity);
    AnnotationOf(q, u);
  }

  /** The price at the very end of the name is the one cut off. */
  lemma CountedAtEnd(q: string, a: string, c: char, u: string, t: string)
    requires IsPositiveInt(q) && DigitsValue(q) > 1 && IsDecimal(t)
    requires '\n' !in a && IsSpace(c) && IsCents(u)
    ensures NormalProduct(q, a + [c] + u, t) == Success(CutProduct(a + [c] + u, 0, |a|, |a + [c] + u|, DecimalValue(t), DigitsValue(q)))
  {
    var n := a + [c] + u;
    PriceAtEnd(a, c, u);
    assert PriceCut(n) == Some((0, |a| + 1, |n|));
    CountedAt(q, n, t, 0, |a|, |n|);
  }

  /** Cutting there leaves `a` as the name and `u` as the price. */
  lemma CutAtEnd(a: string, c: char, u: string, total: real, quantity: nat)
    requires quantity >= 1 && |u| > 0
    ensures CutProduct(a + [c] + u, 0, |a|, |a + [c] + u|, total, quantity) == PerUnit(Strip(a), total, UnitAnnotation(quantity, u), quantity)
  {
    AroundElement(a, c, u);
    CutProductOf(a + [c] + u, 0, |a|, |a + [c] + u|, total, quantity, a, u);
  }

  /** The counted item of a cut whose name and price pieces are known. */
  lemma CutProductOf(name: string, i: nat, w: nat, d: nat, total: real, quantity: nat, x: string, y: string)
    requires i <= w < d <= |name| && quantity >= 1
    requires name[i..w] == x && name[w + 1..d] == y
    ensures CutProduct(name, i, w, d, total, quantity) == PerUnit(Strip(x), total, UnitAnnotation(quantity, y), quantity)
  {
  }

  /** A quantity above one with the price found after the whitespace at `w`. */
  lemma CountedAt(q: string, name: string, t: string, i: nat, w: nat, d: nat)
    requires IsPositiveInt(q) && DigitsValue(q) > 1 && IsDecimal(t) && PriceCut(name) == Some((i, w + 1, d))
    ensures NormalProduct(q, name, t) == Success(CutProduct(name, i, w, d, DecimalValue(t), DigitsValue(q)))
  {
  }

  /** The annotation shows the quantity as written and the price with a `.`. */
  lemma AnnotationOf(q: string, u: string)
    requires IsPositiveInt(q) && IsCents(u)
    ensures UnitAnnotation(DigitsValue(q), u) == "(" + q + " x " + Replace(u, ',', '.') + "€)"
  {
    NatToStringOfValue(q);
    CentsReplace(u);
    CentsChars(Replace(u, ',', '.'));
    StripTrimmed(Replace(u, ',', '.'));
  }

  /** What `NORMAL_PRODUCT_RE` and `_normal_tuple_to_product` make of one line.
      The filter `len(tup[0].strip()) > 0` always holds, as the quantity is a
      non-empty digit run. */
  function NormalOutcome(line: Line): Outcome<Product, Error> {
    match NormalGroups(line)
    case None => NoMatch
    case Some(g) =>
      match NormalProduct(g.0, g.1, g.2)
      case Success(p) => Matched(p)
      case Failure(e) => Malformed(e)
  }

  /** An amount without a sign is not negative. */
  lemma DecimalNonNegative(t: string)
    requires IsDecimal(t)
    ensures IsSignedDecimal(t) && DecimalValue(t) >= 0.0
  {
    DecimalIsSigned(t);
    SignedDecimalIsLoose(t);
    SignedMagnitudeSign(t);
  }

  /** Every normal item counts at least one unit, has a total that is not
      negative, and a unit price that multiplies back to the total; a single
      unit has no unit annotation and costs its total. */
  lemma NormalItem(line: Line, p: Product)
    requires NormalOutcome(line) == Matched(p)
    ensures p.quantity >= 1.0 && p.totalPrice >= 0.0 && PricedPerUnit(p)
    ensures p.quantity == 1.0 ==> p.unit == "" && p.unitPrice == p.totalPrice
  {
    var g := NormalGroups(line).value;
    DecimalNonNegative(g.2);
  }

  // ----- `_get_unit_price` -----

  /** `_get_unit_price` as written: group 1 of the search (the text in front of
      the price) with `,` replaced by `.`, or `""` when the text does not end in
      a price. */
  function UnitPriceAsWritten(text: string): (r: string)
    ensures PriceCut(text).None? ==> r == ""
    ensures |r| <= |text|
  {
    match PriceCut(text)
    case None => ""
    case Some(c) => Replace(text[c.0..c.1 - 1], ',', '.')
  }

  /** On a one-line text the helper returns what precedes the price, not the
      price: `"PAN 1,50"` gives `"PAN"`. */
  lemma UnitPriceAsWrittenIsName(a: string, c: char, u: string)
    requires '\n' !in a && IsSpace(c) && IsCents(u)
    ensures UnitPriceAsWritten(a + [c] + u) == Replace(a, ',', '.')
  {
    PriceAtEnd(a, c, u);
    assert (a + [c] + u)[0..|a|] == a;
  }

  lemma UnitPriceAsWrittenExample()
    ensures UnitPriceAsWritten("PAN 1,50") == "PAN"
    ensures UnitPriceOf("PAN 1,50") == "1.50"
  {
    ExampleText();
    UnitPriceAsWrittenIsName("PAN", ' ', "1,50");
    UnitPriceOfPrice("PAN", ' ', "1,50");
  }

  /** The example line: a name, a space and a price. */
  lemma ExampleText()
    ensures "PAN 1,50" == "PAN" + [' '] + "1,50" && IsCents("1,50")
    ensures Replace("PAN", ',', '.') == "PAN" && Replace("1,50", ',', '.') == "1.50"
  {
    CentsChars("1,50");
  }

  /** The helper as its name and its `unit` variable say: the price, group 2 of
      the search, with `,` replaced by `.`, or `""` when the text does not end
      in a price. */
  function UnitPriceOf(text: string): (r: string)
    ensures r == "" <==> PriceCut(text).None?
    ensures r != "" ==> IsCents(r) && r[|r| - 3] == '.'
  {
    match PriceCut(text)
    case None => ""
    case Some(c) =>
      PriceWitness(text);
      CentsReplace(text[c.1..c.2]);
      Replace(text[c.1..c.2], ',', '.')
  }

  /** The price at the end of a text is found whatever precedes it, on the same
      line or not. */
  lemma UnitPriceOfPrice(a: string, c: char, u: string)
    requires IsSpace(c) && IsCents(u)
    ensures UnitPriceOf(a + [c] + u) == Replace(u, ',', '.')
  {
    PriceAtEnd(a, c, u);
    assert (a + [c] + u)[|a| + 1..|a + [c] + u|] == u;
  }

  // ----- SPECIAL_PRODUCT_RE: `^[1-9]\d*\s+(.+)\n(\d+[.,]\d+)\s+(.+)(\d+[.,]\d+)$` -----

  /** First line of the pair: quantity, whitespace, name. */
  ghost predicate HeadShape(l1: Line, q: string, s1: string, n: string) {
    l1 == q + s1 + n && IsPositiveInt(q) && SpaceRun(s1) && |n| > 0
  }

  /** Second line of the pair: weight, whitespace, unit text, total. */
  ghost predicate TailShape(l2: Line, w: string, s2: string, u: string, t: string) {
    l2 == w + s2 + u + t && IsDecimal(w) && SpaceRun(s2) && |u| > 0 && IsDecimal(t)
  }

  /** The split of the second line the engine makes: the longest whitespace,
      then the longest unit text, which leaves the total a single digit in
      front of its separator. */
  ghost predicate TailGreedy(s2: string, u: string, t: string) {
    LongestSpace(s2, u) && SepIndex(t) == 1
  }

  predicate HeadAccepts(l1: Line) {
    var e := FirstTokenEnd(l1);
    IsPositiveInt(l1[..e]) && e + 2 <= |l1|
  }

  /** The name group of the first line. */
  function HeadName(l1: Line): Option<string> {
    var e := FirstTokenEnd(l1);
    if HeadAccepts(l1) then Some(l1[GroupStart(l1, e, |l1|)..]) else None
  }

  lemma HeadCaptures(l1: Line, q: string, s1: string, n: string)
    requires HeadShape(l1, q, s1, n)
    ensures HeadName(l1).Some?
    ensures LongestSpace(s1, n) ==> HeadName(l1) == Some(n)
  {
    DigitsHaveNoSpace(q);
    FirstTokenOf(l1, q, s1 + n);
    assert l1[|q|] == s1[0];
    assert l1[|q|..|l1|] == s1 + n;
    if LongestSpace(s1, n) {
      GroupStartOf(l1, |q|, |l1|, s1, n);
      assert l1[|q| + |s1|..] == n;
    }
  }

  lemma HeadWitness(l1: Line) returns (q: string, s1: string)
    requires HeadName(l1).Some?
    ensures HeadShape(l1, q, s1, HeadName(l1).value) && LongestSpace(s1, HeadName(l1).value)
  {
    var e := FirstTokenEnd(l1);
    var r := GroupStart(l1, e, |l1|);
    GroupSplit(l1, e, |l1|);
    q, s1 := l1[..e], l1[e..r];
    assert l1[r..|l1|] == l1[r..];
    assert l1 == l1[..e] + l1[e..|l1|];
  }

  /** A decimal token with one digit in front of its separator. */
  lemma ShortDecimal(t: string)
    requires |t| >= 3 && IsDigit(t[0]) && IsSep(t[1]) && AllDigits(t[2..])
    ensures IsDecimal(t) && SepIndex(t) == 1
  {
    SpanEndUnique(t, 0, IsDigit, 1);
  }

  /** The digits of a decimal token around its separator. */
  lemma DecimalChars(t: string)
    requires IsDecimal(t)
    ensures var k := SepIndex(t); 0 < k < |t| - 1 && IsSep(t[k]) && IsDigit(t[k - 1])
    ensures forall j :: SepIndex(t) < j < |t| ==> IsDigit(t[j])
  {
    var k := SepIndex(t);
    assert forall j :: k < j < |t| ==> t[j] == t[k + 1..][j - k - 1];
  }

  /** Where the trailing digit run of the second line starts. */
  function FracStart(l2: Line): nat {
    SpanStart(l2, |l2|, IsDigit)
  }

  /** The first token is a weight; the line ends in a digit, a separator and
      digits; and at least two characters lie between the two. */
  predicate TailAccepts(l2: Line) {
    var e := FirstTokenEnd(l2);
    var f := FracStart(l2);
    IsDecimal(l2[..e]) && e + 4 <= f < |l2| && IsSep(l2[f - 1]) && IsDigit(l2[f - 2])
  }

  /** The weight, unit and total groups of the second line. */
  function TailGroups(l2: Line): (r: Option<(string, string, string)>)
    ensures r.Some? ==> IsDecimal(r.value.0) && IsDecimal(r.value.2) && SepIndex(r.value.2) == 1
  {
    var e := FirstTokenEnd(l2);
    var f := FracStart(l2);
    if TailAccepts(l2) then
      var t := l2[f - 2..];
      assert forall j :: 2 <= j < |t| ==> t[j] == l2[f - 2 + j];
      ShortDecimal(t);
      Some((l2[..e], l2[GroupStart(l2, e, f - 2)..f - 2], t))
    else None
  }

  /** Whatever split of the second line fits the pattern, the weight is its
      first token and the total is the last digit before the last separator
      together with what follows; any earlier digits of the amount written on
      the receipt fall into the unit text. */
  lemma TailCaptures(l2: Line, w: string, s2: string, u: string, t: string)
    requires TailShape(l2, w, s2, u, t)
    ensures TailGroups(l2).Some?
    ensures TailGroups(l2).value.0 == w && TailGroups(l2).value.2 == t[SepIndex(t) - 1..]
  {
    TailFrame(l2, w, s2, u, t);
  }

  /** The engine's split of the second line is the one the recogniser finds. */
  lemma TailGreedyCaptures(l2: Line, w: string, s2: string, u: string, t: string)
    requires TailShape(l2, w, s2, u, t) && TailGreedy(s2, u, t)
    ensures TailGroups(l2) == Some((w, u, t))
  {
    var b := |l2| - |t|;
    TailFirst(l2, w, s2, u, t);
    TailLast(l2, b, t);
    GroupStartOf(l2, |w|, b, s2, u);
    TailGroupsAt(l2, |w|, b);
    assert l2[|w| + |s2|..b] == u;
  }

  lemma TailFrame(l2: Line, w: string, s2: string, u: string, t: string)
    requires TailShape(l2, w, s2, u, t)
    ensures FirstTokenEnd(l2) == |w| && l2[..|w|] == w
    ensures FracStart(l2) == |l2| - |t| + SepIndex(t) + 1
    ensures TailAccepts(l2) && l2[FracStart(l2) - 2..] == t[SepIndex(t) - 1..]
    ensures l2[|w|..|l2| - |t|] == s2 + u
  {
    TailFirst(l2, w, s2, u, t);
    TailLast(l2, |l2| - |t|, t);
    TailAcceptsOf(l2, |w|, FracStart(l2));
  }

  lemma TailFirst(l2: Line, w: string, s2: string, u: string, t: string)
    requires TailShape(l2, w, s2, u, t)
    ensures FirstTokenEnd(l2) == |w| && l2[..|w|] == w && IsDecimal(w)
    ensures l2[|w|..|l2| - |t|] == s2 + u && l2[|l2| - |t|..] == t
  {
    DecimalHasNoSpace(w);
    FirstTokenOf(l2, w, s2 + u + t);
    assert l2[|w|..|l2| - |t|] == s2 + u;
  }

  lemma TailLast(l2: Line, b: nat, t: string)
    requires IsDecimal(t) && b + |t| == |l2| && l2[b..] == t
    ensures FracStart(l2) == b + SepIndex(t) + 1 < |l2|
    ensures IsSep(l2[b + SepIndex(t)]) && IsDigit(l2[b + SepIndex(t) - 1])
    ensures l2[b + SepIndex(t) - 1..] == t[SepIndex(t) - 1..]
  {
    TailFrac(l2, t, b);
    DecimalChars(t);
  }

  lemma TailGroupsAt(l2: Line, e: nat, b: nat)
    requires e <= |l2| && FirstTokenEnd(l2) == e && IsDecimal(l2[..e]) && FracStart(l2) == b + 2
    requires e + 2 <= b && b + 2 < |l2| && IsSep(l2[b + 1]) && IsDigit(l2[b])
    ensures TailGroups(l2) == Some((l2[..e], l2[GroupStart(l2, e, b)..b], l2[b..]))
  {
    TailAcceptsOf(l2, e, b + 2);
  }

  lemma TailAcceptsOf(l2: Line, e: nat, f: nat)
    requires e <= |l2| && FirstTokenEnd(l2) == e && IsDecimal(l2[..e]) && FracStart(l2) == f
    requires e + 4 <= f < |l2| && IsSep(l2[f - 1]) && IsDigit(l2[f - 2])
    ensures TailAccepts(l2)
  {
  }

  /** The trailing digits of a line ending in a decimal token are those of its
      fractional part. */
  lemma TailFrac(l2: Line, t: string, b: nat)
    requires IsDecimal(t) && b + |t| == |l2| && l2[b..] == t
    ensures FracStart(l2) == b + SepIndex(t) + 1
    ensures IsSep(l2[b + SepIndex(t)]) && IsDigit(l2[b + SepIndex(t) - 1])
  {
    var k := SepIndex(t);
    DecimalChars(t);
    assert forall j :: b + k < j < |l2| ==> l2[j] == t[j - b];
    assert l2[b + k] == t[k] && l2[b + k - 1] == t[k - 1];
    SpanStartUnique(l2, |l2|, IsDigit, b + k + 1);
  }

  lemma TailWitness(l2: Line) returns (s2: string)
    requires TailGroups(l2).Some?
    ensures var g := TailGroups(l2).value; TailShape(l2, g.0, s2, g.1, g.2) && TailGreedy(s2, g.1, g.2)
  {
    var e, f := FirstTokenEnd(l2), FracStart(l2);
    var r := GroupStart(l2, e, f - 2);
    TailGroupsOf(l2, e, f, r);
    TailWitnessAt(l2, e, f, r);
    s2 := l2[e..r];
  }

  lemma TailWitnessAt(l2: Line, e: nat, f: nat, r: nat)
    requires e == FirstTokenEnd(l2) && f == FracStart(l2) && TailAccepts(l2)
    requires r == GroupStart(l2, e, f - 2)
    ensures TailShape(l2, l2[..e], l2[e..r], l2[r..f - 2], l2[f - 2..]) && TailGreedy(l2[e..r], l2[r..f - 2], l2[f - 2..])
  {
    TailGroupsOf(l2, e, f, r);
    GroupSplit(l2, e, f - 2);
    TailShapeAt(l2, e, r, f - 2);
  }

  /** The groups of an accepted second line, at the recogniser's positions. */
  lemma TailGroupsOf(l2: Line, e: nat, f: nat, r: nat)
    requires e == FirstTokenEnd(l2) && f == FracStart(l2) && TailAccepts(l2)
    requires r == GroupStart(l2, e, f - 2)
    ensures TailGroups(l2) == Some((l2[..e], l2[r..f - 2], l2[f - 2..]))
    ensures IsDecimal(l2[..e]) && IsDecimal(l2[f - 2..]) && SepIndex(l2[f - 2..]) == 1 && IsSpace(l2[e])
  {
  }

  /** The pieces of a second line cut at the recogniser's positions fit the
      pattern, with the engine's split. */
  lemma TailShapeAt(l2: Line, e: nat, r: nat, b: nat)
    requires e <= r < b <= |l2| && IsDecimal(l2[..e]) && IsDecimal(l2[b..]) && SepIndex(l2[b..]) == 1
    requires LongestSpace(l2[e..r], l2[r..b])
    ensures TailShape(l2, l2[..e], l2[e..r], l2[r..b], l2[b..]) && TailGreedy(l2[e..r], l2[r..b], l2[b..])
  {
    assert l2 == l2[..e] + l2[e..r] + l2[r..b] + l2[b..];
  }

  /** The pair of lines fits the pattern exactly when the recognisers accept
      both, and the engine's groups are theirs. */
  lemma SpecialMatch(l1: Line, l2: Line)
    ensures HeadName(l1).Some? <==> exists q, s1, n :: HeadShape(l1, q, s1, n)
    ensures TailGroups(l2).Some? <==> exists w, s2, u, t :: TailShape(l2, w, s2, u, t)
    ensures forall q, s1, n :: HeadShape(l1, q, s1, n) && LongestSpace(s1, n) ==> HeadName(l1) == Some(n)
    ensures forall w, s2, u, t :: TailShape(l2, w, s2, u, t) && TailGreedy(s2, u, t) ==> TailGroups(l2) == Some((w, u, t))
  {
    forall q, s1, n | HeadShape(l1, q, s1, n) ensures HeadName(l1).Some? && (LongestSpace(s1, n) ==> HeadName(l1) == Some(n)) {
      HeadCaptures(l1, q, s1, n);
    }
    forall w, s2, u, t | TailShape(l2, w, s2, u, t) ensures TailGroups(l2).Some? {
      TailCaptures(l2, w, s2, u, t);
    }
    forall w, s2, u, t | TailShape(l2, w, s2, u, t) && TailGreedy(s2, u, t) ensures TailGroups(l2) == Some((w, u, t)) {
      TailGreedyCaptures(l2, w, s2, u, t);
    }
    if HeadName(l1).Some? {
      var q, s1 := HeadWitness(l1);
    }
    if TailGroups(l2).Some? {
      var s2 := TailWitness(l2);
    }
  }

  // ----- `_get_special_products` -----

  /** The product of one pair of lines: the weight is the quantity, unrounded;
      the unit text is the weight as written, a space and the unit group,
      stripped; the total is rounded to cents, and the unit price is the rounded
      total over the weight, rounded to cents, or 0 for a zero weight. */
  function SpecialProduct(name: string, w: string, u: string, t: string): (p: Product)
    requires IsDecimal(w) && IsDecimal(t)
    ensures p.name == Strip(name) && p.unit == Strip(w + " " + u)
    ensures p.quantity == DecimalValue(w) && p.totalPrice == Round(DecimalValue(t), 2)
    ensures p.quantity == 0.0 ==> p.unitPrice == 0.0
    ensures p.quantity != 0.0 ==> -0.005 <= p.unitPrice - p.totalPrice / p.quantity <= 0.005
  {
    DecimalIsSigned(w);
    DecimalIsSigned(t);
    var q := DecimalValue(w);
    var total := Round(DecimalValue(t), 2);
    Product(Strip(name), total, Strip(w + " " + u), q, UnitPrice(total, q))
  }

  /** What `SPECIAL_PRODUCT_RE` makes of two consecutive lines. */
  function SpecialPair(l1: Line, l2: Line): Option<Product> {
    match (HeadName(l1), TailGroups(l2))
    case (Some(n), Some(g)) => Some(SpecialProduct(n, g.0, g.1, g.2))
    case _ => None
  }

  /** The unit text keeps the weight as written on the receipt: a weight and a
      unit text that starts with a non-space character give `"<weight> <unit>"`
      with trailing spaces removed. */
  lemma SpecialUnit(w: string, u: string, t: string)
    requires IsDecimal(w) && IsDecimal(t) && |u| > 0 && !IsSpace(u[0]) && !IsSpace(u[|u| - 1])
    ensures SpecialProduct("", w, u, t).unit == w + " " + u
  {
    DecimalHasNoSpace(w);
    var x := w + " " + u;
    assert x[0] == w[0] && x[|x| - 1] == u[|u| - 1];
    StripTrimmed(x);
  }

  /** The pair starting at line `k`, if lines `k` and `k + 1` form one. */
  function SpecialAt(ls: seq<Line>, k: nat): Option<Product> {
    if k + 1 < |ls| then SpecialPair(ls[k], ls[k + 1]) else None
  }

  /** Where `findall` finds pairs, given which lines start one (`m[k]`): it
      takes a pair as soon as one starts, and resumes after its second line, so
      matches never share a line. From `i` on, a line starts a match exactly
      when it starts a pair and the line before did not start a match. */
  function Starts(m: seq<bool>, i: nat): (r: seq<nat>)
    ensures forall j :: 0 <= j < |r| ==> i <= r[j] < |m| && m[r[j]]
    ensures forall j :: 0 <= j < |r| - 1 ==> r[j] + 2 <= r[j + 1]
    ensures forall k :: i <= k < |m| ==> (k in r <==> m[k] && (k == i || k - 1 !in r))
    decreases |m| - i
  {
    if i >= |m| then []
    else if m[i] then [i] + Starts(m, i + 2)
    else Starts(m, i + 1)
  }

  /** Which lines start a pair of lines that fits the pattern. */
  function PairMarks(ls: seq<Line>): (m: seq<bool>)
    ensures |m| == |ls| && forall k :: 0 <= k < |ls| ==> m[k] == SpecialAt(ls, k).Some?
  {
    seq(|ls|, k requires 0 <= k < |ls| => SpecialAt(ls, k).Some?)
  }

  /** The lines where special matches start. */
  function SpecialStarts(ls: seq<Line>): seq<nat> {
    Starts(PairMarks(ls), 0)
  }

  /** The special products of the text, in text order. */
  function SpecialProducts(ls: seq<Line>): (ps: seq<Product>)
    ensures |ps| == |SpecialStarts(ls)|
    ensures forall j :: 0 <= j < |ps| ==> SpecialAt(ls, SpecialStarts(ls)[j]) == Some(ps[j])
  {
    var st := SpecialStarts(ls);
    seq(|st|, j requires 0 <= j < |st| => SpecialAt(ls, st[j]).value)
  }

  /** A special product comes from a pair where a match starts, and each such
      pair gives one. */
  lemma SpecialMembers(ls: seq<Line>, p: Product)
    ensures p in SpecialProducts(ls) <==> exists k :: k in SpecialStarts(ls) && SpecialAt(ls, k) == Some(p)
  {
    var sp := SpecialProducts(ls);
    var st := SpecialStarts(ls);
    if p in sp {
      var j :| 0 <= j < |sp| && sp[j] == p;
      assert st[j] in st;
    }
    if exists k :: k in st && SpecialAt(ls, k) == Some(p) {
      var k :| k in st && SpecialAt(ls, k) == Some(p);
      var j :| 0 <= j < |st| && st[j] == k;
      var o := SpecialAt(ls, k);
      assert o == Some(sp[j]) && o == Some(p);
    }
  }

  // ----- `_get_products` -----

  /** All special items, then all normal items, or the error of the first
      normal line whose name lacks its unit price. */
  function Products(text: string): (r: Result<seq<Product>, Error>)
    ensures r.Success? ==> forall j :: 0 <= j < |Lines(text)| ==> !NormalOutcome(Lines(text)[j]).Malformed?
    ensures (forall j :: 0 <= j < |Lines(text)| ==> !NormalOutcome(Lines(text)[j]).Malformed?) ==> r.Success?
    ensures r.Success? ==> r.value == SpecialProducts(Lines(text)) + Collected(Lines(text), NormalOutcome, 0)
    ensures r.Failure? ==> exists j :: 0 <= j < |Lines(text)| && NormalOutcome(Lines(text)[j]) == Malformed(r.error) && forall l :: 0 <= l < j ==> !NormalOutcome(Lines(text)[l]).Malformed?
  {
    var ls := Lines(text);
    var normals := Gather(ls, NormalOutcome, 0);
    if normals.Failure? then Failure(normals.error) else Success(SpecialProducts(ls) + normals.value)
  }

  /** A product of the list comes from a pair where a special match starts or
      from a normal line, and every such pair and line contributes. */
  lemma ProductsMembers(text: string, ps: seq<Product>, p: Product)
    requires Products(text) == Success(ps)
    ensures p in ps <==>
      || (exists k :: k in SpecialStarts(Lines(text)) && SpecialAt(Lines(text), k) == Some(p))
      || (exists j :: 0 <= j < |Lines(text)| && NormalOutcome(Lines(text)[j]) == Matched(p))
  {
    ProductsSections(text, ps, p);
    SpecialMembers(Lines(text), p);
    CollectedMembers(Lines(text), NormalOutcome, 0, p);
  }

  lemma ProductsSections(text: string, ps: seq<Product>, p: Product)
    requires Products(text) == Success(ps)
    ensures p in ps <==> p in SpecialProducts(Lines(text)) || p in Collected(Lines(text), NormalOutcome, 0)
  {
    assert ps == SpecialProducts(Lines(text)) + Collected(Lines(text), NormalOutcome, 0);
  }
}
