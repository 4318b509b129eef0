/** The two ways the parsers walk a receipt: a leftmost search over text
    positions (`re.search`) and a line-by-line collection of items in text order
    (`re.findall` feeding a list comprehension). */
module Scan {
  import opened Wrappers

  // ----- leftmost search -----

  /** The first position `j >= i` at which `m` succeeds, with its result. */
  function FirstMatch<T>(text: string, i: nat, m: (string, nat) -> Option<T>): (r: Option<T>)
    ensures r.Some? <==> exists j :: i <= j <= |text| && m(text, j).Some?
    ensures r.Some? ==> exists j :: i <= j <= |text| && m(text, j) == r && forall k :: i <= k < j ==> m(text, k).None?
    decreases |text| + 1 - i
  {
    if i > |text| then None
    else if m(text, i).Some? then m(text, i)
    else
      var r := FirstMatch(text, i + 1, m);
      assert forall k :: i <= k <= i ==> m(text, k).None?;
      r
  }

  /** Whatever the search starts from, a match it finds is the one at the least
      succeeding position. */
  lemma FirstMatchLeast<T>(text: string, i: nat, m: (string, nat) -> Option<T>, j: nat)
    requires i <= j <= |text| && m(text, j).Some?
    requires forall k :: i <= k < j ==> m(text, k).None?
    ensures FirstMatch(text, i, m) == m(text, j)
    decreases j - i
  {
    if i < j {
      FirstMatchLeast(text, i + 1, m, j);
    }
  }

  /** The last position `j` with `lo < j <= hi` at which `m` succeeds, tried
      from the right, as a backtracking regex engine gives back a greedy run
      one character at a time. */
  function LastMatch<T>(text: string, lo: nat, hi: nat, m: (string, nat) -> Option<T>): (r: Option<T>)
    ensures r.Some? <==> exists j :: lo < j <= hi && m(text, j).Some?
    ensures r.Some? ==> exists j :: lo < j <= hi && m(text, j) == r && forall k :: j < k <= hi ==> m(text, k).None?
    decreases hi
  {
    if hi <= lo then None
    else if m(text, hi).Some? then m(text, hi)
    else
      var r := LastMatch(text, lo, hi - 1, m);
      assert forall k :: hi - 1 < k <= hi ==> m(text, k).None?;
      r
  }

  /** A match found from the right is the one at the greatest succeeding position. */
  lemma LastMatchGreatest<T>(text: string, lo: nat, hi: nat, m: (string, nat) -> Option<T>, j: nat)
    requires lo < j <= hi && m(text, j).Some?
    requires forall k :: j < k <= hi ==> m(text, k).None?
    ensures LastMatch(text, lo, hi, m) == m(text, j)
    decreases hi
  {
    if j < hi {
      LastMatchGreatest(text, lo, hi - 1, m, j);
    }
  }

  // ----- line-by-line collection -----

  /** What a line grammar makes of one line. */
  datatype Outcome<+T, +E> = NoMatch | Matched(item: T) | Malformed(error: E)

  /** A grammar that cannot fail seen as one that can. */
  function Lift<T, E>(o: Option<T>): (r: Outcome<T, E>)
    ensures r.Matched? <==> o.Some?
    ensures r.Matched? ==> r.item == o.value
    ensures !r.Malformed?
  {
    if o.Some? then Matched(o.value) else NoMatch
  }

  /** The indices `>= i` of the matching lines, in increasing order. */
  function MatchIndices<L, T, E>(ls: seq<L>, f: L -> Outcome<T, E>, i: nat): (idx: seq<nat>)
    requires i <= |ls|
    ensures forall k :: 0 <= k < |idx| ==> i <= idx[k] < |ls| && f(ls[idx[k]]).Matched?
    ensures forall k, l :: 0 <= k < l < |idx| ==> idx[k] < idx[l]
    ensures forall j :: i <= j < |ls| && f(ls[j]).Matched? ==> j in idx
    decreases |ls| - i
  {
    if i == |ls| then []
    else if f(ls[i]).Matched? then [i] + MatchIndices(ls, f, i + 1)
    else MatchIndices(ls, f, i + 1)
  }

  /** The items of the matching lines from `i` on, listed by line index. */
  ghost function Collected<L, T, E>(ls: seq<L>, f: L -> Outcome<T, E>, i: nat): seq<T>
    requires i <= |ls|
  {
    var idx := MatchIndices(ls, f, i);
    seq(|idx|, k requires 0 <= k < |idx| => f(ls[idx[k]]).item)
  }

  /** An item is collected exactly when some line from `i` on yields it. */
  lemma CollectedMembers<L, T, E>(ls: seq<L>, f: L -> Outcome<T, E>, i: nat, x: T)
    requires i <= |ls|
    ensures x in Collected(ls, f, i) <==> exists j :: i <= j < |ls| && f(ls[j]) == Matched(x)
  {
    var idx := MatchIndices(ls, f, i);
    var c := Collected(ls, f, i);
    if x in c {
      var k :| 0 <= k < |c| && c[k] == x;
      assert f(ls[idx[k]]) == Matched(x);
    }
    if exists j :: i <= j < |ls| && f(ls[j]) == Matched(x) {
      var j :| i <= j < |ls| && f(ls[j]) == Matched(x);
      assert j in idx;
      var k :| 0 <= k < |idx| && idx[k] == j;
      assert c[k] == x;
    }
  }

  /** The items of the matching lines from `i` on, in text order, or the error of
      the first malformed line: a list comprehension stops at its first exception. */
  function Gather<L, T, E>(ls: seq<L>, f: L -> Outcome<T, E>, i: nat): (r: Result<seq<T>, E>)
    requires i <= |ls|
    ensures r.Success? <==> forall j :: i <= j < |ls| ==> !f(ls[j]).Malformed?
    ensures r.Success? ==> r.value == Collected(ls, f, i)
    ensures r.Failure? ==> exists j :: i <= j < |ls| && f(ls[j]) == Malformed(r.error) && forall l :: i <= l < j ==> !f(ls[l]).Malformed?
    decreases |ls| - i
  {
    if i == |ls| then Success([])
    else
      match f(ls[i])
      case Malformed(e) => Failure(e)
      case NoMatch => Gather(ls, f, i + 1)
      case Matched(x) =>
        var rest := Gather(ls, f, i + 1);
        if rest.Failure? then rest else Success([x] + rest.value)
  }
}
