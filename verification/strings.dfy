/** Characters, runs, stripping, case folding and line splitting: the pieces of
    Python's `re` and `str` behaviour that the receipt grammars rely on. */
module Strings {

  /** The characters matched by `\s` in a `str` pattern and removed by `str.strip()`
      (the `str.isspace()` set). */
  predicate IsSpace(c: char) {
    || c == ' '
    || '\t' <= c <= '\r'
    || '\U{1C}' <= c <= '\U{1F}'
    || c == '\U{85}' || c == '\U{A0}' || c == '\U{1680}'
    || '\U{2000}' <= c <= '\U{200A}'
    || c == '\U{2028}' || c == '\U{2029}' || c == '\U{202F}' || c == '\U{205F}' || c == '\U{3000}'
  }

  predicate IsNonSpace(c: char) {
    !IsSpace(c)
  }

  /** `\d` and `[0-9]`, restricted to the ASCII digits. */
  predicate IsDigit(c: char) {
    '0' <= c <= '9'
  }

  /** The decimal separator class `[.,]`. */
  predicate IsSep(c: char) {
    c == '.' || c == ','
  }

  /** `.` without DOTALL: anything but a line feed. */
  predicate IsNotNewline(c: char) {
    c != '\n'
  }

  /** `\w`, restricted to ASCII letters, digits and the underscore. */
  predicate IsWordChar(c: char) {
    IsDigit(c) || 'a' <= c <= 'z' || 'A' <= c <= 'Z' || c == '_'
  }

  function Lower(c: char): (d: char)
    ensures 'A' <= c <= 'Z' ==> 'a' <= d <= 'z' && d as int == c as int + 32
    ensures !('A' <= c <= 'Z') ==> d == c
  {
    if 'A' <= c <= 'Z' then (c as int + 32) as char else c
  }

  function Upper(c: char): (d: char)
    ensures 'a' <= c <= 'z' ==> 'A' <= d <= 'Z' && d as int == c as int - 32
    ensures !('a' <= c <= 'z') ==> d == c
  {
    if 'a' <= c <= 'z' then (c as int - 32) as char else c
  }

  /** `str.lower()` on the ASCII letters. */
  function ToLower(s: string): (r: string)
    ensures |r| == |s|
    ensures forall i :: 0 <= i < |s| ==> r[i] == Lower(s[i])
  {
    seq(|s|, i requires 0 <= i < |s| => Lower(s[i]))
  }

  /** `str.upper()` on the ASCII letters. */
  function ToUpper(s: string): (r: string)
    ensures |r| == |s|
    ensures forall i :: 0 <= i < |s| ==> r[i] == Upper(s[i])
  {
    seq(|s|, i requires 0 <= i < |s| => Upper(s[i]))
  }

  /** Folding upper-cased text gives the same as folding the text itself. */
  lemma LowerUpper(s: string)
    ensures ToLower(ToUpper(s)) == ToLower(s)
  {
  }

  /** `str.replace(old, new)` for single characters. */
  function Replace(s: string, from: char, to: char): (r: string)
    ensures |r| == |s|
    ensures forall i :: 0 <= i < |s| ==> r[i] == (if s[i] == from then to else s[i])
  {
    seq(|s|, i requires 0 <= i < |s| => if s[i] == from then to else s[i])
  }

  predicate AllSpace(s: string) {
    forall i :: 0 <= i < |s| ==> IsSpace(s[i])
  }

  predicate AllDigits(s: string) {
    forall i :: 0 <= i < |s| ==> IsDigit(s[i])
  }

  /** `p+` matched greedily from `i`: the end of the longest run of `p` characters. */
  function SpanEnd(s: string, i: nat, p: char -> bool): (j: nat)
    requires i <= |s|
    ensures i <= j <= |s|
    ensures forall k :: i <= k < j ==> p(s[k])
    ensures j == |s| || !p(s[j])
    decreases |s| - i
  {
    if i == |s| || !p(s[i]) then i else SpanEnd(s, i + 1, p)
  }

  /** The start of the longest run of `p` characters that ends at `j`. */
  function SpanStart(s: string, j: nat, p: char -> bool): (i: nat)
    requires j <= |s|
    ensures i <= j
    ensures forall k :: i <= k < j ==> p(s[k])
    ensures i == 0 || !p(s[i - 1])
    decreases j
  {
    if j == 0 || !p(s[j - 1]) then j else SpanStart(s, j - 1, p)
  }

  /** Any run that cannot be extended to the right is the one `SpanEnd` finds. */
  lemma SpanEndUnique(s: string, i: nat, p: char -> bool, j: nat)
    requires i <= j <= |s|
    requires forall k :: i <= k < j ==> p(s[k])
    requires j == |s| || !p(s[j])
    ensures SpanEnd(s, i, p) == j
  {
  }

  /** Any run that cannot be extended to the left is the one `SpanStart` finds. */
  lemma SpanStartUnique(s: string, j: nat, p: char -> bool, i: nat)
    requires i <= j <= |s|
    requires forall k :: i <= k < j ==> p(s[k])
    requires i == 0 || !p(s[i - 1])
    ensures SpanStart(s, j, p) == i
  {
  }

  /** Where the final whitespace-free token of `s` begins. */
  function LastTokenStart(s: string): (b: nat)
    ensures b <= |s|
    ensures forall k :: b <= k < |s| ==> !IsSpace(s[k])
    ensures b == 0 || IsSpace(s[b - 1])
  {
    SpanStart(s, |s|, IsNonSpace)
  }

  /** A suffix free of whitespace that follows a whitespace character is the final token. */
  lemma LastTokenStartUnique(s: string, b: nat)
    requires 0 < b <= |s|
    requires IsSpace(s[b - 1])
    requires forall k :: b <= k < |s| ==> !IsSpace(s[k])
    ensures LastTokenStart(s) == b
  {
    SpanStartUnique(s, |s|, IsNonSpace, b);
  }

  /** A run of characters none of which is whitespace. */
  predicate NoSpace(s: string) {
    forall k :: 0 <= k < |s| ==> !IsSpace(s[k])
  }

  /** `\s+`: a non-empty run of whitespace. */
  predicate SpaceRun(s: string) {
    |s| > 0 && AllSpace(s)
  }

  /** A sequence is the concatenation of its three slices at `i` and `j`. */
  lemma Split3<T>(s: seq<T>, i: nat, j: nat)
    requires i <= j <= |s|
    ensures s == s[..i] + s[i..j] + s[j..]
  {
  }

  /** A sequence cut around its element at `k`, with two more cuts before it. */
  lemma Split5<T>(s: seq<T>, i: nat, j: nat, k: nat)
    requires i <= j <= k < |s|
    ensures s == s[..i] + s[i..j] + s[j..k] + [s[k]] + s[k + 1..]
  {
    Split3(s, i, j);
    assert s[j..] == s[j..k] + [s[k]] + s[k + 1..];
  }

  /** The two sides of an element in `a + [c] + u`, read back as slices. */
  lemma AroundElement<T>(a: seq<T>, c: T, u: seq<T>)
    ensures (a + [c] + u)[0..|a|] == a && (a + [c] + u)[|a| + 1..|a + [c] + u|] == u
  {
    var s := a + [c] + u;
    assert forall k :: 0 <= k < |u| ==> s[|a| + 1 + k] == u[k];
  }

  /** The whitespace run that `SpanStart` finds, as a slice. */
  lemma SpaceRunBefore(s: string, j: nat)
    requires j <= |s|
    ensures AllSpace(s[SpanStart(s, j, IsSpace)..j])
  {
    var i := SpanStart(s, j, IsSpace);
    forall k | 0 <= k < j - i ensures IsSpace(s[i..j][k]) {
      assert s[i..j][k] == s[i + k];
    }
  }

  /** One whitespace character is a run of whitespace. */
  lemma SpaceAt(s: string, i: nat)
    requires i < |s| && IsSpace(s[i])
    ensures SpaceRun(s[i..i + 1])
  {
    assert s[i..i + 1][0] == s[i];
  }

  /** Where the first whitespace-free token of `s` ends. */
  function FirstTokenEnd(s: string): (e: nat)
    ensures e <= |s|
    ensures forall k :: 0 <= k < e ==> !IsSpace(s[k])
    ensures e == |s| || IsSpace(s[e])
  {
    SpanEnd(s, 0, IsNonSpace)
  }

  /** What `\s+(.+?)\s+` and `\s+(.+)\s+` can match on one line: whitespace, at
      least one character, whitespace. */
  predicate IsGap(m: string) {
    |m| >= 3 && IsSpace(m[0]) && IsSpace(m[|m| - 1])
  }

  /** A whitespace-free prefix followed by whitespace is the first token. */
  lemma FirstTokenOf(line: string, q: string, rest: string)
    requires line == q + rest && NoSpace(q) && |rest| > 0 && IsSpace(rest[0])
    ensures FirstTokenEnd(line) == |q| && line[..|q|] == q
  {
    assert line[|q|] == rest[0];
    assert forall k :: 0 <= k < |q| ==> line[k] == q[k];
    SpanEndUnique(line, 0, IsNonSpace, |q|);
  }

  /** A first token that ends inside a prefix is the first token of the whole. */
  lemma FirstTokenOfPrefix(s: string, c: nat)
    requires c <= |s| && FirstTokenEnd(s[..c]) < c
    ensures FirstTokenEnd(s) == FirstTokenEnd(s[..c])
    ensures s[..FirstTokenEnd(s)] == s[..c][..FirstTokenEnd(s)]
  {
    var e := FirstTokenEnd(s[..c]);
    assert s[e] == s[..c][e];
    assert forall k :: 0 <= k < e ==> s[k] == s[..c][k];
    SpanEndUnique(s, 0, IsNonSpace, e);
  }

  /** A non-empty whitespace-free suffix after whitespace is the last token. */
  lemma LastTokenOf(line: string, init: string, t: string)
    requires line == init + t && |init| > 0 && IsSpace(init[|init| - 1]) && NoSpace(t)
    ensures LastTokenStart(line) == |init| && line[|init|..] == t
  {
    assert line[|init| - 1] == init[|init| - 1];
    assert forall k :: |init| <= k < |line| ==> line[k] == t[k - |init|];
    LastTokenStartUnique(line, |init|);
  }

  /** A text that ends in a non-empty token ends in a non-space. */
  lemma LastOfToken(a: string, u: string)
    requires |u| > 0 && NoSpace(u)
    ensures |a + u| > 0 && !IsSpace((a + u)[|a + u| - 1])
  {
    assert (a + u)[|a + u| - 1] == u[|u| - 1];
  }

  /** In `p + s + t`, with `p` ending in a non-space, `s` a whitespace run and
      `t` a token, the final token is `t` and the run before it starts at `|p|`. */
  lemma TokenAfterRun(line: string, p: string, s: string, t: string)
    requires line == p + s + t && |p| > 0 && !IsSpace(p[|p| - 1]) && SpaceRun(s) && NoSpace(t)
    ensures LastTokenStart(line) == |p| + |s| && line[|p| + |s|..] == t
    ensures SpanStart(line, |p| + |s|, IsSpace) == |p| && line[..|p|] == p
  {
    LastTokenOf(line, p + s, t);
    assert line[..|p|] == p;
    assert line[|p| - 1] == p[|p| - 1];
    assert line[|p|..|p| + |s|] == s;
    SpaceRunBack(line, |p|, |p| + |s|);
  }

  /** Stripping the text between two whitespace runs strips the whole gap. */
  lemma StripGap(m: string, s1: string, n: string, s2: string)
    requires m == s1 + n + s2 && SpaceRun(s1) && |n| > 0 && SpaceRun(s2)
    ensures IsGap(m) && Strip(n) == Strip(m)
  {
    var j := |s1| + |n|;
    assert m[..|s1|] == s1 && m[j..] == s2 && m[|s1|..j] == n;
    StripPadded(m, |s1|, j);
  }

  /** A line split as `token, whitespace, text, whitespace, token` has its first
      token, its last token and the gap between them in fixed places, and the
      stripped middle text is the stripped gap, however the gap was split. */
  lemma GapFrame(line: string, q: string, s1: string, n: string, s2: string, t: string)
    requires line == q + s1 + n + s2 + t
    requires |q| > 0 && NoSpace(q) && SpaceRun(s1) && |n| > 0 && SpaceRun(s2) && |t| > 0 && NoSpace(t)
    ensures FirstTokenEnd(line) == |q| && LastTokenStart(line) == |line| - |t|
    ensures line[..|q|] == q && line[|line| - |t|..] == t
    ensures IsGap(line[|q|..|line| - |t|]) && Strip(n) == Strip(line[|q|..|line| - |t|])
  {
    var m := s1 + n + s2;
    assert line == q + (m + t);
    FirstTokenOf(line, q, m + t);
    assert line == (q + m) + t;
    LastTokenOf(line, q + m, t);
    assert line[|q|..|line| - |t|] == m;
    StripGap(m, s1, n, s2);
  }

  /** Conversely, a first token, a gap and a last token split into the five parts. */
  lemma GapWitness(line: string, e: nat, b: nat) returns (s1: string, n: string, s2: string)
    requires e <= b <= |line| && IsGap(line[e..b])
    ensures line == line[..e] + s1 + n + s2 + line[b..]
    ensures SpaceRun(s1) && |n| > 0 && SpaceRun(s2)
  {
    var m := line[e..b];
    s1, n, s2 := m[..1], m[1..|m| - 1], m[|m| - 1..];
    assert s1 + n + s2 == m;
    assert line == line[..e] + m + line[b..];
  }

  /** `s[i..j]` is what remains of `s` after removing whitespace at both ends. */
  ghost predicate StripCut(s: string, i: nat, j: nat) {
    i <= j <= |s| && AllSpace(s[..i]) && AllSpace(s[j..])
  }

  /** `str.strip()`. */
  function Strip(s: string): (r: string)
    ensures |r| == 0 <==> AllSpace(s)
    ensures |r| > 0 ==> !IsSpace(r[0]) && !IsSpace(r[|r| - 1])
    ensures exists i: nat, j: nat :: StripCut(s, i, j) && r == s[i..j]
  {
    var i := SpanEnd(s, 0, IsSpace);
    var j := SpanStart(s, |s|, IsSpace);
    if i == |s| then
      assert StripCut(s, |s|, |s|);
      ""
    else
      assert !IsSpace(s[i]);
      assert i < j;
      assert StripCut(s, i, j);
      s[i..j]
  }

  /** The cut that leaves no whitespace at either end is the one `Strip` makes. */
  lemma StripUnique(s: string, i: nat, j: nat)
    requires StripCut(s, i, j)
    requires i == j ==> AllSpace(s)
    requires i < j ==> !IsSpace(s[i]) && !IsSpace(s[j - 1])
    ensures Strip(s) == s[i..j]
  {
    if i < j {
      assert forall k :: 0 <= k < i ==> IsSpace(s[k]) by {
        forall k | 0 <= k < i ensures IsSpace(s[k]) {
          assert s[..i][k] == s[k];
        }
      }
      SpanEndUnique(s, 0, IsSpace, i);
      assert forall k :: j <= k < |s| ==> IsSpace(s[k]) by {
        forall k | j <= k < |s| ensures IsSpace(s[k]) {
          assert s[j..][k - j] == s[k];
        }
      }
      SpanStartUnique(s, |s|, IsSpace, j);
    }
  }

  lemma AllSpaceJoin(s: string, i: nat, i': nat)
    requires i <= i' <= |s|
    requires AllSpace(s[..i]) && AllSpace(s[i..i'])
    ensures AllSpace(s[..i'])
  {
    forall k | 0 <= k < i' ensures IsSpace(s[..i'][k]) {
      if k < i {
        assert s[..i][k] == s[k];
      } else {
        assert s[i..i'][k - i] == s[k];
      }
    }
  }

  lemma AllSpaceJoinRight(s: string, j': nat, j: nat)
    requires j' <= j <= |s|
    requires AllSpace(s[j'..j]) && AllSpace(s[j..])
    ensures AllSpace(s[j'..])
  {
    forall k | 0 <= k < |s| - j' ensures IsSpace(s[j'..][k]) {
      if j' + k < j {
        assert s[j'..j][k] == s[j' + k];
      } else {
        assert s[j..][j' + k - j] == s[j' + k];
      }
    }
  }

  lemma SpacePrefix(s: string, i: nat)
    requires i <= |s| && AllSpace(s[..i])
    ensures forall k :: 0 <= k < i ==> IsSpace(s[k])
  {
    forall k | 0 <= k < i ensures IsSpace(s[k]) {
      assert s[..i][k] == s[k];
    }
  }

  lemma SpaceSuffix(s: string, j: nat)
    requires j <= |s| && AllSpace(s[j..])
    ensures forall k :: j <= k < |s| ==> IsSpace(s[k])
  {
    forall k | j <= k < |s| ensures IsSpace(s[k]) {
      assert s[j..][k - j] == s[k];
    }
  }

  /** Stripping ignores any whitespace already removed from the ends. */
  lemma StripPadded(s: string, i: nat, j: nat)
    requires StripCut(s, i, j)
    ensures Strip(s[i..j]) == Strip(s)
  {
    SpacePrefix(s, i);
    SpaceSuffix(s, j);
    var m := s[i..j];
    var a := SpanEnd(m, 0, IsSpace);
    if a == |m| {
      assert forall k :: i <= k < j ==> IsSpace(s[k]) by {
        forall k | i <= k < j ensures IsSpace(s[k]) {
          assert m[k - i] == s[k];
        }
      }
      assert AllSpace(s);
    } else {
      StripPaddedInner(s, i, j, a, SpanStart(m, |m|, IsSpace));
    }
  }

  lemma StripPaddedInner(s: string, i: nat, j: nat, a: nat, b: nat)
    requires i <= j <= |s|
    requires forall k :: 0 <= k < i ==> IsSpace(s[k])
    requires forall k :: j <= k < |s| ==> IsSpace(s[k])
    requires a < j - i && a == SpanEnd(s[i..j], 0, IsSpace)
    requires b == SpanStart(s[i..j], j - i, IsSpace)
    ensures Strip(s[i..j]) == Strip(s)
  {
    var m := s[i..j];
    assert !IsSpace(m[a]) && !IsSpace(m[b - 1]);
    StripAtCut(m, a, b);
    StripOuter(s, i, j, a, b);
    SliceOfSlice(s, i, j, a, b);
  }

  /** The cut of the slice, moved back into `s`, is the cut of `s`. */
  lemma StripOuter(s: string, i: nat, j: nat, a: nat, b: nat)
    requires i <= j <= |s| && a < b <= j - i
    requires forall k :: 0 <= k < i ==> IsSpace(s[k])
    requires forall k :: j <= k < |s| ==> IsSpace(s[k])
    requires forall k :: 0 <= k < a ==> IsSpace(s[i..j][k])
    requires forall k :: b <= k < j - i ==> IsSpace(s[i..j][k])
    requires !IsSpace(s[i..j][a]) && !IsSpace(s[i..j][b - 1])
    ensures Strip(s) == s[i + a..i + b]
  {
    OuterSpaces(s, i, j, a, b);
    assert s[i + a] == s[i..j][a] && s[i + b - 1] == s[i..j][b - 1];
    StripAtCut(s, i + a, i + b);
  }

  /** Whitespace outside `s[i..j]` and at the ends of that slice is whitespace
      at the ends of `s`. */
  lemma OuterSpaces(s: string, i: nat, j: nat, a: nat, b: nat)
    requires i <= j <= |s| && a <= b <= j - i
    requires forall k :: 0 <= k < i ==> IsSpace(s[k])
    requires forall k :: j <= k < |s| ==> IsSpace(s[k])
    requires forall k :: 0 <= k < a ==> IsSpace(s[i..j][k])
    requires forall k :: b <= k < j - i ==> IsSpace(s[i..j][k])
    ensures forall k :: 0 <= k < i + a ==> IsSpace(s[k])
    ensures forall k :: i + b <= k < |s| ==> IsSpace(s[k])
  {
    forall k | i <= k < j ensures s[k] == s[i..j][k - i] {
    }
  }

  lemma StripAtCut(s: string, i: nat, j: nat)
    requires i < j <= |s|
    requires forall k :: 0 <= k < i ==> IsSpace(s[k])
    requires forall k :: j <= k < |s| ==> IsSpace(s[k])
    requires !IsSpace(s[i]) && !IsSpace(s[j - 1])
    ensures Strip(s) == s[i..j]
  {
    SpanEndUnique(s, 0, IsSpace, i);
    SpanStartUnique(s, |s|, IsSpace, j);
  }

  lemma Assoc<T>(a: seq<T>, b: seq<T>, c: seq<T>)
    ensures a + (b + c) == a + b + c
  {
  }

  lemma SliceOfSlice<T>(s: seq<T>, i: nat, j: nat, a: nat, b: nat)
    requires i <= j <= |s| && a <= b <= j - i
    ensures s[i..j][a..b] == s[i + a..i + b]
  {
    var x := s[i..j][a..b];
    var y := s[i + a..i + b];
    forall k | 0 <= k < |x| ensures x[k] == y[k] {
      assert x[k] == s[i..j][a + k];
    }
  }

  /** A line of text: what `^` and `$` delimit under MULTILINE. */
  type Line = s: string | '\n' !in s

  /** Where the first line of `text` ends: at its first line feed, or at the end. */
  function FirstLineEnd(text: string): (k: nat)
    ensures k <= |text| && '\n' !in text[..k]
    ensures k < |text| ==> text[k] == '\n'
  {
    var k := SpanEnd(text, 0, IsNotNewline);
    assert '\n' !in text[..k] by {
      forall c | c in text[..k] ensures c != '\n' {
        var i :| 0 <= i < k && text[..k][i] == c;
      }
    }
    k
  }

  /** `text.split("\n")`: the lines between line feeds, in order. */
  function Lines(text: string): (ls: seq<Line>)
    ensures |ls| > 0
    decreases |text|
  {
    var k := FirstLineEnd(text);
    if k == |text| then [text] else [text[..k]] + Lines(text[k + 1..])
  }

  /** `"\n".join(ls)`. */
  function Join(ls: seq<string>): string
    requires |ls| > 0
  {
    if |ls| == 1 then ls[0] else ls[0] + "\n" + Join(ls[1..])
  }

  /** Splitting and re-joining gives back the text. */
  lemma {:induction false} JoinLines(text: string)
    ensures Join(Lines(text)) == text
    decreases |text|
  {
    var k := FirstLineEnd(text);
    if k < |text| {
      JoinLines(text[k + 1..]);
      assert text == text[..k] + "\n" + text[k + 1..];
    }
  }

  /** The first line of a join is the first line given, and the text after its
      line feed is the join of the rest. */
  lemma JoinFirstLine(ls: seq<Line>)
    requires |ls| > 0
    ensures FirstLineEnd(Join(ls)) == |ls[0]|
    ensures Join(ls)[..|ls[0]|] == ls[0]
    ensures |ls| == 1 ==> Join(ls) == ls[0]
    ensures |ls| > 1 ==> Join(ls)[|ls[0]| + 1..] == Join(ls[1..])
  {
    var text := Join(ls);
    var first := ls[0];
    assert forall k :: 0 <= k < |first| ==> text[k] == first[k];
    assert forall k :: 0 <= k < |first| ==> IsNotNewline(first[k]) by {
      forall k | 0 <= k < |first| ensures IsNotNewline(first[k]) {
        assert first[k] in first;
      }
    }
    if |ls| > 1 {
      assert text == first + "\n" + Join(ls[1..]);
      assert text[|first|] == '\n';
    }
    SpanEndUnique(text, 0, IsNotNewline, |first|);
  }

  /** Joining lines free of line feeds and splitting again gives back the lines. */
  lemma {:induction false} LinesJoin(ls: seq<Line>)
    requires |ls| > 0
    ensures Lines(Join(ls)) == ls
  {
    JoinFirstLine(ls);
    if |ls| == 1 {
      assert ls == [ls[0]];
    } else {
      var text := Join(ls);
      LinesStep(text, |ls[0]|);
      LinesJoin(ls[1..]);
      assert ls == [ls[0]] + ls[1..];
    }
  }

  /** One step of the split: the first line, then the lines after its line feed. */
  lemma LinesStep(text: string, k: nat)
    requires k < |text| && FirstLineEnd(text) == k
    ensures Lines(text) == [text[..k]] + Lines(text[k + 1..])
  {
  }

  /** `needle` occurs in `hay` starting at `i`. */
  predicate OccursAt(hay: string, needle: string, i: nat) {
    i + |needle| <= |hay| && hay[i..i + |needle|] == needle
  }

  /** A slice occurs where it was taken from. */
  lemma OccursAtSlice(hay: string, i: nat, j: nat)
    requires i <= j <= |hay|
    ensures OccursAt(hay, hay[i..j], i)
  {
  }

  /** The `in` operator on strings, computed by a left-to-right scan from `from`. */
  function ContainsFrom(hay: string, needle: string, from: nat): (b: bool)
    ensures b <==> exists i :: from <= i && OccursAt(hay, needle, i)
    decreases |hay| - from
  {
    if from + |needle| > |hay| then
      assert forall i :: from <= i ==> !OccursAt(hay, needle, i);
      false
    else
      OccursAt(hay, needle, from) || ContainsFrom(hay, needle, from + 1)
  }

  predicate Contains(hay: string, needle: string) {
    ContainsFrom(hay, needle, 0)
  }

  /** Characters equal under IGNORECASE, for the ASCII letters. */
  predicate CiEq(c: char, d: char) {
    Lower(c) == Lower(d)
  }

  /** `word` occurs at `i` when letters are compared case-insensitively. */
  predicate CiOccursAt(text: string, word: string, i: nat) {
    i + |word| <= |text| && forall k :: 0 <= k < |word| ==> CiEq(text[i + k], word[k])
  }

  // ----- digit runs -----

  /** A greedy `\d+` that ends at `j` cannot be extended. */
  predicate DigitsEndAt(text: string, j: nat) {
    j == |text| || (j < |text| && !IsDigit(text[j]))
  }

  /** The characters of a digit run read from `i` to `j` form a digit string. */
  lemma DigitRun(text: string, i: nat, j: nat)
    requires i <= j <= |text| && forall k :: i <= k < j ==> IsDigit(text[k])
    ensures AllDigits(text[i..j])
  {
    assert forall k :: 0 <= k < j - i ==> text[i..j][k] == text[i + k];
  }

  lemma CharInside(text: string, i: nat, o: string, k: nat)
    requires OccursAt(text, o, i) && k < |o|
    ensures text[i + k] == o[k]
  {
    assert text[i..i + |o|][k] == text[i + k];
  }

  /** The digits of a piece of `o`, read where `o` occurs in `text`. */
  lemma DigitsInside(text: string, i: nat, o: string, x: nat, y: nat)
    requires OccursAt(text, o, i) && x <= y <= |o| && AllDigits(o[x..y])
    ensures forall k :: i + x <= k < i + y ==> IsDigit(text[k])
  {
    forall k | i + x <= k < i + y ensures IsDigit(text[k]) {
      assert text[k] == text[i..i + |o|][k - i];
      assert o[k - i] == o[x..y][k - i - x];
    }
  }
  /** A stretch of whitespace ending before a non-whitespace character is the
      run `\s+` takes. */
  lemma SpaceRunTo(text: string, k: nat, b: nat)
    requires k <= b < |text| && AllSpace(text[k..b]) && !IsSpace(text[b])
    ensures SpanEnd(text, k, IsSpace) == b
  {
    assert forall j :: k <= j < b ==> text[j] == text[k..b][j - k];
    SpanEndUnique(text, k, IsSpace, b);
  }

  /** A whitespace run after a non-space ends where `SpanStart` stops going back. */
  lemma SpaceRunBack(text: string, k: nat, b: nat)
    requires 0 < k <= b <= |text| && AllSpace(text[k..b]) && !IsSpace(text[k - 1])
    ensures SpanStart(text, b, IsSpace) == k
  {
    assert forall j :: k <= j < b ==> text[j] == text[k..b][j - k];
    SpanStartUnique(text, b, IsSpace, k);
  }

  /** A run of digits inside `o`, followed there by a non-digit, is the longest
      run `\d+` takes where `o` occurs. */
  lemma RunInside(text: string, i: nat, o: string, x: nat, y: nat)
    requires OccursAt(text, o, i) && x <= y < |o| && AllDigits(o[x..y]) && !IsDigit(o[y])
    ensures SpanEnd(text, i + x, IsDigit) == i + y
  {
    DigitsInside(text, i, o, x, y);
    CharInside(text, i, o, y);
    SpanEndUnique(text, i + x, IsDigit, i + y);
  }

  /** A run of digits that ends `o`, where nothing digit follows `o`, is the
      longest run. */
  lemma RunToEnd(text: string, i: nat, o: string, x: nat)
    requires OccursAt(text, o, i) && x <= |o| && AllDigits(o[x..]) && DigitsEndAt(text, i + |o|)
    ensures SpanEnd(text, i + x, IsDigit) == i + |o|
  {
    DigitsInside(text, i, o, x, |o|);
    SpanEndUnique(text, i + x, IsDigit, i + |o|);
  }
}
