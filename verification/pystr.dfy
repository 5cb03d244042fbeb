/** The parts of Python's `str` and list behaviour that the service relies on:
    argument-less `strip()`, the `in` operator on strings, `split(sep)` and the
    slice `s[start:]` with a possibly negative start. `Join`, Python's
    `sep.join(parts)`, is not called by the service; it is the reference
    against which `split` is shown to lose nothing.
    Characters are Unicode scalar values, as Python's code points are. */
module PyStr {
  import opened Wrappers

  /** `c.isspace()`: the characters that `strip()` with no argument removes. */
  predicate IsSpace(c: char) {
    || ('\t' <= c <= '\r')                    // U+0009 .. U+000D
    || ('\U{1C}' <= c <= ' ')                 // U+001C .. U+001F and the space
    || c == '\U{85}' || c == '\U{A0}' || c == '\U{1680}'
    || ('\U{2000}' <= c <= '\U{200A}')
    || c == '\U{2028}' || c == '\U{2029}' || c == '\U{202F}' || c == '\U{205F}' || c == '\U{3000}'
  }

  predicate AllSpace(s: string) {
    forall i | 0 <= i < |s| :: IsSpace(s[i])
  }

  /** Neither the first nor the last character is whitespace. */
  predicate NoOuterSpace(s: string) {
    s == [] || (!IsSpace(s[0]) && !IsSpace(s[|s| - 1]))
  }

  /** How many whitespace characters `s` starts with: what `lstrip()` removes. */
  function LeadingSpace(s: string): (n: nat)
    ensures n <= |s|
    ensures n < |s| ==> !IsSpace(s[n])
    decreases |s|
  {
    if s != [] && IsSpace(s[0]) then 1 + LeadingSpace(s[1..]) else 0
  }

  /** How many whitespace characters `s` ends with: what `rstrip()` removes. */
  function TrailingSpace(s: string): (n: nat)
    ensures n <= |s|
    ensures n < |s| ==> !IsSpace(s[|s| - 1 - n])
    decreases |s|
  {
    if s != [] && IsSpace(s[|s| - 1]) then 1 + TrailingSpace(s[..|s| - 1]) else 0
  }

  lemma {:induction false} LeadingSpaceIsSpace(s: string)
    ensures AllSpace(s[..LeadingSpace(s)])
    decreases |s|
  {
    if s != [] && IsSpace(s[0]) {
      LeadingSpaceIsSpace(s[1..]);
      assert s[..LeadingSpace(s)] == [s[0]] + s[1..][..LeadingSpace(s[1..])];
    }
  }

  lemma {:induction false} TrailingSpaceIsSpace(s: string)
    ensures forall i | |s| - TrailingSpace(s) <= i < |s| :: IsSpace(s[i])
    decreases |s|
  {
    if s != [] && IsSpace(s[|s| - 1]) {
      var p := s[..|s| - 1];
      TrailingSpaceIsSpace(p);
      forall i | |s| - TrailingSpace(s) <= i < |s| ensures IsSpace(s[i]) {
        if i < |s| - 1 { assert s[i] == p[i]; }
      }
    }
  }

  lemma AllSpaceAppend(a: string, b: string)
    requires AllSpace(a) && AllSpace(b)
    ensures AllSpace(a + b)
  {
    forall i | 0 <= i < |a + b| ensures IsSpace((a + b)[i]) {
      if i < |a| { assert (a + b)[i] == a[i]; } else { assert (a + b)[i] == b[i - |a|]; }
    }
  }

  /** `s.strip()`, that is `s.lstrip().rstrip()`: the infix of `s` that starts
      after its leading whitespace, and neither starts nor ends with whitespace. */
  function Strip(s: string): (r: string)
    ensures NoOuterSpace(r)
    ensures LeadingSpace(s) + |r| <= |s| && r == s[LeadingSpace(s)..LeadingSpace(s) + |r|]
  {
    var l := s[LeadingSpace(s)..];
    var r := l[..|l| - TrailingSpace(l)];
    assert r != [] ==> r[0] == l[0] && r[|r| - 1] == l[|l| - 1 - TrailingSpace(l)];
    r
  }

  /** What `strip()` removes, on either side, is whitespace. */
  lemma StripRemovesOnlySpace(s: string)
    ensures var k := LeadingSpace(s);
      && AllSpace(s[..k]) && AllSpace(s[k + |Strip(s)|..])
  {
    LeadingSpaceIsSpace(s);
    StripRemovesTrailingSpace(s);
  }

  lemma StripRemovesTrailingSpace(s: string)
    ensures AllSpace(s[LeadingSpace(s) + |Strip(s)|..])
  {
    var k := LeadingSpace(s);
    var l := s[k..];
    var n := |l| - TrailingSpace(l);
    assert Strip(s) == l[..n];
    TrailingSpaceIsSpace(l);
    var tail := s[k + n..];
    forall i | 0 <= i < |tail| ensures IsSpace(tail[i]) {
      assert tail[i] == l[n + i];
    }
  }

  /** Stripping leaves nothing exactly when the string is all whitespace. */
  lemma StripEmptyIffAllSpace(s: string)
    ensures Strip(s) == [] <==> AllSpace(s)
  {
    var r := Strip(s);
    var k := LeadingSpace(s);
    StripRemovesOnlySpace(s);
    if r == [] {
      assert s == s[..k] + s[k + |r|..];
      AllSpaceAppend(s[..k], s[k + |r|..]);
    } else {
      assert s[k] == r[0];
    }
  }

  lemma {:induction false} LeadingSpaceOfAppend(w: string, s: string)
    requires AllSpace(w)
    ensures LeadingSpace(w + s) == |w| + LeadingSpace(s)
    decreases |w|
  {
    if w != [] {
      assert (w + s)[0] == w[0];
      assert (w + s)[1..] == w[1..] + s;
      assert AllSpace(w[1..]) by {
        forall i | 0 <= i < |w| - 1 ensures IsSpace(w[1..][i]) { assert w[1..][i] == w[i + 1]; }
      }
      LeadingSpaceOfAppend(w[1..], s);
    } else {
      assert w + s == s;
    }
  }

  /** Whitespace put in front of a string does not change what `strip()` returns. */
  lemma StripIgnoresLeadingSpace(w: string, s: string)
    requires AllSpace(w)
    ensures Strip(w + s) == Strip(s)
  {
    LeadingSpaceOfAppend(w, s);
    assert (w + s)[|w| + LeadingSpace(s)..] == s[LeadingSpace(s)..];
  }

  /** `m` occurs in `s` at index `i`. */
  predicate OccursAt(s: string, m: string, i: int) {
    0 <= i && i + |m| <= |s| && s[i..i + |m|] == m
  }

  /** `m in s`: the empty string is in every string, and nothing longer than
      `s` is in it. */
  predicate Contains(s: string, m: string)
    ensures m == [] ==> Contains(s, m)
    ensures Contains(s, m) ==> |m| <= |s|
  {
    assert m == [] ==> OccursAt(s, m, 0);
    exists i | 0 <= i <= |s| - |m| :: OccursAt(s, m, i)
  }

  /** Every occurrence in an infix of `s` is an occurrence in `s`. */
  lemma OccursInInfix(s: string, a: nat, b: nat, m: string, j: int)
    requires a <= b <= |s|
    requires OccursAt(s[a..b], m, j)
    ensures OccursAt(s, m, a + j)
  {
    var t := s[a..b];
    forall k | j <= k < j + |m|
      ensures t[k] == s[a + k]
    {
    }
    assert t[j..j + |m|] == s[a + j..a + j + |m|];
  }

  lemma InfixKeepsAbsence(s: string, a: nat, b: nat, m: string)
    requires a <= b <= |s|
    requires !Contains(s, m)
    ensures !Contains(s[a..b], m)
  {
    if Contains(s[a..b], m) {
      var j :| 0 <= j <= b - a - |m| && OccursAt(s[a..b], m, j);
      OccursInInfix(s, a, b, m, j);
    }
  }

  /** `s.find(m, k)`, written as the scan `split` performs. */
  function FindFrom(s: string, m: string, k: nat): (r: Option<nat>)
    requires k <= |s|
    ensures r.Some? ==> k <= r.value && OccursAt(s, m, r.value)
    decreases |s| - k
  {
    if k + |m| > |s| then None
    else if s[k..k + |m|] == m then Some(k)
    else FindFrom(s, m, k + 1)
  }

  /** The scan stops at the first occurrence from `k` on, and finds nothing
      only when there is none. */
  lemma {:induction false} FindFromFirst(s: string, m: string, k: nat)
    requires k <= |s|
    ensures var r := FindFrom(s, m, k);
      forall j | k <= j && (r.None? || j < r.value) :: !OccursAt(s, m, j)
    decreases |s| - k
  {
    if k + |m| <= |s| && s[k..k + |m|] != m {
      FindFromFirst(s, m, k + 1);
    }
  }

  /** `s.find(m)`: the first occurrence, if any. */
  function Find(s: string, m: string): (r: Option<nat>)
    ensures r.Some? ==> OccursAt(s, m, r.value)
  {
    FindFrom(s, m, 0)
  }

  /** `find` fails exactly when `m in s` is false, and otherwise returns the
      first occurrence. */
  lemma FindFirst(s: string, m: string)
    ensures Find(s, m).None? <==> !Contains(s, m)
    ensures forall j | 0 <= j && (Find(s, m).None? || j < Find(s, m).value) :: !OccursAt(s, m, j)
  {
    FindFromFirst(s, m, 0);
  }

  /** `s.split(sep)` for a non-empty separator: the pieces between the
      non-overlapping occurrences found scanning left to right. */
  function Split(s: string, sep: string): (parts: seq<string>)
    requires sep != []
    ensures |parts| >= 1
    decreases |s|
  {
    match Find(s, sep)
    case None => [s]
    case Some(i) => [s[..i]] + Split(s[i + |sep|..], sep)
  }

  /** `sep.join(parts)` */
  function Join(parts: seq<string>, sep: string): string {
    if |parts| == 0 then []
    else if |parts| == 1 then parts[0]
    else parts[0] + sep + Join(parts[1..], sep)
  }

  /** Joining the pieces with the separator gives back the split string. */
  lemma {:induction false} JoinSplit(s: string, sep: string)
    requires sep != []
    ensures Join(Split(s, sep), sep) == s
    decreases |s|
  {
    match Find(s, sep)
    case None =>
    case Some(i) =>
      var rest := s[i + |sep|..];
      var parts := Split(s, sep);
      assert parts[1..] == Split(rest, sep);
      JoinSplit(rest, sep);
      assert s == s[..i] + sep + rest;
  }

  function Last<T>(s: seq<T>): T
    requires |s| > 0
  {
    s[|s| - 1]
  }

  /** With an occurrence, the last piece is the last piece of the rest after it. */
  lemma SplitLastStep(s: string, sep: string)
    requires sep != [] && Find(s, sep).Some?
    ensures Last(Split(s, sep)) == Last(Split(s[Find(s, sep).value + |sep|..], sep))
  {
    var i := Find(s, sep).value;
    var parts := Split(s[i + |sep|..], sep);
    var all := Split(s, sep);
    assert all == [s[..i]] + parts;
    assert all[|all| - 1] == parts[|parts| - 1];
  }

  /** Without an occurrence, the split string is the only piece. */
  lemma SplitLastNone(s: string, sep: string)
    requires sep != [] && !Contains(s, sep)
    ensures Last(Split(s, sep)) == s
  {
    FindFirst(s, sep);
  }

  /** The last piece of a split is a suffix of the split string. */
  lemma {:induction false} SplitLastIsSuffix(s: string, sep: string)
    requires sep != []
    ensures var t := Last(Split(s, sep)); |t| <= |s| && t == s[|s| - |t|..]
    decreases |s|
  {
    var f := Find(s, sep);
    if f.Some? {
      var rest := s[f.value + |sep|..];
      SplitLastStep(s, sep);
      SplitLastIsSuffix(rest, sep);
    }
  }

  /** No proper suffix of `m` is also a prefix of it, so two occurrences of `m`
      can never overlap. */
  predicate NoSelfOverlap(m: string) {
    forall d | 0 < d < |m| :: m[d..] != m[..|m| - d]
  }

  /** The last piece of a split never contains the separator. */
  lemma {:induction false} SplitLastLacksSeparator(s: string, sep: string)
    requires sep != []
    ensures !Contains(Last(Split(s, sep)), sep)
    decreases |s|
  {
    var f := Find(s, sep);
    if f.Some? {
      SplitLastStep(s, sep);
      SplitLastLacksSeparator(s[f.value + |sep|..], sep);
    } else {
      FindFirst(s, sep);
      SplitLastNone(s, sep);
    }
  }

  /** Two occurrences that overlap make a proper suffix of `m` equal to a prefix. */
  lemma OverlapIsBorder(s: string, m: string, i: int, j: int)
    requires OccursAt(s, m, i) && OccursAt(s, m, j) && i < j < i + |m|
    ensures m[j - i..] == m[..|m| - (j - i)]
  {
    var d := j - i;
    forall k | 0 <= k < |m| - d
      ensures m[d..][k] == m[..|m| - d][k]
    {
      assert s[i..i + |m|][d + k] == s[j..j + |m|][k];
    }
  }

  lemma OccurrencesDoNotOverlap(s: string, m: string, i: int, j: int)
    requires NoSelfOverlap(m) && OccursAt(s, m, i) && OccursAt(s, m, j) && i < j
    ensures i + |m| <= j
  {
    if j < i + |m| {
      OverlapIsBorder(s, m, i, j);
    }
  }

  /** In `x + m + y`, the first occurrence of a non-overlapping `m` is either
      the one after `x` or lies entirely inside `x`. */
  lemma FirstOccurrenceBeforeFinal(x: string, m: string, y: string)
    requires m != [] && NoSelfOverlap(m)
    ensures var f := Find(x + m + y, m);
      f.Some? && (f.value == |x| || f.value + |m| <= |x|)
  {
    var s := x + m + y;
    assert s[|x|..|x| + |m|] == m;
    assert OccursAt(s, m, |x|);
    FindFirst(s, m);
    var i := Find(s, m).value;
    if i < |x| {
      OccurrencesDoNotOverlap(s, m, i, |x|);
    }
  }

  /** When `m` cannot overlap itself, the last piece of splitting `x + m + y`
      on `m` is `y`, provided `y` does not contain `m` (whatever `x` holds). */
  lemma {:induction false} SplitLastAfterFinal(x: string, m: string, y: string)
    requires m != [] && NoSelfOverlap(m) && !Contains(y, m)
    ensures Last(Split(x + m + y, m)) == y
    decreases |x|
  {
    var s := x + m + y;
    FirstOccurrenceBeforeFinal(x, m, y);
    var i := Find(s, m).value;
    SplitLastStep(s, m);
    if i == |x| {
      assert s[i + |m|..] == y;
      SplitLastNone(y, m);
    } else {
      var x' := x[i + |m|..];
      assert s[i + |m|..] == x' + m + y;
      SplitLastAfterFinal(x', m, y);
    }
  }

  /** `s[start:]` on a Python `str` or `list`: a negative start counts from the
      end, and a start past either end is clamped. */
  function SliceFrom<T>(s: seq<T>, start: int): (r: seq<T>)
    ensures |r| <= |s|
    ensures r == s[|s| - |r|..]
    ensures start >= 0 ==> |r| == Max(0, |s| - start)
    ensures start < 0 ==> |r| == Min(-start, |s|)
  {
    if start < 0 then s[Max(0, |s| + start)..] else s[Min(start, |s|)..]
  }
}
