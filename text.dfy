/** String primitives the rewriter relies on: GraphQL names, prefixes, literal
    occurrence search (first and last) and Java's String.compareTo order. */
module Text {
  import opened Wrappers

  predicate IsNameStart(c: char) { 'a' <= c <= 'z' || 'A' <= c <= 'Z' || c == '_' }

  predicate IsNameChar(c: char) { IsNameStart(c) || '0' <= c <= '9' }

  /** A GraphQL name ([_A-Za-z] then [_0-9A-Za-z]...): it holds no regular-expression
      metacharacter, so a pattern built by pasting names in is literal text. */
  predicate IsName(s: string) {
    |s| > 0 && IsNameStart(s[0]) && forall i :: 1 <= i < |s| ==> IsNameChar(s[i])
  }

  predicate StartsWith(s: string, prefix: string) {
    |prefix| <= |s| && s[..|prefix|] == prefix
  }

  /** `pat` occurs in `s` starting at index `i`. */
  predicate OccursAt(s: string, pat: string, i: int) {
    0 <= i && i + |pat| <= |s| && s[i..i + |pat|] == pat
  }

  /** The least index at or after `from` where `pat` occurs. */
  function FirstOccurrenceFrom(s: string, pat: string, from: nat): (r: Option<nat>)
    decreases |s| - from
    ensures r.Some? ==> from <= r.value && OccursAt(s, pat, r.value)
    ensures r.Some? ==> forall j :: from <= j < r.value ==> !OccursAt(s, pat, j)
    ensures r.None? ==> forall j :: from <= j ==> !OccursAt(s, pat, j)
  {
    if from + |pat| > |s| then None
    else if s[from..from + |pat|] == pat then Some(from)
    else FirstOccurrenceFrom(s, pat, from + 1)
  }

  /** What a regular-expression find() reports first for a literal pattern,
      and String.indexOf. */
  function FirstOccurrence(s: string, pat: string): (r: Option<nat>)
    ensures r.Some? ==> OccursAt(s, pat, r.value) && forall j :: 0 <= j < r.value ==> !OccursAt(s, pat, j)
    ensures r.None? ==> forall j :: !OccursAt(s, pat, j)
  {
    FirstOccurrenceFrom(s, pat, 0)
  }

  /** The greatest index at or below `upto` where `pat` occurs. */
  function LastOccurrenceUpTo(s: string, pat: string, upto: nat): (r: Option<nat>)
    ensures r.Some? ==> r.value <= upto && OccursAt(s, pat, r.value)
    ensures r.Some? ==> forall j :: r.value < j <= upto ==> !OccursAt(s, pat, j)
    ensures r.None? ==> forall j :: j <= upto ==> !OccursAt(s, pat, j)
  {
    if OccursAt(s, pat, upto) then Some(upto)
    else if upto == 0 then None
    else LastOccurrenceUpTo(s, pat, upto - 1)
  }

  /** String.lastIndexOf, with None for Java's -1. */
  function LastOccurrence(s: string, pat: string): (r: Option<nat>)
    ensures r.Some? ==> OccursAt(s, pat, r.value) && forall j :: r.value < j ==> !OccursAt(s, pat, j)
    ensures r.None? ==> forall j :: !OccursAt(s, pat, j)
  {
    LastOccurrenceUpTo(s, pat, |s|)
  }

  /** String.compareTo(a, b) < 0: the first differing character decides, and a
      proper prefix comes first.  Characters are compared by code point. */
  predicate LexLess(a: string, b: string)
    decreases |a|
  {
    if |a| == 0 then |b| > 0
    else if |b| == 0 then false
    else if a[0] != b[0] then a[0] < b[0]
    else LexLess(a[1..], b[1..])
  }

  predicate LexLessEq(a: string, b: string) { a == b || LexLess(a, b) }

  lemma {:induction false} LexLessIrreflexive(a: string)
    ensures !LexLess(a, a)
  {
    if |a| > 0 { LexLessIrreflexive(a[1..]); }
  }

  lemma {:induction false} LexLessTotal(a: string, b: string)
    ensures a == b || LexLess(a, b) || LexLess(b, a)
    decreases |a|
  {
    if |a| > 0 && |b| > 0 && a[0] == b[0] {
      LexLessTotal(a[1..], b[1..]);
      if a[1..] == b[1..] {
        assert a == [a[0]] + a[1..] && b == [b[0]] + b[1..];
      }
    }
  }

  lemma {:induction false} LexLessTransitive(a: string, b: string, c: string)
    requires LexLess(a, b) && LexLess(b, c)
    ensures LexLess(a, c)
    decreases |a|
  {
    if |a| > 0 && a[0] == b[0] && b[0] == c[0] {
      LexLessTransitive(a[1..], b[1..], c[1..]);
    }
  }

  lemma LexLessAsymmetric(a: string, b: string)
    requires LexLess(a, b)
    ensures !LexLess(b, a) && a != b
  {
    LexLessIrreflexive(a);
    if LexLess(b, a) { LexLessTransitive(a, b, a); }
  }
}
