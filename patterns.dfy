/** The regular expressions the rewriter hands to replaceGroup, as matchers
    that report the same match list a java.util.regex.Matcher would.

    The query patterns paste a field name and a type name into literal text;
    GraphQL names hold no metacharacter, so they match exactly where the text
    occurs.  The node patterns of the add branch,

      MATCH \([^ :)]+:(T) \{ [^ :)}]+: \$[^ })]+ \}\)
      MATCH \([^ :)]+:L( \{ [^ :)}]+: \$[^ })]+ \}\))

    have three character-class runs, each followed by a character outside
    its class, so the greedy run cannot give anything back: at a given start
    the pattern matches in exactly one way, and find() reports the leftmost
    start.  Only the first match matters to the four-argument replaceGroup
    (Matching.ReplaceFirst), so the lists built here hold at most that one. */
module CypherPatterns {
  import opened Wrappers
  import opened Text
  import opened Matching

  /** The list of matches replaceGroup sees, given the first one, if any. */
  function MatchList(first: Option<Match>): seq<Match> {
    if first.None? then [] else [first.value]
  }

  /** First match has group 0 and a participating group 1, both in `s`. */
  predicate WellFormedFirst(s: string, first: Option<Match>) {
    first.Some? ==> |first.value.groups| == 2 && first.value.groups[1].Some? && ValidMatches(s, [first.value])
  }

  /** replaceGroup(regex, s, 1, rep) for a pattern whose first match in `s`
      is `first`: group 1 of that match is spliced, and with no match `s`
      comes back. */
  function ReplaceGroupOne(s: string, first: Option<Match>, rep: string): string
    requires WellFormedFirst(s, first)
  {
    match first
    case None => s
    case Some(m) =>
      assert SpanIn(s, [m][0].groups[1].value);
      Splice(s, m.groups[1].value, rep)
  }

  /** ReplaceGroupOne is the four-argument replaceGroup on the match list:
      it never fails, and without a match the text is unchanged. */
  lemma ReplaceGroupOneIsReplaceFirst(s: string, first: Option<Match>, rep: string)
    requires WellFormedFirst(s, first)
    ensures ReplaceFirst(MatchList(first), s, 1, rep) == Ok(ReplaceGroupOne(s, first, rep))
    ensures first.None? ==> ReplaceGroupOne(s, first, rep) == s
  {
  }

  // ---------------------------------------------------------------------
  // Literal patterns

  /** The first match of literal `pat` in `s`, group 1 being pat[gs..ge]. */
  function LiteralFirstMatch(s: string, pat: string, gs: nat, ge: nat): (r: Option<Match>)
    requires gs <= ge <= |pat|
    ensures WellFormedFirst(s, r)
  {
    match FirstOccurrence(s, pat)
    case None => None
    case Some(i) => Some(Match([Some(Span(i, i + |pat|)), Some(Span(i + gs, i + ge))]))
  }

  /** There is a match exactly when the literal occurs, and the match is at
      the leftmost occurrence. */
  lemma LiteralFirstMatchSpec(s: string, pat: string, gs: nat, ge: nat)
    requires gs <= ge <= |pat|
    ensures var r := LiteralFirstMatch(s, pat, gs, ge);
      (r.None? <==> forall j :: !OccursAt(s, pat, j)) &&
      (r.Some? ==> (|r.value.groups| == 2 && r.value.groups[0].Some? &&
        var i := r.value.groups[0].value.start;
        OccursAt(s, pat, i) && (forall j :: 0 <= j < i ==> !OccursAt(s, pat, j)) &&
        r.value.groups == [Some(Span(i, i + |pat|)), Some(Span(i + gs, i + ge))]))
  {
    match FirstOccurrence(s, pat)
    case None =>
    case Some(i) => assert OccursAt(s, pat, i);
  }

  // ---------------------------------------------------------------------
  // Character-class runs

  /** Characters excluded by [^ :)] (the node variable). */
  const VariableStop: set<char> := {' ', ':', ')'}
  /** Characters excluded by [^ :)}] (a property key). */
  const KeyStop: set<char> := {' ', ':', ')', '}'}
  /** Characters excluded by [^ })] (a parameter name). */
  const ValueStop: set<char> := {' ', '}', ')'}

  /** The length of the longest run of characters outside `stop` from `i`. */
  function RunLen(s: string, i: nat, stop: set<char>): (r: nat)
    requires i <= |s|
    ensures i + r <= |s|
    decreases |s| - i
  {
    if i == |s| || s[i] in stop then 0 else 1 + RunLen(s, i + 1, stop)
  }

  /** The run is the longest one: none of its characters is in `stop`, and
      it ends at the end of `s` or at a character in `stop`. */
  lemma {:induction false} RunLenMaximal(s: string, i: nat, stop: set<char>)
    requires i <= |s|
    ensures var r := RunLen(s, i, stop);
      (forall j :: i <= j < i + r ==> s[j] !in stop) && (i + r == |s| || s[i + r] in stop)
    decreases |s| - i
  {
    if i < |s| && s[i] !in stop {
      RunLenMaximal(s, i + 1, stop);
    }
  }

  /** Text outside the run does not change its length. */
  lemma {:induction false} RunLenDependsOnRun(s: string, t: string, i: nat, stop: set<char>)
    requires i <= |s| && i <= |t|
    requires i + RunLen(s, i, stop) < |s| && i + RunLen(s, i, stop) < |t|
    requires s[i..i + RunLen(s, i, stop) + 1] == t[i..i + RunLen(s, i, stop) + 1]
    ensures RunLen(t, i, stop) == RunLen(s, i, stop)
    decreases |s| - i
  {
    var n := RunLen(s, i, stop);
    assert s[i] == s[i..i + n + 1][0] == t[i..i + n + 1][0] == t[i];
    if n > 0 {
      assert s[i + 1..i + 1 + RunLen(s, i + 1, stop) + 1] == s[i..i + n + 1][1..];
      assert t[i + 1..i + 1 + RunLen(s, i + 1, stop) + 1] == t[i..i + n + 1][1..];
      RunLenDependsOnRun(s, t, i + 1, stop);
    }
  }

  /** The length of ` { key: $param })` at the start of `u`, when it is
      there. */
  function PropsLen(u: string): (r: Option<nat>)
    ensures r.Some? ==> r.value <= |u| && 9 < r.value
  {
    if !OccursAt(u, " { ", 0) then None
    else
      var k := RunLen(u, 3, KeyStop);
      if k == 0 || !OccursAt(u, ": $", 3 + k) then None
      else
        var v := RunLen(u, 6 + k, ValueStop);
        if v == 0 || !OccursAt(u, " })", 6 + k + v) then None
        else Some(9 + k + v)
  }

  /** Where a node pattern matched: the label, then the property map. */
  datatype NodeSpan = NodeSpan(labelAt: nat, propsAt: nat, propsLen: nat)

  /** Where the label starts when `MATCH (`, a non-empty variable and `:`
      are found at `i`. */
  function LabelStart(s: string, i: nat): (r: Option<nat>)
    requires i <= |s|
    ensures r.Some? ==> i + 8 < r.value <= |s|
  {
    if !OccursAt(s, "MATCH (", i) then None
    else
      var a := RunLen(s, i + 7, VariableStop);
      if a == 0 || !OccursAt(s, ":", i + 7 + a) then None
      else Some(i + 8 + a)
  }

  /** The node pattern with literal `nodeLabel` matched at `i`. */
  function NodeMatchAt(s: string, i: nat, nodeLabel: string): (r: Option<NodeSpan>)
    requires i <= |s|
    ensures r.Some? ==> i + 8 < r.value.labelAt <= r.value.propsAt && r.value.propsAt + r.value.propsLen <= |s|
  {
    match LabelStart(s, i)
    case None => None
    case Some(l) =>
      if !OccursAt(s, nodeLabel, l) then None
      else
        var p := l + |nodeLabel|;
        match PropsLen(s[p..])
        case None => None
        case Some(n) => Some(NodeSpan(l, p, n))
  }

  /** What the start of a node match consists of: `MATCH (`, a non-empty
      variable and `:`. */
  lemma LabelStartShape(s: string, i: nat)
    requires i <= |s| && LabelStart(s, i).Some?
    ensures var l := LabelStart(s, i).value;
      OccursAt(s, "MATCH (", i) && s[l - 1] == ':' &&
      (forall j :: i + 7 <= j < l - 1 ==> s[j] !in VariableStop)
  {
    RunLenMaximal(s, i + 7, VariableStop);
  }

  /** What a node match at `i` consists of: the start, the label, and the
      property map right after it. */
  lemma NodeMatchAtShape(s: string, i: nat, nodeLabel: string)
    requires i <= |s| && NodeMatchAt(s, i, nodeLabel).Some?
    ensures var n := NodeMatchAt(s, i, nodeLabel).value;
      LabelStart(s, i) == Some(n.labelAt) && OccursAt(s, nodeLabel, n.labelAt) &&
      n.propsAt == n.labelAt + |nodeLabel| && PropsLen(s[n.propsAt..]) == Some(n.propsLen)
  {
  }

  /** The start of a node match only depends on the text up to its label. */
  lemma LabelStartPrefix(s: string, t: string, i: nat, m: nat)
    requires i <= |s| && LabelStart(s, i).Some? && LabelStart(s, i).value <= m
    requires m <= |s| && m <= |t| && s[..m] == t[..m]
    ensures i <= |t| && LabelStart(t, i) == LabelStart(s, i)
  {
    var l := LabelStart(s, i).value;
    var a := RunLen(s, i + 7, VariableStop);
    assert l == i + 8 + a;
    assert OccursAt(t, "MATCH (", i) by {
      assert t[i..i + 7] == t[..m][i..i + 7] == s[..m][i..i + 7] == s[i..i + 7];
    }
    assert s[i + 7..i + 7 + a + 1] == t[i + 7..i + 7 + a + 1] by {
      assert s[i + 7..i + 7 + a + 1] == s[..m][i + 7..l];
      assert t[i + 7..i + 7 + a + 1] == t[..m][i + 7..l];
    }
    RunLenDependsOnRun(s, t, i + 7, VariableStop);
    assert OccursAt(t, ":", i + 7 + a) by {
      assert t[l - 1..l] == t[..m][l - 1..l] == s[..m][l - 1..l] == s[l - 1..l];
    }
  }

  /** Swapping the label of a node match for another one leaves a node match
      at the same start, with the other label and the same property map. */
  lemma NodeMatchAfterSwap(s: string, t: string, i: nat, nodeLabel: string, other: string, n: NodeSpan)
    requires i <= |s| && NodeMatchAt(s, i, nodeLabel) == Some(n)
    requires t == s[..n.labelAt] + other + s[n.propsAt..]
    ensures i <= |t| && NodeMatchAt(t, i, other) == Some(NodeSpan(n.labelAt, n.labelAt + |other|, n.propsLen))
  {
    var l := n.labelAt;
    assert LabelStart(t, i) == Some(l) by {
      NodeMatchAtShape(s, i, nodeLabel);
      assert t[..l] == s[..l];
      LabelStartPrefix(s, t, i, l);
    }
    assert OccursAt(t, other, l) by { assert t[l..l + |other|] == other; }
    assert PropsLen(t[l + |other|..]) == Some(n.propsLen) by {
      NodeMatchAtShape(s, i, nodeLabel);
      assert t[l + |other|..] == s[n.propsAt..];
    }
    NodeMatchAtIntro(t, i, other, l, n.propsLen);
  }

  /** A node match is made of its start, its label and its property map. */
  lemma NodeMatchAtIntro(s: string, i: nat, nodeLabel: string, l: nat, len: nat)
    requires i <= |s| && LabelStart(s, i) == Some(l) && OccursAt(s, nodeLabel, l)
    requires PropsLen(s[l + |nodeLabel|..]) == Some(len)
    ensures NodeMatchAt(s, i, nodeLabel) == Some(NodeSpan(l, l + |nodeLabel|, len))
  {
  }

  /** The least index at or after `from` holding Some. */
  function FirstSomeFrom<T>(xs: seq<Option<T>>, from: nat): (r: Option<nat>)
    requires from <= |xs|
    ensures r.Some? ==> from <= r.value < |xs| && xs[r.value].Some?
    ensures r.Some? ==> forall j :: from <= j < r.value ==> xs[j].None?
    ensures r.None? ==> forall j :: from <= j < |xs| ==> xs[j].None?
    decreases |xs| - from
  {
    if from == |xs| then None
    else if xs[from].Some? then Some(from)
    else FirstSomeFrom(xs, from + 1)
  }

  /** The least index holding Some is the one before which every entry is None. */
  lemma FirstSomeAt<T>(xs: seq<Option<T>>, i: nat)
    requires i < |xs| && xs[i].Some? && forall j :: 0 <= j < i ==> xs[j].None?
    ensures FirstSomeFrom(xs, 0) == Some(i)
  {
    var first := FirstSomeFrom(xs, 0);
    assert first.Some?;
    assert !(first.value < i) by { assert xs[first.value].Some?; }
  }

  /** The node pattern tried at every start 0..|s|. */
  function NodeMatches(s: string, nodeLabel: string): (r: seq<Option<NodeSpan>>)
    ensures |r| == |s| + 1 && forall j :: 0 <= j <= |s| ==> r[j] == NodeMatchAt(s, j, nodeLabel)
  {
    seq(|s| + 1, j requires 0 <= j <= |s| => NodeMatchAt(s, j, nodeLabel))
  }

  /** What find() reports first for a node pattern: the leftmost start and
      the spans there. */
  function FirstNodeMatch(s: string, nodeLabel: string): (r: Option<(nat, NodeSpan)>)
    ensures r.Some? ==> r.value.0 <= |s| && NodeMatchAt(s, r.value.0, nodeLabel) == Some(r.value.1)
  {
    var ms := NodeMatches(s, nodeLabel);
    match FirstSomeFrom(ms, 0)
    case None => None
    case Some(i) => Some((i, ms[i].value))
  }

  /** The reported start is the leftmost one, and with no report the
      pattern matches nowhere. */
  lemma FirstNodeMatchLeftmost(s: string, nodeLabel: string)
    ensures var r := FirstNodeMatch(s, nodeLabel);
      (r.Some? ==> forall j :: 0 <= j < r.value.0 ==> NodeMatchAt(s, j, nodeLabel).None?) &&
      (r.None? ==> forall j :: 0 <= j <= |s| ==> NodeMatchAt(s, j, nodeLabel).None?)
  {
    var ms := NodeMatches(s, nodeLabel);
    var first := FirstSomeFrom(ms, 0);
    if first.Some? {
      forall j | 0 <= j < first.value ensures NodeMatchAt(s, j, nodeLabel).None? { assert ms[j].None?; }
    } else {
      forall j | 0 <= j <= |s| ensures NodeMatchAt(s, j, nodeLabel).None? { assert ms[j].None?; }
    }
  }

  /** The node pattern is first found at `i` when it matches there and
      nowhere before. */
  lemma FirstNodeMatchAt(s: string, nodeLabel: string, i: nat)
    requires i <= |s| && NodeMatchAt(s, i, nodeLabel).Some?
    requires forall j :: 0 <= j < i ==> NodeMatchAt(s, j, nodeLabel).None?
    ensures FirstNodeMatch(s, nodeLabel) == Some((i, NodeMatchAt(s, i, nodeLabel).value))
  {
    var ms := NodeMatches(s, nodeLabel);
    forall j | 0 <= j < i ensures ms[j].None? { }
    FirstSomeAt(ms, i);
  }

  /** replaceGroup on the property-map pattern splices its first property map. */
  lemma PropsMatchReplace(s: string, nodeLabel: string, rep: string, i: nat, n: NodeSpan)
    requires FirstNodeMatch(s, nodeLabel) == Some((i, n))
    ensures n.propsAt + n.propsLen <= |s|
    ensures ReplaceGroupOne(s, PropsMatch(s, nodeLabel), rep) == s[..n.propsAt] + rep + s[n.propsAt + n.propsLen..]
  {
  }

  /** A match of a pattern with one capture group. */
  function TwoGroupMatch(s: string, whole: Span, group: Span): (r: Match)
    requires SpanIn(s, whole) && SpanIn(s, group)
    ensures ValidMatches(s, [r]) && |r.groups| == 2 && r.groups[0] == Some(whole) && r.groups[1] == Some(group)
  {
    Match([Some(whole), Some(group)])
  }

  /** The first match of the label pattern: group 1 is the label. */
  function LabelMatch(s: string, nodeLabel: string): (r: Option<Match>)
    ensures WellFormedFirst(s, r)
    ensures r.None? <==> FirstNodeMatch(s, nodeLabel).None?
    ensures r.Some? ==> (FirstNodeMatch(s, nodeLabel).Some? &&
      var n := FirstNodeMatch(s, nodeLabel).value.1;
      r.value.groups[1] == Some(Span(n.labelAt, n.propsAt)))
  {
    var found := FirstNodeMatch(s, nodeLabel);
    if found.None? then None
    else
      var n := found.value.1;
      Some(TwoGroupMatch(s, Span(found.value.0, n.propsAt + n.propsLen), Span(n.labelAt, n.propsAt)))
  }

  /** The first match of the property-map pattern: group 1 is ` { .. })`. */
  function PropsMatch(s: string, nodeLabel: string): (r: Option<Match>)
    ensures WellFormedFirst(s, r)
    ensures r.None? <==> FirstNodeMatch(s, nodeLabel).None?
    ensures r.Some? ==> (FirstNodeMatch(s, nodeLabel).Some? &&
      var n := FirstNodeMatch(s, nodeLabel).value.1;
      r.value.groups[1] == Some(Span(n.propsAt, n.propsAt + n.propsLen)))
  {
    var found := FirstNodeMatch(s, nodeLabel);
    if found.None? then None
    else
      var n := found.value.1;
      var props := Span(n.propsAt, n.propsAt + n.propsLen);
      Some(TwoGroupMatch(s, Span(found.value.0, props.end), props))
  }
}
