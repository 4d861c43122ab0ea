/** The splice primitive `replaceGroup`: find the n-th match of a pattern and
    replace the text one of its capture groups matched.  The regular-expression
    engine itself is not modelled: a match is given by the spans each of its
    groups covers, as java.util.regex.Matcher reports them, in the order
    successive calls of find() return them. */
module Matching {
  import opened Wrappers

  /** The half-open character range [start, end) that a group matched. */
  datatype Span = Span(start: nat, end: nat)

  /** One match: groups[g] is the span of capture group g (group 0 is the
      whole match), None when that group took no part in the match. */
  datatype Match = Match(groups: seq<Option<Span>>)

  /** The exceptions replaceGroup can raise. */
  datatype ReplaceError =
    | NoCurrentMatch   // start() called with no successful find(): IllegalStateException
    | NoSuchGroup      // a group index the pattern does not have: IndexOutOfBoundsException
    | GroupNotInMatch  // start() is -1, so StringBuilder.replace fails: StringIndexOutOfBoundsException

  predicate SpanIn(s: string, sp: Span) { sp.start <= sp.end <= |s| }

  /** Every reported span lies inside the searched text. */
  predicate ValidMatches(s: string, ms: seq<Match>) {
    forall i, g :: 0 <= i < |ms| && 0 <= g < |ms[i].groups| && ms[i].groups[g].Some? ==> SpanIn(s, ms[i].groups[g].value)
  }

  /** StringBuilder(s).replace(start, end, rep) for an in-range span. */
  function Splice(s: string, sp: Span, rep: string): (r: string)
    requires SpanIn(s, sp)
    ensures |r| == |s| - (sp.end - sp.start) + |rep|
    ensures r[..sp.start] == s[..sp.start]
    ensures r[sp.start..sp.start + |rep|] == rep
    ensures r[sp.start + |rep|..] == s[sp.end..]
  {
    s[..sp.start] + rep + s[sp.end..]
  }

  /** replaceGroup(regex, source, group, occurrence, replacement) (five
      arguments) when `ms` lists the matches of `regex` in `source`. */
  function ReplaceNth(ms: seq<Match>, source: string, group: int, occurrence: int, rep: string): (r: Result<string, ReplaceError>)
    requires ValidMatches(source, ms)
    ensures occurrence <= 0 ==> r == Err(NoCurrentMatch)
    ensures 0 < occurrence && |ms| < occurrence ==> r == Ok(source)
    ensures 0 < occurrence <= |ms| && !(0 <= group < |ms[occurrence - 1].groups|) ==> r == Err(NoSuchGroup)
    ensures 0 < occurrence <= |ms| && 0 <= group < |ms[occurrence - 1].groups| ==>
              match ms[occurrence - 1].groups[group]
              case None => r == Err(GroupNotInMatch)
              case Some(sp) =>
                r.Ok? && |r.value| == |source| - (sp.end - sp.start) + |rep| &&
                r.value[..sp.start] == source[..sp.start] &&
                r.value[sp.start..sp.start + |rep|] == rep &&
                r.value[sp.start + |rep|..] == source[sp.end..]
  {
    if occurrence <= 0 then Err(NoCurrentMatch)
    else if |ms| < occurrence then Ok(source)
    else if !(0 <= group < |ms[occurrence - 1].groups|) then Err(NoSuchGroup)
    else match ms[occurrence - 1].groups[group]
      case None => Err(GroupNotInMatch)
      case Some(sp) => Ok(Splice(source, sp, rep))
  }

  /** The loop of replaceGroup: call find() `occurrence` times, give up with
      the source unchanged as soon as one fails, then splice the last match. */
  method ReplaceGroup(ms: seq<Match>, source: string, group: int, occurrence: int, rep: string)
    returns (r: Result<string, ReplaceError>)
    requires ValidMatches(source, ms)
    ensures r == ReplaceNth(ms, source, group, occurrence, rep)
  {
    var current: Option<Match> := None;
    var i := 0;
    while i < occurrence
      invariant 0 <= i <= |ms|
      invariant occurrence <= 0 ==> i == 0
      invariant 0 < occurrence ==> i <= occurrence
      invariant current == if i == 0 then None else Some(ms[i - 1])
    {
      if i >= |ms| {
        return Ok(source);
      }
      current := Some(ms[i]);
      i := i + 1;
    }
    match current
    case None =>
      r := Err(NoCurrentMatch);
    case Some(m) =>
      if !(0 <= group < |m.groups|) {
        r := Err(NoSuchGroup);
      } else if m.groups[group].None? {
        r := Err(GroupNotInMatch);
      } else {
        r := Ok(Splice(source, m.groups[group].value, rep));
      }
  }

  /** The four-argument replaceGroup: the first occurrence.  Only the first
      match matters; with none the source comes back unchanged. */
  function ReplaceFirst(ms: seq<Match>, source: string, group: int, rep: string): (r: Result<string, ReplaceError>)
    requires ValidMatches(source, ms)
    ensures |ms| == 0 ==> r == Ok(source)
    ensures |ms| > 0 && 0 <= group < |ms[0].groups| && ms[0].groups[group].Some? ==>
              r == Ok(Splice(source, ms[0].groups[group].value, rep))
    ensures |ms| > 0 ==> r == ReplaceNth(ms[..1], source, group, 1, rep)
  {
    ReplaceNth(ms, source, group, 1, rep)
  }
}
