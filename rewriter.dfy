/** The data-fetcher wrapper of schemaOf: it takes the Cypher statement the
    library generated for one field of the query or mutation type and
    rewrites it for time-based versioning.  Queries filter on the version in
    force at `$_version`; create mutations make a new version edge and close
    the previous one; add mutations link to the target's resource node. */
module Rewriter {
  import opened Wrappers
  import opened Text
  import opened Matching
  import opened CypherPatterns
  import opened Parameters
  import VersionWindows

  // ---------------------------------------------------------------------
  // unwrapTypeName

  /** The output types a field can have, as far as unwrapTypeName looks. */
  datatype OutputType =
    | NonNullOf(inner: OutputType)
    | ListOfType(elem: OutputType)
    | ObjectOutput(name: string)
    | OtherOutput(className: string)  // scalar, enum, interface, union: the class name in the message

  datatype Wrapper = NonNullWrapper | ListWrapper

  /** `t` inside the wrappers `ws`, outermost first. */
  function Wrap(t: OutputType, ws: seq<Wrapper>): OutputType
    decreases |ws|
  {
    if ws == [] then t
    else if ws[0] == NonNullWrapper then NonNullOf(Wrap(t, ws[1..]))
    else ListOfType(Wrap(t, ws[1..]))
  }

  /** The type under every wrapper, and the wrappers around it. */
  function Leaf(t: OutputType): (r: OutputType)
    ensures !r.NonNullOf? && !r.ListOfType?
  {
    match t
    case NonNullOf(inner) => Leaf(inner)
    case ListOfType(elem) => Leaf(elem)
    case _ => t
  }

  function Layers(t: OutputType): seq<Wrapper> {
    match t
    case NonNullOf(inner) => [NonNullWrapper] + Layers(inner)
    case ListOfType(elem) => [ListWrapper] + Layers(elem)
    case _ => []
  }

  /** Every output type is its leaf inside its layers. */
  lemma {:induction false} LeafAndLayers(t: OutputType)
    ensures t == Wrap(Leaf(t), Layers(t))
  {
    match t
    case NonNullOf(inner) =>
      LeafAndLayers(inner);
      assert ([NonNullWrapper] + Layers(inner))[1..] == Layers(inner);
    case ListOfType(elem) =>
      LeafAndLayers(elem);
      assert ([ListWrapper] + Layers(elem))[1..] == Layers(elem);
    case _ =>
  }

  datatype RewriteError =
    | UnsupportedOutputType(className: string)  // unwrapTypeName: IllegalArgumentException
    | MissingReturnClause(fieldName: string)    // lastIndexOf gives -1 and the append throws
    | NotCreateRelationHandler                  // add mutation with another data fetcher
    | OnlyCreateSupported(fieldName: string)    // any other mutation: UnsupportedOperationException

  /** unwrapTypeName: strip NonNull and List wrappers; an object type gives
      its name, any other leaf an error. */
  function UnwrapTypeName(t: OutputType): (r: Result<string, RewriteError>)
    ensures Leaf(t).ObjectOutput? ==> r == Ok(Leaf(t).name)
    ensures Leaf(t).OtherOutput? ==> r == Err(UnsupportedOutputType(Leaf(t).className))
  {
    match t
    case NonNullOf(inner) => UnwrapTypeName(inner)
    case ListOfType(elem) => UnwrapTypeName(elem)
    case ObjectOutput(name) => Ok(name)
    case OtherOutput(className) => Err(UnsupportedOutputType(className))
  }

  /** Any nesting of wrappers around an object type unwraps to its name. */
  lemma {:induction false} UnwrapWrapped(name: string, ws: seq<Wrapper>)
    ensures UnwrapTypeName(Wrap(ObjectOutput(name), ws)) == Ok(name)
    decreases |ws|
  {
    if ws != [] { UnwrapWrapped(name, ws[1..]); }
  }

  // ---------------------------------------------------------------------
  // The statement and the wrapper's inputs

  /** The library's Cypher: statement text, parameters and result type. */
  datatype Cypher = Cypher(query: string, params: seq<Entry>, resultType: string)

  /** The data fetcher that produced the statement. */
  datatype Resolver = CreateRelationHandler(targetType: string) | OtherResolver

  /** The names in the query and mutation sets, fixed once the schema is built. */
  datatype Operations = Operations(queries: set<string>, mutations: set<string>)

  // ---------------------------------------------------------------------
  // Query branch

  /** MATCH \(name:Type\) WHERE( ) without its escapes; group 1 is the last
      character. */
  function WherePattern(name: string, typ: string): string { "MATCH (" + name + ":" + typ + ") WHERE " }

  /** MATCH (\(name:Type\)) WHERE without its escapes; group 1 is `(name:Type)`. */
  function NodePattern(name: string, typ: string): string { "MATCH (" + name + ":" + typ + ") WHERE" }

  /** The condition inserted after WHERE: the version in force at $_version. */
  function VersionCondition(): string {
    " (" + VersionWindows.WindowFilter("_v", "$_version") + ") AND "
  }

  /** The node pattern that reaches the instance through its resource. */
  function VersionedNode(name: string, typ: string): string {
    "(_r:" + typ + "_R:RESOURCE)" + "<-[_v:VERSION_OF]-(" + name + ":" + typ + ":INSTANCE)"
  }

  /** The two replaceGroup calls of the query branch.  The names are pasted
      into the patterns unescaped, which is literal text for GraphQL names. */
  function QueryText(name: string, typ: string, text: string): string
    requires IsName(name) && IsName(typ)
  {
    var p1 := WherePattern(name, typ);
    var q := ReplaceGroupOne(text, LiteralFirstMatch(text, p1, |p1| - 1, |p1|), VersionCondition());
    var p2 := NodePattern(name, typ);
    ReplaceGroupOne(q, LiteralFirstMatch(q, p2, 6, |p2| - 6), VersionedNode(name, typ))
  }

  /** The two replacements of QueryText, one after the other. */
  lemma QueryTextUnfold(name: string, typ: string, text: string)
    requires IsName(name) && IsName(typ)
    ensures var p1, p2 := WherePattern(name, typ), NodePattern(name, typ);
      var q := ReplaceGroupOne(text, LiteralFirstMatch(text, p1, |p1| - 1, |p1|), VersionCondition());
      QueryText(name, typ, text) == ReplaceGroupOne(q, LiteralFirstMatch(q, p2, 6, |p2| - 6), VersionedNode(name, typ))
  {
  }

  /** Texts that agree up to `m` have the same occurrences ending by `m`. */
  lemma OccursInCommonPrefix(s: string, t: string, pat: string, j: nat, m: nat)
    requires m <= |s| && m <= |t| && s[..m] == t[..m] && j + |pat| <= m
    ensures OccursAt(s, pat, j) <==> OccursAt(t, pat, j)
  {
    assert s[j..j + |pat|] == s[..m][j..j + |pat|];
    assert t[j..j + |pat|] == t[..m][j..j + |pat|];
  }

  /** The shape of the two query patterns. */
  lemma PatternShape(name: string, typ: string)
    ensures var p1, p2 := WherePattern(name, typ), NodePattern(name, typ);
      p1 == p2 + " " && |p2| >= 12 && p2[..6] == "MATCH " && p2[|p2| - 6..] == " WHERE"
  {
    var p2 := NodePattern(name, typ);
    assert p2 == "MATCH " + ("(" + name + ":" + typ + ")") + " WHERE";
  }

  /** An occurrence of a pattern is one of each of its prefixes. */
  lemma PrefixOccurs(text: string, p: string, n: nat, j: int)
    requires n <= |p|
    ensures OccursAt(text, p, j) ==> OccursAt(text, p[..n], j)
  {
    if OccursAt(text, p, j) {
      assert text[j..j + n] == text[j..j + |p|][..n];
    }
  }

  /** replaceGroup with a literal pattern whose first match is at `i`
      splices group 1 there. */
  lemma LiteralReplaceAt(s: string, pat: string, gs: nat, ge: nat, i: nat, rep: string)
    requires gs <= ge <= |pat|
    requires OccursAt(s, pat, i) && forall j :: 0 <= j < i ==> !OccursAt(s, pat, j)
    ensures SpanIn(s, Span(i + gs, i + ge))
    ensures ReplaceGroupOne(s, LiteralFirstMatch(s, pat, gs, ge), rep) == Splice(s, Span(i + gs, i + ge), rep)
  {
    var f := FirstOccurrence(s, pat);
    assert f == Some(i) by {
      assert f.Some?;
      assert !(f.value < i) && !(i < f.value);
    }
    var m := Match([Some(Span(i, i + |pat|)), Some(Span(i + gs, i + ge))]);
    assert LiteralFirstMatch(s, pat, gs, ge) == Some(m);
  }

  /** Splicing exactly the middle part of u + x + w. */
  lemma SpliceMiddle(s: string, u: string, x: string, w: string, rep: string)
    requires s == u + x + w
    ensures SpanIn(s, Span(|u|, |u| + |x|))
    ensures Splice(s, Span(|u|, |u| + |x|), rep) == u + rep + w
  {
    assert s[..|u|] == u && s[|u| + |x|..] == w;
  }

  /** The first query replacement: the space after the first match of
      `p2 + " "` becomes `cond`. */
  lemma FirstReplacement(text: string, u: string, p1: string, p2: string, w: string, cond: string)
    requires p1 == p2 + " " && text == u + p1 + w
    requires forall j :: 0 <= j < |u| ==> !OccursAt(text, p2, j)
    ensures ReplaceGroupOne(text, LiteralFirstMatch(text, p1, |p1| - 1, |p1|), cond) == u + p2 + (cond + w)
  {
    assert text == (u + p2) + " " + w;
    assert OccursAt(text, p1, |u|) by { assert text[|u|..|u| + |p1|] == p1; }
    forall j | 0 <= j < |u| ensures !OccursAt(text, p1, j) {
      assert p1[..|p2|] == p2;
      PrefixOccurs(text, p1, |p2|, j);
    }
    LiteralReplaceAt(text, p1, |p1| - 1, |p1|, |u|, cond);
    assert |u| + |p1| - 1 == |u + p2|;
    SpliceMiddle(text, u + p2, " ", w, cond);
    Reassociate(u + p2, cond, w);
  }

  /** The second query replacement: inside the first match of `p2`, all but
      its first six and last six characters become `node`. */
  lemma SecondReplacement(q: string, u: string, p2: string, w: string, node: string)
    requires |p2| >= 12 && q == u + p2 + w
    requires forall j :: 0 <= j < |u| ==> !OccursAt(q, p2, j)
    ensures ReplaceGroupOne(q, LiteralFirstMatch(q, p2, 6, |p2| - 6), node) ==
      u + p2[..6] + node + p2[|p2| - 6..] + w
  {
    var a, b, c := p2[..6], p2[6..|p2| - 6], p2[|p2| - 6..];
    assert p2 == a + b + c;
    assert q == (u + a) + b + (c + w);
    assert OccursAt(q, p2, |u|) by { assert q[|u|..|u| + |p2|] == p2; }
    LiteralReplaceAt(q, p2, 6, |p2| - 6, |u|, node);
    SpliceMiddle(q, u + a, b, c + w, node);
  }

  /** Replacing the space after an occurrence of `p2` adds none before it. */
  lemma NoEarlierAfterFirst(text: string, q: string, u: string, p2: string, w: string, w': string)
    requires text == u + p2 + w && q == u + p2 + w'
    requires forall j :: 0 <= j < |u| ==> !OccursAt(text, p2, j)
    ensures forall j :: 0 <= j < |u| ==> !OccursAt(q, p2, j)
  {
    var m := |u| + |p2|;
    assert q[..m] == u + p2 == text[..m];
    forall j | 0 <= j < |u| ensures !OccursAt(q, p2, j) {
      OccursInCommonPrefix(q, text, p2, j, m);
    }
  }

  /** The two replacements, for any pattern pair of that shape: the first
      match of `p2 + " "` gets `cond` in place of its last character, and then
      the same place, the first match of `p2`, gets `node` inside its first
      six and last six characters. */
  lemma TwoReplacements(text: string, u: string, p1: string, p2: string, w: string, cond: string, node: string)
    requires |p2| >= 12 && p1 == p2 + " " && text == u + p1 + w
    requires forall j :: 0 <= j < |u| ==> !OccursAt(text, p2, j)
    ensures var q := ReplaceGroupOne(text, LiteralFirstMatch(text, p1, |p1| - 1, |p1|), cond);
      ReplaceGroupOne(q, LiteralFirstMatch(q, p2, 6, |p2| - 6), node) ==
        u + p2[..6] + node + p2[|p2| - 6..] + cond + w
  {
    FirstReplacement(text, u, p1, p2, w, cond);
    var q := u + p2 + (cond + w);
    assert text == u + p2 + (" " + w);
    NoEarlierAfterFirst(text, q, u, p2, " " + w, cond + w);
    SecondReplacement(q, u, p2, cond + w, node);
    Reassociate(u + p2[..6] + node + p2[|p2| - 6..], cond, w);
  }

  /** A text is what precedes an occurrence, the occurrence, and what follows. */
  lemma AroundOccurrence(text: string, p: string, i: nat)
    requires OccursAt(text, p, i)
    ensures text == text[..i] + p + text[i + |p|..]
  {
    assert text == text[..i] + text[i..i + |p|] + text[i + |p|..];
  }

  lemma Reassociate(u: string, v: string, w: string)
    ensures u + (v + w) == u + v + w
  {
  }

  /** When the first `MATCH (name:Type) WHERE` is followed by a space, the
      condition goes after its WHERE and the node becomes the versioned one. */
  lemma QueryRewritesFirstMatch(name: string, typ: string, text: string, i: nat)
    requires IsName(name) && IsName(typ)
    requires OccursAt(text, WherePattern(name, typ), i)
    requires forall j :: 0 <= j < i ==> !OccursAt(text, NodePattern(name, typ), j)
    ensures QueryText(name, typ, text) ==
      text[..i] + "MATCH " + VersionedNode(name, typ) + " WHERE" + VersionCondition() + text[i + |WherePattern(name, typ)|..]
  {
    var p1, p2 := WherePattern(name, typ), NodePattern(name, typ);
    PatternShape(name, typ);
    AroundOccurrence(text, p1, i);
    TwoReplacements(text, text[..i], p1, p2, text[i + |p1|..], VersionCondition(), VersionedNode(name, typ));
    QueryTextUnfold(name, typ, text);
  }

  /** replaceGroup with a literal pattern that does not occur changes nothing. */
  lemma LiteralReplaceNone(s: string, pat: string, gs: nat, ge: nat, rep: string)
    requires gs <= ge <= |pat|
    requires forall j :: !OccursAt(s, pat, j)
    ensures ReplaceGroupOne(s, LiteralFirstMatch(s, pat, gs, ge), rep) == s
  {
    assert FirstOccurrence(s, pat).None?;
  }

  /** Without any `MATCH (name:Type) WHERE` the statement is unchanged. */
  lemma QueryWithoutMatchUnchanged(name: string, typ: string, text: string)
    requires IsName(name) && IsName(typ)
    requires forall j :: !OccursAt(text, NodePattern(name, typ), j)
    ensures QueryText(name, typ, text) == text
  {
    var p1, p2 := WherePattern(name, typ), NodePattern(name, typ);
    PatternShape(name, typ);
    assert p1[..|p2|] == p2;
    forall j ensures !OccursAt(text, p1, j) {
      PrefixOccurs(text, p1, |p2|, j);
    }
    LiteralReplaceNone(text, p1, |p1| - 1, |p1|, VersionCondition());
    LiteralReplaceNone(text, p2, 6, |p2| - 6, VersionedNode(name, typ));
    QueryTextUnfold(name, typ, text);
  }

  /** When no match is followed by a space only the node is rewritten. */
  lemma QueryWithoutSpaceOnlyRelabels(name: string, typ: string, text: string, i: nat)
    requires IsName(name) && IsName(typ)
    requires forall j :: !OccursAt(text, WherePattern(name, typ), j)
    requires OccursAt(text, NodePattern(name, typ), i)
    requires forall j :: 0 <= j < i ==> !OccursAt(text, NodePattern(name, typ), j)
    ensures QueryText(name, typ, text) ==
      text[..i] + "MATCH " + VersionedNode(name, typ) + " WHERE" + text[i + |NodePattern(name, typ)|..]
  {
    var p1, p2 := WherePattern(name, typ), NodePattern(name, typ);
    PatternShape(name, typ);
    LiteralReplaceNone(text, p1, |p1| - 1, |p1|, VersionCondition());
    AroundOccurrence(text, p2, i);
    SecondReplacement(text, text[..i], p2, text[i + |p2|..], VersionedNode(name, typ));
    QueryTextUnfold(name, typ, text);
  }

  // ---------------------------------------------------------------------
  // Create branch
  //
  // The statement lines are written as concatenations of short literals,
  // which the verifier takes apart far more cheaply than one long literal.

  function ReturnClause(name: string): string { "WITH " + name + " RETURN" }

  /** The four lines before the default statement. */
  function MergeResourceLine(typ: string): string { "MERGE (r:" + typ + "_R:RESOURCE " + "{id: $id}) WITH r\n" }

  /** An instance whose version starts at $_version and that reaches an
      EMBEDDED node is deleted, with those nodes. */
  function DeleteSameVersionLine(): string {
    "OPTIONAL MATCH " + "(r)<-[v:VERSION_OF " + "{from: $_version}]" + "-(m)-[*]->" + "(e:EMBEDDED) " + "DETACH DELETE " + "m, e WITH r\n"
  }

  /** The version in force at $_version. */
  function PreviousVersionLine(): string {
    "OPTIONAL MATCH " + "(r)<-[v:VERSION_OF]" + "-() WHERE " + VersionWindows.WindowFilter("v", "$_version") +
      " WITH r, " + "v AS prevVersion\n"
  }

  /** The least `from` after $_version. */
  function NextVersionLine(): string {
    "OPTIONAL MATCH " + "(r)<-[v:VERSION_OF]" + "-() WHERE " + "v.from > " + "$_version WITH " + "r, prevVersion, " +
      "min(v.from) AS " + "nextVersionFrom\n"
  }

  function CreatePrelude(typ: string): string {
    MergeResourceLine(typ) + DeleteSameVersionLine() + PreviousVersionLine() + NextVersionLine()
  }

  /** The new version edge, [$_version, coalesce(prevVersion.to, nextVersionFrom)). */
  function CreateVersionLine(name: string, typ: string): string {
    "CREATE (r)-" + "[v:VERSION_OF " + "{from: $_version, " + "to: coalesce(" + "prevVersion.to, " + "nextVersionFrom)}]" +
      "->(" + name + ":" + typ + ":INSTANCE)\n"
  }

  /** The previous version ends where the new one starts. */
  function CloseLine(): string { "SET prevVersion" + ".to = $_version\n" }

  /** The statement the create branch builds, split at the last return clause. */
  function CreateText(name: string, typ: string, text: string): Result<string, RewriteError> {
    match LastOccurrence(text, ReturnClause(name))
    case None => Err(MissingReturnClause(name))
    case Some(idx) => Ok(CreatePrelude(typ) + text[..idx] + "\n" + CreateVersionLine(name, typ) + CloseLine() + text[idx..])
  }

  /** The StringBuilder of the create branch, append by append. */
  method BuildCreateText(name: string, typ: string, text: string) returns (r: Result<string, RewriteError>)
    ensures r == CreateText(name, typ, text)
  {
    var found := LastOccurrence(text, ReturnClause(name));
    if found.None? {
      return Err(MissingReturnClause(name));
    }
    var idx := found.value;
    var sb := MergeResourceLine(typ);
    sb := sb + DeleteSameVersionLine();
    sb := sb + PreviousVersionLine();
    sb := sb + NextVersionLine();
    sb := sb + text[..idx] + "\n";
    sb := sb + CreateVersionLine(name, typ);
    sb := sb + CloseLine();
    sb := sb + text[idx..];
    return Ok(sb);
  }

  /** lastIndexOf splits the text into a head and a tail that starts with
      the only occurrence of the clause in it. */
  lemma SplitAtLast(text: string, clause: string, idx: nat)
    requires LastOccurrence(text, clause) == Some(idx)
    ensures text[..idx] + text[idx..] == text && StartsWith(text[idx..], clause)
    ensures forall j :: 0 < j ==> !OccursAt(text[idx..], clause, j)
  {
    var tail := text[idx..];
    assert tail[..|clause|] == text[idx..idx + |clause|];
    forall j | 0 < j ensures !OccursAt(tail, clause, j) {
      if OccursAt(tail, clause, j) {
        assert tail[j..j + |clause|] == text[idx + j..idx + j + |clause|];
        assert OccursAt(text, clause, idx + j);
      }
    }
  }

  /** The create statement is the default one cut just before its last
      return clause, with the prelude in front and the version lines in the
      cut; without a return clause the branch fails. */
  lemma CreateTextShape(name: string, typ: string, text: string)
    ensures CreateText(name, typ, text).Ok? <==> exists j :: OccursAt(text, ReturnClause(name), j)
    ensures CreateText(name, typ, text).Err? ==> CreateText(name, typ, text).error == MissingReturnClause(name)
    ensures CreateText(name, typ, text).Ok? ==> exists head, tail ::
      head + tail == text && StartsWith(tail, ReturnClause(name)) &&
      (forall j :: 0 < j ==> !OccursAt(tail, ReturnClause(name), j)) &&
      CreateText(name, typ, text).value == CreatePrelude(typ) + head + "\n" + CreateVersionLine(name, typ) + CloseLine() + tail
  {
    var clause := ReturnClause(name);
    match LastOccurrence(text, clause) {
      case None =>
      case Some(idx) =>
        SplitAtLast(text, clause, idx);
        var head, tail := text[..idx], text[idx..];
        assert CreateText(name, typ, text).value == CreatePrelude(typ) + head + "\n" + CreateVersionLine(name, typ) + CloseLine() + tail;
    }
  }

  // ---------------------------------------------------------------------
  // Add branch

  function ResourceLabel(typ: string): string { typ + "_R:RESOURCE" }

  /** A key of TreeSet.subSet("to", true, "to~", false). */
  predicate InToRange(k: string) { LexLessEq("to", k) && LexLess(k, "to~") }

  /** The keys of the range are those that start with "to" and then either
      end or go on with a character below '~'. */
  lemma InToRangeIff(k: string)
    ensures InToRange(k) <==> StartsWith(k, "to") && (|k| == 2 || k[2] < '~')
  {
    if StartsWith(k, "to") {
      assert k[0] == 't' && k[1] == 'o';
      assert k[1..][1..] == k[2..];
      assert "to~"[1..] == "o~" && "o~"[1..] == "~" && "to"[1..] == "o" && "o"[1..] == "";
      if |k| > 2 {
        assert k[2..][0] == k[2];
        assert LexLess("to", k) by {
          assert LexLess("", k[2..]);
          assert LexLess("o", k[1..]);
        }
        assert LexLess(k, "to~") <==> LexLess(k[2..], "~") by {
          assert LexLess(k, "to~") <==> LexLess(k[1..], "o~");
          assert LexLess(k[1..], "o~") <==> LexLess(k[1..][1..], "~");
        }
        assert LexLess(k[2..], "~") <==> k[2] < '~' by {
          if k[2] == '~' { assert !LexLess(k[2..][1..], ""); }
        }
      } else {
        assert k == "to";
      }
    } else if |k| >= 2 && k[0] == 't' {
      assert k[1] != 'o';
      assert LexLess("to", k) <==> LexLess("o", k[1..]);
      assert LexLess(k, "to~") <==> LexLess(k[1..], "o~");
    }
  }

  /** toKeys.first(): the least key of the range, if any. */
  function LeastToKey(keys: seq<string>): (r: Option<string>)
    ensures r.Some? ==> r.value in keys && InToRange(r.value)
    ensures r.Some? ==> forall k :: k in keys && InToRange(k) ==> LexLessEq(r.value, k)
    ensures r.None? ==> forall k :: k in keys ==> !InToRange(k)
    decreases |keys|
  {
    if keys == [] then None
    else
      var rest := LeastToKey(keys[1..]);
      var k := keys[0];
      if !InToRange(k) then rest
      else if rest.None? then Some(k)
      else
        LexLessTotal(k, rest.value);
        if LexLess(rest.value, k) then
          assert forall x :: x in keys[1..] && InToRange(x) ==> LexLess(rest.value, x) || rest.value == x;
          rest
        else
          assert forall x :: x in keys[1..] && InToRange(x) && LexLess(rest.value, x) ==> LexLess(k, x) by {
            forall x | x in keys[1..] && InToRange(x) && LexLess(rest.value, x) ensures LexLess(k, x) {
              if k != rest.value { LexLessTransitive(k, rest.value, x); }
            }
          }
          Some(k)
  }

  /** The relabel replaceGroup and, with a `to` key, the property-map one;
      None when control falls through to the default statement. */
  function AddText(typ: string, text: string, keys: seq<string>): Option<string> {
    var relabelled := Relabel(typ, text);
    match LeastToKey(keys)
    case None => None
    case Some(key) =>
      Some(ReplaceGroupOne(relabelled, PropsMatch(relabelled, ResourceLabel(typ)), ToCondition(key)))
  }

  /** The first replaceGroup of the add branch: the target label becomes the
      resource label. */
  function Relabel(typ: string, text: string): string {
    ReplaceGroupOne(text, LabelMatch(text, typ), ResourceLabel(typ))
  }

  /** What replaces the property map of the target node. */
  function ToCondition(key: string): string { ") WHERE to.id IN $" + key }

  /** The relabel swaps the label of the first target node pattern for the
      resource label, and leaves a statement without one as it is. */
  lemma RelabelShape(typ: string, text: string)
    ensures var f := FirstNodeMatch(text, typ);
      (f.None? ==> Relabel(typ, text) == text) &&
      (f.Some? ==> var n := f.value.1;
        Relabel(typ, text) == text[..n.labelAt] + ResourceLabel(typ) + text[n.propsAt..])
  {
  }

  /** After the relabel, the resource-labelled node pattern matches where the
      target node pattern did, with the same property map. */
  lemma RelabelledNodeMatches(typ: string, text: string, i: nat, n: NodeSpan)
    requires FirstNodeMatch(text, typ) == Some((i, n))
    ensures var r := Relabel(typ, text);
      i <= |r| && NodeMatchAt(r, i, ResourceLabel(typ)) == Some(NodeSpan(n.labelAt, n.labelAt + |ResourceLabel(typ)|, n.propsLen))
  {
    RelabelShape(typ, text);
    NodeMatchAfterSwap(text, Relabel(typ, text), i, typ, ResourceLabel(typ), n);
  }

  /** Once relabelled, the resource-labelled node pattern is first found
      where the target node pattern was, provided none comes before it. */
  lemma RelabelledFirstMatch(typ: string, text: string, i: nat, n: NodeSpan)
    requires FirstNodeMatch(text, typ) == Some((i, n))
    requires forall j :: 0 <= j < i ==> NodeMatchAt(Relabel(typ, text), j, ResourceLabel(typ)).None?
    ensures FirstNodeMatch(Relabel(typ, text), ResourceLabel(typ)) ==
      Some((i, NodeSpan(n.labelAt, n.labelAt + |ResourceLabel(typ)|, n.propsLen)))
  {
    RelabelledNodeMatches(typ, text, i, n);
    FirstNodeMatchAt(Relabel(typ, text), ResourceLabel(typ), i);
  }

  /** The second replaceGroup of the add branch splices the property map of
      the first resource-labelled node pattern. */
  lemma AddTextSplices(typ: string, text: string, keys: seq<string>, key: string, i: nat, m: NodeSpan)
    requires LeastToKey(keys) == Some(key)
    requires FirstNodeMatch(Relabel(typ, text), ResourceLabel(typ)) == Some((i, m))
    ensures var r := Relabel(typ, text);
      m.propsAt + m.propsLen <= |r| &&
      AddText(typ, text, keys) == Some(r[..m.propsAt] + ToCondition(key) + r[m.propsAt + m.propsLen..])
  {
    PropsMatchReplace(Relabel(typ, text), ResourceLabel(typ), ToCondition(key), i, m);
  }

  /** Without a `to` key control falls through to the default statement:
      the relabel is computed but not returned. */
  lemma AddWithoutToKeyKeepsStatement(typ: string, cypher: Cypher)
    requires IsName(typ)
    requires forall k :: k in Keys(cypher.params) ==> !InToRange(k)
    ensures AddText(typ, cypher.query, Keys(cypher.params)).None?
    ensures AddRewrite(CreateRelationHandler(typ), cypher) == Ok(cypher)
  {
    assert LeastToKey(Keys(cypher.params)).None?;
  }

  // ---------------------------------------------------------------------
  // The wrapper

  /** The query branch: the statement with the two query replacements. */
  function QueryRewrite(name: string, returnType: OutputType, cypher: Cypher): (r: Result<Cypher, RewriteError>)
    requires IsName(name) && (Leaf(returnType).ObjectOutput? ==> IsName(Leaf(returnType).name))
    ensures r.Ok? <==> Leaf(returnType).ObjectOutput?
    ensures r.Ok? ==> r.value == cypher.(query := QueryText(name, Leaf(returnType).name, cypher.query))
  {
    var typ :- UnwrapTypeName(returnType);
    Ok(cypher.(query := QueryText(name, typ, cypher.query)))
  }

  /** The create branch: fails on a non-object result type or a statement
      without the return clause. */
  function CreateRewrite(name: string, returnType: OutputType, cypher: Cypher): (r: Result<Cypher, RewriteError>)
    ensures r.Ok? <==> Leaf(returnType).ObjectOutput? && CreateText(name, Leaf(returnType).name, cypher.query).Ok?
    ensures r.Ok? ==> r.value == cypher.(query := CreateText(name, Leaf(returnType).name, cypher.query).value)
  {
    var typ :- UnwrapTypeName(returnType);
    var created := CreateText(name, typ, cypher.query);
    if created.Err? then Err(created.error) else Ok(cypher.(query := created.value))
  }

  /** The add branch: only for a createRelationshipHandler's statement.  The
      target type is pasted into both patterns unescaped, which is literal
      text for a GraphQL name. */
  function AddRewrite(resolver: Resolver, cypher: Cypher): (r: Result<Cypher, RewriteError>)
    requires resolver.CreateRelationHandler? ==> IsName(resolver.targetType)
    ensures r.Err? <==> !resolver.CreateRelationHandler?
    ensures r.Err? ==> r.error == NotCreateRelationHandler
    ensures r.Ok? ==> r.value.params == cypher.params && r.value.resultType == cypher.resultType
    ensures r.Ok? && LeastToKey(Keys(cypher.params)).None? ==> r.value == cypher
    ensures r.Ok? && LeastToKey(Keys(cypher.params)).Some? ==>
      AddText(resolver.targetType, cypher.query, Keys(cypher.params)) == Some(r.value.query)
  {
    if !resolver.CreateRelationHandler? then Err(NotCreateRelationHandler)
    else match AddText(resolver.targetType, cypher.query, Keys(cypher.params))
      case None => Ok(cypher)
      case Some(text) => Ok(cypher.(query := text))
  }

  /** The rewrite for field `name`, given the data fetcher's statement:
      queries first, then create and add mutations; any other mutation
      fails and any other field keeps its statement. */
  function Rewrite(name: string, returnType: OutputType, resolver: Resolver, ops: Operations, cypher: Cypher): (r: Result<Cypher, RewriteError>)
    requires IsName(name) && (Leaf(returnType).ObjectOutput? ==> IsName(Leaf(returnType).name))
    requires resolver.CreateRelationHandler? ==> IsName(resolver.targetType)
    ensures r.Ok? ==> r.value.params == cypher.params && r.value.resultType == cypher.resultType
    ensures name in ops.queries ==> r == QueryRewrite(name, returnType, cypher)
    ensures name !in ops.queries && name in ops.mutations && StartsWith(name, "create") ==>
      r == CreateRewrite(name, returnType, cypher)
    ensures name !in ops.queries && name in ops.mutations && !StartsWith(name, "create") && StartsWith(name, "add") ==>
      r == AddRewrite(resolver, cypher)
    ensures name !in ops.queries && name !in ops.mutations ==> r == Ok(cypher)
    ensures name !in ops.queries && name in ops.mutations && !StartsWith(name, "create") && !StartsWith(name, "add") ==>
      r == Err(OnlyCreateSupported(name))
  {
    if name in ops.queries then QueryRewrite(name, returnType, cypher)
    else if name in ops.mutations then
      if StartsWith(name, "create") then CreateRewrite(name, returnType, cypher)
      else if StartsWith(name, "add") then AddRewrite(resolver, cypher)
      else Err(OnlyCreateSupported(name))
    else Ok(cypher)
  }
}
