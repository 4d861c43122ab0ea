/** The time-based-versioning rule behind the emitted Cypher, kept abstract:
    each version edge of one resource carries a validity window [from, to),
    `to` absent while the version is open.  The same filter,
    `from <= v AND coalesce(v < to, true)`, selects the version in force in
    the link statement, in the query rewrite and in the create prelude; the
    create branch then inserts a new window and closes the previous one. */
module VersionWindows {
  import opened Wrappers

  /** A version edge: its window, and whether its instance node reaches an
      EMBEDDED node (only such instances are deleted when rewritten). */
  datatype Window = Window(from: int, to: Option<int>, hasEmbedded: bool)

  /** The Cypher text of the version filter on edge variable `edge` at the
      instant expression `instant`. */
  function WindowFilter(edge: string, instant: string): string {
    edge + ".from <= " + instant + " AND coalesce(" + instant + " < " + edge + ".to, true)"
  }

  /** Cypher's `x < y` when y may be null: the comparison itself is null. */
  function NullableLess(x: int, y: Option<int>): Option<bool> {
    match y
    case None => None
    case Some(b) => Some(x < b)
  }

  function Coalesce(b: Option<bool>, default: bool): bool {
    match b
    case None => default
    case Some(x) => x
  }

  /** What WindowFilter evaluates to for edge window `w` at instant `v`. */
  predicate Contains(w: Window, v: int) {
    w.from <= v && Coalesce(NullableLess(v, w.to), true)
  }

  predicate IsEmpty(w: Window) { w.to.Some? && w.to.value <= w.from }

  /** `w` is closed no later than `x`. */
  predicate EndsBy(w: Window, x: int) { w.to.Some? && w.to.value <= x }

  /** The windows share no instant, stated on their bounds. */
  predicate Disjoint(a: Window, b: Window) {
    IsEmpty(a) || IsEmpty(b) || EndsBy(a, b.from) || EndsBy(b, a.from)
  }

  /** `inner` lies within `outer` as an interval. */
  predicate Within(inner: Window, outer: Window) {
    outer.from <= inner.from && (outer.to.None? || (inner.to.Some? && inner.to.value <= outer.to.value))
  }

  predicate NonOverlapping(ws: seq<Window>) {
    forall i, j :: 0 <= i < |ws| && 0 <= j < |ws| && i != j ==> Disjoint(ws[i], ws[j])
  }

  predicate DisjointFromAll(w: Window, ws: seq<Window>) {
    forall i :: 0 <= i < |ws| ==> Disjoint(w, ws[i])
  }

  /** The bound-based Disjoint means exactly that no instant lies in both. */
  lemma DisjointIffNoCommonInstant(a: Window, b: Window)
    ensures Disjoint(a, b) <==> forall x :: !(Contains(a, x) && Contains(b, x))
  {
    if !Disjoint(a, b) {
      var x := if a.from < b.from then b.from else a.from;
      assert Contains(a, x) && Contains(b, x);
    }
  }

  /** A window inside one that is disjoint from `c` is disjoint from `c`. */
  lemma WithinKeepsDisjoint(inner: Window, outer: Window, c: Window)
    requires Within(inner, outer) && Disjoint(outer, c)
    ensures Disjoint(inner, c) && Disjoint(c, inner)
  {
  }

  /** The edges deleted by line 201 of the create prelude: an instance whose
      edge starts exactly at v and that reaches an embedded node. */
  predicate Replaced(w: Window, v: int) { w.from == v && w.hasEmbedded }

  function Survivors(ws: seq<Window>, v: int): (r: seq<Window>)
    ensures forall w :: w in r ==> w in ws && !Replaced(w, v)
    ensures forall w :: w in ws && !Replaced(w, v) ==> w in r
  {
    if ws == [] then []
    else (if Replaced(ws[0], v) then [] else [ws[0]]) + Survivors(ws[1..], v)
  }

  /** The index of the first window in force at v ("prevVersion"). */
  function PrevIndexFrom(ws: seq<Window>, v: int, i: nat): (r: Option<nat>)
    decreases |ws| - i
    ensures r.Some? ==> i <= r.value < |ws| && Contains(ws[r.value], v)
    ensures r.Some? ==> forall j :: i <= j < r.value ==> !Contains(ws[j], v)
    ensures r.None? ==> forall j :: i <= j < |ws| ==> !Contains(ws[j], v)
  {
    if i >= |ws| then None
    else if Contains(ws[i], v) then Some(i)
    else PrevIndexFrom(ws, v, i + 1)
  }

  function PrevIndex(ws: seq<Window>, v: int): Option<nat> { PrevIndexFrom(ws, v, 0) }

  /** min(from) over the windows starting after v ("nextVersionFrom"). */
  function NextFrom(ws: seq<Window>, v: int): (r: Option<int>)
    ensures r.Some? ==> r.value > v && exists w :: w in ws && w.from == r.value
    ensures r.Some? ==> forall w :: w in ws && w.from > v ==> r.value <= w.from
    ensures r.None? ==> forall w :: w in ws ==> w.from <= v
  {
    if ws == [] then None
    else
      var rest := NextFrom(ws[1..], v);
      assert forall w :: w in ws ==> w == ws[0] || w in ws[1..];
      if ws[0].from <= v then rest
      else match rest
        case None => Some(ws[0].from)
        case Some(m) => Some(if ws[0].from < m then ws[0].from else m)
  }

  /** The window the new version edge gets when the window containing v (if
      any) is `prev`: coalesce(prevVersion.to, nextVersionFrom). */
  function NewTo(s: seq<Window>, v: int): Option<int> {
    match PrevIndex(s, v)
    case Some(p) => if s[p].to.Some? then s[p].to else NextFrom(s, v)
    case None => NextFrom(s, v)
  }

  /** One create at instant v whose new instance reaches embedded nodes iff
      `newHasEmbedded`: delete the same-instant instance, then add the edge
      [v, coalesce(prev.to, nextFrom)) and set prev.to := v. */
  function Step(ws: seq<Window>, v: int, newHasEmbedded: bool): seq<Window> {
    var s := Survivors(ws, v);
    var closed := match PrevIndex(s, v)
      case Some(p) => s[p := s[p].(to := Some(v))]
      case None => s;
    closed + [Window(v, NewTo(s, v), newHasEmbedded)]
  }

  lemma NonOverlappingCons(h: Window, t: seq<Window>)
    ensures NonOverlapping([h] + t) <==> NonOverlapping(t) && DisjointFromAll(h, t)
  {
    var ht := [h] + t;
    if NonOverlapping(t) && DisjointFromAll(h, t) {
      forall i, j | 0 <= i < |ht| && 0 <= j < |ht| && i != j
        ensures Disjoint(ht[i], ht[j])
      {
        if i == 0 { assert ht[j] == t[j - 1]; }
        else if j == 0 { assert ht[i] == t[i - 1]; }
        else { assert ht[i] == t[i - 1] && ht[j] == t[j - 1]; }
      }
    }
    if NonOverlapping(ht) {
      forall i, j | 0 <= i < |t| && 0 <= j < |t| && i != j
        ensures Disjoint(t[i], t[j])
      {
        assert t[i] == ht[i + 1] && t[j] == ht[j + 1];
      }
      forall i | 0 <= i < |t| ensures Disjoint(h, t[i]) {
        assert ht[0] == h && ht[i + 1] == t[i];
      }
    }
  }

  lemma NonOverlappingSnoc(t: seq<Window>, w: Window)
    requires NonOverlapping(t) && DisjointFromAll(w, t)
    ensures NonOverlapping(t + [w])
  {
    var tw := t + [w];
    forall i, j | 0 <= i < |tw| && 0 <= j < |tw| && i != j
      ensures Disjoint(tw[i], tw[j])
    {
      if i == |t| { assert tw[j] == t[j]; }
      else if j == |t| { assert tw[i] == t[i]; }
      else { assert tw[i] == t[i] && tw[j] == t[j]; }
    }
  }

  /** The delete of line 201 keeps the remaining windows pairwise disjoint. */
  lemma {:induction false} SurvivorsNonOverlapping(ws: seq<Window>, v: int)
    requires NonOverlapping(ws)
    ensures NonOverlapping(Survivors(ws, v))
  {
    if ws != [] {
      var t := ws[1..];
      assert ws == [ws[0]] + t;
      NonOverlappingCons(ws[0], t);
      SurvivorsNonOverlapping(t, v);
      var rest := Survivors(t, v);
      if !Replaced(ws[0], v) {
        forall i | 0 <= i < |rest| ensures Disjoint(ws[0], rest[i]) {
          assert rest[i] in t;
          var j :| 0 <= j < |t| && t[j] == rest[i];
        }
        NonOverlappingCons(ws[0], rest);
      }
    }
  }

  /** Shrinking one window keeps a disjoint family disjoint. */
  lemma ShrinkKeepsNonOverlapping(s: seq<Window>, p: nat, w: Window)
    requires NonOverlapping(s) && p < |s| && Within(w, s[p])
    ensures NonOverlapping(s[p := w])
  {
    var s' := s[p := w];
    forall i, j | 0 <= i < |s'| && 0 <= j < |s'| && i != j
      ensures Disjoint(s'[i], s'[j])
    {
      if i == p { WithinKeepsDisjoint(w, s[p], s[j]); }
      else if j == p { WithinKeepsDisjoint(w, s[p], s[i]); }
    }
  }

  /** The window NewTo gives starts at the instant v and contains it. */
  lemma NewWindowContains(s: seq<Window>, v: int, e: bool)
    ensures Contains(Window(v, NewTo(s, v), e), v)
  {
  }

  /** The create rule keeps the windows of a resource
      pairwise non-overlapping, so at most one version is in force at any
      instant. */
  lemma StepKeepsNonOverlapping(ws: seq<Window>, v: int, e: bool)
    requires NonOverlapping(ws)
    ensures NonOverlapping(Step(ws, v, e))
  {
    var s := Survivors(ws, v);
    SurvivorsNonOverlapping(ws, v);
    var n := Window(v, NewTo(s, v), e);
    match PrevIndex(s, v)
    case Some(p) =>
      var closed := s[p := s[p].(to := Some(v))];
      ShrinkKeepsNonOverlapping(s, p, s[p].(to := Some(v)));
      assert Within(n, s[p]);
      forall i | 0 <= i < |closed| ensures Disjoint(n, closed[i]) {
        if i != p { WithinKeepsDisjoint(n, s[p], s[i]); }
      }
      NonOverlappingSnoc(closed, n);
    case None =>
      forall i | 0 <= i < |s| ensures Disjoint(n, s[i]) {
        assert s[i] in s;
        assert !Contains(s[i], v);
      }
      NonOverlappingSnoc(s, n);
  }

  /** After a create at v, the new edge is the only one in force at v. */
  lemma StepNewVersionInForce(ws: seq<Window>, v: int, e: bool)
    requires NonOverlapping(ws)
    ensures var r := Step(ws, v, e);
      |r| > 0 && Contains(r[|r| - 1], v) && forall i :: 0 <= i < |r| - 1 ==> !Contains(r[i], v)
  {
    var r := Step(ws, v, e);
    StepKeepsNonOverlapping(ws, v, e);
    NewWindowContains(Survivors(ws, v), v, e);
    forall i | 0 <= i < |r| - 1 ensures !Contains(r[i], v) {
      DisjointIffNoCommonInstant(r[i], r[|r| - 1]);
    }
  }

  /** A create never rewrites the past: an instant before v keeps the
      version that was in force at it (among the edges not deleted). */
  lemma StepKeepsEarlierInstants(ws: seq<Window>, v: int, e: bool, i: nat, x: int)
    requires i < |Survivors(ws, v)| && x < v && Contains(Survivors(ws, v)[i], x)
    ensures i < |Step(ws, v, e)| && Step(ws, v, e)[i].from == Survivors(ws, v)[i].from
    ensures Contains(Step(ws, v, e)[i], x)
  {
  }

  /** Writing a later version of a resource whose current version is open:
      the current version is closed at the new instant and the new version
      is open (the scenario T1 < T2 of a re-created Person). */
  lemma ScenarioLaterVersion(t1: int, t2: int, e1: bool, e2: bool)
    requires t1 < t2
    ensures Step([Window(t1, None, e1)], t2, e2) == [Window(t1, Some(t2), e1), Window(t2, None, e2)]
  {
    var ws := [Window(t1, None, e1)];
    assert Survivors(ws, t2) == ws by { assert ws[1..] == []; }
    assert PrevIndex(ws, t2) == Some(0);
    assert NewTo(ws, t2) == None by { assert ws[1..] == []; }
  }

  /** Writing version N-1 at an instant before version N: N-1 is closed at
      N's from and N stays open. */
  lemma ScenarioEarlierVersion(tn: int, tm: int, en: bool, em: bool)
    requires tm < tn
    ensures Step([Window(tn, None, en)], tm, em) == [Window(tn, None, en), Window(tm, Some(tn), em)]
  {
    var ws := [Window(tn, None, en)];
    assert Survivors(ws, tm) == ws by { assert ws[1..] == []; }
    assert PrevIndexFrom(ws, tm, 1) == None;
    assert PrevIndex(ws, tm) == None;
    assert NextFrom(ws, tm) == Some(tn) by { assert ws[1..] == []; }
  }
}
