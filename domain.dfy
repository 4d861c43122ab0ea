/** The two uses of the `@domain` directive in schemaOf: it is stripped from
    the object types before the schema is built, and only the query fields
    whose type carries it in the original registry stay on the Query type. */
module DomainSchema {
  import opened Wrappers
  import opened Schema
  import SchemaTransformer
  import Rewriter

  const DomainDirective := "domain"

  // ---------------------------------------------------------------------
  // Stripping @domain

  /** directives.removeIf(d -> d.getName().equals(name)): the list without
      those directives, order kept. */
  function WithoutDirective(ds: seq<Directive>, name: string): seq<Directive>
    decreases |ds|
  {
    if ds == [] then []
    else WithoutDirective(ds[..|ds| - 1], name) + (if ds[|ds| - 1].name == name then [] else [ds[|ds| - 1]])
  }

  /** removeIf keeps exactly the other directives. */
  lemma {:induction false} WithoutDirectiveKeeps(ds: seq<Directive>, name: string)
    ensures forall d :: d in WithoutDirective(ds, name) <==> d in ds && d.name != name
    decreases |ds|
  {
    if ds != [] {
      var init, last := ds[..|ds| - 1], ds[|ds| - 1];
      WithoutDirectiveKeeps(init, name);
      assert ds == init + [last];
    }
  }

  /** removeIf on one directive: it goes exactly when it has that name. */
  lemma WithoutDirectiveSingle(d: Directive, name: string)
    ensures WithoutDirective([d], name) == if d.name == name then [] else [d]
  {
    assert [d][..0] == [];
  }

  /** removeIf works piece by piece: the kept directives of a + b are those of
      `a` followed by those of `b`.  With WithoutDirectiveSingle this fixes
      the result's order and repeats, not only its members. */
  lemma {:induction false} WithoutDirectiveAppend(a: seq<Directive>, b: seq<Directive>, name: string)
    ensures WithoutDirective(a + b, name) == WithoutDirective(a, name) + WithoutDirective(b, name)
    decreases |b|
  {
    if b == [] {
      assert a + b == a;
    } else {
      var init, last := b[..|b| - 1], b[|b| - 1];
      WithoutDirectiveAppend(a, init, name);
      assert (a + b)[..|a + b| - 1] == a + init;
      assert (a + b)[|a + b| - 1] == last;
    }
  }

  /** removeIf removes something exactly when a directive of that name was
      there, and none is left. */
  lemma WithoutDirectiveRemoves(ds: seq<Directive>, name: string)
    ensures !HasDirective(WithoutDirective(ds, name), name)
    ensures WithoutDirective(ds, name) == ds <==> !HasDirective(ds, name)
  {
    WithoutDirectiveNoneLeft(ds, name);
    WithoutDirectiveUnchanged(ds, name);
  }

  lemma {:induction false} WithoutDirectiveNoneLeft(ds: seq<Directive>, name: string)
    ensures !HasDirective(WithoutDirective(ds, name), name)
    decreases |ds|
  {
    if ds != [] {
      var init := ds[..|ds| - 1];
      WithoutDirectiveNoneLeft(init, name);
      var rest, r := WithoutDirective(init, name), WithoutDirective(ds, name);
      forall i | 0 <= i < |r| ensures r[i].name != name {
        if i < |rest| { assert r[i] == rest[i]; }
      }
    }
  }

  lemma {:induction false} WithoutDirectiveUnchanged(ds: seq<Directive>, name: string)
    ensures WithoutDirective(ds, name) == ds <==> !HasDirective(ds, name)
    decreases |ds|
  {
    if ds != [] {
      var init, last := ds[..|ds| - 1], ds[|ds| - 1];
      WithoutDirectiveUnchanged(init, name);
      var rest, r := WithoutDirective(init, name), WithoutDirective(ds, name);
      assert HasDirective(ds, name) <==> HasDirective(init, name) || last.name == name by {
        assert forall i :: 0 <= i < |init| ==> ds[i] == init[i];
      }
      if last.name == name {
        WithoutDirectiveShorter(init, name);
        assert |r| < |ds|;
      } else {
        assert ds == init + [last];
        assert r == ds <==> rest == init;
      }
    }
  }

  lemma {:induction false} WithoutDirectiveShorter(ds: seq<Directive>, name: string)
    ensures |WithoutDirective(ds, name)| <= |ds|
    decreases |ds|
  {
    if ds != [] { WithoutDirectiveShorter(ds[..|ds| - 1], name); }
  }

  /** An object type that carries @domain. */
  predicate HasDomain(t: TypeDef) {
    t.ObjectType? && HasDirective(t.directives, DomainDirective)
  }

  /** The definition in withoutDomainDirectives. */
  function StripOutcome(t: TypeDef): TypeDef {
    if HasDomain(t) then ObjectType(WithoutDirective(t.directives, DomainDirective), t.fields) else t
  }

  /** withoutDomainDirectives after the first k names of the source. */
  function StripPrefix(source: Registry, k: nat): Registry
    requires source.Valid() && k <= |source.names|
  {
    if k == 0 then source
    else
      var reg := StripPrefix(source, k - 1);
      var n := source.names[k - 1];
      if HasDomain(source.defs[n]) then Replace(reg, n, StripOutcome(source.defs[n])) else reg
  }

  /** The loop at the start of schemaOf: a copy of the registry in which each
      object type with @domain is replaced (remove, then add) by the same
      type without it. */
  method StripDomainDirectives(source: Registry) returns (r: Registry)
    requires source.Valid()
    ensures r == StripPrefix(source, |source.names|)
  {
    r := source;
    var i := 0;
    while i < |source.names|
      invariant i <= |source.names| && r == StripPrefix(source, i)
    {
      var name := source.names[i];
      var t := source.defs[name];
      if t.ObjectType? {
        var kept := WithoutDirective(t.directives, DomainDirective);
        WithoutDirectiveRemoves(t.directives, DomainDirective);
        if kept != t.directives {
          r := Replace(r, name, ObjectType(kept, t.fields));
        }
      }
      i := i + 1;
    }
  }

  /** The names whose types are stripped. */
  ghost function DomainNames(source: Registry): set<string> {
    set n | n in source.defs && HasDomain(source.defs[n])
  }

  lemma {:induction false} StripPrefixDefs(source: Registry, k: nat)
    requires source.Valid() && k <= |source.names|
    ensures var r := StripPrefix(source, k);
      (forall n :: n in r.defs <==> n in source.defs) &&
      (forall j :: 0 <= j < k ==> r.defs[source.names[j]] == StripOutcome(source.defs[source.names[j]])) &&
      (forall j :: k <= j < |source.names| ==> r.defs[source.names[j]] == source.defs[source.names[j]])
  {
    if k > 0 {
      StripPrefixDefs(source, k - 1);
      var names := source.names;
      StripPrefixStepDefs(source, k);
      var r, reg := StripPrefix(source, k), StripPrefix(source, k - 1);
      forall j | 0 <= j < k - 1 ensures r.defs[names[j]] == StripOutcome(source.defs[names[j]]) {
        assert names[j] != names[k - 1];
      }
      forall j | k <= j < |names| ensures r.defs[names[j]] == source.defs[names[j]] {
        assert names[j] != names[k - 1];
      }
    }
  }

  /** One name of the loop: only its own definition can change. */
  lemma StripPrefixStepDefs(source: Registry, k: nat)
    requires source.Valid() && 0 < k <= |source.names|
    requires var n := source.names[k - 1];
      (n in StripPrefix(source, k - 1).defs && StripPrefix(source, k - 1).defs[n] == source.defs[n])
    ensures var n, r, reg := source.names[k - 1], StripPrefix(source, k), StripPrefix(source, k - 1);
      (forall m :: m in r.defs <==> m in reg.defs) && r.defs[n] == StripOutcome(source.defs[n]) &&
      forall m :: m in reg.defs && m != n ==> r.defs[m] == reg.defs[m]
  {
  }

  lemma {:induction false} StripPrefixValid(source: Registry, k: nat)
    requires source.Valid() && k <= |source.names|
    ensures StripPrefix(source, k).Valid()
  {
    if k > 0 {
      StripPrefixValid(source, k - 1);
      StripPrefixDefs(source, k - 1);
      var n := source.names[k - 1];
      if HasDomain(source.defs[n]) {
        ReplaceKeepsValid(StripPrefix(source, k - 1), n, StripOutcome(source.defs[n]));
      }
    }
  }

  lemma {:induction false} StripPrefixOrder(source: Registry, k: nat)
    requires source.Valid() && k <= |source.names|
    ensures StripPrefix(source, k).names == SchemaTransformer.OrderAfter(source.names, DomainNames(source), k)
  {
    if k > 0 {
      StripPrefixOrder(source, k - 1);
      var n := source.names[k - 1];
      assert n in DomainNames(source) <==> HasDomain(source.defs[n]);
    }
  }

  /** withoutDomainDirectives: every type holds its stripped definition, no
      object type carries @domain any more, the fields are untouched, and
      the stripped types have moved behind the others in source order. */
  lemma StripDomainSpec(source: Registry)
    requires source.Valid()
    ensures var r := StripPrefix(source, |source.names|);
      r.Valid() && (forall n :: n in r.defs <==> n in source.defs) &&
      (forall n :: n in source.defs ==> r.defs[n] == StripOutcome(source.defs[n])) &&
      r.names == SchemaTransformer.Without(source.names, DomainNames(source)) +
        SchemaTransformer.Among(source.names, DomainNames(source))
  {
    StripPrefixValid(source, |source.names|);
    StripDefs(source);
    StripNames(source);
  }

  lemma StripDefs(source: Registry)
    requires source.Valid()
    ensures var r := StripPrefix(source, |source.names|);
      (forall n :: n in r.defs <==> n in source.defs) &&
      (forall n :: n in source.defs ==> r.defs[n] == StripOutcome(source.defs[n]))
  {
    var names := source.names;
    StripPrefixDefs(source, |names|);
    forall n | n in source.defs ensures exists j :: 0 <= j < |names| && names[j] == n {
      assert n in names;
    }
  }

  lemma StripPrefixNames(source: Registry, k: nat)
    requires source.Valid() && k <= |source.names|
    ensures var R := DomainNames(source);
      StripPrefix(source, k).names ==
        SchemaTransformer.Without(source.names[..k], R) + source.names[k..] + SchemaTransformer.Among(source.names[..k], R)
  {
    StripPrefixOrder(source, k);
    SchemaTransformer.OrderAfterSplit(source.names, DomainNames(source), k);
  }

  lemma StripNames(source: Registry)
    requires source.Valid()
    ensures StripPrefix(source, |source.names|).names ==
      SchemaTransformer.Without(source.names, DomainNames(source)) + SchemaTransformer.Among(source.names, DomainNames(source))
  {
    var names := source.names;
    StripPrefixNames(source, |names|);
    assert names[..|names|] == names;
    assert SchemaTransformer.Without(names, DomainNames(source)) + names[|names|..] ==
      SchemaTransformer.Without(names, DomainNames(source));
  }

  /** A stripped definition has no @domain and keeps its kind and fields,
      and its directives are the others in their order, with their repeats
      (stripped piece by piece); a definition without @domain is left as it
      is. */
  lemma StripOutcomeSpec(t: TypeDef)
    ensures !HasDomain(StripOutcome(t)) && KindOf(StripOutcome(t)) == KindOf(t)
    ensures t.ObjectType? ==> (StripOutcome(t).fields == t.fields &&
      forall d :: d in StripOutcome(t).directives <==> d in t.directives && d.name != DomainDirective)
    ensures !HasDomain(t) ==> StripOutcome(t) == t
    ensures t.ObjectType? ==> forall a, b :: a + b == t.directives ==>
      StripOutcome(t).directives == WithoutDirective(a, DomainDirective) + WithoutDirective(b, DomainDirective)
  {
    if t.ObjectType? {
      WithoutDirectiveKeeps(t.directives, DomainDirective);
      WithoutDirectiveRemoves(t.directives, DomainDirective);
      forall a, b | a + b == t.directives
        ensures StripOutcome(t).directives == WithoutDirective(a, DomainDirective) + WithoutDirective(b, DomainDirective)
      {
        WithoutDirectiveAppend(a, b, DomainDirective);
      }
    }
  }

  // ---------------------------------------------------------------------
  // Filtering the Query type

  /** A field of the generated Query type: its name and output type. */
  datatype QueryField = QueryField(name: string, typ: Rewriter.OutputType)

  /** The exceptions of the filter loop. */
  datatype FilterError =
    | UnwrapFailed(cause: Rewriter.RewriteError)  // unwrapTypeName on a non-object leaf
    | MissingQueryType(typeName: string)          // getType(typeName).get() on an absent type

  /** Whether one query stays: Some(true) when the type it returns carries
      @domain in the original registry. */
  function KeepQuery(defs: map<string, TypeDef>, f: QueryField): Result<bool, FilterError> {
    match Rewriter.UnwrapTypeName(f.typ)
    case Err(e) => Err(UnwrapFailed(e))
    case Ok(typeName) =>
      if typeName !in defs then Err(MissingQueryType(typeName))
      else Ok(HasDomain(defs[typeName]))
  }

  /** The fields the rebuilt Query type gets, in the order the names are
      visited; the first exception ends the walk. */
  function FilterQueries(defs: map<string, TypeDef>, fields: seq<QueryField>): Result<seq<QueryField>, FilterError>
    decreases |fields|
  {
    if fields == [] then Ok([])
    else
      var kept :- FilterQueries(defs, fields[..|fields| - 1]);
      var last := fields[|fields| - 1];
      var keep :- KeepQuery(defs, last);
      Ok(if keep then kept + [last] else kept)
  }

  /** The transform of the Query type: clearFields, then one field(...)
      call per query whose type has @domain. */
  method FilterQueryFields(defs: map<string, TypeDef>, fields: seq<QueryField>) returns (r: Result<seq<QueryField>, FilterError>)
    ensures r == FilterQueries(defs, fields)
  {
    var kept: seq<QueryField> := [];
    var i := 0;
    while i < |fields|
      invariant i <= |fields| && FilterQueries(defs, fields[..i]) == Ok(kept)
    {
      assert fields[..i + 1][..i] == fields[..i];
      var keep := KeepQuery(defs, fields[i]);
      if keep.Err? {
        FilterErrPersists(defs, fields, i + 1);
        return Err(keep.error);
      }
      if keep.value {
        kept := kept + [fields[i]];
      }
      i := i + 1;
    }
    assert fields[..i] == fields;
    return Ok(kept);
  }

  lemma {:induction false} FilterErrPersists(defs: map<string, TypeDef>, fields: seq<QueryField>, i: nat)
    requires i <= |fields| && FilterQueries(defs, fields[..i]).Err?
    ensures FilterQueries(defs, fields) == FilterQueries(defs, fields[..i])
    decreases |fields| - i
  {
    if i < |fields| {
      assert fields[..i + 1][..i] == fields[..i];
      FilterErrPersists(defs, fields, i + 1);
    } else {
      assert fields[..i] == fields;
    }
  }

  /** The filter fails exactly when some query does not unwrap to a type of
      the registry. */
  lemma {:induction false} FilterQueriesFails(defs: map<string, TypeDef>, fields: seq<QueryField>)
    ensures FilterQueries(defs, fields).Ok? <==> forall i :: 0 <= i < |fields| ==> KeepQuery(defs, fields[i]).Ok?
    decreases |fields|
  {
    if fields != [] {
      var init := fields[..|fields| - 1];
      FilterQueriesFails(defs, init);
      assert forall i :: 0 <= i < |init| ==> init[i] == fields[i];
    }
  }

  /** On success the kept queries are exactly those whose type has @domain,
      in the order visited. */
  lemma {:induction false} FilterQueriesKeeps(defs: map<string, TypeDef>, fields: seq<QueryField>)
    requires FilterQueries(defs, fields).Ok?
    ensures var kept := FilterQueries(defs, fields).value;
      forall f :: f in kept <==> f in fields && KeepQuery(defs, f) == Ok(true)
    decreases |fields|
  {
    if fields != [] {
      var init := fields[..|fields| - 1];
      var last := fields[|fields| - 1];
      FilterQueriesKeeps(defs, init);
      var kept0 := FilterQueries(defs, init).value;
      var kept := FilterQueries(defs, fields).value;
      assert fields == init + [last];
      forall f ensures f in kept <==> f in fields && KeepQuery(defs, f) == Ok(true) {
        assert f in fields <==> f in init || f == last;
        assert f in kept <==> f in kept0 || (f == last && KeepQuery(defs, last) == Ok(true));
      }
    }
  }

  /** A query returning an object type with @domain, under any wrappers,
      stays; one whose type lacks it goes. */
  lemma KeepQueryWrapped(defs: map<string, TypeDef>, name: string, typeName: string, ws: seq<Rewriter.Wrapper>)
    requires typeName in defs
    ensures KeepQuery(defs, QueryField(name, Rewriter.Wrap(Rewriter.ObjectOutput(typeName), ws))) == Ok(HasDomain(defs[typeName]))
  {
    Rewriter.UnwrapWrapped(typeName, ws);
  }
}
