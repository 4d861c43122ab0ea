/** transformRegistry: a transformed copy of a type registry in which every
    `@link` field resolves its target through the version indirection and
    every field whose type is an object or interface type names its relation. */
module SchemaTransformer {
  import opened Wrappers
  import opened Schema
  import VersionWindows

  /** The exceptions transformRegistry can raise. */
  datatype TransformError =
    | NestedListTarget(typeName: string, fieldName: string)  // a @link list whose element is not a TypeName
    | MissingType(name: string)                              // getType(...).get() on an absent type
    | UnknownTypeKind(name: string)                          // a TypeDefinition class outside the known six

  /** The single argument a @link field is left with. */
  const VerArgument := InputValue("ver", Named("_Neo4jDateTimeInput"))

  /** The statement of the @cypher directive that replaces @link. */
  function LinkStatement(relation: string, target: string): string {
    "MATCH (this)-[:" + relation + "]->(:" + target + "_R:RESOURCE)" + "<-[v:VERSION_OF]" + "-(n:" + target
      + ":INSTANCE) WHERE " + VersionWindows.WindowFilter("v", "ver") + " RETURN n"
  }

  function CypherDirective(statement: string): Directive {
    Directive("cypher", [Argument("statement", StringValue(statement))])
  }

  function RelationDirective(name: string): Directive {
    Directive("relation", [Argument("name", StringValue(name))])
  }

  /** targetType of a @link field: the list element's name, the name itself,
      and "null" (String.format of a null reference) for a non-null type. */
  function LinkTarget(typeName: string, f: Field): Result<string, TransformError> {
    match f.typ
    case ListOf(elem) => if elem.Named? then Ok(elem.name) else Err(NestedListTarget(typeName, f.name))
    case Named(n) => Ok(n)
    case NonNull(_) => Ok("null")
  }

  /** Every `link` directive becomes the cypher directive; the others stay. */
  function ReplaceLinks(ds: seq<Directive>, statement: string): seq<Directive> {
    seq(|ds|, i requires 0 <= i < |ds| => if ds[i].name == "link" then CypherDirective(statement) else ds[i])
  }

  /** What happens to one field of object type `typeName`: Some(new field)
      when it is put into transformedFields, None when it is left alone.
      Type lookups consult only the kind of the definition found. */
  function TransformField(defs: map<string, TypeDef>, typeName: string, f: Field): Result<Option<Field>, TransformError> {
    if HasDirective(f.directives, "link") then
      var target :- LinkTarget(typeName, f);
      Ok(Some(f.(directives := ReplaceLinks(f.directives, LinkStatement(f.name, target)), arguments := [VerArgument])))
    else
      var n := UnwrapAll(f.typ);
      if n !in defs then Err(MissingType(n))
      else match KindOf(defs[n])
        case ObjectKind => Ok(Some(f.(directives := f.directives + [RelationDirective(f.name)])))
        case InterfaceKind => Ok(Some(f.(directives := f.directives + [RelationDirective(f.name)])))
        case ScalarKind => Ok(None)
        case EnumKind => Ok(None)
        case UnionKind => Ok(None)
        case InputObjectKind => Ok(None)
        case OtherKind => Err(UnknownTypeKind(n))
  }

  /** transformedFields after the fields, in order: put(name, new field) for
      each changed one; the first exception ends the walk. */
  function CollectChanges(defs: map<string, TypeDef>, typeName: string, fields: seq<Field>): Result<map<string, Field>, TransformError>
    decreases |fields|
  {
    if |fields| == 0 then Ok(map[])
    else
      var acc :- CollectChanges(defs, typeName, fields[..|fields| - 1]);
      var last := fields[|fields| - 1];
      var change :- TransformField(defs, typeName, last);
      Ok(if change.Some? then acc[last.name := change.value] else acc)
  }

  /** The rebuilt field list: each field replaced by its entry, if any. */
  function ApplyChanges(fields: seq<Field>, changes: map<string, Field>): seq<Field> {
    seq(|fields|, i requires 0 <= i < |fields| => if fields[i].name in changes then changes[fields[i].name] else fields[i])
  }

  /** Some(new definition) when the type is replaced in the registry. */
  function TransformType(defs: map<string, TypeDef>, name: string, t: TypeDef): Result<Option<TypeDef>, TransformError> {
    match t
    case ObjectType(ds, fields) =>
      var changes :- CollectChanges(defs, name, fields);
      Ok(if |changes| > 0 then Some(ObjectType(ds, ApplyChanges(fields, changes))) else None)
    case _ => Ok(None)
  }

  /** The registry after the first k names of the snapshot are processed. */
  function TransformPrefix(source: Registry, k: nat): Result<Registry, TransformError>
    requires source.Valid() && k <= |source.names|
  {
    if k == 0 then Ok(source)
    else
      var reg :- TransformPrefix(source, k - 1);
      var n := source.names[k - 1];
      var replaced :- TransformType(source.defs, n, source.defs[n]);
      Ok(if replaced.Some? then Replace(reg, n, replaced.value) else reg)
  }

  /** The two maps define the same names with the same kinds. */
  ghost predicate SameKinds(a: map<string, TypeDef>, b: map<string, TypeDef>) {
    (forall n :: n in a <==> n in b) && forall n :: n in a ==> KindOf(a[n]) == KindOf(b[n])
  }

  lemma {:induction false} SameKindsSameChanges(a: map<string, TypeDef>, b: map<string, TypeDef>, typeName: string, fields: seq<Field>)
    requires SameKinds(a, b)
    ensures CollectChanges(a, typeName, fields) == CollectChanges(b, typeName, fields)
    decreases |fields|
  {
    if |fields| > 0 {
      SameKindsSameChanges(a, b, typeName, fields[..|fields| - 1]);
      var f := fields[|fields| - 1];
      assert TransformField(a, typeName, f) == TransformField(b, typeName, f);
    }
  }

  /** An exception on field i stops the walk: the whole list fails with it. */
  lemma {:induction false} CollectChangesErrPersists(defs: map<string, TypeDef>, typeName: string, fields: seq<Field>, i: nat)
    requires i <= |fields| && CollectChanges(defs, typeName, fields[..i]).Err?
    ensures CollectChanges(defs, typeName, fields) == CollectChanges(defs, typeName, fields[..i])
    decreases |fields| - i
  {
    if i < |fields| {
      assert fields[..i + 1][..i] == fields[..i];
      CollectChangesErrPersists(defs, typeName, fields, i + 1);
    } else {
      assert fields[..i] == fields;
    }
  }

  lemma {:induction false} TransformPrefixErrPersists(source: Registry, i: nat, k: nat)
    requires source.Valid() && i <= k <= |source.names| && TransformPrefix(source, i).Err?
    ensures TransformPrefix(source, k) == TransformPrefix(source, i)
    decreases k - i
  {
    if i < k {
      TransformPrefixErrPersists(source, i, k - 1);
    }
  }

  /** The inner forEach: fill transformedFields field by field. */
  method CollectFieldChanges(defs: map<string, TypeDef>, typeName: string, fields: seq<Field>)
    returns (r: Result<map<string, Field>, TransformError>)
    ensures r == CollectChanges(defs, typeName, fields)
  {
    var transformed: map<string, Field> := map[];
    var i := 0;
    while i < |fields|
      invariant 0 <= i <= |fields|
      invariant CollectChanges(defs, typeName, fields[..i]) == Ok(transformed)
    {
      assert fields[..i + 1][..i] == fields[..i];
      var change := TransformField(defs, typeName, fields[i]);
      if change.Err? {
        CollectChangesErrPersists(defs, typeName, fields, i + 1);
        return Err(change.error);
      }
      if change.value.Some? {
        transformed := transformed[fields[i].name := change.value.value];
      }
      i := i + 1;
    }
    assert fields[..i] == fields;
    return Ok(transformed);
  }

  lemma SameKindsSameType(a: map<string, TypeDef>, b: map<string, TypeDef>, name: string, t: TypeDef)
    requires SameKinds(a, b)
    ensures TransformType(a, name, t) == TransformType(b, name, t)
  {
    if t.ObjectType? { SameKindsSameChanges(a, b, name, t.fields); }
  }

  /** A replaced definition is again an object type, so kinds never change. */
  lemma ReplaceKeepsSameKinds(reg: Registry, source: Registry, n: string, t: TypeDef)
    requires SameKinds(reg.defs, source.defs) && n in reg.defs && KindOf(t) == KindOf(reg.defs[n])
    ensures SameKinds(Replace(reg, n, t).defs, source.defs)
  {
  }

  /** One type of the outer forEach: Some(rebuilt type) when transformedFields
      is non-empty. */
  method TransformObjectType(defs: map<string, TypeDef>, name: string, t: TypeDef)
    returns (r: Result<Option<TypeDef>, TransformError>)
    ensures r == TransformType(defs, name, t)
    ensures r.Ok? && r.value.Some? ==> r.value.value.ObjectType? && t.ObjectType?
  {
    if !t.ObjectType? {
      return Ok(None);
    }
    var changes := CollectFieldChanges(defs, name, t.fields);
    if changes.Err? {
      return Err(changes.error);
    }
    if |changes.value| > 0 {
      return Ok(Some(ObjectType(t.directives, ApplyChanges(t.fields, changes.value))));
    }
    return Ok(None);
  }

  /** The working copy keeps the source's names and kinds. */
  lemma {:induction false} TransformPrefixSameKinds(source: Registry, k: nat)
    requires source.Valid() && k <= |source.names| && TransformPrefix(source, k).Ok?
    ensures SameKinds(TransformPrefix(source, k).value.defs, source.defs)
  {
    if k > 0 {
      TransformPrefixSameKinds(source, k - 1);
      var n := source.names[k - 1];
      var step := TransformType(source.defs, n, source.defs[n]);
      if step.value.Some? {
        assert source.defs[n].ObjectType? && step.value.value.ObjectType?;
        ReplaceKeepsSameKinds(TransformPrefix(source, k - 1).value, source, n, step.value.value);
      }
    }
  }

  /** One pass of the outer forEach, against the working copy: a failure is
      the failure of the whole walk, a success extends the prefix. */
  lemma TransformRegistryStep(source: Registry, i: nat, registry: Registry)
    requires source.Valid() && i < |source.names| && TransformPrefix(source, i) == Ok(registry)
    ensures var n := source.names[i]; var t := TransformType(registry.defs, n, source.defs[n]);
      (t.Err? ==> TransformPrefix(source, |source.names|) == Err(t.error)) &&
      (t.Ok? ==> TransformPrefix(source, i + 1) == Ok(if t.value.Some? then Replace(registry, n, t.value.value) else registry))
  {
    var n := source.names[i];
    TransformPrefixSameKinds(source, i);
    SameKindsSameType(registry.defs, source.defs, n, source.defs[n]);
    if TransformType(registry.defs, n, source.defs[n]).Err? {
      TransformPrefixErrPersists(source, i + 1, |source.names|);
    }
  }

  /** transformRegistry: work on a copy, walk the snapshot of its types, and
      replace (remove, then add) each object type with a changed field.
      Lookups go to the working copy, whose kinds never change. */
  method TransformRegistry(source: Registry) returns (r: Result<Registry, TransformError>)
    requires source.Valid()
    ensures r == TransformPrefix(source, |source.names|)
  {
    var registry := source;
    var entries := source.names;
    var i := 0;
    while i < |entries|
      invariant i <= |entries| && TransformPrefix(source, i) == Ok(registry)
    {
      var name := entries[i];
      var replaced := TransformObjectType(registry.defs, name, source.defs[name]);
      TransformRegistryStep(source, i, registry);
      if replaced.Err? {
        return Err(replaced.error);
      }
      if replaced.value.Some? {
        registry := Replace(registry, name, replaced.value.value);
      }
      i := i + 1;
    }
    return Ok(registry);
  }

  // ---------------------------------------------------------------------
  // Properties of the transformation

  /** A @link field: each `link` directive becomes the cypher directive whose
      statement names the field as relation and `target` as target type, the
      other directives keep their place, the arguments become exactly `ver`;
      a list whose element is not a plain name is an error. */
  lemma LinkFieldRewritten(defs: map<string, TypeDef>, typeName: string, f: Field, target: string)
    requires HasDirective(f.directives, "link")
    requires f.typ == ListOf(Named(target)) || f.typ == Named(target) || (f.typ.NonNull? && target == "null")
    ensures var r := TransformField(defs, typeName, f);
      r.Ok? && r.value.Some? &&
      r.value.value.name == f.name && r.value.value.typ == f.typ &&
      r.value.value.arguments == [InputValue("ver", Named("_Neo4jDateTimeInput"))] &&
      |r.value.value.directives| == |f.directives| &&
      (forall i :: 0 <= i < |f.directives| && f.directives[i].name == "link" ==>
         r.value.value.directives[i] == Directive("cypher", [Argument("statement", StringValue(LinkStatement(f.name, target)))])) &&
      (forall i :: 0 <= i < |f.directives| && f.directives[i].name != "link" ==>
         r.value.value.directives[i] == f.directives[i]) &&
      !HasDirective(r.value.value.directives, "link") &&
      HasDirective(r.value.value.directives, "cypher")
  {
  }

  lemma LinkListOfWrappedFails(defs: map<string, TypeDef>, typeName: string, f: Field)
    requires HasDirective(f.directives, "link") && f.typ.ListOf? && !f.typ.elem.Named?
    ensures TransformField(defs, typeName, f) == Err(NestedListTarget(typeName, f.name))
  {
  }

  /** A field without @link: an object or interface type gains
      @relation(name: <field name>) after its directives; scalar, enum,
      union and input types leave it alone; an absent type or another kind
      is an error. */
  lemma NonLinkField(defs: map<string, TypeDef>, typeName: string, f: Field)
    requires !HasDirective(f.directives, "link")
    ensures var n := UnwrapAll(f.typ); var r := TransformField(defs, typeName, f);
      (n !in defs ==> r == Err(MissingType(n))) &&
      (n in defs && KindOf(defs[n]) in {ObjectKind, InterfaceKind} ==>
         r.Ok? && r.value.Some? &&
         r.value.value.name == f.name && r.value.value.typ == f.typ && r.value.value.arguments == f.arguments &&
         |r.value.value.directives| == |f.directives| + 1 &&
         r.value.value.directives[..|f.directives|] == f.directives &&
         r.value.value.directives[|f.directives|] == Directive("relation", [Argument("name", StringValue(f.name))])) &&
      (n in defs && KindOf(defs[n]) in {ScalarKind, EnumKind, UnionKind, InputObjectKind} ==> r == Ok(None)) &&
      (n in defs && KindOf(defs[n]) == OtherKind ==> r == Err(UnknownTypeKind(n)))
  {
  }

  /** Transforming twice is not idempotent: a relation field gains a second
      @relation directive on the second pass. */
  lemma SecondPassAddsAnotherRelation(defs: map<string, TypeDef>, typeName: string, f: Field)
    requires !HasDirective(f.directives, "link") && !HasDirective(f.directives, "relation")
    requires UnwrapAll(f.typ) in defs && KindOf(defs[UnwrapAll(f.typ)]) == ObjectKind
    ensures var once := TransformField(defs, typeName, f);
      once.Ok? && once.value.Some? &&
      var twice := TransformField(defs, typeName, once.value.value);
      twice.Ok? && twice.value.Some? &&
      twice.value.value.directives == f.directives + [RelationDirective(f.name), RelationDirective(f.name)]
  {
    var g := f.(directives := f.directives + [RelationDirective(f.name)]);
    assert !HasDirective(g.directives, "link") by {
      forall i | 0 <= i < |g.directives| ensures g.directives[i].name != "link" {
        if i < |f.directives| { assert g.directives[i] == f.directives[i]; }
      }
    }
  }

  /** The field names of a type are distinct, as GraphQL requires. */
  predicate DistinctFieldNames(fs: seq<Field>) {
    forall i, j :: 0 <= i < j < |fs| ==> fs[i].name != fs[j].name
  }

  /** The field as the rebuilt type holds it. */
  function FieldOutcome(defs: map<string, TypeDef>, typeName: string, f: Field): Field
    requires TransformField(defs, typeName, f).Ok?
  {
    match TransformField(defs, typeName, f).value
    case Some(g) => g
    case None => f
  }

  /** The walk over the fields fails exactly when some field fails, and then
      with the first failure. */
  lemma CollectChangesFails(defs: map<string, TypeDef>, typeName: string, fs: seq<Field>)
    ensures CollectChanges(defs, typeName, fs).Ok? <==> forall i :: 0 <= i < |fs| ==> TransformField(defs, typeName, fs[i]).Ok?
    ensures CollectChanges(defs, typeName, fs).Err? ==>
      exists i :: 0 <= i < |fs| && TransformField(defs, typeName, fs[i]).Err? &&
        TransformField(defs, typeName, fs[i]).error == CollectChanges(defs, typeName, fs).error &&
        forall j :: 0 <= j < i ==> TransformField(defs, typeName, fs[j]).Ok?
  {
    CollectChangesOk(defs, typeName, fs);
    CollectChangesFirstErr(defs, typeName, fs);
  }

  lemma {:induction false} CollectChangesOk(defs: map<string, TypeDef>, typeName: string, fs: seq<Field>)
    ensures CollectChanges(defs, typeName, fs).Ok? <==> forall i :: 0 <= i < |fs| ==> TransformField(defs, typeName, fs[i]).Ok?
    decreases |fs|
  {
    if |fs| > 0 {
      var init := fs[..|fs| - 1];
      CollectChangesOk(defs, typeName, init);
      assert forall i :: 0 <= i < |init| ==> init[i] == fs[i];
    }
  }

  lemma {:induction false} CollectChangesFirstErr(defs: map<string, TypeDef>, typeName: string, fs: seq<Field>)
    ensures CollectChanges(defs, typeName, fs).Err? ==>
      exists i :: 0 <= i < |fs| && TransformField(defs, typeName, fs[i]).Err? &&
        TransformField(defs, typeName, fs[i]).error == CollectChanges(defs, typeName, fs).error &&
        forall j :: 0 <= j < i ==> TransformField(defs, typeName, fs[j]).Ok?
    decreases |fs|
  {
    if |fs| > 0 {
      var init := fs[..|fs| - 1];
      CollectChangesFirstErr(defs, typeName, init);
      CollectChangesOk(defs, typeName, init);
      assert forall i :: 0 <= i < |init| ==> init[i] == fs[i];
    }
  }

  /** A successful walk records exactly the changed fields, under their
      names, each key mapped to a change made under that name. */
  lemma CollectChangesKeys(defs: map<string, TypeDef>, typeName: string, fs: seq<Field>)
    requires CollectChanges(defs, typeName, fs).Ok?
    ensures var m := CollectChanges(defs, typeName, fs).value;
      (forall n :: n in m ==> exists i :: 0 <= i < |fs| && fs[i].name == n && TransformField(defs, typeName, fs[i]) == Ok(Some(m[n]))) &&
      (forall i :: 0 <= i < |fs| && TransformField(defs, typeName, fs[i]).Ok? && TransformField(defs, typeName, fs[i]).value.Some? ==> fs[i].name in m)
  {
    CollectChangesKeysMade(defs, typeName, fs);
    CollectChangesKeysCover(defs, typeName, fs);
  }

  /** Every key of the walk's map is a change made under that name. */
  lemma {:induction false} CollectChangesKeysMade(defs: map<string, TypeDef>, typeName: string, fs: seq<Field>)
    requires CollectChanges(defs, typeName, fs).Ok?
    ensures var m := CollectChanges(defs, typeName, fs).value;
      forall n :: n in m ==> exists i :: 0 <= i < |fs| && fs[i].name == n && TransformField(defs, typeName, fs[i]) == Ok(Some(m[n]))
    decreases |fs|
  {
    if |fs| > 0 {
      var init := fs[..|fs| - 1];
      CollectChangesKeysMade(defs, typeName, init);
      assert forall i :: 0 <= i < |init| ==> init[i] == fs[i];
    }
  }

  /** Every changed field has a key in the walk's map. */
  lemma {:induction false} CollectChangesKeysCover(defs: map<string, TypeDef>, typeName: string, fs: seq<Field>)
    requires CollectChanges(defs, typeName, fs).Ok?
    ensures var m := CollectChanges(defs, typeName, fs).value;
      forall i :: 0 <= i < |fs| && TransformField(defs, typeName, fs[i]).Ok? && TransformField(defs, typeName, fs[i]).value.Some? ==> fs[i].name in m
    decreases |fs|
  {
    if |fs| > 0 {
      var init := fs[..|fs| - 1];
      CollectChangesKeysCover(defs, typeName, init);
      var m := CollectChanges(defs, typeName, fs).value;
      assert CollectChanges(defs, typeName, init).value.Keys <= m.Keys;
      forall i | 0 <= i < |fs| - 1 && TransformField(defs, typeName, fs[i]).Ok? && TransformField(defs, typeName, fs[i]).value.Some?
        ensures fs[i].name in m
      {
        assert init[i] == fs[i];
      }
    }
  }

  /** With distinct field names, each field's entry is its own change. */
  lemma {:induction false} CollectChangesDistinct(defs: map<string, TypeDef>, typeName: string, fs: seq<Field>)
    requires CollectChanges(defs, typeName, fs).Ok? && DistinctFieldNames(fs)
    ensures var m := CollectChanges(defs, typeName, fs).value;
      forall i :: 0 <= i < |fs| ==>
        (fs[i].name in m <==> TransformField(defs, typeName, fs[i]) != Ok(None)) &&
        (fs[i].name in m ==> TransformField(defs, typeName, fs[i]) == Ok(Some(m[fs[i].name])))
    decreases |fs|
  {
    if |fs| > 0 {
      var init := fs[..|fs| - 1];
      var last := fs[|fs| - 1];
      assert DistinctFieldNames(init);
      CollectChangesDistinct(defs, typeName, init);
      var m := CollectChanges(defs, typeName, fs).value;
      forall i | 0 <= i < |fs|
        ensures (fs[i].name in m <==> TransformField(defs, typeName, fs[i]) != Ok(None)) &&
          (fs[i].name in m ==> TransformField(defs, typeName, fs[i]) == Ok(Some(m[fs[i].name])))
      {
        CollectChangesFails(defs, typeName, fs);
        CollectChangesKeys(defs, typeName, init);
        if i < |fs| - 1 {
          assert fs[i].name != last.name;
          assert fs[i] == init[i];
        }
      }
    }
  }

  /** One object type: it is replaced exactly when some field changes, and
      then its fields keep their order, each one its own outcome. */
  lemma TransformTypeSpec(defs: map<string, TypeDef>, name: string, ds: seq<Directive>, fs: seq<Field>)
    requires DistinctFieldNames(fs)
    ensures var r := TransformType(defs, name, ObjectType(ds, fs));
      (r.Ok? <==> forall i :: 0 <= i < |fs| ==> TransformField(defs, name, fs[i]).Ok?) &&
      (r.Ok? ==> (r.value.None? <==> forall i :: 0 <= i < |fs| ==> TransformField(defs, name, fs[i]).value.None?)) &&
      (r.Ok? && r.value.Some? ==>
         r.value.value.ObjectType? && r.value.value.directives == ds && |r.value.value.fields| == |fs| &&
         forall i :: 0 <= i < |fs| ==> r.value.value.fields[i] == FieldOutcome(defs, name, fs[i]))
  {
    CollectChangesFails(defs, name, fs);
    if forall i :: 0 <= i < |fs| ==> TransformField(defs, name, fs[i]).Ok? {
      TransformTypeUnchanged(defs, name, ds, fs);
      TransformTypeFields(defs, name, ds, fs);
    }
  }

  /** A type comes through unchanged exactly when none of its fields changes. */
  lemma TransformTypeUnchanged(defs: map<string, TypeDef>, name: string, ds: seq<Directive>, fs: seq<Field>)
    requires forall i :: 0 <= i < |fs| ==> TransformField(defs, name, fs[i]).Ok?
    ensures TransformType(defs, name, ObjectType(ds, fs)).Ok?
    ensures TransformType(defs, name, ObjectType(ds, fs)).value.None? <==>
      forall i :: 0 <= i < |fs| ==> TransformField(defs, name, fs[i]).value.None?
  {
    CollectChangesFails(defs, name, fs);
    CollectChangesKeys(defs, name, fs);
    var m := CollectChanges(defs, name, fs).value;
    if forall i :: 0 <= i < |fs| ==> TransformField(defs, name, fs[i]).value.None? {
      assert m.Keys == {};
    } else {
      var i :| 0 <= i < |fs| && TransformField(defs, name, fs[i]).value.Some?;
      assert fs[i].name in m.Keys;
    }
  }

  /** The fields of a rebuilt type are the fields' outcomes, in order. */
  lemma TransformTypeFields(defs: map<string, TypeDef>, name: string, ds: seq<Directive>, fs: seq<Field>)
    requires DistinctFieldNames(fs) && forall i :: 0 <= i < |fs| ==> TransformField(defs, name, fs[i]).Ok?
    ensures var r := TransformType(defs, name, ObjectType(ds, fs));
      r.Ok? && r.value.Some? ==>
        r.value.value.ObjectType? && r.value.value.directives == ds && |r.value.value.fields| == |fs| &&
        forall i :: 0 <= i < |fs| ==> r.value.value.fields[i] == FieldOutcome(defs, name, fs[i])
  {
    CollectChangesFails(defs, name, fs);
    CollectChangesDistinct(defs, name, fs);
  }

  /** The type is replaced by transformRegistry. */
  ghost predicate IsReplaced(source: Registry, n: string) {
    n in source.defs && TransformType(source.defs, n, source.defs[n]).Ok? && TransformType(source.defs, n, source.defs[n]).value.Some?
  }

  /** The definition transformRegistry leaves under a processed name. */
  ghost function Outcome(source: Registry, n: string): TypeDef
    requires n in source.defs
  {
    if IsReplaced(source, n) then TransformType(source.defs, n, source.defs[n]).value.value else source.defs[n]
  }

  /** The names transformRegistry replaces. */
  ghost function ReplacedNames(source: Registry): set<string> {
    set n | n in source.defs && IsReplaced(source, n)
  }

  /** The names of ns outside R, in order. */
  function Without(ns: seq<string>, R: set<string>): (r: seq<string>)
    ensures forall x :: x in r ==> x in ns && x !in R
    decreases |ns|
  {
    if ns == [] then []
    else Without(ns[..|ns| - 1], R) + (if ns[|ns| - 1] in R then [] else [ns[|ns| - 1]])
  }

  /** The names of ns inside R, in order. */
  function Among(ns: seq<string>, R: set<string>): (r: seq<string>)
    ensures forall x :: x in r ==> x in ns && x in R
    decreases |ns|
  {
    if ns == [] then []
    else Among(ns[..|ns| - 1], R) + (if ns[|ns| - 1] in R then [ns[|ns| - 1]] else [])
  }

  /** transformRegistry over the first k names fails exactly when one of
      those types fails, and then with the first failure. */
  lemma {:induction false} TransformPrefixFails(source: Registry, k: nat)
    requires source.Valid() && k <= |source.names|
    ensures TransformPrefix(source, k).Ok? <==>
      forall j :: 0 <= j < k ==> TransformType(source.defs, source.names[j], source.defs[source.names[j]]).Ok?
    ensures TransformPrefix(source, k).Err? ==>
      exists j :: 0 <= j < k && TransformType(source.defs, source.names[j], source.defs[source.names[j]]).Err? &&
        TransformType(source.defs, source.names[j], source.defs[source.names[j]]).error == TransformPrefix(source, k).error &&
        forall i :: 0 <= i < j ==> TransformType(source.defs, source.names[i], source.defs[source.names[i]]).Ok?
  {
    if k > 0 { TransformPrefixFails(source, k - 1); }
  }

  /** After the first k names: the same names, every processed name holding
      its outcome and every other name its source definition. */
  lemma {:induction false} TransformPrefixDefs(source: Registry, k: nat)
    requires source.Valid() && k <= |source.names| && TransformPrefix(source, k).Ok?
    ensures var r := TransformPrefix(source, k).value;
      (forall n :: n in r.defs <==> n in source.defs) &&
      (forall j :: 0 <= j < k ==> r.defs[source.names[j]] == Outcome(source, source.names[j])) &&
      (forall j :: k <= j < |source.names| ==> r.defs[source.names[j]] == source.defs[source.names[j]])
  {
    if k > 0 {
      TransformPrefixDefs(source, k - 1);
      TransformPrefixStepDefs(source, k);
      var names := source.names;
      var n := names[k - 1];
      var reg := TransformPrefix(source, k - 1).value;
      var r := TransformPrefix(source, k).value;
      assert r.defs[n] == Outcome(source, n) by {
        if !IsReplaced(source, n) { assert reg.defs[names[k - 1]] == source.defs[n]; }
      }
      forall j | 0 <= j < k - 1 ensures r.defs[names[j]] == Outcome(source, names[j]) {
        assert names[j] != n;
        assert r.defs[names[j]] == reg.defs[names[j]];
      }
      forall j | k <= j < |names| ensures r.defs[names[j]] == source.defs[names[j]] {
        assert names[j] != n;
        assert r.defs[names[j]] == reg.defs[names[j]];
      }
    }
  }

  /** One step of the walk as a change of the definitions: a replaced name
      gets its outcome, any other name keeps its entry. */
  lemma TransformPrefixStepDefs(source: Registry, k: nat)
    requires source.Valid() && 0 < k <= |source.names| && TransformPrefix(source, k).Ok?
    ensures TransformPrefix(source, k - 1).Ok?
    ensures var prev := TransformPrefix(source, k - 1).value.defs; var n := source.names[k - 1];
      TransformPrefix(source, k).value.defs == if IsReplaced(source, n) then prev[n := Outcome(source, n)] else prev
  {
  }

  /** The working registry keeps its order without repeats, naming exactly
      the defined types. */
  lemma {:induction false} TransformPrefixValid(source: Registry, k: nat)
    requires source.Valid() && k <= |source.names| && TransformPrefix(source, k).Ok?
    ensures TransformPrefix(source, k).value.Valid()
  {
    if k > 0 {
      TransformPrefixValid(source, k - 1);
      TransformPrefixDefs(source, k - 1);
      var n := source.names[k - 1];
      var step := TransformType(source.defs, n, source.defs[n]);
      if step.value.Some? {
        ReplaceKeepsValid(TransformPrefix(source, k - 1).value, n, step.value.value);
      }
    }
  }

  /** One step of the name order: a replaced name moves from its place to
      the end, an unchanged one stays. */
  lemma NamesStep(kept: seq<string>, n: string, rest: seq<string>, moved: seq<string>, replaced: bool)
    requires n !in kept && n !in rest && n !in moved
    ensures (if replaced then RemoveName(kept + [n] + rest + moved, n) + [n] else kept + [n] + rest + moved) ==
      (kept + (if replaced then [] else [n])) + rest + (moved + (if replaced then [n] else []))
  {
    if replaced {
      assert kept + [n] + rest + moved == kept + [n] + (rest + moved);
      RemoveOnce(kept, n, rest + moved);
      assert kept + (rest + moved) + [n] == (kept + []) + rest + (moved + [n]);
    } else {
      assert kept + [n] + rest + moved == (kept + [n]) + rest + (moved + []);
    }
  }

  lemma SplitStep(ns: seq<string>, R: set<string>, k: nat)
    requires 0 < k <= |ns|
    ensures Without(ns[..k], R) == Without(ns[..k - 1], R) + (if ns[k - 1] in R then [] else [ns[k - 1]])
    ensures Among(ns[..k], R) == Among(ns[..k - 1], R) + (if ns[k - 1] in R then [ns[k - 1]] else [])
  {
    assert ns[..k][..k - 1] == ns[..k - 1];
  }

  lemma TransformPrefixStepNames(source: Registry, k: nat)
    requires source.Valid() && 0 < k <= |source.names| && TransformPrefix(source, k).Ok?
    ensures TransformPrefix(source, k - 1).Ok?
    ensures var prev := TransformPrefix(source, k - 1).value.names; var n := source.names[k - 1];
      TransformPrefix(source, k).value.names == if n in ReplacedNames(source) then RemoveName(prev, n) + [n] else prev
  {
  }

  /** The name order after k steps of remove-and-add over the names of R. */
  function OrderAfter(ns: seq<string>, R: set<string>, k: nat): seq<string>
    requires k <= |ns|
  {
    if k == 0 then ns
    else
      var prev := OrderAfter(ns, R, k - 1);
      if ns[k - 1] in R then RemoveName(prev, ns[k - 1]) + [ns[k - 1]] else prev
  }

  /** In a list without repeats, k steps leave the untouched names in place
      and move the names of R, in turn, to the end. */
  lemma {:induction false} OrderAfterSplit(ns: seq<string>, R: set<string>, k: nat)
    requires Distinct(ns) && k <= |ns|
    ensures OrderAfter(ns, R, k) == Without(ns[..k], R) + ns[k..] + Among(ns[..k], R)
  {
    if k == 0 {
      assert ns[..0] == [] && ns[0..] == ns;
    } else {
      OrderAfterSplit(ns, R, k - 1);
      var n := ns[k - 1];
      var kept, moved, rest := Without(ns[..k - 1], R), Among(ns[..k - 1], R), ns[k..];
      assert OrderAfter(ns, R, k - 1) == kept + [n] + rest + moved by {
        assert ns[k - 1..] == [n] + rest;
        assert kept + ([n] + rest) == kept + [n] + rest;
      }
      SplitStep(ns, R, k);
      DistinctNotElsewhere(ns, k - 1);
      assert n !in kept && n !in moved;
      NamesStep(kept, n, rest, moved, n in R);
    }
  }

  lemma {:induction false} TransformPrefixOrder(source: Registry, k: nat)
    requires source.Valid() && k <= |source.names| && TransformPrefix(source, k).Ok?
    ensures TransformPrefix(source, k).value.names == OrderAfter(source.names, ReplacedNames(source), k)
  {
    if k > 0 {
      TransformPrefixStepNames(source, k);
      TransformPrefixOrder(source, k - 1);
    }
  }

  /** After the first k names the replaced types have moved behind the rest,
      in the order they were processed. */
  lemma TransformPrefixNames(source: Registry, k: nat)
    requires source.Valid() && k <= |source.names| && TransformPrefix(source, k).Ok?
    ensures var R := ReplacedNames(source);
      TransformPrefix(source, k).value.names == Without(source.names[..k], R) + source.names[k..] + Among(source.names[..k], R)
  {
    TransformPrefixOrder(source, k);
    OrderAfterSplit(source.names, ReplacedNames(source), k);
  }

  /** transformRegistry fails exactly when some type of the registry fails. */
  lemma TransformRegistryFails(source: Registry)
    requires source.Valid()
    ensures TransformPrefix(source, |source.names|).Ok? <==>
      forall n :: n in source.defs ==> TransformType(source.defs, n, source.defs[n]).Ok?
  {
    var names := source.names;
    TransformPrefixFails(source, |names|);
    forall n | n in source.defs ensures exists j :: 0 <= j < |names| && names[j] == n {
      assert n in names;
    }
  }

  /** The whole registry: the model of transformRegistry's result. Every
      type holds its outcome; the unchanged types keep their relative order
      and the replaced ones follow them in the order they were processed. */
  lemma TransformRegistrySpec(source: Registry)
    requires source.Valid() && TransformPrefix(source, |source.names|).Ok?
    ensures var r := TransformPrefix(source, |source.names|).value;
      r.Valid() && (forall n :: n in r.defs <==> n in source.defs) &&
      (forall n :: n in source.defs ==> r.defs[n] == Outcome(source, n)) &&
      r.names == Without(source.names, ReplacedNames(source)) + Among(source.names, ReplacedNames(source))
  {
    TransformPrefixValid(source, |source.names|);
    TransformRegistryDefs(source);
    TransformRegistryNames(source);
  }

  lemma TransformRegistryDefs(source: Registry)
    requires source.Valid() && TransformPrefix(source, |source.names|).Ok?
    ensures var r := TransformPrefix(source, |source.names|).value;
      (forall n :: n in r.defs <==> n in source.defs) &&
      (forall n :: n in source.defs ==> r.defs[n] == Outcome(source, n))
  {
    var names := source.names;
    TransformPrefixDefs(source, |names|);
    forall n | n in source.defs ensures exists j :: 0 <= j < |names| && names[j] == n {
      assert n in names;
    }
  }

  lemma TransformRegistryNames(source: Registry)
    requires source.Valid() && TransformPrefix(source, |source.names|).Ok?
    ensures TransformPrefix(source, |source.names|).value.names ==
      Without(source.names, ReplacedNames(source)) + Among(source.names, ReplacedNames(source))
  {
    var names := source.names;
    TransformPrefixNames(source, |names|);
    assert names[..|names|] == names;
    assert Without(names, ReplacedNames(source)) + names[|names|..] == Without(names, ReplacedNames(source));
  }

  /** Types that are not object types, and object types without a changed
      field, come through untouched. */
  lemma UntouchedTypes(source: Registry, n: string)
    requires source.Valid() && n in source.defs
    requires !source.defs[n].ObjectType? ||
      forall i :: 0 <= i < |source.defs[n].fields| ==>
        TransformField(source.defs, n, source.defs[n].fields[i]) == Ok(None)
    ensures TransformType(source.defs, n, source.defs[n]) == Ok(None)
    ensures Outcome(source, n) == source.defs[n]
  {
    var t := source.defs[n];
    if t.ObjectType? {
      CollectChangesFails(source.defs, n, t.fields);
      CollectChangesKeys(source.defs, n, t.fields);
      var m := CollectChanges(source.defs, n, t.fields).value;
      assert m.Keys == {};
    }
  }
}
