/** The schema AST the transformer works on: graphql-java's type references,
    directives, field definitions, type definitions and the type registry. */
module Schema {
  import opened Wrappers

  /** Type of a field: TypeName, ListType or NonNullType. */
  datatype TypeRef = Named(name: string) | ListOf(elem: TypeRef) | NonNull(inner: TypeRef)

  /** Argument values; the transformer only ever writes string values. */
  datatype Value = StringValue(s: string) | OtherValue(text: string)

  datatype Argument = Argument(name: string, value: Value)

  datatype Directive = Directive(name: string, arguments: seq<Argument>)

  /** An input value definition (an argument declared on a field). */
  datatype InputValue = InputValue(name: string, typ: TypeRef)

  datatype Field = Field(name: string, typ: TypeRef, arguments: seq<InputValue>, directives: seq<Directive>)

  /** Type definitions.  Only object types are rewritten, so only they carry
      their directives and fields; OtherType stands for any further concrete
      TypeDefinition class. */
  datatype TypeDef =
    | ObjectType(directives: seq<Directive>, fields: seq<Field>)
    | InterfaceType
    | ScalarType
    | EnumType
    | UnionType
    | InputObjectType
    | OtherType

  /** The kind tested by the instanceof chain of the transformer. */
  datatype Kind = ObjectKind | InterfaceKind | ScalarKind | EnumKind | UnionKind | InputObjectKind | OtherKind

  function KindOf(t: TypeDef): Kind {
    match t
    case ObjectType(_, _) => ObjectKind
    case InterfaceType => InterfaceKind
    case ScalarType => ScalarKind
    case EnumType => EnumKind
    case UnionType => UnionKind
    case InputObjectType => InputObjectKind
    case OtherType => OtherKind
  }

  /** A TypeDefinitionRegistry: type definitions by name, and the names in the
      insertion order of its LinkedHashMap.  The standard scalars that
      getType also resolves are entries of `defs` here. */
  datatype Registry = Registry(names: seq<string>, defs: map<string, TypeDef>) {
    ghost predicate Valid() {
      Distinct(names) &&
      (forall n :: n in defs <==> n in names)
    }
  }

  /** TypeUtil.unwrapAll(type).getName(): the name under all wrappers. */
  function UnwrapAll(t: TypeRef): string {
    match t
    case Named(n) => n
    case ListOf(e) => UnwrapAll(e)
    case NonNull(i) => UnwrapAll(i)
  }

  /** getDirective(name) != null. */
  predicate HasDirective(ds: seq<Directive>, name: string) {
    exists i :: 0 <= i < |ds| && ds[i].name == name
  }

  predicate Distinct(names: seq<string>) {
    forall i, j :: 0 <= i < j < |names| ==> names[i] != names[j]
  }

  /** The names without `n`, order kept. */
  function RemoveName(names: seq<string>, n: string): (r: seq<string>)
    ensures forall x :: x in r <==> x in names && x != n
  {
    if names == [] then []
    else (if names[0] == n then [] else [names[0]]) + RemoveName(names[1..], n)
  }

  lemma {:induction false} RemoveAbsent(names: seq<string>, n: string)
    requires n !in names
    ensures RemoveName(names, n) == names
  {
    if names != [] {
      RemoveAbsent(names[1..], n);
      assert names == [names[0]] + names[1..];
    }
  }

  /** Removing the one copy of `n` from a + [n] + b. */
  lemma {:induction false} RemoveOnce(a: seq<string>, n: string, b: seq<string>)
    requires n !in a && n !in b
    ensures RemoveName(a + [n] + b, n) == a + b
  {
    if a == [] {
      assert ([n] + b)[1..] == b;
      RemoveAbsent(b, n);
    } else {
      RemoveOnce(a[1..], n, b);
      assert (a + [n] + b)[1..] == a[1..] + [n] + b;
      assert a == [a[0]] + a[1..];
    }
  }

  /** registry.remove(old); registry.add(new): the entry for `n` is replaced
      and moves to the end of the insertion order. */
  function Replace(reg: Registry, n: string, t: TypeDef): Registry {
    Registry(RemoveName(reg.names, n) + [n], reg.defs[n := t])
  }

  lemma {:induction false} DistinctRemove(names: seq<string>, n: string)
    requires Distinct(names)
    ensures Distinct(RemoveName(names, n))
  {
    if names != [] {
      DistinctRemove(names[1..], n);
      var rest := RemoveName(names[1..], n);
      assert names[0] !in names[1..] by {
        forall j | 0 <= j < |names[1..]| ensures names[1..][j] != names[0] {
          assert names[1..][j] == names[j + 1];
        }
      }
      assert names[0] !in rest;
      if names[0] != n {
        var r := [names[0]] + rest;
        assert RemoveName(names, n) == r;
        forall i, j | 0 <= i < j < |r| ensures r[i] != r[j] {
          if i == 0 { assert r[j] == rest[j - 1]; assert rest[j - 1] in rest; }
          else { assert r[i] == rest[i - 1] && r[j] == rest[j - 1]; }
        }
      } else {
        assert RemoveName(names, n) == rest;
      }
    }
  }

  lemma ReplaceKeepsValid(reg: Registry, n: string, t: TypeDef)
    requires reg.Valid() && n in reg.defs
    ensures Replace(reg, n, t).Valid()
  {
    DistinctRemove(reg.names, n);
    var rm := RemoveName(reg.names, n);
    var r := rm + [n];
    assert n !in rm;
    forall i, j | 0 <= i < j < |r| ensures r[i] != r[j] {
      if j == |r| - 1 { assert r[i] == rm[i]; assert rm[i] in rm; }
      else { assert r[i] == rm[i] && r[j] == rm[j]; }
    }
  }

  /** In a list without repeats, an element occurs neither before nor after its own index. */
  lemma DistinctNotElsewhere(names: seq<string>, j: nat)
    requires Distinct(names) && j < |names|
    ensures names[j] !in names[..j] && names[j] !in names[j + 1..]
  {
    forall i | 0 <= i < j ensures names[..j][i] != names[j] { assert names[..j][i] == names[i]; }
    var tail := names[j + 1..];
    forall i | 0 <= i < |tail| ensures tail[i] != names[j] { assert tail[i] == names[j + 1 + i]; }
  }
}
