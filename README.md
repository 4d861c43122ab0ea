# Time-based versioning for neo4j-graphql, modelled in Dafny

This project models the core of `TBVSchemas` and the `_version` handling of `ExampleRunner`. Together they make a GraphQL schema, compiled by neo4j-graphql, emit Cypher that stores and reads entities under *time-based versioning*:

- each entity has a resource node;
- each version of the entity has an instance node;
- the instance is joined to its resource by a `VERSION_OF` edge that carries a validity window `[from, to)`.

The model has four layers. Each layer is a Dafny module with its own file. The Java code's loops are modelled as methods, and each method is proved against a specification function whose properties are proved as lemmas.

- **Schema transformer** (`transformer.dfy`, module `SchemaTransformer`, over the AST in `schema.dfy`). This is `transformRegistry`. It works on a copy of the type registry.
  - Every `@link` field gets a `@cypher` statement, which resolves the version in force at an argument `ver`.
  - Every field that points at an object or interface type gets `@relation(name: <field>)`.
  - A changed object type is removed and added again. Because of that, it moves to the end of the registry's insertion order.
  - The methods `TransformRegistry` and `CollectFieldChanges` follow the two `forEach` loops. They are proved equal to `TransformPrefix` and `CollectChanges`.
- **Operation rewriter** (`rewriter.dfy`, module `Rewriter`). This is the lambda handed to `SchemaBuilder.buildSchema`, and it has three branches:
  - the query branch makes two `replaceGroup` calls on literal patterns;
  - the `create*` branch is the `StringBuilder` that builds a version-maintaining prelude around the default statement;
  - the `add*` branch relabels the target node and adds a `WHERE to.id IN $<key>` clause.

  `unwrapTypeName` is modelled here too. The domain layer (`domain.dfy`, module `DomainSchema`) covers two parts of `schemaOf`: the stripping of `@domain` from object types, and the filtering of the generated Query type down to the domain types.
- **replaceGroup** (`matching.dfy`, module `Matching`). The regular-expression engine is replaced by the list of matches it would report.
  - `ReplaceGroup` is the five-argument overload, with its loop of `find()` calls.
  - `ReplaceFirst` is the four-argument overload.

  `patterns.dfy` (module `CypherPatterns`) gives hand-rolled matchers for the concrete patterns. For the query branch these are literal substring searches. For the add branch they are the node-pattern matchers with three character-class runs.
- **Version windows** (`windows.dfy`, module `VersionWindows`). This layer covers the version filter `from <= v AND coalesce(v < to, true)`, which is shared by the link statement, the query rewrite and the create prelude. It also covers, in the abstract, the window update that the create prelude encodes:
  - delete the same-instant instance;
  - find the previous version and the next `from`;
  - insert `[v, coalesce(prev.to, nextFrom))`;
  - close `prev` at `v`.

  The rule keeps the windows of a resource pairwise non-overlapping; this is proved for the abstract rule.
- **Parameters** (`parameters.dfy`, module `Parameters`; `runner.dfy`, module `ExampleRunner`).
  - The `LinkedHashMap` of parameters is a class `OrderedParams` whose entry sequence `PutIfAbsent` updates.
  - `ParamsWithVersionIfMissing` returns a fresh copy with `_version` defaulted.
  - The per-statement `putIfAbsent` inside `forEachOrdered` is the loop `StatementParams`.
  - The choice of instants, `nowUtc` for the mutations and `nowUtc` plus one second for the queries, is `BatchRequests`.

Instants are integer nanoseconds, so `plusSeconds(1)` adds 1 000 000 000. The clock reading `ZonedDateTime.now` is an input.

Behaviour of the code worth noting:

- **Add branch, key choice.** The key is the least key in the `TreeSet` range `["to", "to~")`. A key in it starts with `to` and then ends or continues with a character below `~`, so `to~x` or `toé` is not chosen (`InToRangeIff`).
- **Add branch, no `to` key.** Without such a key the relabel is computed and then dropped, and the default statement is returned (`AddWithoutToKeyKeepsStatement`).
- **Create branch, missing return clause.** Without `WITH <name> RETURN`, `lastIndexOf` gives -1 and the `append` throws, so this branch fails rather than keeping the statement (`CreateTextShape`).
- **Create branch, open previous version.** `coalesce(prevVersion.to, nextVersionFrom)` falls back to the next `from` both when there is no previous version and when the previous version is open (`NewTo`).
- **`@relation` is not idempotent.** A second pass of the transformer appends a second `@relation` directive (`SecondPassAddsAnotherRelation`).

## Model

| member | source | states |
|---|---|---|
| Matching.Splice | src/main/java/no/ssb/neo4j/graphql/tbv/TBVSchemas.java:283 | `StringBuilder.replace(start, end, rep)`: the text before the span is kept, `rep` follows it, then the text after the span; the length grows by the length of `rep` less that of the span |
| Matching.ReplaceNth | src/main/java/no/ssb/neo4j/graphql/tbv/TBVSchemas.java:279-284 | five-argument replaceGroup on the match list: occurrence <= 0 fails as `start()` with no match does; fewer matches than the occurrence gives the source unchanged; a group the pattern lacks, or one that took no part, fails; otherwise group `g` of the n-th match is spliced with its prefix and suffix kept |
| Matching.ReplaceGroup | src/main/java/no/ssb/neo4j/graphql/tbv/TBVSchemas.java:279-284 | the `find()` loop, returning early on a failed find, computes exactly `ReplaceNth` |
| Matching.ReplaceFirst | src/main/java/no/ssb/neo4j/graphql/tbv/TBVSchemas.java:275-277 | the four-argument overload is occurrence 1: no match gives the source; otherwise the first match's group is spliced, and only the first match matters |
| Text.FirstOccurrence | src/main/java/no/ssb/neo4j/graphql/tbv/TBVSchemas.java:280-282 | what `find()` reports first for a literal pattern: an occurrence with none before it, or None when the pattern never occurs |
| Text.LastOccurrence | src/main/java/no/ssb/neo4j/graphql/tbv/TBVSchemas.java:198 | `lastIndexOf`: an occurrence with none after it, or None when there is none |
| Text.LexLessTotal | src/main/java/no/ssb/neo4j/graphql/tbv/TBVSchemas.java:216 | the `String.compareTo` order of the TreeSet is total |
| Text.LexLessTransitive | src/main/java/no/ssb/neo4j/graphql/tbv/TBVSchemas.java:216 | the `String.compareTo` order is transitive |
| Text.LexLessIrreflexive | src/main/java/no/ssb/neo4j/graphql/tbv/TBVSchemas.java:216 | no key is below itself |
| Text.LexLessAsymmetric | src/main/java/no/ssb/neo4j/graphql/tbv/TBVSchemas.java:216 | two keys are never each below the other |
| CypherPatterns.ReplaceGroupOneIsReplaceFirst | src/main/java/no/ssb/neo4j/graphql/tbv/TBVSchemas.java:275-284 | the splice at the first match computed by the pattern matchers is the four-argument replaceGroup on their match list; it never fails, and with no match the text is unchanged |
| CypherPatterns.LiteralFirstMatchSpec | src/main/java/no/ssb/neo4j/graphql/tbv/TBVSchemas.java:191-192 | a literal pattern matches exactly when it occurs, and its first match is at the leftmost occurrence, with group 1 the chosen slice of the pattern |
| CypherPatterns.RunLenMaximal | src/main/java/no/ssb/neo4j/graphql/tbv/TBVSchemas.java:215 | a greedy `[^...]+` run holds no excluded character and ends at the end of the text or at an excluded character |
| CypherPatterns.LabelStartShape | src/main/java/no/ssb/neo4j/graphql/tbv/TBVSchemas.java:215 | the start of a node match is `MATCH (`, then a non-empty variable without space, `:` or `)`, then `:` |
| CypherPatterns.NodeMatchAtShape | src/main/java/no/ssb/neo4j/graphql/tbv/TBVSchemas.java:215 | a node match is its start, the literal label, and a property map ` { key: $param })` of the three character classes |
| CypherPatterns.NodeMatchAfterSwap | src/main/java/no/ssb/neo4j/graphql/tbv/TBVSchemas.java:215-220 | swapping the label of a node match for another label leaves a node match at the same start with the same property map |
| CypherPatterns.FirstNodeMatchLeftmost | src/main/java/no/ssb/neo4j/graphql/tbv/TBVSchemas.java:215 | `find()` on a node pattern reports the leftmost start at which it matches, or nothing when it matches nowhere |
| CypherPatterns.FirstNodeMatchAt | src/main/java/no/ssb/neo4j/graphql/tbv/TBVSchemas.java:215 | a node pattern matching at `i` and at no earlier start is first found at `i` |
| CypherPatterns.PropsMatchReplace | src/main/java/no/ssb/neo4j/graphql/tbv/TBVSchemas.java:220 | the replaceGroup on the property-map pattern splices exactly the first match's property map |
| CypherPatterns.LabelMatch | src/main/java/no/ssb/neo4j/graphql/tbv/TBVSchemas.java:215 | the label pattern matches exactly when the node pattern is found; group 1 is the label of the first node match |
| CypherPatterns.PropsMatch | src/main/java/no/ssb/neo4j/graphql/tbv/TBVSchemas.java:220 | the property-map pattern matches exactly when the node pattern is found; group 1 is that match's property map |
| Rewriter.UnwrapTypeName | src/main/java/no/ssb/neo4j/graphql/tbv/TBVSchemas.java:262-273 | the name of the object type under any nesting of NonNull and List wrappers, and an error for any other leaf |
| Rewriter.LeafAndLayers | src/main/java/no/ssb/neo4j/graphql/tbv/TBVSchemas.java:262-268 | every output type is its leaf inside its wrapper layers |
| Rewriter.UnwrapWrapped | src/main/java/no/ssb/neo4j/graphql/tbv/TBVSchemas.java:262-273 | wrapping an object type in any layers still unwraps to its name |
| Rewriter.QueryRewritesFirstMatch | src/main/java/no/ssb/neo4j/graphql/tbv/TBVSchemas.java:191-192 | at the first `MATCH (name:Type) WHERE` followed by a space, the version condition replaces that space and `(name:Type)` becomes `(_r:Type_R:RESOURCE)<-[_v:VERSION_OF]-(name:Type:INSTANCE)`; the rest of the text is kept |
| Rewriter.QueryWithoutMatchUnchanged | src/main/java/no/ssb/neo4j/graphql/tbv/TBVSchemas.java:191-192 | without any `MATCH (name:Type) WHERE` the query text is unchanged |
| Rewriter.QueryWithoutSpaceOnlyRelabels | src/main/java/no/ssb/neo4j/graphql/tbv/TBVSchemas.java:191-192 | when no match is followed by a space, only the node of the first match is rewritten |
| Rewriter.BuildCreateText | src/main/java/no/ssb/neo4j/graphql/tbv/TBVSchemas.java:198-207 | the StringBuilder, append by append, computes `CreateText` |
| Rewriter.CreateTextShape | src/main/java/no/ssb/neo4j/graphql/tbv/TBVSchemas.java:198-207 | the create branch succeeds exactly when `WITH name RETURN` occurs. The result is the four prelude lines, then the text before its last occurrence and a newline, then the CREATE and SET lines, then the rest from that occurrence, which holds no later one. Without the clause it fails with the missing-clause error |
| Rewriter.InToRangeIff | src/main/java/no/ssb/neo4j/graphql/tbv/TBVSchemas.java:217 | a key is in `subSet("to", true, "to~", false)` exactly when it starts with `to` and then ends or continues with a character below `~` |
| Rewriter.LeastToKey | src/main/java/no/ssb/neo4j/graphql/tbv/TBVSchemas.java:216-219 | `toKeys.first()`: a key of the range that is least among the keys in the range, or None when no key is in it |
| Rewriter.RelabelShape | src/main/java/no/ssb/neo4j/graphql/tbv/TBVSchemas.java:215 | the relabel replaces the label of the first target node pattern with `Type_R:RESOURCE`, and leaves a text without one unchanged |
| Rewriter.RelabelledFirstMatch | src/main/java/no/ssb/neo4j/graphql/tbv/TBVSchemas.java:215-220 | after the relabel, the resource-labelled pattern is first found where the target pattern was, with the same property map, provided none occurred before it |
| Rewriter.AddTextSplices | src/main/java/no/ssb/neo4j/graphql/tbv/TBVSchemas.java:218-221 | with a `to` key, the property map of the first resource-labelled node pattern becomes `) WHERE to.id IN $<key>` |
| Rewriter.AddWithoutToKeyKeepsStatement | src/main/java/no/ssb/neo4j/graphql/tbv/TBVSchemas.java:213-227 | without a key in the range, the relabel is dropped and the default statement comes back |
| Rewriter.QueryRewrite | src/main/java/no/ssb/neo4j/graphql/tbv/TBVSchemas.java:189-193 | the query branch succeeds exactly when the return type unwraps to an object type; only the query text changes |
| Rewriter.CreateRewrite | src/main/java/no/ssb/neo4j/graphql/tbv/TBVSchemas.java:196-208 | the create branch succeeds exactly when the return type unwraps to an object type and the return clause is present; only the query text changes |
| Rewriter.AddRewrite | src/main/java/no/ssb/neo4j/graphql/tbv/TBVSchemas.java:209-222 | the add branch fails exactly when the resolver is not a CreateRelationHandler; parameters and result type are kept; without a `to` key the statement comes back unchanged, and with one the query is `AddText` on the handler's target type: the relabel followed by the property-map splice |
| Rewriter.Rewrite | src/main/java/no/ssb/neo4j/graphql/tbv/TBVSchemas.java:185-228 | dispatch: a name in the query set takes the query branch, even when it is also a mutation; otherwise a mutation starting with `create` takes the create branch, one starting with `add` (and not `create`) the add branch, and any other fails with "Only 'create' mutation supported"; a name in neither set keeps its statement; parameters and result type are never changed |
| VersionWindows.DisjointIffNoCommonInstant | src/main/java/no/ssb/neo4j/graphql/tbv/TBVSchemas.java:86 | two windows are disjoint on their bounds exactly when the version filter selects no common instant |
| VersionWindows.Survivors | src/main/java/no/ssb/neo4j/graphql/tbv/TBVSchemas.java:201 | the edges left after the delete are exactly those not starting at `$_version` with an embedded node |
| VersionWindows.PrevIndexFrom | src/main/java/no/ssb/neo4j/graphql/tbv/TBVSchemas.java:202 | `prevVersion`: the first edge the version filter selects at the instant, or none when none does |
| VersionWindows.NextFrom | src/main/java/no/ssb/neo4j/graphql/tbv/TBVSchemas.java:203 | `min(v.from)` over the edges starting after the instant, None when there is none |
| VersionWindows.NewWindowContains | src/main/java/no/ssb/neo4j/graphql/tbv/TBVSchemas.java:205 | the new edge `[v, coalesce(prev.to, nextFrom))` is in force at `v` |
| VersionWindows.SurvivorsNonOverlapping | src/main/java/no/ssb/neo4j/graphql/tbv/TBVSchemas.java:201 | the delete keeps the windows pairwise disjoint |
| VersionWindows.ShrinkKeepsNonOverlapping | src/main/java/no/ssb/neo4j/graphql/tbv/TBVSchemas.java:206 | closing a window earlier keeps the windows pairwise disjoint |
| VersionWindows.StepKeepsNonOverlapping | src/main/java/no/ssb/neo4j/graphql/tbv/TBVSchemas.java:201-206 | one create, as the prelude's delete, lookups, CREATE and SET encode it, keeps the windows of a resource pairwise non-overlapping |
| VersionWindows.StepNewVersionInForce | src/main/java/no/ssb/neo4j/graphql/tbv/TBVSchemas.java:202-206 | after a create at `v`, the new edge is the only one in force at `v` |
| VersionWindows.StepKeepsEarlierInstants | src/main/java/no/ssb/neo4j/graphql/tbv/TBVSchemas.java:202-206 | a create at `v` keeps, for every instant before `v`, the version in force at it among the remaining edges |
| VersionWindows.ScenarioLaterVersion | src/main/java/no/ssb/neo4j/graphql/tbv/TBVSchemas.java:202-206 | a later create closes the open version at the new instant, and the new version is open |
| VersionWindows.ScenarioEarlierVersion | src/main/java/no/ssb/neo4j/graphql/tbv/TBVSchemas.java:202-206 | an earlier create gets a window closed at the later version's `from`, and that later version stays open |
| SchemaTransformer.CollectFieldChanges | src/main/java/no/ssb/neo4j/graphql/tbv/TBVSchemas.java:64-143 | the inner `forEach`, putting each changed field into `transformedFields` and stopping at the first exception, computes `CollectChanges` |
| SchemaTransformer.TransformObjectType | src/main/java/no/ssb/neo4j/graphql/tbv/TBVSchemas.java:60-154 | one type of the outer loop computes `TransformType`; a replacement is again an object type and only an object type is replaced |
| SchemaTransformer.TransformPrefixSameKinds | src/main/java/no/ssb/neo4j/graphql/tbv/TBVSchemas.java:110-154 | the working copy, which the lookups at line 110 consult, keeps the source's names and kinds throughout the walk |
| SchemaTransformer.TransformRegistryStep | src/main/java/no/ssb/neo4j/graphql/tbv/TBVSchemas.java:58-155 | one pass of the outer loop against the working copy: a failure is the failure of the whole walk, and a success extends the prefix by that type |
| SchemaTransformer.TransformRegistry | src/main/java/no/ssb/neo4j/graphql/tbv/TBVSchemas.java:56-158 | the outer `forEach` over a copy of the registry, with remove and add on the copy, computes `TransformPrefix` over all names |
| SchemaTransformer.LinkFieldRewritten | src/main/java/no/ssb/neo4j/graphql/tbv/TBVSchemas.java:70-108 | a `@link` field keeps its name and type; each `link` directive becomes `@cypher(statement: ...)` with the template naming the field as relation and the element, named or `null` type as target; the other directives keep their place; the arguments become exactly `ver: _Neo4jDateTimeInput` |
| SchemaTransformer.LinkListOfWrappedFails | src/main/java/no/ssb/neo4j/graphql/tbv/TBVSchemas.java:73-79 | a `@link` list whose element is not a plain type name fails with the nested-list error naming type and field |
| SchemaTransformer.NonLinkField | src/main/java/no/ssb/neo4j/graphql/tbv/TBVSchemas.java:110-141 | a field without `@link`: an absent type fails; an object or interface type gains `@relation(name: <field>)` after its directives, with all else kept; scalar, enum, union and input types leave it untouched; another kind fails |
| SchemaTransformer.SecondPassAddsAnotherRelation | src/main/java/no/ssb/neo4j/graphql/tbv/TBVSchemas.java:113-124 | the transformation is not idempotent: a second pass appends another `@relation` |
| SchemaTransformer.CollectChangesFails | src/main/java/no/ssb/neo4j/graphql/tbv/TBVSchemas.java:65-143 | the field walk fails exactly when some field fails, and then with the first failing field's error |
| SchemaTransformer.CollectChangesKeys | src/main/java/no/ssb/neo4j/graphql/tbv/TBVSchemas.java:64-143 | `transformedFields` holds exactly the changed fields, each under its name with its transformed value |
| SchemaTransformer.CollectChangesDistinct | src/main/java/no/ssb/neo4j/graphql/tbv/TBVSchemas.java:64-143 | with distinct field names, a field has an entry in `transformedFields` exactly when it changes, and the entry is its transformation |
| SchemaTransformer.TransformTypeSpec | src/main/java/no/ssb/neo4j/graphql/tbv/TBVSchemas.java:60-154 | an object type fails exactly when a field fails; it is replaced exactly when some field changes; the replacement keeps its directives and its field order, each field replaced by its outcome |
| SchemaTransformer.TransformTypeUnchanged | src/main/java/no/ssb/neo4j/graphql/tbv/TBVSchemas.java:145 | when no field fails, the type is left alone exactly when no field changes |
| SchemaTransformer.TransformTypeFields | src/main/java/no/ssb/neo4j/graphql/tbv/TBVSchemas.java:145-151 | a rebuilt type is an object type with the same directives and as many fields, each the outcome of the original field at that place |
| SchemaTransformer.TransformPrefixFails | src/main/java/no/ssb/neo4j/graphql/tbv/TBVSchemas.java:58-155 | the walk over the first k names fails exactly when one of their types fails, with the first such failure |
| SchemaTransformer.TransformPrefixDefs | src/main/java/no/ssb/neo4j/graphql/tbv/TBVSchemas.java:58-155 | after k names, the same names are defined; every processed name holds its outcome and the others their source definition |
| SchemaTransformer.TransformPrefixValid | src/main/java/no/ssb/neo4j/graphql/tbv/TBVSchemas.java:152-153 | remove and add keep the registry well formed, with distinct names that are exactly the defined ones |
| SchemaTransformer.TransformPrefixNames | src/main/java/no/ssb/neo4j/graphql/tbv/TBVSchemas.java:152-153 | after k names, the unreplaced names keep their relative order and the replaced ones follow in processing order |
| SchemaTransformer.TransformRegistryFails | src/main/java/no/ssb/neo4j/graphql/tbv/TBVSchemas.java:56-158 | transformRegistry fails exactly when the transformation of some type of the registry fails |
| SchemaTransformer.TransformRegistrySpec | src/main/java/no/ssb/neo4j/graphql/tbv/TBVSchemas.java:56-158 | the result is well formed, defines the same names, holds every type's outcome, and lists the untouched names in their order followed by the replaced names in theirs |
| SchemaTransformer.TransformRegistryDefs | src/main/java/no/ssb/neo4j/graphql/tbv/TBVSchemas.java:56-158 | the result defines the same names and every name holds its outcome |
| SchemaTransformer.TransformRegistryNames | src/main/java/no/ssb/neo4j/graphql/tbv/TBVSchemas.java:152-153 | the result's insertion order is the untouched names, then the replaced ones |
| SchemaTransformer.UntouchedTypes | src/main/java/no/ssb/neo4j/graphql/tbv/TBVSchemas.java:60-154 | a type that is not an object type, or an object type none of whose fields changes, comes through untouched |
| DomainSchema.WithoutDirectiveKeeps | src/main/java/no/ssb/neo4j/graphql/tbv/TBVSchemas.java:175 | `removeIf` keeps exactly the directives of another name |
| DomainSchema.WithoutDirectiveRemoves | src/main/java/no/ssb/neo4j/graphql/tbv/TBVSchemas.java:175 | afterwards no `@domain` is left, and `removeIf` reports a removal exactly when there was one |
| DomainSchema.WithoutDirectiveSingle | src/main/java/no/ssb/neo4j/graphql/tbv/TBVSchemas.java:175 | `removeIf` on a single directive drops it exactly when it has the name |
| DomainSchema.WithoutDirectiveAppend | src/main/java/no/ssb/neo4j/graphql/tbv/TBVSchemas.java:175 | `removeIf` on `a + b` keeps the kept directives of `a` followed by those of `b`; with the single-element case this fixes the order and the repeats of the result |
| DomainSchema.WithoutDirectiveShorter | src/main/java/no/ssb/neo4j/graphql/tbv/TBVSchemas.java:175 | `removeIf` never lengthens the list |
| DomainSchema.StripDomainDirectives | src/main/java/no/ssb/neo4j/graphql/tbv/TBVSchemas.java:170-181 | the loop over the source's types, with remove and add on the copy, computes `StripPrefix` over all names |
| DomainSchema.StripPrefixDefs | src/main/java/no/ssb/neo4j/graphql/tbv/TBVSchemas.java:170-181 | after k names, every processed name holds its stripped definition and the others their source definition |
| DomainSchema.StripPrefixValid | src/main/java/no/ssb/neo4j/graphql/tbv/TBVSchemas.java:177-178 | remove and add keep the copy well formed |
| DomainSchema.StripPrefixOrder | src/main/java/no/ssb/neo4j/graphql/tbv/TBVSchemas.java:177-178 | after k names, the insertion order moves the processed `@domain` types to the end in processing order |
| DomainSchema.StripDomainSpec | src/main/java/no/ssb/neo4j/graphql/tbv/TBVSchemas.java:170-181 | `withoutDomainDirectives` is well formed, defines the same names, holds each stripped definition, and lists the untouched types followed by the stripped ones |
| DomainSchema.StripOutcomeSpec | src/main/java/no/ssb/neo4j/graphql/tbv/TBVSchemas.java:173-179 | a stripped definition has no `@domain` and keeps its kind and fields; its directives are the other directives in their order with their repeats, stripped piece by piece for any split of the list; a type without `@domain` is left as it is |
| DomainSchema.FilterQueryFields | src/main/java/no/ssb/neo4j/graphql/tbv/TBVSchemas.java:232-243 | `clearFields` and the loop over the query names compute `FilterQueries` |
| DomainSchema.FilterQueriesFails | src/main/java/no/ssb/neo4j/graphql/tbv/TBVSchemas.java:234-238 | the filter fails exactly when some query's type does not unwrap to an object type, or names a type the original registry lacks |
| DomainSchema.FilterQueriesKeeps | src/main/java/no/ssb/neo4j/graphql/tbv/TBVSchemas.java:234-242 | on success, the Query type keeps exactly the queries whose type carries `@domain` in the original registry |
| DomainSchema.KeepQueryWrapped | src/main/java/no/ssb/neo4j/graphql/tbv/TBVSchemas.java:235-238 | a query returning an object type under any wrappers is kept exactly when that type has `@domain` |
| Parameters.IndexOf | src/main/java/no/ssb/neo4j/graphql/tbv/ExampleRunner.java:95 | the position of a key in the insertion-ordered map, None when it is absent |
| Parameters.LookupAt | src/main/java/no/ssb/neo4j/graphql/tbv/ExampleRunner.java:95 | with distinct keys, looking up the key of an entry gives that entry's value |
| Parameters.PutIfAbsentLookup | src/main/java/no/ssb/neo4j/graphql/tbv/ExampleRunner.java:95 | `putIfAbsent`: a key with a non-null value keeps it, otherwise it maps to the new value; every other key keeps its value |
| Parameters.PutIfAbsentKeepsDistinct | src/main/java/no/ssb/neo4j/graphql/tbv/ExampleRunner.java:95 | the keys stay distinct |
| Parameters.PutIfAbsentOrder | src/main/java/no/ssb/neo4j/graphql/tbv/ExampleRunner.java:94-95 | an absent key is appended as the last entry; the existing entries keep their order |
| Parameters.PutIfAbsentIdempotent | src/main/java/no/ssb/neo4j/graphql/tbv/ExampleRunner.java:95 | putting the same key and value twice gives what putting it once gives |
| Parameters.PutIfAbsentKeepsPresent | src/main/java/no/ssb/neo4j/graphql/tbv/ExampleRunner.java:95 | a key with a non-null value leaves the map unchanged |
| Parameters.OrderedParams.CopyOf | src/main/java/no/ssb/neo4j/graphql/tbv/ExampleRunner.java:94 | `new LinkedHashMap<>(source)`: the same entries in the same order |
| Parameters.OrderedParams.PutIfAbsent | src/main/java/no/ssb/neo4j/graphql/tbv/ExampleRunner.java:95 | updates the map in place to `PutIfAbsentEntries` of the old entries, keeping the keys distinct |
| ExampleRunner.ParamsWithVersionIfMissing | src/main/java/no/ssb/neo4j/graphql/tbv/ExampleRunner.java:93-97 | returns a fresh map holding the caller's entries with `_version` put if absent; the caller's map is not modified |
| ExampleRunner.StatementParams | src/main/java/no/ssb/neo4j/graphql/tbv/ExampleRunner.java:78-85 | each compiled statement runs with a copy of its parameters with `_version` put if absent |
| ExampleRunner.BatchRequests | src/main/java/no/ssb/neo4j/graphql/tbv/ExampleRunner.java:45-54 | the mutations run at the captured `nowUtc`, the queries at exactly one second later, each with `_version` defaulted to its batch's instant |
| ExampleRunner.VersionDefaultValue | src/main/java/no/ssb/neo4j/graphql/tbv/ExampleRunner.java:93-97 | a caller's non-null `_version` wins, otherwise the batch instant is used; every other parameter keeps its value |
| ExampleRunner.VersionDefaultAppends | src/main/java/no/ssb/neo4j/graphql/tbv/ExampleRunner.java:94-95 | without a `_version`, it is added as the last entry after the caller's parameters in their order |
| ExampleRunner.VersionDefaultIdempotent | src/main/java/no/ssb/neo4j/graphql/tbv/ExampleRunner.java:80-81 | defaulting `_version` in a parameter list twice gives the same list as defaulting it once |

## Left out

- The regular-expression engine (`Pattern`, `Matcher`) is not modelled. `replaceGroup` works on the list of matches the engine reports. The concrete patterns have hand-rolled matchers: literal search for the query patterns, and three-character-class node patterns for the add branch.
- The graphql-java and neo4j-graphql library calls are replaced by plain datatypes: `TypeDefinitionRegistry.merge/remove/add`, builder `transform`, `SchemaBuilder.buildSchema`, `GraphQLSchema.newSchema` and the `Cypher` class. A registry is a map plus its insertion order. The resolver is a tag saying whether it is a `CreateRelationHandler`.
- Cypher execution and graph semantics are not modelled. The window update of the create prelude is proved on an abstract list of windows, not from the emitted text. The direction of the `VERSION_OF` edge created at line 205 is opposite to the one the lookups match. That makes no difference in the abstract rule, and the model does not derive graph behaviour from the text.
- The name sets `queryTypes` and `mutationTypes` are immutable inputs to `Rewriter.Rewrite`. They are filled after the build, once the Query type has been filtered. Concurrent updates of the `CopyOnWriteArraySet`s are not modelled.
- Clocks are inputs: `ZonedDateTime.now` is the integer `nowUtc`. Driver and session I/O, logging, `System.out`, `Main`, the examples, `runNativeCypher`, `translateGraphQLQueryAndRunCypher`, `serializeSchema` and the JavaScript host are not part of this model.
- `Text.LexLess` compares by `char` (code point) order. `String.compareTo` compares UTF-16 code units, and the two differ only for characters outside the Basic Multilingual Plane.
- No single lemma composes the two add-branch replacements. Their result is stated as a chain: `Rewriter.RelabelShape`, then `Rewriter.RelabelledFirstMatch` (which requires that no resource-labelled node pattern occurs before the target one), then `Rewriter.AddTextSplices`. When the default statement already holds an earlier resource-labelled node pattern, the model computes the same splice as the code, but no lemma describes its position.
- `DomainSchema.FilterQueryFields` walks the query names in a given order. `originalQueries` is a `HashSet`, so its iteration order is unspecified. When several queries fail, which error surfaces depends on that order; whether an error occurs does not. The kept queries are stated as a set (`DomainSchema.FilterQueriesKeeps`).
- `DomainSchema`: `getDirectives()` at line 174 is taken to return a copy, so the original registry still carries `@domain` when it is consulted at line 238.
- `DomainSchema`: directives on type definitions are modelled for object types only. A query whose type is another kind is never kept, as in the code, where only object types reach the filter's directive check. Interfaces among the Query type's children are not modelled.
- Rewriter: the query branch is described by lemmas for three cases: the first `MATCH (name:Type) WHERE` followed by a space, no such match at all, and matches none of which is followed by a space. The remaining case has no lemma: the first match is not followed by a space but a later one is, so the condition goes to the later match and the node of the first. The model computes it as the code does.
- Rewriter: the query and add branches paste the field, type and target type names into the regular expressions unescaped. The model takes them as GraphQL names (`IsName`), for which the patterns are literal text.
- Schema: the standard scalars (`String`, `Int`, ...) that graphql-java's `getType` resolves from `scalars()` rather than from `types()` are taken as entries of the registry's definitions. The model does not separate the two.
- `ExampleRunner.StatementParams` returns the parameter lists the statements run with. `session.run` itself is not modelled.
