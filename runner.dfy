/** The parameter handling of ExampleRunner: every request and every
    compiled statement runs with a `_version` parameter, defaulted to the
    instant of its batch. */
module ExampleRunner {
  import opened Wrappers
  import opened Parameters

  const VersionKey := "_version"
  const NanosPerSecond := 1_000_000_000

  /** The parameters a request runs with: a copy of the caller's map with
      `_version` put if absent. */
  function WithVersionDefault(params: seq<Entry>, version: int): seq<Entry> {
    PutIfAbsentEntries(params, VersionKey, InstantValue(version))
  }

  /** getParamsWithVersionIfMissing: a fresh map, so the caller's map is
      left as it was. */
  method ParamsWithVersionIfMissing(version: int, source: OrderedParams) returns (r: OrderedParams)
    requires source.Valid()
    ensures fresh(r) && r.Valid() && r.entries == WithVersionDefault(source.entries, version)
  {
    r := new OrderedParams.CopyOf(source.entries);
    r.PutIfAbsent(VersionKey, InstantValue(version));
  }

  /** The forEachOrdered over the compiled statements of one request: each
      one's parameters are copied and `_version` is put if absent. */
  method StatementParams(version: int, compiled: seq<seq<Entry>>) returns (rs: seq<seq<Entry>>)
    requires forall i :: 0 <= i < |compiled| ==> DistinctKeys(compiled[i])
    ensures |rs| == |compiled|
    ensures forall i :: 0 <= i < |compiled| ==> rs[i] == WithVersionDefault(compiled[i], version)
  {
    rs := [];
    var i := 0;
    while i < |compiled|
      invariant 0 <= i <= |compiled| && |rs| == i
      invariant forall j :: 0 <= j < i ==> rs[j] == WithVersionDefault(compiled[j], version)
    {
      var params := new OrderedParams.CopyOf(compiled[i]);
      params.PutIfAbsent(VersionKey, InstantValue(version));
      rs := rs + [params.entries];
      i := i + 1;
    }
  }

  /** One request of a batch: its version and the parameters it is
      translated with. */
  datatype Request = Request(version: int, params: seq<Entry>)

  /** run(): the mutations at the captured nowUtc, then the queries one
      second later (nowUtc.plusSeconds(1)), each request with its own
      defaulted parameters. */
  method BatchRequests(nowUtc: int, mutations: seq<seq<Entry>>, queries: seq<seq<Entry>>) returns (rs: seq<Request>)
    ensures |rs| == |mutations| + |queries|
    ensures forall i :: 0 <= i < |mutations| ==> rs[i] == Request(nowUtc, WithVersionDefault(mutations[i], nowUtc))
    ensures forall i :: 0 <= i < |queries| ==>
      rs[|mutations| + i] == Request(nowUtc + NanosPerSecond, WithVersionDefault(queries[i], nowUtc + NanosPerSecond))
    ensures forall i, j :: 0 <= i < |mutations| <= j < |rs| ==> rs[j].version == rs[i].version + NanosPerSecond
  {
    rs := [];
    var i := 0;
    while i < |mutations|
      invariant 0 <= i <= |mutations| && |rs| == i
      invariant forall j :: 0 <= j < i ==> rs[j] == Request(nowUtc, WithVersionDefault(mutations[j], nowUtc))
    {
      rs := rs + [Request(nowUtc, WithVersionDefault(mutations[i], nowUtc))];
      i := i + 1;
    }
    var later := nowUtc + NanosPerSecond;
    i := 0;
    while i < |queries|
      invariant 0 <= i <= |queries| && |rs| == |mutations| + i
      invariant forall j :: 0 <= j < |mutations| ==> rs[j] == Request(nowUtc, WithVersionDefault(mutations[j], nowUtc))
      invariant forall j :: 0 <= j < i ==> rs[|mutations| + j] == Request(later, WithVersionDefault(queries[j], later))
    {
      rs := rs + [Request(later, WithVersionDefault(queries[i], later))];
      i := i + 1;
    }
    forall j | |mutations| <= j < |rs| ensures rs[j].version == later {
      var k := j - |mutations|;
      assert 0 <= k < |queries| && rs[|mutations| + k] == Request(later, WithVersionDefault(queries[k], later));
    }
  }

  /** The caller's `_version`, when it has a non-null one, wins; otherwise
      the batch instant is used.  Every other parameter keeps its value. */
  lemma VersionDefaultValue(params: seq<Entry>, version: int, other: string)
    requires DistinctKeys(params) && other != VersionKey
    ensures var given := Lookup(params, VersionKey);
      Lookup(WithVersionDefault(params, version), VersionKey) ==
        (if given.Some? && !given.value.NullValue? then given else Some(InstantValue(version)))
    ensures Lookup(WithVersionDefault(params, version), other) == Lookup(params, other)
  {
    PutIfAbsentLookup(params, VersionKey, InstantValue(version), other);
  }

  /** Without a `_version`, it is added as the last entry and the others
      keep their order. */
  lemma VersionDefaultAppends(params: seq<Entry>, version: int)
    requires VersionKey !in Keys(params)
    ensures var r := WithVersionDefault(params, version);
      r == params + [Entry(VersionKey, InstantValue(version))] && r[|r| - 1].key == VersionKey
  {
    PutIfAbsentOrder(params, VersionKey, InstantValue(version));
    var r := WithVersionDefault(params, version);
    assert r == r[..|params|] + [r[|params|]];
  }

  /** Defaulting a parameter list twice gives the same list as defaulting
      it once. */
  lemma VersionDefaultIdempotent(params: seq<Entry>, version: int)
    ensures WithVersionDefault(WithVersionDefault(params, version), version) == WithVersionDefault(params, version)
  {
    PutIfAbsentIdempotent(params, VersionKey, InstantValue(version));
  }
}
