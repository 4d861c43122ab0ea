/** Query parameters as an insertion-ordered map (java.util.LinkedHashMap):
    a list of entries with distinct keys, in the order they were first put. */
module Parameters {
  import opened Wrappers

  /** A parameter value: Java's null, an instant (nanoseconds since the
      epoch, UTC), or any other value, kept as its text. */
  datatype ParamValue = NullValue | InstantValue(epochNanos: int) | OtherValue(repr: string)

  datatype Entry = Entry(key: string, value: ParamValue)

  function Keys(es: seq<Entry>): (r: seq<string>)
    ensures |r| == |es| && forall i :: 0 <= i < |es| ==> r[i] == es[i].key
  {
    seq(|es|, i requires 0 <= i < |es| => es[i].key)
  }

  predicate DistinctKeys(es: seq<Entry>) {
    forall i, j :: 0 <= i < j < |es| ==> es[i].key != es[j].key
  }

  /** The position of key `k`, if it is present. */
  function IndexOf(es: seq<Entry>, k: string): (r: Option<nat>)
    ensures r.Some? ==> r.value < |es| && es[r.value].key == k && forall j :: 0 <= j < r.value ==> es[j].key != k
    ensures r.None? ==> forall j :: 0 <= j < |es| ==> es[j].key != k
    decreases |es|
  {
    if |es| == 0 then None
    else if es[0].key == k then Some(0)
    else match IndexOf(es[1..], k)
      case None => None
      case Some(i) => Some(i + 1)
  }

  /** Map.get, with None for an absent key (a key mapped to null gives
      Some(NullValue)). */
  function Lookup(es: seq<Entry>, k: string): Option<ParamValue> {
    match IndexOf(es, k)
    case None => None
    case Some(i) => Some(es[i].value)
  }

  /** With distinct keys, the entry at a key's position is the one Lookup finds. */
  lemma LookupAt(es: seq<Entry>, i: nat)
    requires DistinctKeys(es) && i < |es|
    ensures IndexOf(es, es[i].key) == Some(i) && Lookup(es, es[i].key) == Some(es[i].value)
  {
  }

  /** putIfAbsent(k, v): an absent key is appended; a key mapped to null gets
      `v` in its place; any other mapping is kept. */
  function PutIfAbsentEntries(es: seq<Entry>, k: string, v: ParamValue): seq<Entry> {
    match IndexOf(es, k)
    case None => es + [Entry(k, v)]
    case Some(i) => if es[i].value.NullValue? then es[i := Entry(k, v)] else es
  }

  /** After putIfAbsent the key maps to its old value if that was non-null,
      and to `v` otherwise; every other key keeps its mapping. */
  lemma PutIfAbsentLookup(es: seq<Entry>, k: string, v: ParamValue, other: string)
    requires DistinctKeys(es) && other != k
    ensures var old_ := Lookup(es, k);
      Lookup(PutIfAbsentEntries(es, k, v), k) == (if old_.Some? && !old_.value.NullValue? then old_ else Some(v))
    ensures Lookup(PutIfAbsentEntries(es, k, v), other) == Lookup(es, other)
  {
    var r := PutIfAbsentEntries(es, k, v);
    PutIfAbsentKeepsDistinct(es, k, v);
    match IndexOf(es, k) {
      case None =>
        LookupAt(r, |es|);
        match IndexOf(es, other) {
          case None =>
            assert forall j :: 0 <= j < |r| ==> r[j].key != other;
          case Some(i) =>
            LookupAt(r, i);
        }
      case Some(i) =>
        LookupAt(r, i);
        match IndexOf(es, other) {
          case None =>
          case Some(o) =>
            LookupAt(r, o);
        }
    }
  }

  /** putIfAbsent keeps the keys distinct. */
  lemma PutIfAbsentKeepsDistinct(es: seq<Entry>, k: string, v: ParamValue)
    requires DistinctKeys(es)
    ensures DistinctKeys(PutIfAbsentEntries(es, k, v))
  {
  }

  /** The order of the entries: an absent key comes last and the others keep
      their order and their values; a present key changes at most its own
      value, in its own place. */
  lemma PutIfAbsentOrder(es: seq<Entry>, k: string, v: ParamValue)
    ensures var r := PutIfAbsentEntries(es, k, v);
      (k !in Keys(es) ==> |r| == |es| + 1 && r[..|es|] == es && r[|es|] == Entry(k, v)) &&
      (k in Keys(es) ==> Keys(r) == Keys(es) && forall i :: 0 <= i < |es| && es[i].key != k ==> r[i] == es[i])
  {
    var r := PutIfAbsentEntries(es, k, v);
    if k !in Keys(es) {
      assert r[..|es|] == es;
    } else {
      var i :| 0 <= i < |es| && Keys(es)[i] == k;
      assert IndexOf(es, k).Some?;
    }
  }

  /** A second putIfAbsent of the same key and value changes nothing. */
  lemma PutIfAbsentIdempotent(es: seq<Entry>, k: string, v: ParamValue)
    ensures PutIfAbsentEntries(PutIfAbsentEntries(es, k, v), k, v) == PutIfAbsentEntries(es, k, v)
  {
    var once := PutIfAbsentEntries(es, k, v);
    match IndexOf(es, k) {
      case None =>
        assert once[|es|].key == k && forall j :: 0 <= j < |es| ==> once[j] == es[j];
        assert IndexOf(once, k) == Some(|es|);
        assert once[|es| := Entry(k, v)] == once;
      case Some(i) =>
        if es[i].value.NullValue? {
          assert once[i].key == k && forall j :: 0 <= j < i ==> once[j] == es[j];
          assert IndexOf(once, k) == Some(i);
          assert once[i := Entry(k, v)] == once;
        }
    }
  }

  /** A key already mapped to a non-null value is not replaced by a later
      putIfAbsent, whatever its value. */
  lemma PutIfAbsentKeepsPresent(es: seq<Entry>, k: string, v: ParamValue)
    requires Lookup(es, k).Some? && !Lookup(es, k).value.NullValue?
    ensures PutIfAbsentEntries(es, k, v) == es
  {
  }

  /** A LinkedHashMap<String, Object> of parameters. */
  class OrderedParams {
    var entries: seq<Entry>

    ghost predicate Valid()
      reads this
    {
      DistinctKeys(entries)
    }

    /** new LinkedHashMap<>(source): the same entries in the same order. */
    constructor CopyOf(source: seq<Entry>)
      requires DistinctKeys(source)
      ensures Valid() && entries == source
    {
      entries := source;
    }

    method PutIfAbsent(k: string, v: ParamValue)
      requires Valid()
      modifies this
      ensures Valid() && entries == PutIfAbsentEntries(old(entries), k, v)
    {
      PutIfAbsentKeepsDistinct(entries, k, v);
      entries := PutIfAbsentEntries(entries, k, v);
    }
  }
}
