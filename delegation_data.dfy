/** Splicing a remote result into the local resolver: unwrapping the data by
    the number of selection levels, and layering the remote context data over
    the scoped context data. */
module DelegationData {
  import opened Common
  import opened StitchingTypes

  // ---------------------------------------------------------------------
  // ExtractData
  // ---------------------------------------------------------------------

  /** What ExtractData yields for `data` and `levels`: nothing for an empty
      map, else the first entry's value, followed down `levels - 1` more
      first entries when it is not null. */
  function Extracted(data: Dict, levels: int): Outcome<Value> {
    if |data| == 0 then Returned(Null)
    else if data[0].value == Null || levels <= 1 then Returned(data[0].value)
    else Descended(data[0].value, levels - 1)
  }

  /** Follows the first entry of the current map `n` times, starting from a
      non-null value. A value that is not a map cannot be cast, so the
      following `Count` dereferences null. */
  function Descended(obj: Value, n: nat): Outcome<Value>
    requires obj != Null
    decreases n
  {
    if n == 0 then Returned(obj)
    else if !obj.Map? then Throws(NullReference)
    else if |obj.entries| == 0 || obj.entries[0].value == Null then Returned(Null)
    else Descended(obj.entries[0].value, n - 1)
  }

  /** The loop of ExtractData, which reassigns `obj` once per level. */
  method ExtractData(data: Dict, levels: int) returns (r: Outcome<Value>)
    ensures r == Extracted(data, levels)
    ensures |data| == 0 ==> r == Returned(Null)
    ensures |data| > 0 && levels <= 1 ==> r == Returned(data[0].value)
  {
    if |data| == 0 {
      return Returned(Null);
    }
    var obj := data[0].value;
    if obj != Null && levels > 1 {
      var i := levels - 1;
      while i >= 1
        invariant 0 <= i <= levels - 1
        invariant obj != Null
        invariant Descended(obj, i) == Extracted(data, levels)
      {
        if !obj.Map? {
          return Throws(NullReference);
        }
        var current := obj.entries;
        obj := if |current| == 0 then Null else current[0].value;
        if obj == Null {
          return Returned(Null);
        }
        i := i - 1;
      }
    }
    return Returned(obj);
  }

  /** The value `v` wrapped in one single-entry map per key, outermost first:
      `Nest(["a", "b"], v)` is `{"a": {"b": v}}`. */
  function Nest(keys: seq<string>, v: Value): Value {
    if |keys| == 0 then v else Map([Entry(keys[0], Nest(keys[1..], v))])
  }

  lemma {:induction false} DescendedNest(keys: seq<string>, v: Value, extra: nat)
    requires Nest(keys, v) != Null
    ensures Descended(Nest(keys, v), |keys| + extra)
         == if v == Null then Returned(Null) else Descended(v, extra)
  {
    if |keys| > 0 {
      var inner := Nest(keys[1..], v);
      if inner == Null {
        assert keys[1..] == [] && v == Null;
      } else {
        DescendedNest(keys[1..], v, extra);
      }
    }
  }

  /** Unwrapping a nest of single-entry maps goes through every key and then
      on into the nested value. */
  lemma ExtractNested(keys: seq<string>, v: Value, extra: nat)
    requires |keys| >= 1
    ensures Extracted(Nest(keys, v).entries, |keys| + extra)
         == if v == Null then Returned(Null) else Descended(v, extra)
  {
    var data := Nest(keys, v).entries;
    var first := Nest(keys[1..], v);
    var n := |keys| + extra;
    assert data == [Entry(keys[0], first)];
    assert Extracted(data, n)
        == if first == Null || n <= 1 then Returned(first) else Descended(first, n - 1);
    if first == Null {
      assert keys[1..] == [] && v == Null;
    } else if n <= 1 {
      assert keys[1..] == [] && extra == 0 && first == v;
    } else {
      DescendedNest(keys[1..], v, extra);
    }
  }

  /** Unwrapping as many levels as there are keys gives back the nested
      value; unwrapping further stops with null at a null or at an empty
      map, and fails on anything else that is not a map. */
  lemma ExtractFromNested(keys: seq<string>, v: Value, extra: nat)
    requires |keys| >= 1
    ensures extra == 0 ==> Extracted(Nest(keys, v).entries, |keys|) == Returned(v)
    ensures v == Null ==> Extracted(Nest(keys, v).entries, |keys| + extra) == Returned(Null)
    ensures extra > 0 && v == Map([]) ==> Extracted(Nest(keys, v).entries, |keys| + extra) == Returned(Null)
    ensures extra > 0 && (v.Scalar? || v.List?) ==>
      Extracted(Nest(keys, v).entries, |keys| + extra) == Throws(NullReference)
  {
    ExtractNested(keys, v, extra);
    if v != Null && extra > 0 {
      assert Descended(v, extra) == if !v.Map? then Throws(NullReference)
        else if |v.entries| == 0 || v.entries[0].value == Null then Returned(Null)
        else Descended(v.entries[0].value, extra - 1);
    }
  }

  /** The two-level example: `{"a": {"b": "X"}}` unwrapped twice is `"X"`. */
  lemma ExtractTwoLevelsExample()
    ensures Extracted([Entry("a", Map([Entry("b", Scalar("X"))]))], 2) == Returned(Scalar("X"))
    ensures Extracted([], 2) == Returned(Null)
  {
  }

  // ---------------------------------------------------------------------
  // UpdateContextData
  // ---------------------------------------------------------------------

  /** The scoped context key under which the delegating schema's name is
      recorded (`WellKnownProperties.SchemaName`). */
  const SchemaNameKey: string := "SchemaName"

  /** The scoped context data after a delegation with remote context data
      `remote`. */
  function UpdateContextData(scoped: map<string, Value>, remote: map<string, Value>, schemaName: string)
    : map<string, Value>
  {
    if |remote| > 0 then scoped[SchemaNameKey := Scalar(schemaName)] + remote
    else scoped[SchemaNameKey := Scalar(schemaName)]
  }

  /** The override order: remote context data over the schema name entry
      over the scoped entries; with no remote context data only the schema
      name entry is set. */
  lemma UpdateContextDataLayers(scoped: map<string, Value>, remote: map<string, Value>, schemaName: string)
    ensures var r := UpdateContextData(scoped, remote, schemaName);
      && r.Keys == scoped.Keys + {SchemaNameKey} + remote.Keys
      && (forall k :: k in remote ==> r[k] == remote[k])
      && (SchemaNameKey !in remote ==> r[SchemaNameKey] == Scalar(schemaName))
      && (forall k :: k in scoped && k != SchemaNameKey && k !in remote ==> r[k] == scoped[k])
      && (|remote| == 0 ==> r == scoped[SchemaNameKey := Scalar(schemaName)])
  {
  }

  /** UpdateContextData as the code has it: `Builder.AddRange` of an
      ImmutableDictionary adds with "throw if the value differs", so a remote
      key that is already present with another value raises instead of
      overriding. */
  function UpdateContextDataAsWritten(scoped: map<string, Value>, remote: map<string, Value>, schemaName: string)
    : (r: Outcome<map<string, Value>>)
    ensures r.Throws? <==>
      exists k :: k in remote && k in scoped[SchemaNameKey := Scalar(schemaName)]
                  && scoped[SchemaNameKey := Scalar(schemaName)][k] != remote[k]
    ensures r.Returned? ==> r.value == UpdateContextData(scoped, remote, schemaName)
  {
    if |remote| > 0 then
      var builder := scoped[SchemaNameKey := Scalar(schemaName)];
      if exists k :: k in remote && k in builder && builder[k] != remote[k] then
        Throws(DuplicateKeyWithDifferentValue)
      else
        Returned(builder + remote)
    else
      Returned(scoped[SchemaNameKey := Scalar(schemaName)])
  }

  /** A second delegation whose remote context data repeats a key that an
      earlier one put into scope, with a new value, throws as written; the
      intended override keeps the new value. */
  lemma UpdateContextDataCollision()
    ensures UpdateContextDataAsWritten(map["origin" := Scalar("a")], map["origin" := Scalar("b")], "s")
         == Throws(DuplicateKeyWithDifferentValue)
    ensures UpdateContextData(map["origin" := Scalar("a")], map["origin" := Scalar("b")], "s")["origin"]
         == Scalar("b")
  {
    var builder := map["origin" := Scalar("a")][SchemaNameKey := Scalar("s")];
    assert "origin" in builder && builder["origin"] != Scalar("b");
  }
}
