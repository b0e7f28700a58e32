/** `dict_merge`: the recursive merge of two JSON-like dicts, in which the second
    wins. The function as written diverges from what its tests expect; this module
    holds both the behaviour as written and the intended merge. */
module DictMerge {

  import opened Wrappers
  import opened Values
  import StringOrder

  // ---------------------------------------------------------------------------
  // As written
  // ---------------------------------------------------------------------------

  /** What `dict_merge` does as written: for two dicts, the loop reaches the first
      shared key and calls `dict_merge(a, b)` on the same two dicts again, which
      never ends and raises RecursionError; without a shared key the loop ends and
      the function falls off its end, returning None. Anything else gives `b`. */
  function DictMergeAsWritten(a: Value, b: Value): Result<Value> {
    if a.Obj? && b.Obj? then
      if a.fields.Keys * b.fields.Keys != {} then Err(RecursionError) else Ok(Null)
    else Ok(b)
  }

  /** `dict_merge` as written, `depth` being the frames left before Python's
      recursion limit. */
  method MergeAsWritten(a: Value, b: Value, depth: nat) returns (r: Result<Value>)
    ensures r == if depth == 0 then Err(RecursionError) else DictMergeAsWritten(a, b)
    decreases depth
  {
    if depth == 0 {
      return Err(RecursionError);
    }
    if a.Obj? && b.Obj? {
      var keys := StringOrder.Sorted(a.fields.Keys + b.fields.Keys);
      var retval: map<string, Value> := map[];
      var i := 0;
      while i < |keys|
        invariant 0 <= i <= |keys|
        invariant forall j :: 0 <= j < i ==> keys[j] !in a.fields || keys[j] !in b.fields
      {
        var key := keys[i];
        if key in a.fields && key in b.fields {
          var sub := MergeAsWritten(a, b, depth - 1);
          // The call is on the same two dicts, so it raises too.
          assert key in a.fields.Keys * b.fields.Keys;
          assert sub == Err(RecursionError);
          return sub;
        } else if key in a.fields {
          retval := retval[key := a];
        } else {
          retval := retval[key := b];
        }
        i := i + 1;
      }
      assert StringOrder.Elements(keys) == a.fields.Keys + b.fields.Keys;
      return Ok(Null);
    }
    return Ok(b);
  }

  /** The discrepancy with the tests: merging two empty dicts gives None instead of
      `{}`, and merging two dicts that share a key raises instead of giving the
      merge the tests expect. */
  lemma AsWrittenDiverges()
    ensures DictMergeAsWritten(Obj(map[]), Obj(map[])) == Ok(Null)
    ensures DictMerge(Obj(map[]), Obj(map[])) == Obj(map[])
    ensures DictMergeAsWritten(DictA(), DictB()) == Err(RecursionError)
    ensures DictMerge(DictA(), DictB()) == Obj(map["key1" := Str("value1"), "key2" := Str("new_value2"), "key3" := Str("value3")])
  {
    assert "key2" in DictA().fields.Keys * DictB().fields.Keys;
    TestNonEmptyDicts();
  }

  // ---------------------------------------------------------------------------
  // The intended merge
  // ---------------------------------------------------------------------------

  /** The merge the tests expect: for two dicts, every key of either; a key of both
      merges the two values recursively; a key of one keeps its value. Anything else
      gives `b`. */
  function DictMerge(a: Value, b: Value): (r: Value)
    decreases a
    ensures !(a.Obj? && b.Obj?) ==> r == b
    ensures a.Obj? && b.Obj? ==> r.Obj? && r.fields.Keys == a.fields.Keys + b.fields.Keys
  {
    if a.Obj? && b.Obj? then
      Obj(map k | k in a.fields.Keys + b.fields.Keys ::
        if k in a.fields && k in b.fields then DictMerge(a.fields[k], b.fields[k])
        else if k in a.fields then a.fields[k]
        else b.fields[k])
    else b
  }

  /** `b` wins on every key it holds, unless both values are dicts, which merge;
      a key only `a` holds keeps `a`'s value. */
  lemma MergeEntries(a: Value, b: Value, k: string)
    requires a.Obj? && b.Obj? && (k in a.fields || k in b.fields)
    ensures var r := DictMerge(a, b).fields[k];
      && (k in b.fields && !(k in a.fields && a.fields[k].Obj? && b.fields[k].Obj?) ==> r == b.fields[k])
      && (k !in b.fields ==> r == a.fields[k])
      && (k in a.fields && k in b.fields ==> r == DictMerge(a.fields[k], b.fields[k]))
  {
  }

  /** The empty dict is neutral on the left for every value, and on the right for
      dicts. */
  lemma MergeEmpty(v: Value)
    ensures DictMerge(Obj(map[]), v) == v
    ensures v.Obj? ==> DictMerge(v, Obj(map[])) == v
  {
    if v.Obj? {
      assert DictMerge(Obj(map[]), v).fields == v.fields;
      assert DictMerge(v, Obj(map[])).fields == v.fields;
    }
  }

  /** Merging a value with itself gives it back. */
  lemma {:induction false} MergeIdempotent(v: Value)
    ensures DictMerge(v, v) == v
    decreases v
  {
    if v.Obj? {
      forall k | k in v.fields ensures DictMerge(v, v).fields[k] == v.fields[k] {
        MergeIdempotent(v.fields[k]);
      }
      assert DictMerge(v, v).fields == v.fields;
    }
  }

  /** The value the merge of two dicts holds under one of their keys. */
  function MergedValue(a: map<string, Value>, b: map<string, Value>, k: string): Value
    requires k in a || k in b
  {
    if k in a && k in b then DictMerge(a[k], b[k])
    else if k in a then a[k]
    else b[k]
  }

  /** Every key of `m` is a key of one of the two dicts and holds its merged value. */
  predicate MergedEntries(a: map<string, Value>, b: map<string, Value>, m: map<string, Value>) {
    forall k :: k in m ==> (k in a || k in b) && m[k] == MergedValue(a, b, k)
  }

  /** The first `i` keys are filled in, each with its merged value. */
  predicate FilledTo(a: map<string, Value>, b: map<string, Value>, keys: seq<string>, i: nat, m: map<string, Value>)
    requires i <= |keys|
  {
    (forall j :: 0 <= j < i ==> keys[j] in m) && MergedEntries(a, b, m)
  }

  /** Filling in the next key with its merged value keeps the entries merged. */
  lemma MergeStep(a: map<string, Value>, b: map<string, Value>, keys: seq<string>, i: nat, m: map<string, Value>, value: Value)
    requires i < |keys| && FilledTo(a, b, keys, i, m)
    requires (keys[i] in a || keys[i] in b) && value == MergedValue(a, b, keys[i])
    ensures FilledTo(a, b, keys, i + 1, m[keys[i] := value])
  {
  }

  /** A dict with the union of the keys, each holding its merged value, is the
      merge. */
  lemma MergeFromEntries(a: Value, b: Value, m: map<string, Value>)
    requires a.Obj? && b.Obj?
    requires a.fields.Keys + b.fields.Keys <= m.Keys
    requires MergedEntries(a.fields, b.fields, m)
    ensures DictMerge(a, b) == Obj(m)
  {
    assert m.Keys == a.fields.Keys + b.fields.Keys;
    assert DictMerge(a, b).fields == m;
  }

  /** The loop form of the intended merge: the sorted union of the keys, filled one
      key at a time, a shared key by a recursive call on the two values. */
  method Merge(a: Value, b: Value) returns (r: Value)
    ensures r == DictMerge(a, b)
    decreases a
  {
    if !(a.Obj? && b.Obj?) {
      return b;
    }
    var keys := StringOrder.Sorted(a.fields.Keys + b.fields.Keys);
    var retval: map<string, Value> := map[];
    var i := 0;
    while i < |keys|
      invariant 0 <= i <= |keys|
      invariant FilledTo(a.fields, b.fields, keys, i, retval)
    {
      var key := keys[i];
      assert key in StringOrder.Elements(keys);
      var value;
      if key in a.fields && key in b.fields {
        value := Merge(a.fields[key], b.fields[key]);
      } else if key in a.fields {
        value := a.fields[key];
      } else {
        value := b.fields[key];
      }
      MergeStep(a.fields, b.fields, keys, i, retval, value);
      retval := retval[key := value];
      i := i + 1;
    }
    forall k | k in a.fields.Keys + b.fields.Keys ensures k in retval {
      assert k in StringOrder.Elements(keys);
    }
    MergeFromEntries(a, b, retval);
    r := Obj(retval);
  }

  // ---------------------------------------------------------------------------
  // The cases of the tests
  // ---------------------------------------------------------------------------

  function DictA(): Value {
    Obj(map["key1" := Str("value1"), "key2" := Str("value2")])
  }

  function DictB(): Value {
    Obj(map["key2" := Str("new_value2"), "key3" := Str("value3")])
  }

  /** Two flat dicts: the union of the keys, `b` winning on `key2`. */
  lemma TestNonEmptyDicts()
    ensures DictMerge(DictA(), DictB()) ==
      Obj(map["key1" := Str("value1"), "key2" := Str("new_value2"), "key3" := Str("value3")])
  {
    var r := DictMerge(DictA(), DictB());
    var expected := map["key1" := Str("value1"), "key2" := Str("new_value2"), "key3" := Str("value3")];
    assert r.fields.Keys == expected.Keys;
    assert r.fields == expected;
  }

  /** Nested dicts merge recursively. */
  lemma TestNestedDicts()
    ensures DictMerge(
      Obj(map["key1" := Obj(map["subkey1" := Str("subvalue1")]), "key2" := Str("value2")]),
      Obj(map["key1" := Obj(map["subkey1" := Str("new_subvalue1")]), "key3" := Str("value3")])) ==
      Obj(map["key1" := Obj(map["subkey1" := Str("new_subvalue1")]), "key2" := Str("value2"), "key3" := Str("value3")])
  {
    var inner := DictMerge(Obj(map["subkey1" := Str("subvalue1")]), Obj(map["subkey1" := Str("new_subvalue1")]));
    assert inner.fields.Keys == {"subkey1"};
    assert inner == Obj(map["subkey1" := Str("new_subvalue1")]);
    var r := DictMerge(
      Obj(map["key1" := Obj(map["subkey1" := Str("subvalue1")]), "key2" := Str("value2")]),
      Obj(map["key1" := Obj(map["subkey1" := Str("new_subvalue1")]), "key3" := Str("value3")]));
    var expected := map["key1" := Obj(map["subkey1" := Str("new_subvalue1")]), "key2" := Str("value2"), "key3" := Str("value3")];
    assert r.fields.Keys == expected.Keys;
    assert r.fields == expected;
  }

  /** Empty dicts, and arguments that are not dicts. */
  lemma TestEdgeCases()
    ensures DictMerge(Obj(map[]), Obj(map[])) == Obj(map[])
    ensures DictMerge(Obj(map[]), DictA()) == DictA()
    ensures DictMerge(DictA(), Obj(map[])) == DictA()
    ensures DictMerge(Str("not_a_dict"), DictA()) == DictA()
    ensures DictMerge(DictA(), Str("not_a_dict")) == Str("not_a_dict")
  {
    MergeEmpty(Obj(map[]));
    MergeEmpty(DictA());
  }
}
