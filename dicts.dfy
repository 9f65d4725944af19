/**
 * The dictionary builders: both start from an empty dict and, object by
 * object, store the object under a string key, so that a later object with
 * the same key overwrites an earlier one.
 */
module Dicts {
  import opened Text

  /** The dict that storing `objs` under `key`, left to right, leaves behind. */
  function Indexed<T>(objs: seq<T>, key: T -> string): map<string, T>
    decreases |objs|
  {
    if objs == [] then map[]
    else Indexed(objs[..|objs| - 1], key)[key(objs[|objs| - 1]) := objs[|objs| - 1]]
  }

  /** The keys are exactly the keys of the objects. */
  lemma {:induction false} IndexedKeys<T>(objs: seq<T>, key: T -> string)
    ensures Indexed(objs, key).Keys == set o | o in objs :: key(o)
    decreases |objs|
  {
    if objs != [] {
      var init := objs[..|objs| - 1];
      IndexedKeys(init, key);
      assert objs == init + [objs[|objs| - 1]];
    }
  }

  /** Every value is an object of the input stored under its own key. */
  lemma {:induction false} IndexedValues<T>(objs: seq<T>, key: T -> string)
    ensures forall k :: k in Indexed(objs, key) ==> Indexed(objs, key)[k] in objs && key(Indexed(objs, key)[k]) == k
    decreases |objs|
  {
    if objs != [] {
      var init := objs[..|objs| - 1];
      IndexedValues(init, key);
      assert objs == init + [objs[|objs| - 1]];
    }
  }

  /** The last object with a given key is the one stored under it. */
  lemma {:induction false} IndexedLastWins<T>(objs: seq<T>, key: T -> string, i: nat)
    requires i < |objs|
    requires forall j :: i < j < |objs| ==> key(objs[j]) != key(objs[i])
    ensures key(objs[i]) in Indexed(objs, key) && Indexed(objs, key)[key(objs[i])] == objs[i]
    decreases |objs|
  {
    if i < |objs| - 1 {
      var init := objs[..|objs| - 1];
      assert forall j :: i < j < |init| ==> init[j] == objs[j];
      IndexedLastWins(init, key, i);
    }
  }

  /** There are never more entries than objects, and exactly as many when no two keys coincide. */
  lemma {:induction false} IndexedSize<T>(objs: seq<T>, key: T -> string)
    ensures |Indexed(objs, key)| <= |objs|
    ensures (forall i, j :: 0 <= i < j < |objs| ==> key(objs[i]) != key(objs[j])) ==> |Indexed(objs, key)| == |objs|
    decreases |objs|
  {
    if objs != [] {
      var init := objs[..|objs| - 1];
      var last := objs[|objs| - 1];
      IndexedSize(init, key);
      IndexedKeys(init, key);
      if forall i, j :: 0 <= i < j < |objs| ==> key(objs[i]) != key(objs[j]) {
        assert forall i, j :: 0 <= i < j < |init| ==> key(init[i]) != key(init[j]) by {
          forall i, j | 0 <= i < j < |init| ensures key(init[i]) != key(init[j]) {
            assert init[i] == objs[i] && init[j] == objs[j];
          }
        }
      }
    }
  }

  /**
   * `get_dict_by_related(query, related)`: `key` is `str(getattr(obj, related))`.
   * The result maps each key to the last object that has it (not the reverse
   * mapping that the function's documentation describes).
   */
  method GetDictByRelated<T>(query: seq<T>, key: T -> string) returns (objectDict: map<string, T>)
    ensures objectDict == Indexed(query, key)
  {
    objectDict := map[];
    for i := 0 to |query|
      invariant objectDict == Indexed(query[..i], key)
    {
      var obj := query[i];
      assert query[..i + 1][..i] == query[..i];
      objectDict := objectDict[key(obj) := obj];
    }
    assert query[..|query|] == query;
  }

  /** Distinct primary keys along a sequence of rows. */
  predicate DistinctPks<T>(rows: seq<T>, pk: T -> nat) {
    forall i, j :: 0 <= i < j < |rows| ==> pk(rows[i]) != pk(rows[j])
  }

  /** `model.objects.filter(pk__in=ids)`: the rows whose key is among `ids`, in table order. */
  function FilterByPk<T(==)>(table: seq<T>, ids: seq<nat>, pk: T -> nat): (r: seq<T>)
    ensures forall o :: o in r ==> o in table && pk(o) in ids
    ensures forall o :: o in table && pk(o) in ids ==> o in r
    ensures DistinctPks(table, pk) ==> DistinctPks(r, pk)
  {
    if table == [] then []
    else
      var rest := FilterByPk(table[1..], ids, pk);
      assert DistinctPks(table, pk) ==> forall o :: o in rest ==> pk(o) != pk(table[0]);
      if pk(table[0]) in ids then [table[0]] + rest else rest
  }

  /** The query does not depend on the order or the repetitions of `ids`. */
  lemma {:induction false} FilterIgnoresRepeatedIds<T>(table: seq<T>, ids1: seq<nat>, ids2: seq<nat>, pk: T -> nat)
    requires forall x :: x in ids1 <==> x in ids2
    ensures FilterByPk(table, ids1, pk) == FilterByPk(table, ids2, pk)
  {
    if table != [] {
      FilterIgnoresRepeatedIds(table[1..], ids1, ids2, pk);
    }
  }

  /** The key `str(obj.id)` of a row. */
  function IdKey<T>(pk: T -> nat): T -> string {
    o => NatToString(pk(o))
  }

  /** `get_dict_by_ids(model, ids)`: `table` is the model's rows and `pk` their primary key. */
  method GetDictByIds<T(==)>(table: seq<T>, pk: T -> nat, ids: seq<nat>) returns (objectsDict: map<string, T>)
    ensures objectsDict == Indexed(FilterByPk(table, ids, pk), IdKey(pk))
  {
    objectsDict := map[];
    var query := FilterByPk(table, ids, pk);
    for i := 0 to |query|
      invariant objectsDict == Indexed(query[..i], IdKey(pk))
    {
      var obj := query[i];
      assert query[..i + 1][..i] == query[..i];
      objectsDict := objectsDict[NatToString(pk(obj)) := obj];
    }
    assert query[..|query|] == query;
  }

  /**
   * The id dict has exactly the keys `str(id)` of the stored rows whose id
   * was asked for; an asked id without a row gets no key; each value is
   * such a row, under the string of its own id.
   */
  lemma DictByIdsContents<T>(table: seq<T>, pk: T -> nat, ids: seq<nat>)
    ensures Indexed(FilterByPk(table, ids, pk), IdKey(pk)).Keys
              == set o | o in table && pk(o) in ids :: NatToString(pk(o))
    ensures forall id :: id in ids && (forall o :: o in table ==> pk(o) != id) ==>
              NatToString(id) !in Indexed(FilterByPk(table, ids, pk), IdKey(pk))
    ensures forall k :: k in Indexed(FilterByPk(table, ids, pk), IdKey(pk)) ==>
              var o := Indexed(FilterByPk(table, ids, pk), IdKey(pk))[k];
              o in table && pk(o) in ids && NatToString(pk(o)) == k
  {
    var query := FilterByPk(table, ids, pk);
    var d := Indexed(query, IdKey(pk));
    IndexedKeys(query, IdKey(pk));
    IndexedValues(query, IdKey(pk));
    assert d.Keys == set o | o in table && pk(o) in ids :: NatToString(pk(o)) by {
      assert forall o :: o in query ==> IdKey(pk)(o) == NatToString(pk(o));
    }
    forall id | id in ids && (forall o :: o in table ==> pk(o) != id) ensures NatToString(id) !in d {
      if NatToString(id) in d {
        var o := d[NatToString(id)];
        assert NatToString(pk(o)) == NatToString(id);
        NatToStringInjective(pk(o), id);
      }
    }
  }

  /** With distinct primary keys, the id dict has one entry per matching row, however often an id repeats. */
  lemma DictByIdsSize<T>(table: seq<T>, pk: T -> nat, ids: seq<nat>)
    requires DistinctPks(table, pk)
    ensures |Indexed(FilterByPk(table, ids, pk), IdKey(pk))| == |FilterByPk(table, ids, pk)|
  {
    var query := FilterByPk(table, ids, pk);
    forall i, j | 0 <= i < j < |query| ensures IdKey(pk)(query[i]) != IdKey(pk)(query[j]) {
      if NatToString(pk(query[i])) == NatToString(pk(query[j])) {
        NatToStringInjective(pk(query[i]), pk(query[j]));
      }
    }
    IndexedSize(query, IdKey(pk));
  }
}
