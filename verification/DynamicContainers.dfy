/**
  The two dynamic containers that keep a hash index beside their vector: `DynamicMap`, whose `remove`
  leaves the index stale, and `DynamicStruct`, which never removes.
 */
module DynamicContainers {
  import opened Collections
  import opened ReflectValues
  import opened ReflectOps

  datatype IndexPanic = IndexOutOfBounds

  type Entry = (Key, Value)

  function EntryKeys(values: seq<Entry>): seq<Key> {
    seq(|values|, k requires 0 <= k < |values| => values[k].0)
  }

  function EntryValues(values: seq<Entry>): seq<Value> {
    seq(|values|, k requires 0 <= k < |values| => values[k].1)
  }

  /** The index maps each key to its position, and nothing else. */
  ghost predicate IndexExact<K>(keys: seq<K>, indices: map<K, nat>) {
    && (forall key :: key in indices ==> indices[key] < |keys| && keys[indices[key]] == key)
    && (forall k :: 0 <= k < |keys| ==> keys[k] in indices && indices[keys[k]] == k)
  }

  lemma ExactIndexFinds<K>(keys: seq<K>, indices: map<K, nat>, key: K)
    requires IndexExact(keys, indices)
    ensures NoDuplicates(keys)
    ensures IndexOf(keys, key) == if key in indices then Some(indices[key]) else None
  {
    forall i, j | 0 <= i < j < |keys|
      ensures keys[i] != keys[j]
    {
      assert indices[keys[i]] == i && indices[keys[j]] == j;
    }
    if key in indices {
      IndexIsUnique(keys, indices[key]);
    }
  }

  /** The finite map that a list of entries stands for. */
  ghost function Model(values: seq<Entry>): map<Key, Value> {
    if values == [] then map[] else Model(values[..|values| - 1])[values[|values| - 1].0 := values[|values| - 1].1]
  }

  lemma {:induction false} ModelFinds(values: seq<Entry>, key: Key)
    requires NoDuplicates(EntryKeys(values))
    ensures key in Model(values) <==> key in EntryKeys(values)
    ensures forall k :: 0 <= k < |values| && values[k].0 == key ==>
              key in Model(values) && Model(values)[key] == values[k].1
  {
    if values != [] {
      var n := |values| - 1;
      var keys := EntryKeys(values);
      assert EntryKeys(values[..n]) == keys[..n];
      ModelFinds(values[..n], key);
      assert keys == keys[..n] + [values[n].0];
      forall k | 0 <= k < |values| && values[k].0 == key
        ensures key in Model(values) && Model(values)[key] == values[k].1
      {
        if k < n {
          assert values[..n][k] == values[k] && keys[k] != keys[n];
        }
      }
    }
  }

  lemma {:induction false} ModelIs(values: seq<Entry>, m: map<Key, Value>)
    requires NoDuplicates(EntryKeys(values))
    requires forall k :: 0 <= k < |values| ==> values[k].0 in m && m[values[k].0] == values[k].1
    requires forall key :: key in m ==> key in EntryKeys(values)
    ensures Model(values) == m
  {
    forall key: Key
      ensures key in Model(values) <==> key in m
      ensures key in m ==> Model(values)[key] == m[key]
    {
      ModelFinds(values, key);
      if key in EntryKeys(values) {
        var k :| 0 <= k < |values| && EntryKeys(values)[k] == key;
      }
    }
  }

  class DynamicMap {
    var values: seq<Entry>
    var indices: map<Key, nat>

    ghost predicate Valid()
      reads this
    {
      IndexExact(EntryKeys(values), indices)
    }

    ghost function AsValue(): Value
      reads this
    {
      Map(EntryKeys(values), EntryValues(values))
    }

    constructor ()
      ensures Valid() && values == [] && indices == map[]
    {
      values, indices := [], map[];
    }

    /** `get`; the index may point beyond the vector. */
    function Get(key: Key): (r: Result<Option<Value>, IndexPanic>)
      reads this
      ensures Valid() ==>
                r == Ok(match IndexOf(EntryKeys(values), key)
                        case Some(k) => Some(values[k].1)
                        case None => None)
    {
      assert Valid() ==> IndexOf(EntryKeys(values), key) == if key in indices then Some(indices[key]) else None by {
        if Valid() {
          ExactIndexFinds(EntryKeys(values), indices, key);
        }
      }
      if key !in indices then Ok(None)
      else if indices[key] < |values| then Ok(Some(values[indices[key]].1))
      else Err(IndexOutOfBounds)
    }

    /** `insert_boxed`: an old key keeps its place, a new one goes to the end; the old value is returned. */
    method InsertBoxed(key: Key, value: Value) returns (r: Result<Option<Value>, IndexPanic>)
      modifies this
      ensures old(Valid()) ==> Valid() && r == old(Get(key))
      ensures old(Valid()) ==> Model(values) == old(Model(values))[key := value]
      ensures old(Valid()) ==> EntryKeys(values) == old(EntryKeys(values)) + if key in old(indices) then [] else [key]
      ensures old(Valid()) ==>
                forall k :: 0 <= k < |old(values)| ==>
                  values[k] == if old(values)[k].0 == key then (key, value) else old(values)[k]
      ensures key !in old(indices) ==>
                values == old(values) + [(key, value)] && indices == old(indices)[key := |old(values)|]
    {
      ghost var before, keys, index := values, EntryKeys(values), indices;
      if key in indices {
        var k := indices[key];
        if k >= |values| {
          return Err(IndexOutOfBounds);
        }
        r := Ok(Some(values[k].1));
        values := values[k := (values[k].0, value)];
        assert EntryKeys(values) == keys;
      } else {
        r := Ok(None);
        indices := indices[key := |values|];
        values := values + [(key, value)];
        assert EntryKeys(values) == keys + [key];
      }
      if IndexExact(keys, index) {
        ExactIndexFinds(keys, index, key);
        InsertedModel(before, values, index, key, value);
      }
    }

    /** `remove`: later entries move down, but the index is not told. */
    method Remove(key: Key) returns (r: Result<Option<Value>, IndexPanic>)
      modifies this
      ensures old(Valid()) ==> r == old(Get(key))
      // the index survives exactly when nothing was removed or the last entry was
      ensures old(Valid()) ==>
                (Valid() <==> key !in old(indices) || old(indices[key]) == |old(values)| - 1)
      ensures old(Valid()) && key in old(indices) ==>
                var k := old(indices[key]);
                values == old(values)[..k] + old(values)[k + 1..] && indices == old(indices) - {key}
      ensures key !in old(indices) ==> values == old(values) && indices == old(indices)
    {
      if key !in indices {
        return Ok(None);
      }
      ghost var keys, index := EntryKeys(values), indices;
      var k := indices[key];
      indices := indices - {key};
      if k >= |values| {
        return Err(IndexOutOfBounds);
      }
      r := Ok(Some(values[k].1));
      values := values[..k] + values[k + 1..];
      if IndexExact(keys, index) {
        assert EntryKeys(values) == keys[..k] + keys[k + 1..];
        RemovalKeepsIndexIff(keys, index, key);
      }
    }

    /** `clone_dynamic`. */
    method CloneDynamic() returns (m: DynamicMap)
      ensures fresh(m)
      ensures m.values == values && m.indices == indices
      ensures Valid() ==> m.Valid()
    {
      m := new DynamicMap();
      var cloned: seq<Entry> := [];
      for k := 0 to |values|
        invariant cloned == values[..k]
      {
        CloneIsSame(values[k].1);
        cloned := cloned + [(values[k].0, CloneValue(values[k].1))];
      }
      m.values, m.indices := cloned, indices;
    }

    /** `map_try_apply` on this map. */
    method TryApply(b: Value) returns (error: Option<ApplyError>)
      requires Valid() && Wf(AsValue()) && Wf(b)
      modifies this
      ensures Valid() && Outcome(AsValue(), error) == ReflectValues.TryApply(old(AsValue()), b)
    {
      hide Merge, ReflectValues.MergeOne, Wf, IndexExact;
      if !b.Map? {
        return Some(MismatchedKinds(KindOf(b), MapKind));
      }
      ghost var keys, children := EntryKeys(values), EntryValues(values);
      MapIsMerge(keys, children, b);
      ghost var labels, patchLabels := KeyLabels(keys), KeyLabels(b.keys);
      MergeNothing(true, labels, children, patchLabels, b.children);
      error := None;
      for k := 0 to |b.keys|
        invariant Valid() && AllWf(EntryValues(values)) && error.None?
        invariant Merge(true, labels, children, patchLabels[..k], b.children[..k])
                  == Merged(KeyLabels(EntryKeys(values)), EntryValues(values), None)
      {
        error := ApplyEntry(keys, children, b, k);
        if error.Some? {
          ErrorsStick(true, labels, children, patchLabels, b.children, k + 1);
          return;
        }
      }
      assert patchLabels[..|b.keys|] == patchLabels && b.children[..|b.keys|] == b.children;
    }

    /** One round of `map_try_apply`. */
    method ApplyEntry(ghost keys: seq<Key>, ghost children: seq<Value>, b: Value, k: nat)
      returns (error: Option<ApplyError>)
      requires Valid() && AllWf(EntryValues(values)) && |keys| == |children|
      requires b.Map? && |b.keys| == |b.children| && k < |b.keys| && AllWf(b.children)
      requires Merge(true, KeyLabels(keys), children, KeyLabels(b.keys)[..k], b.children[..k])
               == Merged(KeyLabels(EntryKeys(values)), EntryValues(values), None)
      modifies this
      ensures Valid() && AllWf(EntryValues(values))
      ensures Merge(true, KeyLabels(keys), children, KeyLabels(b.keys)[..k + 1], b.children[..k + 1])
              == Merged(KeyLabels(EntryKeys(values)), EntryValues(values), error)
    {
      hide Merge, Wf, ReflectValues.TryApply;
      var key := b.keys[k];
      ghost var before := values;
      MergeSnoc(true, KeyLabels(keys), children, KeyLabels(b.keys), b.children, k);
      KeyIndex(EntryKeys(values), key);
      ExactIndexFinds(EntryKeys(values), indices, key);
      if key in indices {
        var i := indices[key];
        assert EntryValues(values)[i] == values[i].1;
        PatchKeepsWf(values[i].1, b.children[k]);
        var value, e := ApplyValue(values[i].1, b.children[k]);
        values := values[i := (values[i].0, value)];
        assert EntryKeys(values) == EntryKeys(before);
        assert EntryValues(values) == EntryValues(before)[i := value];
        error := e;
      } else {
        CloneIsSame(b.children[k]);
        var _ := InsertBoxed(key, CloneValue(b.children[k]));
        assert EntryValues(values) == EntryValues(before) + [b.children[k]];
        assert KeyLabels(EntryKeys(values)) == KeyLabels(EntryKeys(before)) + [KeyLabel(key)];
        error := None;
      }
    }
  }

  lemma MapIsMerge(keys: seq<Key>, children: seq<Value>, b: Value)
    requires Wf(Map(keys, children)) && Wf(b) && b.Map?
    ensures |keys| == |children| && |b.keys| == |b.children| && AllWf(children) && AllWf(b.children)
    ensures var m := Merge(true, KeyLabels(keys), children, KeyLabels(b.keys), b.children);
            ReflectValues.TryApply(Map(keys, children), b) == Outcome(Map(KeysOf(m.labels), m.children), m.error)
    ensures forall ks :: KeysOf(KeyLabels(ks)) == ks
  {
    LabelsByKind(Map(keys, children));
    LabelsByKind(b);
    hide Merge;
  }

  lemma InsertedIndex(before: seq<Entry>, after: seq<Entry>, index: map<Key, nat>, key: Key, value: Value)
    requires IndexExact(EntryKeys(before), index)
    requires after == if key in index && index[key] < |before| then before[index[key] := (before[index[key]].0, value)]
                      else before + [(key, value)]
    ensures IndexExact(EntryKeys(after), if key in index then index else index[key := |before|])
    ensures EntryKeys(after) == EntryKeys(before) + if key in index then [] else [key]
    ensures forall k :: 0 <= k < |before| ==> after[k] == if before[k].0 == key then (key, value) else before[k]
  {
    forall k | 0 <= k < |before|
      ensures after[k] == if before[k].0 == key then (key, value) else before[k]
    {
      assert EntryKeys(before)[k] == before[k].0;
      if key in index {
        assert EntryKeys(before)[index[key]] == before[index[key]].0;
      }
    }
    assert EntryKeys(after) == EntryKeys(before) + if key in index then [] else [key];
  }

  lemma {:induction false} InsertedModel(before: seq<Entry>, after: seq<Entry>, index: map<Key, nat>, key: Key,
                                         value: Value)
    requires IndexExact(EntryKeys(before), index)
    requires after == if key in index && index[key] < |before| then before[index[key] := (before[index[key]].0, value)]
                      else before + [(key, value)]
    ensures IndexExact(EntryKeys(after), if key in index then index else index[key := |before|])
    ensures Model(after) == Model(before)[key := value]
    ensures forall k :: 0 <= k < |before| ==> after[k] == if before[k].0 == key then (key, value) else before[k]
  {
    var index' := if key in index then index else index[key := |before|];
    InsertedIndex(before, after, index, key, value);
    ExactIndexFinds(EntryKeys(before), index, key);
    ExactIndexFinds(EntryKeys(after), index', key);
    hide NoDuplicates, Model;
    var m := Model(before)[key := value];
    forall k | 0 <= k < |after|
      ensures after[k].0 in m && m[after[k].0] == after[k].1
    {
      assert EntryKeys(after)[k] == after[k].0;
      if k < |before| {
        ModelFinds(before, before[k].0);
        assert EntryKeys(before)[k] == before[k].0;
      }
    }
    forall x | x in m
      ensures x in EntryKeys(after)
    {
      ModelFinds(before, x);
      if x == key {
        assert EntryKeys(after)[index'[key]] == key;
      }
    }
    hide IndexExact, EntryKeys;
    ModelIs(after, m);
  }

  /** Removing the entry at position k leaves the index of every later entry one too high. */
  lemma RemovalKeepsIndexIff<K>(keys: seq<K>, index: map<K, nat>, key: K)
    requires IndexExact(keys, index) && key in index
    ensures IndexExact(keys[..index[key]] + keys[index[key] + 1..], index - {key}) <==> index[key] == |keys| - 1
  {
    var k := index[key];
    var rest, index' := keys[..k] + keys[k + 1..], index - {key};
    if k < |keys| - 1 {
      assert rest[k] == keys[k + 1] && index[keys[k + 1]] == k + 1;
      assert index'[rest[k]] == k + 1;
    } else {
      assert rest == keys[..k];
    }
  }

  /**
    Three entries, the first one removed: looking up the second key finds the third value, and looking up the
    third key panics.
   */
  method RemoveConfuses(v1: Value, v2: Value, v3: Value) returns (m: DynamicMap)
    ensures m.Get(Key(0, 2)) == Ok(Some(v3))
    ensures m.Get(Key(0, 3)) == Err(IndexOutOfBounds)
  {
    m := ThreeEntries(v1, v2, v3);
    hide IndexExact;
    var _ := m.Remove(Key(0, 1));
  }

  method ThreeEntries(v1: Value, v2: Value, v3: Value) returns (m: DynamicMap)
    ensures fresh(m) && m.Valid()
    ensures m.values == [(Key(0, 1), v1), (Key(0, 2), v2), (Key(0, 3), v3)]
    ensures m.indices == map[Key(0, 1) := 0, Key(0, 2) := 1, Key(0, 3) := 2]
  {
    hide IndexExact, EntryKeys, Model;
    m := new DynamicMap();
    var _ := m.InsertBoxed(Key(0, 1), v1);
    var _ := m.InsertBoxed(Key(0, 2), v2);
    var _ := m.InsertBoxed(Key(0, 3), v3);
  }

  // ---- DynamicStruct -------------------------------------------------------------------------

  class DynamicStruct {
    var fields: seq<Value>
    var fieldNames: seq<string>
    var fieldIndices: map<string, nat>

    ghost predicate Valid()
      reads this
    {
      |fields| == |fieldNames| && IndexExact(fieldNames, fieldIndices)
    }

    ghost function AsValue(): Value
      reads this
    {
      Struct(fieldNames, fields)
    }

    constructor ()
      ensures Valid() && fields == [] && fieldNames == []
    {
      fields, fieldNames, fieldIndices := [], [], map[];
    }

    /** `field`: the hash index finds what a search through the names would find. */
    function Field(name: string): (r: Option<Value>)
      requires Valid()
      reads this
      ensures r == match IndexOf(fieldNames, name)
                   case Some(k) => Some(fields[k])
                   case None => None
    {
      ExactIndexFinds(fieldNames, fieldIndices, name);
      if name in fieldIndices then Some(fields[fieldIndices[name]]) else None
    }

    /** `insert_boxed`: an existing field is overwritten in place, a new one goes to the end. */
    method InsertBoxed(name: string, value: Value)
      requires Valid()
      modifies this
      ensures Valid()
      ensures Field(name) == Some(value)
      ensures forall other: string :: other != name ==> Field(other) == old(Field(other))
      ensures fieldNames == old(fieldNames) + if name in old(fieldNames) then [] else [name]
    {
      ExactIndexFinds(fieldNames, fieldIndices, name);
      ghost var names, index, before := fieldNames, fieldIndices, fields;
      if name in fieldIndices {
        fields := fields[fieldIndices[name] := value];
      } else {
        fields := fields + [value];
        fieldIndices := fieldIndices[name := |fields| - 1];
        fieldNames := fieldNames + [name];
      }
      ExactIndexFinds(fieldNames, fieldIndices, name);
      forall other: string | other != name
        ensures Field(other) == old(Field(other))
      {
        ExactIndexFinds(names, index, other);
        ExactIndexFinds(fieldNames, fieldIndices, other);
      }
    }

    /** `clone_dynamic`. */
    method CloneDynamic() returns (s: DynamicStruct)
      requires Valid()
      ensures fresh(s) && s.Valid() && s.AsValue() == AsValue()
    {
      s := new DynamicStruct();
      CloneAllIsSame(fields);
      s.fields, s.fieldNames, s.fieldIndices := CloneAll(fields), fieldNames, fieldIndices;
    }

    /** `DynamicStruct::try_apply`. */
    method TryApply(b: Value) returns (error: Option<ApplyError>)
      requires Valid() && Wf(AsValue()) && Wf(b)
      modifies this`fields
      ensures Valid() && Outcome(AsValue(), error) == ReflectValues.TryApply(old(AsValue()), b)
    {
      hide Merge, Wf, IndexExact;
      if !b.Struct? {
        return Some(MismatchedKinds(KindOf(b), StructKind));
      }
      ghost var children := fields;
      StructIsMerge(fieldNames, children, b);
      ghost var labels, patchLabels := NameLabels(fieldNames), NameLabels(b.names);
      MergeNothing(false, labels, children, patchLabels, b.children);
      error := None;
      for k := 0 to |b.names|
        modifies this`fields
        invariant Valid() && AllWf(fields) && error.None?
        invariant Merge(false, labels, children, patchLabels[..k], b.children[..k]) == Merged(labels, fields, None)
      {
        error := ApplyField(children, b, k);
        if error.Some? {
          ErrorsStick(false, labels, children, patchLabels, b.children, k + 1);
          return;
        }
      }
      assert patchLabels[..|b.names|] == patchLabels && b.children[..|b.names|] == b.children;
    }

    /** One round of `try_apply`. */
    method ApplyField(ghost children: seq<Value>, b: Value, k: nat) returns (error: Option<ApplyError>)
      requires Valid() && AllWf(fields) && |fieldNames| == |children|
      requires b.Struct? && |b.names| == |b.children| && k < |b.names| && AllWf(b.children)
      requires Merge(false, NameLabels(fieldNames), children, NameLabels(b.names)[..k], b.children[..k])
               == Merged(NameLabels(fieldNames), fields, None)
      modifies this`fields
      ensures Valid() && AllWf(fields)
      ensures Merge(false, NameLabels(fieldNames), children, NameLabels(b.names)[..k + 1], b.children[..k + 1])
              == Merged(NameLabels(fieldNames), fields, error)
    {
      hide Merge, Wf, ReflectValues.TryApply;
      MergeSnoc(false, NameLabels(fieldNames), children, NameLabels(b.names), b.children, k);
      NameIndex(fieldNames, b.names[k]);
      ExactIndexFinds(fieldNames, fieldIndices, b.names[k]);
      error := None;
      if b.names[k] in fieldIndices {
        var i := fieldIndices[b.names[k]];
        PatchKeepsWf(fields[i], b.children[k]);
        var value, e := ApplyValue(fields[i], b.children[k]);
        fields := fields[i := value];
        error := e;
      }
    }
  }

  lemma StructIsMerge(names: seq<string>, children: seq<Value>, b: Value)
    requires Wf(Struct(names, children)) && Wf(b) && b.Struct?
    ensures |names| == |children| && |b.names| == |b.children| && AllWf(children) && AllWf(b.children)
    ensures var m := Merge(false, NameLabels(names), children, NameLabels(b.names), b.children);
            ReflectValues.TryApply(Struct(names, children), b) == Outcome(Struct(names, m.children), m.error)
  {
    LabelsByKind(Struct(names, children));
    LabelsByKind(b);
    hide Merge;
  }
}
