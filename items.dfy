/**
 * `#[derive(Item)]`: the partition-key check of `make_dynomite_item`, the key
 * inserters of the generated `Item::key`, and the generated `{Name}Key` struct.
 */
module Items {
  import opened Wrappers
  import opened Values
  import opened Fields
  import opened Serializer
  import opened Deserializer
  import opened RoundTripLaws

  /** A struct declaration with named fields. */
  datatype Record<!V> = Record(name: string, fields: seq<Field<V>>)

  /** The positions of the fields carrying tag `t`. */
  ghost function Tagged<V>(fs: seq<Field<V>>, t: Tag): set<nat>
  {
    set i: nat | i < |fs| && Has(fs[i], t)
  }

  /** Every position moved one place right. */
  ghost function Shifted(ps: set<nat>): set<nat>
  {
    set i | i in ps :: i + 1
  }

  /** Moving every position one place right keeps the number of positions. */
  lemma {:induction false} ShiftedCard(ps: set<nat>)
    ensures |Shifted(ps)| == |ps|
    decreases |ps|
  {
    if ps != {} {
      var x :| x in ps;
      var smaller := ps - {x};
      ShiftedCard(smaller);
      assert x + 1 !in Shifted(smaller);
      assert Shifted(ps) == Shifted(smaller) + {x + 1} by {
        forall y | y in Shifted(ps) ensures y in Shifted(smaller) + {x + 1} {
          var i :| i in ps && y == i + 1;
          if i != x { assert i in smaller; }
        }
      }
    }
  }

  /** `fields.iter().filter(|f| f has tag t).count()`: the number of fields with the tag. */
  function CountWith<V>(fs: seq<Field<V>>, t: Tag): (n: nat)
    ensures n == |Tagged(fs, t)|
    ensures n <= |fs|
    ensures n == 0 <==> forall i :: 0 <= i < |fs| ==> !Has(fs[i], t)
  {
    if fs == [] then
      assert Tagged(fs, t) == {};
      0
    else
      TaggedCons(fs, t);
      (if Has(fs[0], t) then 1 else 0) + CountWith(fs[1..], t)
  }

  /** The tagged positions of `fs`: position 0 if tagged, then those of `fs[1..]` moved
      one place right. */
  lemma TaggedCons<V>(fs: seq<Field<V>>, t: Tag)
    requires fs != []
    ensures |Tagged(fs, t)| == (if Has(fs[0], t) then 1 else 0) + |Tagged(fs[1..], t)|
  {
    var tail := Tagged(fs[1..], t);
    ShiftedCard(tail);
    TaggedSplit(fs, t);
    assert 0 !in Shifted(tail);
  }

  lemma TaggedSplit<V>(fs: seq<Field<V>>, t: Tag)
    requires fs != []
    ensures Tagged(fs, t) == (if Has(fs[0], t) then {0} else {}) + Shifted(Tagged(fs[1..], t))
  {
    var tail := Tagged(fs[1..], t);
    forall i | i in Tagged(fs, t) && i != 0 ensures i in Shifted(tail) {
      assert fs[i] == fs[1..][i - 1];
      assert i - 1 in tail;
    }
    forall i | i in Shifted(tail) ensures i in Tagged(fs, t) {
      var j :| j in tail && i == j + 1;
      assert fs[i] == fs[1..][j];
    }
  }

  /** The `partition_key_count` of `make_dynomite_item`. */
  function PartitionKeyCount<V>(fs: seq<Field<V>>): nat
  {
    CountWith(fs, PartitionKeyTag)
  }

  /** `fs[i]` is the one and only field with tag `t`. */
  ghost predicate OnlyAt<V>(fs: seq<Field<V>>, t: Tag, i: int)
  {
    0 <= i < |fs| && Has(fs[i], t) && forall j :: 0 <= j < |fs| && Has(fs[j], t) ==> j == i
  }

  /** A count of one means exactly one field carries the tag. */
  lemma {:induction false} CountIsOne<V>(fs: seq<Field<V>>, t: Tag)
    ensures CountWith(fs, t) == 1 <==> exists i :: OnlyAt(fs, t, i)
    decreases |fs|
  {
    if fs != [] {
      var tail := fs[1..];
      CountIsOne(tail, t);
      assert forall j :: 0 < j < |fs| ==> fs[j] == tail[j - 1];
      if Has(fs[0], t) {
        if CountWith(fs, t) == 1 {
          assert OnlyAt(fs, t, 0);
        }
        if exists i :: OnlyAt(fs, t, i) {
          var i :| OnlyAt(fs, t, i);
          assert i == 0;
          assert forall j :: 0 <= j < |tail| ==> !Has(tail[j], t);
        }
      } else {
        if CountWith(fs, t) == 1 {
          var i :| OnlyAt(tail, t, i);
          assert OnlyAt(fs, t, i + 1);
        }
        if exists i :: OnlyAt(fs, t, i) {
          var i :| OnlyAt(fs, t, i);
          assert OnlyAt(tail, t, i - 1);
        }
      }
    }
  }

  /** `fs[i]` is the first field with tag `t`. */
  ghost predicate FirstAt<V>(fs: seq<Field<V>>, t: Tag, i: int)
  {
    0 <= i < |fs| && Has(fs[i], t) && forall j :: 0 <= j < i ==> !Has(fs[j], t)
  }

  /** `fields.iter().find(|f| f has tag t)`, giving the position of the field found. */
  function FindField<V>(fs: seq<Field<V>>, t: Tag): (r: Option<nat>)
    ensures r.None? <==> forall i :: 0 <= i < |fs| ==> !Has(fs[i], t)
    ensures r.Some? ==> FirstAt(fs, t, r.value)
  {
    if fs == [] then None
    else if Has(fs[0], t) then Some(0)
    else match FindField(fs[1..], t)
      case None =>
        assert forall i :: 0 < i < |fs| ==> fs[i] == fs[1..][i - 1];
        None
      case Some(i) =>
        assert forall j :: 0 < j <= i ==> fs[j] == fs[1..][j - 1];
        Some(i + 1)
  }

  /** The key inserters `get_item_trait` emits: the partition-key field, then the
      sort-key field if there is one. */
  datatype KeyInserters = KeyInserters(partitionKey: nat, sortKey: Option<nat>)

  /** `get_item_trait`: nothing without a partition key; otherwise the first
      partition-key field and the first sort-key field, if any. */
  function GetItemTrait<V>(fs: seq<Field<V>>): (r: Option<KeyInserters>)
    ensures r.None? <==> forall i :: 0 <= i < |fs| ==> !IsPartitionKey(fs[i])
    ensures r.Some? ==> FirstAt(fs, PartitionKeyTag, r.value.partitionKey)
    ensures r.Some? ==> (r.value.sortKey.None? <==> forall i :: 0 <= i < |fs| ==> !IsSortKey(fs[i]))
    ensures r.Some? && r.value.sortKey.Some? ==> FirstAt(fs, SortKeyTag, r.value.sortKey.value)
  {
    match FindField(fs, PartitionKeyTag)
    case None => None
    case Some(p) => Some(KeyInserters(p, FindField(fs, SortKeyTag)))
  }

  /** The map the generated `key(&self)` returns. */
  function KeyMap<V>(fs: seq<Field<V>>, item: seq<V>): (keys: Attributes)
    requires |item| == |fs| && GetItemTrait(fs).Some?
    ensures var ins := GetItemTrait(fs).value;
      keys.Keys == {DeserName(fs[ins.partitionKey])} +
        (if ins.sortKey.Some? then {DeserName(fs[ins.sortKey.value])} else {})
    ensures var ins := GetItemTrait(fs).value;
      ins.sortKey.Some? ==> keys[DeserName(fs[ins.sortKey.value])] == fs[ins.sortKey.value].ty.into(item[ins.sortKey.value])
    ensures var ins := GetItemTrait(fs).value;
      (ins.sortKey.None? || DeserName(fs[ins.sortKey.value]) != DeserName(fs[ins.partitionKey])) ==>
        keys[DeserName(fs[ins.partitionKey])] == fs[ins.partitionKey].ty.into(item[ins.partitionKey])
  {
    var ins := GetItemTrait(fs).value;
    var p := ins.partitionKey;
    var keys := map[DeserName(fs[p]) := fs[p].ty.into(item[p])];
    match ins.sortKey
    case None => keys
    case Some(s) => keys[DeserName(fs[s]) := fs[s].ty.into(item[s])]
  }

  /** The generated `fn key(&self) -> HashMap<String, AttributeValue>`. */
  method Key<V>(fs: seq<Field<V>>, item: seq<V>) returns (keys: Attributes)
    requires |item| == |fs| && GetItemTrait(fs).Some?
    ensures keys == KeyMap(fs, item)
    ensures var ins := GetItemTrait(fs).value;
      keys.Keys == {DeserName(fs[ins.partitionKey])} +
        (if ins.sortKey.Some? then {DeserName(fs[ins.sortKey.value])} else {})
    ensures var ins := GetItemTrait(fs).value;
      ins.sortKey.Some? ==> keys[DeserName(fs[ins.sortKey.value])] == fs[ins.sortKey.value].ty.into(item[ins.sortKey.value])
    ensures var ins := GetItemTrait(fs).value;
      (ins.sortKey.None? || DeserName(fs[ins.sortKey.value]) != DeserName(fs[ins.partitionKey])) ==>
        keys[DeserName(fs[ins.partitionKey])] == fs[ins.partitionKey].ty.into(item[ins.partitionKey])
  {
    var ins := GetItemTrait(fs).value;
    keys := map[];
    var p := ins.partitionKey;
    keys := keys[DeserName(fs[p]) := fs[p].ty.into(item[p])];
    if ins.sortKey.Some? {
      var s := ins.sortKey.value;
      keys := keys[DeserName(fs[s]) := fs[s].ty.into(item[s])];
    }
  }

  /** `get_key_struct`: nothing without a partition key; otherwise `{Name}Key` with the
      first partition-key field, then the first sort-key field if any, each copied
      whole (its tags, and so its rename, included). */
  function GetKeyStruct<V>(rec: Record<V>): (r: Option<Record<V>>)
    ensures r.None? <==> forall i :: 0 <= i < |rec.fields| ==> !IsPartitionKey(rec.fields[i])
    ensures r.Some? ==> r.value.name == rec.name + "Key" && 1 <= |r.value.fields| <= 2
    ensures r.Some? ==> forall p :: FirstAt(rec.fields, PartitionKeyTag, p) ==> r.value.fields[0] == rec.fields[p]
    ensures r.Some? ==>
      (|r.value.fields| == 2 <==> exists i :: 0 <= i < |rec.fields| && IsSortKey(rec.fields[i]))
    ensures r.Some? && |r.value.fields| == 2 ==>
      forall s :: FirstAt(rec.fields, SortKeyTag, s) ==> r.value.fields[1] == rec.fields[s]
  {
    var fs := rec.fields;
    match FindField(fs, PartitionKeyTag)
    case None => None
    case Some(p) =>
      var sortField := match FindField(fs, SortKeyTag)
        case None => []
        case Some(s) => [fs[s]];
      Some(Record(rec.name + "Key", [fs[p]] + sortField))
  }

  /** The values of an item's key fields, in the order of the `{Name}Key` struct. */
  function KeyValues<V>(rec: Record<V>, item: seq<V>): (kv: seq<V>)
    requires |item| == |rec.fields| && GetItemTrait(rec.fields).Some?
    ensures GetKeyStruct(rec).Some? && |kv| == |GetKeyStruct(rec).value.fields|
  {
    var ins := GetItemTrait(rec.fields).value;
    [item[ins.partitionKey]] + match ins.sortKey
      case None => []
      case Some(s) => [item[s]]
  }

  /** The key struct keeps its fields' renames, so serializing an item's key values as
      `{Name}Key` gives exactly the item's `key()` map. */
  lemma KeyStructMatchesKey<V>(rec: Record<V>, item: seq<V>)
    requires |item| == |rec.fields| && GetItemTrait(rec.fields).Some?
    ensures GetKeyStruct(rec).Some?
    ensures |KeyValues(rec, item)| == |GetKeyStruct(rec).value.fields|
    ensures Serialized(GetKeyStruct(rec).value.fields, KeyValues(rec, item)) == KeyMap(rec.fields, item)
  {
    var fs := rec.fields;
    var ins := GetItemTrait(fs).value;
    var p := ins.partitionKey;
    var kf := GetKeyStruct(rec).value.fields;
    var kv := KeyValues(rec, item);
    match ins.sortKey {
      case None =>
        assert kf == [fs[p]] && kv == [item[p]];
        SerializedSmall(fs[p], fs[p], item[p], item[p]);
      case Some(s) =>
        assert kf == [fs[p], fs[s]] && kv == [item[p], item[s]];
        SerializedSmall(fs[p], fs[s], item[p], item[s]);
    }
  }

  /** `{Name}Key::from_attrs(item.key())` gives back the item's key values when the
      key fields have distinct names and their types round-trip. */
  lemma KeyStructRoundTrip<V>(rec: Record<V>, item: seq<V>)
    requires |item| == |rec.fields| && GetItemTrait(rec.fields).Some?
    requires DistinctNames(GetKeyStruct(rec).value.fields)
    requires forall k :: 0 <= k < |KeyValues(rec, item)| ==>
      RoundTripsOn(GetKeyStruct(rec).value.fields[k].ty, KeyValues(rec, item)[k])
    ensures Deserialized(GetKeyStruct(rec).value.fields, KeyMap(rec.fields, item)) == Success(KeyValues(rec, item))
  {
    var fs := rec.fields;
    var ins := GetItemTrait(fs).value;
    var kf := GetKeyStruct(rec).value.fields;
    var kv := KeyValues(rec, item);
    KeyStructMatchesKey(rec, item);
    RoundTrip(kf, kv);
  }

  /** The build-time error of `make_dynomite_item`: the item's name and the number of
      partition keys it declared. */
  datatype BuildError = PartitionKeyCountError(item: string, declared: nat)

  /** What `#[derive(Item)]` generates for a struct: its `FromAttributes` and
      `From<Name> for Attributes` (the semantics of `record.fields`), its `Item::key`
      and its `{Name}Key` struct. */
  datatype ItemDerive<!V> = ItemDerive(record: Record<V>, key: KeyInserters, keyStruct: Record<V>)

  /** `make_dynomite_item`: rejects a struct whose partition-key count is not one. */
  function MakeItem<V>(rec: Record<V>): (r: Result<ItemDerive<V>, BuildError>)
    ensures r.Failure? <==> PartitionKeyCount(rec.fields) != 1
    ensures r.Failure? ==> r.error == PartitionKeyCountError(rec.name, PartitionKeyCount(rec.fields))
    ensures r.Success? ==> r.value.record == rec
    ensures r.Success? ==> GetItemTrait(rec.fields) == Some(r.value.key)
    ensures r.Success? ==> GetKeyStruct(rec) == Some(r.value.keyStruct)
  {
    var count := PartitionKeyCount(rec.fields);
    if count != 1 then Failure(PartitionKeyCountError(rec.name, count))
    else Success(ItemDerive(rec, GetItemTrait(rec.fields).value, GetKeyStruct(rec).value))
  }

  /** An accepted item has exactly one partition-key field, which opens its key struct;
      the key struct has one field without a sort key and two (partition, then sort)
      with one. */
  lemma AcceptedItemKeyStruct<V>(rec: Record<V>)
    requires MakeItem(rec).Success?
    ensures exists p :: (OnlyAt(rec.fields, PartitionKeyTag, p) &&
      MakeItem(rec).value.keyStruct.fields[0] == rec.fields[p])
    ensures CountWith(rec.fields, SortKeyTag) == 0 ==> |MakeItem(rec).value.keyStruct.fields| == 1
    ensures CountWith(rec.fields, SortKeyTag) == 1 ==>
      exists s :: (OnlyAt(rec.fields, SortKeyTag, s) &&
        MakeItem(rec).value.keyStruct.fields == [MakeItem(rec).value.keyStruct.fields[0], rec.fields[s]])
  {
    var fs := rec.fields;
    var ks := MakeItem(rec).value.keyStruct;
    CountIsOne(fs, PartitionKeyTag);
    var p :| OnlyAt(fs, PartitionKeyTag, p);
    assert FirstAt(fs, PartitionKeyTag, p);
    CountIsOne(fs, SortKeyTag);
    if CountWith(fs, SortKeyTag) == 1 {
      var s :| OnlyAt(fs, SortKeyTag, s);
      assert FirstAt(fs, SortKeyTag, s);
      assert |ks.fields| == 2;
    }
  }
}
