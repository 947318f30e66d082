/** The conversion pair the derives generate are inverse to each other. */
module RoundTripLaws {
  import opened Wrappers
  import opened Values
  import opened Fields
  import opened Serializer
  import opened Deserializer

  /** `Name::from_attrs(item.into()) == Ok(item)` when effective names are distinct and
      every field type's own conversions give its value back. */
  lemma RoundTrip<V>(fs: seq<Field<V>>, item: seq<V>)
    requires |item| == |fs| && DistinctNames(fs)
    requires forall k :: 0 <= k < |fs| ==> RoundTripsOn(fs[k].ty, item[k])
    ensures Deserialized(fs, Serialized(fs, item)) == Success(item)
  {
    var m := Serialized(fs, item);
    forall k | 0 <= k < |fs|
      ensures DecodeField(fs[k], Remaining(fs, m, k)) == Success(item[k])
    {
      SerializedAt(fs, item, k);
      DecodeFieldDistinct(fs, m, k);
    }
    assert DecodesUpTo(fs, m, |fs|);
    DeserializedSuccess(fs, m);
    assert Deserialized(fs, m).value == item;
  }

  /** Serializing then adding entries under names no field uses still converts back. */
  lemma RoundTripWithExtraEntries<V>(fs: seq<Field<V>>, item: seq<V>, extra: Attributes)
    requires |item| == |fs| && DistinctNames(fs)
    requires forall k :: 0 <= k < |fs| ==> RoundTripsOn(fs[k].ty, item[k])
    requires extra.Keys !! NameSet(fs)
    ensures Deserialized(fs, Serialized(fs, item) + extra) == Success(item)
  {
    ExtraEntriesIgnored(fs, Serialized(fs, item), extra);
    RoundTrip(fs, item);
  }
}
