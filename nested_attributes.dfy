/**
 * The `Attribute` impl `#[derive(Attributes)]` adds to a struct, so that the struct
 * can be the type of a field of another: the struct's attribute map is carried in
 * the `m` slot of a single attribute value.
 */
module NestedAttributes {
  import opened Wrappers
  import opened Values
  import opened Fields
  import opened Serializer
  import opened Deserializer
  import opened RoundTripLaws

  /** The generated `into_attr`: `AttributeValue { m: Some(self.into()), ..default }`. */
  function IntoAttr<V>(fs: seq<Field<V>>, item: seq<V>): (a: AttributeValue)
    requires |item| == |fs|
    ensures a.m.Some? && a.m.value.Keys == NameSet(fs) && a.(m := None) == EmptyValue
    ensures a.m == Some(Serialized(fs, item))
  {
    SerializedKeys(fs, item);
    EmptyValue.(m := Some(Serialized(fs, item)))
  }

  /** The generated `from_attr`: `value.m.ok_or(InvalidType).and_then(Self::from_attrs)`. */
  function FromAttr<V>(fs: seq<Field<V>>, a: AttributeValue): (r: Result<seq<V>, AttributeError>)
    ensures a.m.None? ==> r == Failure(InvalidType)
    ensures r.Success? ==> a.m.Some? && |r.value| == |fs|
    ensures a.m.Some? ==> r == Deserialized(fs, a.m.value)
  {
    match a.m
    case None => Failure(InvalidType)
    case Some(attrs) => Deserialized(fs, attrs)
  }

  /** A nested struct reads back as itself under the round-trip conditions of its fields. */
  lemma NestedRoundTrip<V>(fs: seq<Field<V>>, item: seq<V>)
    requires |item| == |fs| && DistinctNames(fs)
    requires forall k :: 0 <= k < |fs| ==> RoundTripsOn(fs[k].ty, item[k])
    ensures FromAttr(fs, IntoAttr(fs, item)) == Success(item)
  {
    RoundTrip(fs, item);
  }

  /** An attribute with no map slot gives `InvalidType`, whatever else it holds. */
  lemma NoMapIsInvalidType<V>(fs: seq<Field<V>>, a: AttributeValue)
    requires a.m.None?
    ensures FromAttr(fs, a) == Failure(InvalidType)
  {
  }
}
