/**
 * The external types the generated code is written against: the DynamoDB
 * `AttributeValue`, the `Attributes` map, the `AttributeError` taxonomy, and the
 * per-type `Attribute` conversion pair (plus `Default`) of each field type.
 */
module Values {
  import opened Wrappers

  /**
   * A DynamoDB attribute value: a record of optional slots, one per wire type
   * (`b`, `bool`, `bs`, `l`, `m`, `n`, `ns`, `null`, `s`, `ss`). The slots
   * `bool` and `null` are spelled `boolean` and `nul` here.
   */
  datatype AttributeValue = AttributeValue(
    b: Option<seq<bv8>>,
    boolean: Option<bool>,
    bs: Option<seq<seq<bv8>>>,
    l: Option<seq<AttributeValue>>,
    m: Option<map<string, AttributeValue>>,
    n: Option<string>,
    ns: Option<seq<string>>,
    nul: Option<bool>,
    s: Option<string>,
    ss: Option<seq<string>>)

  /** `AttributeValue::default()`: every slot empty. */
  const EmptyValue := AttributeValue(None, None, None, None, None, None, None, None, None, None)

  /** `dynomite::Attributes`: attribute name to attribute value. */
  type Attributes = map<string, AttributeValue>

  /** `dynomite::AttributeError`. */
  datatype AttributeError = InvalidType | InvalidFormat | MissingField(name: string)

  /**
   * What the generated code uses of a field type `V`: its `Attribute::into_attr`,
   * its `Attribute::from_attr` and its `Default::default()`. These live outside
   * the generator; they are given here as values.
   */
  datatype Codec<!V> = Codec(
    into: V -> AttributeValue,
    from: AttributeValue -> Result<V, AttributeError>,
    default: V)

  /** The field type's conversions give `v` back after converting it out. */
  ghost predicate RoundTripsOn<V>(c: Codec<V>, v: V)
  {
    c.from(c.into(v)) == Success(v)
  }
}
