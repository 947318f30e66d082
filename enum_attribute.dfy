/**
 * `#[derive(Attribute)]` on an enum of unit variants: each variant is written as a
 * string attribute holding the variant's exact name, and read back by matching
 * that string against the variant names.
 */
module EnumAttribute {
  import opened Wrappers
  import opened Values

  /** An enum by its name and its variant names in declaration order. A value of the
      enum is the position of its variant. */
  datatype Enum = Enum(name: string, variants: seq<string>)

  /** Rust rejects an enum declaring the same variant name twice. */
  ghost predicate WellFormed(e: Enum)
  {
    forall i, j :: 0 <= i < j < |e.variants| ==> e.variants[i] != e.variants[j]
  }

  /** The generated `into_attr`: `AttributeValue { s: Some(variant name), ..default }`. */
  function IntoAttr(e: Enum, c: nat): (a: AttributeValue)
    requires c < |e.variants|
    ensures a.s == Some(e.variants[c]) && a.(s := None) == EmptyValue
    ensures WellFormed(e) ==> FromAttr(e, a) == Success(c)
  {
    var a := EmptyValue.(s := Some(e.variants[c]));
    assert WellFormed(e) ==> MatchArms(e.variants, e.variants[c]) == Some(c);
    a
  }

  /** The generated `match &value[..] { "Variant" => Ok(..), .., _ => Err(..) }`: the
      first arm whose name equals `s` exactly. */
  function MatchArms(variants: seq<string>, s: string): (r: Option<nat>)
    ensures r.None? <==> s !in variants
    ensures r.Some? ==> r.value < |variants| && variants[r.value] == s
    ensures r.Some? ==> forall j :: 0 <= j < r.value ==> variants[j] != s
  {
    if variants == [] then None
    else if variants[0] == s then Some(0)
    else match MatchArms(variants[1..], s)
      case None => None
      case Some(i) =>
        assert forall j :: 0 < j <= i ==> variants[j] == variants[1..][j - 1];
        Some(i + 1)
  }

  /** The generated `from_attr`: `value.s.ok_or(InvalidType).and_then(match ..)`. */
  function FromAttr(e: Enum, a: AttributeValue): (r: Result<nat, AttributeError>)
    ensures r.Success? ==> a.s.Some? && r.value < |e.variants| && e.variants[r.value] == a.s.value
    ensures r.Failure? ==> r.error == InvalidType || r.error == InvalidFormat
  {
    match a.s
    case None => Failure(InvalidType)
    case Some(s) =>
      match MatchArms(e.variants, s)
      case None => Failure(InvalidFormat)
      case Some(c) => Success(c)
  }

  /** Every variant reads back as itself. */
  lemma EnumRoundTrip(e: Enum, c: nat)
    requires WellFormed(e) && c < |e.variants|
    ensures FromAttr(e, IntoAttr(e, c)) == Success(c)
  {
    var r := MatchArms(e.variants, e.variants[c]);
    assert r.Some?;
  }

  /** A string slot matching no variant name exactly gives `InvalidFormat`. */
  lemma UnknownVariantIsInvalidFormat(e: Enum, a: AttributeValue)
    requires a.s.Some? && a.s.value !in e.variants
    ensures FromAttr(e, a) == Failure(InvalidFormat)
  {
  }

  /** An attribute without a string slot gives `InvalidType`, whatever else it holds. */
  lemma NoStringIsInvalidType(e: Enum, a: AttributeValue)
    requires a.s.None?
    ensures FromAttr(e, a) == Failure(InvalidType)
  {
  }

  /** Reading depends only on the string slot: the other slots are ignored. */
  lemma FromAttrReadsOnlyString(e: Enum, a: AttributeValue, b: AttributeValue)
    requires a.s == b.s
    ensures FromAttr(e, a) == FromAttr(e, b)
  {
  }
}
