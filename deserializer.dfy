/**
 * The `FromAttributes::from_attrs` the derives generate: for each field in
 * declaration order, remove its effective name from the (owned) input map and
 * convert the entry; the first failure ends the whole conversion.
 */
module Deserializer {
  import opened Wrappers
  import opened Values
  import opened Fields

  /** One field's initialiser, run against the map as it stands when its turn comes:
      a present entry is always converted; an absent one is the type default for a
      `default` field and `MissingField` under the effective name otherwise. */
  function DecodeField<V>(f: Field<V>, attrs: Attributes): (r: Result<V, AttributeError>)
    ensures DeserName(f) in attrs ==> r == f.ty.from(attrs[DeserName(f)])
    ensures DeserName(f) !in attrs && IsDefaultWhenAbsent(f) ==> r == Success(f.ty.default)
    ensures DeserName(f) !in attrs && !IsDefaultWhenAbsent(f) ==> r == Failure(MissingField(DeserName(f)))
  {
    var name := DeserName(f);
    if IsDefaultWhenAbsent(f) then
      if name in attrs then f.ty.from(attrs[name]) else Success(f.ty.default)
    else
      if name in attrs then f.ty.from(attrs[name]) else Failure(MissingField(name))
  }

  /** The result of `from_attrs`: fields are decoded left to right, each removing its
      entry before the next one runs. */
  function Deserialized<V>(fs: seq<Field<V>>, attrs: Attributes): (r: Result<seq<V>, AttributeError>)
    ensures r.Success? ==> |r.value| == |fs|
    decreases |fs|
  {
    if fs == [] then Success([])
    else match DecodeField(fs[0], attrs)
      case Failure(e) => Failure(e)
      case Success(v) =>
        match Deserialized(fs[1..], attrs - {DeserName(fs[0])})
        case Failure(e) => Failure(e)
        case Success(rest) => Success([v] + rest)
  }

  /** `done` followed by the outcome of the remaining fields. */
  function Prepend<V>(done: seq<V>, rest: Result<seq<V>, AttributeError>): Result<seq<V>, AttributeError>
  {
    match rest
    case Success(vs) => Success(done + vs)
    case Failure(e) => Failure(e)
  }

  /** The generated `fn from_attrs(mut attrs: Attributes) -> Result<Self, AttributeError>`. */
  method FromAttributes<V>(fs: seq<Field<V>>, input: Attributes) returns (r: Result<seq<V>, AttributeError>)
    ensures r == Deserialized(fs, input)
  {
    var attrs := input;
    var values: seq<V> := [];
    var i := 0;
    assert fs[i..] == fs;
    assert Prepend(values, Deserialized(fs, input)) == Deserialized(fs, input) by {
      assert forall vs: seq<V> :: values + vs == vs;
    }
    while i < |fs|
      invariant 0 <= i <= |fs|
      invariant Deserialized(fs, input) == Prepend(values, Deserialized(fs[i..], attrs))
    {
      var f := fs[i];
      var name := DeserName(f);
      assert fs[i..][0] == f && fs[i..][1..] == fs[i + 1..];
      DeserializedStep(values, fs[i..], attrs);
      // attrs.remove(name)
      var removed: Option<AttributeValue> := if name in attrs then Some(attrs[name]) else None;
      attrs := attrs - {name};
      var v: V;
      if IsDefaultWhenAbsent(f) {
        match removed {
          case Some(field) =>
            var c := f.ty.from(field);
            if c.Failure? {
              return Failure(c.error);
            }
            v := c.value;
          case None =>
            v := f.ty.default;
        }
      } else {
        if removed.None? {
          return Failure(MissingField(name));
        }
        var c := f.ty.from(removed.value);
        if c.Failure? {
          return Failure(c.error);
        }
        v := c.value;
      }
      values := values + [v];
      i := i + 1;
    }
    assert fs[i..] == [] && values + [] == values;
    r := Success(values);
  }

  /** One turn of the `from_attrs` loop: the next field either decides the result with
      its error, or adds its value and leaves the rest to the following fields. */
  lemma DeserializedStep<V>(values: seq<V>, rest: seq<Field<V>>, attrs: Attributes)
    requires rest != []
    ensures DecodeField(rest[0], attrs).Failure? ==>
      Prepend(values, Deserialized(rest, attrs)) == Failure(DecodeField(rest[0], attrs).error)
    ensures DecodeField(rest[0], attrs).Success? ==>
      Prepend(values, Deserialized(rest, attrs)) ==
        Prepend(values + [DecodeField(rest[0], attrs).value], Deserialized(rest[1..], attrs - {DeserName(rest[0])}))
  {
    DeserializedCons(rest, attrs);
    var tail := Deserialized(rest[1..], attrs - {DeserName(rest[0])});
    if DecodeField(rest[0], attrs).Success? && tail.Success? {
      var v := DecodeField(rest[0], attrs).value;
      assert values + ([v] + tail.value) == (values + [v]) + tail.value;
    }
  }

  /** One unfolding of `Deserialized`: the first field, then the rest against the map
      without its name. */
  lemma DeserializedCons<V>(fs: seq<Field<V>>, attrs: Attributes)
    requires fs != []
    ensures DecodeField(fs[0], attrs).Failure? ==> Deserialized(fs, attrs) == Failure(DecodeField(fs[0], attrs).error)
    ensures DecodeField(fs[0], attrs).Success? ==>
      Deserialized(fs, attrs) == Prepend([DecodeField(fs[0], attrs).value], Deserialized(fs[1..], attrs - {DeserName(fs[0])}))
  {
  }

  /** The map field `k` sees: the input with the names of all earlier fields removed. */
  ghost function Remaining<V>(fs: seq<Field<V>>, attrs: Attributes, k: nat): Attributes
    requires k <= |fs|
  {
    attrs - NameSet(fs[..k])
  }

  /** Fields `0 .. k-1` all convert, each against the map it sees. */
  ghost predicate DecodesUpTo<V>(fs: seq<Field<V>>, attrs: Attributes, k: nat)
    requires k <= |fs|
  {
    forall j :: 0 <= j < k ==> DecodeField(fs[j], Remaining(fs, attrs, j)).Success?
  }

  /** Field `k` is the first one to fail, and it fails with `e`. */
  ghost predicate FailsFirstAt<V>(fs: seq<Field<V>>, attrs: Attributes, k: nat, e: AttributeError)
  {
    k < |fs| && DecodesUpTo(fs, attrs, k) && DecodeField(fs[k], Remaining(fs, attrs, k)) == Failure(e)
  }

  lemma RemainingFirst<V>(fs: seq<Field<V>>, attrs: Attributes)
    ensures Remaining(fs, attrs, 0) == attrs
  {
    assert NameSet(fs[..0]) == {};
  }

  lemma RemainingShift<V>(fs: seq<Field<V>>, attrs: Attributes, j: nat)
    requires j < |fs|
    ensures Remaining(fs[1..], attrs - {DeserName(fs[0])}, j) == Remaining(fs, attrs, j + 1)
  {
    NameSetCons(fs, j);
  }

  lemma DecodesUpToShift<V>(fs: seq<Field<V>>, attrs: Attributes, k: nat)
    requires 0 < k <= |fs|
    ensures DecodesUpTo(fs, attrs, k) <==>
      DecodeField(fs[0], attrs).Success? && DecodesUpTo(fs[1..], attrs - {DeserName(fs[0])}, k - 1)
  {
    RemainingFirst(fs, attrs);
    forall j | 0 <= j < k - 1
      ensures Remaining(fs[1..], attrs - {DeserName(fs[0])}, j) == Remaining(fs, attrs, j + 1)
    {
      RemainingShift(fs, attrs, j);
    }
  }

  /** `from_attrs` succeeds exactly when every field converts against the map it sees,
      and then field `k` of the result is field `k`'s conversion. */
  lemma {:induction false} DeserializedSuccess<V>(fs: seq<Field<V>>, attrs: Attributes)
    ensures Deserialized(fs, attrs).Success? <==> DecodesUpTo(fs, attrs, |fs|)
    ensures Deserialized(fs, attrs).Success? ==>
      |Deserialized(fs, attrs).value| == |fs| &&
      forall k :: 0 <= k < |fs| ==>
        Deserialized(fs, attrs).value[k] == DecodeField(fs[k], Remaining(fs, attrs, k)).value
    decreases |fs|
  {
    if fs != [] {
      var rest := attrs - {DeserName(fs[0])};
      var head := DecodeField(fs[0], attrs);
      var tail := Deserialized(fs[1..], rest);
      DeserializedSuccess(fs[1..], rest);
      DecodesUpToShift(fs, attrs, |fs|);
      RemainingFirst(fs, attrs);
      assert Deserialized(fs, attrs).Success? <==> head.Success? && tail.Success?;
      if head.Success? && tail.Success? {
        var vs := [head.value] + tail.value;
        assert Deserialized(fs, attrs) == Success(vs);
        forall k | 0 <= k < |fs|
          ensures vs[k] == DecodeField(fs[k], Remaining(fs, attrs, k)).value
        {
          if 0 < k {
            RemainingShift(fs, attrs, k - 1);
            assert vs[k] == tail.value[k - 1] && fs[k] == fs[1..][k - 1];
          }
        }
      }
    }
  }

  /** If field `k` is the first field to fail, its error is the error of `from_attrs`. */
  lemma {:induction false} FirstFailureDecides<V>(fs: seq<Field<V>>, attrs: Attributes, k: nat, e: AttributeError)
    requires FailsFirstAt(fs, attrs, k, e)
    ensures Deserialized(fs, attrs) == Failure(e)
    decreases k
  {
    RemainingFirst(fs, attrs);
    if 0 < k {
      var rest := attrs - {DeserName(fs[0])};
      DecodesUpToShift(fs, attrs, k);
      RemainingShift(fs, attrs, k - 1);
      FirstFailureDecides(fs[1..], rest, k - 1, e);
    }
  }

  /** Every failure of `from_attrs` is the error of a first failing field. */
  lemma {:induction false} FailureHasFirstField<V>(fs: seq<Field<V>>, attrs: Attributes)
    requires Deserialized(fs, attrs).Failure?
    ensures exists k :: FailsFirstAt(fs, attrs, k, Deserialized(fs, attrs).error)
    decreases |fs|
  {
    var e := Deserialized(fs, attrs).error;
    RemainingFirst(fs, attrs);
    if DecodeField(fs[0], attrs).Failure? {
      assert FailsFirstAt(fs, attrs, 0, e);
    } else {
      var rest := attrs - {DeserName(fs[0])};
      FailureHasFirstField(fs[1..], rest);
      var k: nat :| FailsFirstAt(fs[1..], rest, k, e);
      DecodesUpToShift(fs, attrs, k + 1);
      RemainingShift(fs, attrs, k);
      assert FailsFirstAt(fs, attrs, k + 1, e);
    }
  }

  /** A field's conversion looks at the map only under the field's own name. */
  lemma DecodeFieldLocal<V>(f: Field<V>, a: Attributes, b: Attributes)
    requires DeserName(f) in a <==> DeserName(f) in b
    requires DeserName(f) in a ==> a[DeserName(f)] == b[DeserName(f)]
    ensures DecodeField(f, a) == DecodeField(f, b)
  {
  }

  /** With distinct names, no earlier field removes a later field's entry. */
  lemma DecodeFieldDistinct<V>(fs: seq<Field<V>>, attrs: Attributes, k: nat)
    requires DistinctNames(fs) && k < |fs|
    ensures DecodeField(fs[k], Remaining(fs, attrs, k)) == DecodeField(fs[k], attrs)
  {
    var name := DeserName(fs[k]);
    assert name !in NameSet(fs[..k]) by {
      forall i | 0 <= i < k ensures DeserName(fs[..k][i]) != name {
        assert fs[..k][i] == fs[i];
      }
    }
    DecodeFieldLocal(fs[k], Remaining(fs, attrs, k), attrs);
  }

  /** `from_attrs` reads the input only under the fields' effective names. */
  lemma {:induction false} DeserializedDependsOnlyOnNames<V>(fs: seq<Field<V>>, a: Attributes, b: Attributes)
    requires forall n :: n in NameSet(fs) ==> (n in a <==> n in b) && (n in a ==> a[n] == b[n])
    ensures Deserialized(fs, a) == Deserialized(fs, b)
    decreases |fs|
  {
    if fs != [] {
      var n0 := DeserName(fs[0]);
      assert n0 in NameSet(fs);
      DecodeFieldLocal(fs[0], a, b);
      forall n | n in NameSet(fs[1..]) ensures n in NameSet(fs) {
        var i :| 0 <= i < |fs[1..]| && DeserName(fs[1..][i]) == n;
        assert DeserName(fs[i + 1]) == n;
      }
      DeserializedDependsOnlyOnNames(fs[1..], a - {n0}, b - {n0});
    }
  }

  /** Entries whose names match no field are ignored. */
  lemma ExtraEntriesIgnored<V>(fs: seq<Field<V>>, attrs: Attributes, extra: Attributes)
    requires extra.Keys !! NameSet(fs)
    ensures Deserialized(fs, attrs + extra) == Deserialized(fs, attrs)
  {
    DeserializedDependsOnlyOnNames(fs, attrs + extra, attrs);
  }

  /** With distinct names, field `k` missing from the map and not `Default`, and the
      fields before it converting, `from_attrs` fails naming field `k`'s effective name. */
  lemma MissingFieldLaw<V>(fs: seq<Field<V>>, attrs: Attributes, k: nat)
    requires DistinctNames(fs) && k < |fs|
    requires forall j :: 0 <= j < k ==> DecodeField(fs[j], attrs).Success?
    requires DeserName(fs[k]) !in attrs && !IsDefaultWhenAbsent(fs[k])
    ensures Deserialized(fs, attrs) == Failure(MissingField(DeserName(fs[k])))
  {
    forall j | 0 <= j <= k ensures DecodeField(fs[j], Remaining(fs, attrs, j)) == DecodeField(fs[j], attrs) {
      DecodeFieldDistinct(fs, attrs, j);
    }
    FirstFailureDecides(fs, attrs, k, MissingField(DeserName(fs[k])));
  }

  /** With distinct names, a present entry that fails to convert decides the error,
      whether or not the field is `Default`, once the fields before it convert. */
  lemma PresentEntryErrorPropagates<V>(fs: seq<Field<V>>, attrs: Attributes, k: nat, e: AttributeError)
    requires DistinctNames(fs) && k < |fs|
    requires forall j :: 0 <= j < k ==> DecodeField(fs[j], attrs).Success?
    requires DeserName(fs[k]) in attrs && fs[k].ty.from(attrs[DeserName(fs[k])]) == Failure(e)
    ensures Deserialized(fs, attrs) == Failure(e)
  {
    forall j | 0 <= j <= k ensures DecodeField(fs[j], Remaining(fs, attrs, j)) == DecodeField(fs[j], attrs) {
      DecodeFieldDistinct(fs, attrs, j);
    }
    FirstFailureDecides(fs, attrs, k, e);
  }

  /** With distinct names, removing a `Default` field's entry from a map that converts
      gives the type default in that position and leaves every other field as it was. */
  lemma DefaultWhenAbsentLaw<V>(fs: seq<Field<V>>, attrs: Attributes, vs: seq<V>, k: nat)
    requires DistinctNames(fs) && k < |fs| && IsDefaultWhenAbsent(fs[k])
    requires Deserialized(fs, attrs) == Success(vs)
    ensures |vs| == |fs|
    ensures Deserialized(fs, attrs - {DeserName(fs[k])}) == Success(vs[k := fs[k].ty.default])
  {
    var removed := attrs - {DeserName(fs[k])};
    DeserializedSuccess(fs, attrs);
    forall j | 0 <= j < |fs|
      ensures DecodeField(fs[j], Remaining(fs, removed, j)) == Success(vs[k := fs[k].ty.default][j])
    {
      DecodeFieldDistinct(fs, removed, j);
      DecodeFieldDistinct(fs, attrs, j);
      if j != k {
        DecodeFieldLocal(fs[j], removed, attrs);
      }
    }
    assert DecodesUpTo(fs, removed, |fs|);
    DeserializedSuccess(fs, removed);
    var w := Deserialized(fs, removed).value;
    assert w == vs[k := fs[k].ty.default];
  }
}
