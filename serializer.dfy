/**
 * The `From<Name> for Attributes` conversion the derives generate: start from an
 * empty map and insert each field's converted value under its effective name, in
 * declaration order.
 */
module Serializer {
  import opened Values
  import opened Fields

  /** The map after inserting every field of `item` in order; a later insert under an
      existing name replaces the earlier value. */
  function Serialized<V>(fs: seq<Field<V>>, item: seq<V>): Attributes
    requires |item| == |fs|
    decreases |fs|
  {
    if fs == [] then map[]
    else
      var last := |fs| - 1;
      Serialized(fs[..last], item[..last])[DeserName(fs[last]) := fs[last].ty.into(item[last])]
  }

  /** The generated `fn from(item: Name) -> Attributes`. */
  method ToAttributes<V>(fs: seq<Field<V>>, item: seq<V>) returns (values: Attributes)
    requires |item| == |fs|
    ensures values == Serialized(fs, item)
    ensures values.Keys == NameSet(fs)
  {
    values := map[];
    var i := 0;
    while i < |fs|
      invariant 0 <= i <= |fs|
      invariant values == Serialized(fs[..i], item[..i])
    {
      values := values[DeserName(fs[i]) := fs[i].ty.into(item[i])];
      i := i + 1;
      assert fs[..i][..i - 1] == fs[..i - 1] && item[..i][..i - 1] == item[..i - 1];
    }
    assert fs[..i] == fs && item[..i] == item;
    SerializedKeys(fs, item);
  }

  /** The keys of the serialized map are exactly the fields' effective names. */
  lemma {:induction false} SerializedKeys<V>(fs: seq<Field<V>>, item: seq<V>)
    requires |item| == |fs|
    ensures Serialized(fs, item).Keys == NameSet(fs)
    decreases |fs|
  {
    if fs != [] {
      var last := |fs| - 1;
      SerializedKeys(fs[..last], item[..last]);
      NameSetSnoc(fs, last);
      assert fs[..last + 1] == fs;
    }
  }

  /** The value under a field's name is that field's converted value, unless a later
      field has the same name (the later insert overwrites it). */
  lemma {:induction false} SerializedLastWins<V>(fs: seq<Field<V>>, item: seq<V>, k: nat)
    requires |item| == |fs| && k < |fs|
    requires forall j :: k < j < |fs| ==> DeserName(fs[j]) != DeserName(fs[k])
    ensures DeserName(fs[k]) in Serialized(fs, item)
    ensures Serialized(fs, item)[DeserName(fs[k])] == fs[k].ty.into(item[k])
    decreases |fs|
  {
    var last := |fs| - 1;
    SerializedSnoc(fs, item);
    if k < last {
      var front, values := fs[..last], item[..last];
      LaterNamesOfPrefix(fs, k, last);
      SerializedLastWins(front, values, k);
    }
  }

  /** The names after field `k` stay distinct from its own in a prefix holding `k`. */
  lemma LaterNamesOfPrefix<V>(fs: seq<Field<V>>, k: nat, n: nat)
    requires k < n <= |fs|
    requires forall j :: k < j < |fs| ==> DeserName(fs[j]) != DeserName(fs[k])
    ensures fs[..n][k] == fs[k]
    ensures forall j :: k < j < |fs[..n]| ==> DeserName(fs[..n][j]) != DeserName(fs[..n][k])
  {
  }

  /** One unfolding of `Serialized`: the last field's insert on top of the others. */
  lemma SerializedSnoc<V>(fs: seq<Field<V>>, item: seq<V>)
    requires |item| == |fs| && fs != []
    ensures Serialized(fs, item) ==
      Serialized(fs[..|fs| - 1], item[..|fs| - 1])[DeserName(fs[|fs| - 1]) := fs[|fs| - 1].ty.into(item[|fs| - 1])]
  {
  }

  /** With distinct names, every field's value is found under its own name. */
  lemma SerializedAt<V>(fs: seq<Field<V>>, item: seq<V>, k: nat)
    requires |item| == |fs| && k < |fs| && DistinctNames(fs)
    ensures DeserName(fs[k]) in Serialized(fs, item)
    ensures Serialized(fs, item)[DeserName(fs[k])] == fs[k].ty.into(item[k])
  {
    SerializedLastWins(fs, item, k);
  }

  /** Serializing one field or two fields, spelled out. */
  lemma SerializedSmall<V>(f: Field<V>, g: Field<V>, v: V, w: V)
    ensures Serialized([f], [v]) == map[DeserName(f) := f.ty.into(v)]
    ensures Serialized([f, g], [v, w]) == map[DeserName(f) := f.ty.into(v)][DeserName(g) := g.ty.into(w)]
  {
    assert [f, g][..1] == [f] && [v, w][..1] == [v];
    assert [f][..0] == [] && [v][..0] == [];
  }
}
