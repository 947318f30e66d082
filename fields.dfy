/**
 * `ItemField`: a struct field together with its parsed `#[dynomite(...)]` tags,
 * the role predicates on it and its effective attribute name (`deser_name`).
 */
module Fields {
  import opened Wrappers
  import opened Values

  /** A parsed `#[dynomite(...)]` tag. */
  datatype Attr = PartitionKey | SortKey | Default | Rename(name: string)

  /** The three tags a field's role is read from. */
  datatype Tag = PartitionKeyTag | SortKeyTag | DefaultTag

  predicate IsTag(a: Attr, t: Tag)
  {
    match t
    case PartitionKeyTag => a.PartitionKey?
    case SortKeyTag => a.SortKey?
    case DefaultTag => a.Default?
  }

  /** A named struct field: identifier, type and tags in source order. */
  datatype Field<!V> = Field(ident: string, ty: Codec<V>, attrs: seq<Attr>)

  /** `attrs.iter().any(|attr| matches!(attr, t))`. */
  function AnyTag(attrs: seq<Attr>, t: Tag): (b: bool)
    ensures b <==> exists i :: 0 <= i < |attrs| && IsTag(attrs[i], t)
  {
    if attrs == [] then false
    else IsTag(attrs[0], t) || AnyTag(attrs[1..], t)
  }

  predicate Has<V>(f: Field<V>, t: Tag)
  {
    AnyTag(f.attrs, t)
  }

  predicate IsPartitionKey<V>(f: Field<V>)
  {
    Has(f, PartitionKeyTag)
  }

  predicate IsSortKey<V>(f: Field<V>)
  {
    Has(f, SortKeyTag)
  }

  predicate IsDefaultWhenAbsent<V>(f: Field<V>)
  {
    Has(f, DefaultTag)
  }

  /** `attrs[i]` is the first `Rename` tag of `attrs`. */
  ghost predicate FirstRename(attrs: seq<Attr>, i: int)
  {
    0 <= i < |attrs| && attrs[i].Rename? && forall j :: 0 <= j < i ==> !attrs[j].Rename?
  }

  /** `attrs.iter().find_map(|attr| match attr { Rename(_, lit) => Some(lit.value()), _ => None })`. */
  function FindRename(attrs: seq<Attr>): (r: Option<string>)
    ensures r.None? <==> forall i :: 0 <= i < |attrs| ==> !attrs[i].Rename?
    ensures forall i :: FirstRename(attrs, i) ==> r == Some(attrs[i].name)
  {
    if attrs == [] then None
    else if attrs[0].Rename? then Some(attrs[0].name)
    else
      var r := FindRename(attrs[1..]);
      assert forall i :: 0 < i && FirstRename(attrs, i) ==> FirstRename(attrs[1..], i - 1);
      r
  }

  /** `deser_name`: the field's attribute name, the first rename or else its identifier. */
  function DeserName<V>(f: Field<V>): (name: string)
    ensures (forall i :: 0 <= i < |f.attrs| ==> !f.attrs[i].Rename?) ==> name == f.ident
    ensures forall i :: FirstRename(f.attrs, i) ==> name == f.attrs[i].name
  {
    match FindRename(f.attrs)
    case Some(renamed) => renamed
    case None => f.ident
  }

  /** The effective names of all fields. */
  ghost function NameSet<V>(fs: seq<Field<V>>): set<string>
  {
    set i | 0 <= i < |fs| :: DeserName(fs[i])
  }

  /** No two fields share an effective name. */
  ghost predicate DistinctNames<V>(fs: seq<Field<V>>)
  {
    forall i, j :: 0 <= i < j < |fs| ==> DeserName(fs[i]) != DeserName(fs[j])
  }

  lemma NameSetConcat<V>(xs: seq<Field<V>>, ys: seq<Field<V>>)
    ensures NameSet(xs + ys) == NameSet(xs) + NameSet(ys)
  {
    var zs := xs + ys;
    forall n | n in NameSet(zs) ensures n in NameSet(xs) + NameSet(ys) {
      var i :| 0 <= i < |zs| && DeserName(zs[i]) == n;
      if i < |xs| {
        assert zs[i] == xs[i];
      } else {
        assert zs[i] == ys[i - |xs|];
      }
    }
    forall n | n in NameSet(xs) ensures n in NameSet(zs) {
      var i :| 0 <= i < |xs| && DeserName(xs[i]) == n;
      assert zs[i] == xs[i];
    }
    forall n | n in NameSet(ys) ensures n in NameSet(zs) {
      var i :| 0 <= i < |ys| && DeserName(ys[i]) == n;
      assert zs[i + |xs|] == ys[i];
    }
  }

  lemma NameSetSingle<V>(f: Field<V>)
    ensures NameSet([f]) == {DeserName(f)}
  {
    assert [f][0] == f;
  }

  lemma NameSetSnoc<V>(fs: seq<Field<V>>, k: nat)
    requires k < |fs|
    ensures NameSet(fs[..k + 1]) == NameSet(fs[..k]) + {DeserName(fs[k])}
  {
    assert fs[..k + 1] == fs[..k] + [fs[k]];
    NameSetConcat(fs[..k], [fs[k]]);
    NameSetSingle(fs[k]);
  }

  lemma NameSetCons<V>(fs: seq<Field<V>>, k: nat)
    requires k < |fs|
    ensures NameSet(fs[..k + 1]) == {DeserName(fs[0])} + NameSet(fs[1..][..k])
  {
    assert fs[..k + 1] == [fs[0]] + fs[1..][..k];
    NameSetConcat([fs[0]], fs[1..][..k]);
    NameSetSingle(fs[0]);
  }
}
