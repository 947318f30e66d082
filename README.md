# dynomite-derive, modelled in Dafny

`dynomite-derive` is a Rust procedural-macro crate. For a struct with named fields it
derives conversions between the struct and a DynamoDB attribute map (`Attributes`,
a map from attribute name to `AttributeValue`); for an item struct it also derives
`Item::key` and a `{Name}Key` struct; for an enum of unit variants it derives a
string `Attribute`. This project models the generator's decisions and the behaviour
of the code it generates, and proves the properties the crate documents.

- `Fields` — a field is an identifier, a type and its `#[dynomite(...)]` tags
  (`partition_key`, `sort_key`, `default`, `rename = "..."`). The role predicates
  are "some tag of that kind is present"; the effective name (`deser_name`) is the
  first rename, else the identifier.
- `Serializer` — the generated `From<Name> for Attributes`: an empty map, then one
  insert per field in declaration order (a loop in `ToAttributes`, specified by the
  fold `Serialized`).
- `Deserializer` — the generated `from_attrs`: each field in order removes its name
  from the owned input map; a missing entry is `MissingField(name)` or, for a
  `default` field, the type's default; a present entry is converted and its error
  propagates; the first error ends the conversion (a loop with early returns in
  `FromAttributes`, specified by `Deserialized`).
- `RoundTripLaws` — `from_attrs(into(v)) == Ok(v)`.
- `Items` — `make_dynomite_item`'s partition-key check, `get_item_trait` /
  `get_key_inserter` (the generated `key()`), and `get_key_struct`.
- `EnumAttribute` — `make_dynomite_attr`.
- `NestedAttributes` — the `Attribute` impl of `make_dynomite_attributes` that wraps
  the struct's map in the `m` slot.

The types owned by the external runtime library are given as values: `AttributeValue`
is a record of optional slots, and each field type contributes a `Codec` (its
`into_attr`, its `from_attr` and its `Default::default()`). Nothing assumes these
round-trip; the round-trip lemmas take it as a precondition (`RoundTripsOn`).

A struct value is the sequence of its field values, in declaration order. The value
type `V` shared by all fields stands for the sum of the struct's field types: each
field's `Codec` converts the case of its own type, so structs whose fields have
different types are covered. An enum
value is the position of its variant. `find` over fields is modelled as giving the
position of the field found.

The key struct is generated with `#[derive(::dynomite::Attributes, ...)]`
(dynomite-derive/src/lib.rs line 584), while the doc comment above `get_key_struct`
(line 540) shows `#[derive(Item, ...)]`; the model follows the code, so the key
struct gets the map conversions and no `key()` of its own.

## Model

| member | source | states |
|---|---|---|
| `Fields.AnyTag` | dynomite-derive/src/lib.rs:60-76 | `is_partition_key`, `is_sort_key` and `is_default_when_absent` hold iff some tag of that kind is among the field's tags |
| `Fields.FindRename` | dynomite-derive/src/lib.rs:80-85 | gives the value of the first `Rename` tag, and nothing iff the field has no `Rename` tag |
| `Fields.DeserName` | dynomite-derive/src/lib.rs:78-93 | the effective name is the first rename's value, and the identifier when there is no rename |
| `Serializer.ToAttributes` | dynomite-derive/src/lib.rs:364-392 | the generated `from` inserts one entry per field in declaration order, and its key set is exactly the set of effective names |
| `Serializer.SerializedKeys` | dynomite-derive/src/lib.rs:370-383 | the contract of `Serialized`, the specification of the generated `from`: the serialized map's keys are exactly the fields' effective names |
| `Serializer.SerializedLastWins` | dynomite-derive/src/lib.rs:385-391 | under a field's name the map holds that field's converted value unless a later field has the same name (later inserts overwrite) |
| `Serializer.SerializedAt` | dynomite-derive/src/lib.rs:376-380 | with distinct names every field's converted value is found under its own name |
| `Deserializer.DecodeField` | dynomite-derive/src/lib.rs:425-443 | one field initialiser: a present entry under the effective name is converted (its error propagates); an absent one gives the type default for a `default` field and `MissingField` carrying the effective name otherwise |
| `Deserializer.Deserialized` | dynomite-derive/src/lib.rs:446-451 | the specification of the generated `from_attrs`; a success holds one value per field (its success and failure cases are characterised by `DeserializedSuccess` and `FailureHasFirstField`) |
| `Deserializer.FromAttributes` | dynomite-derive/src/lib.rs:419-453 | the generated `from_attrs`, removing each field's name from the owned map in turn with early exit, equals the left-to-right specification `Deserialized` |
| `Deserializer.DeserializedSuccess` | dynomite-derive/src/lib.rs:446-451 | `from_attrs` succeeds iff every field converts against the map left after the earlier fields' removals, and then field k of the result is field k's conversion |
| `Deserializer.FirstFailureDecides` | dynomite-derive/src/lib.rs:437-442 | when field k is the first field that fails, `from_attrs` fails with field k's error |
| `Deserializer.FailureHasFirstField` | dynomite-derive/src/lib.rs:446-451 | every failure of `from_attrs` is the error of some first failing field (no accumulation) |
| `Deserializer.DecodeFieldLocal` | dynomite-derive/src/lib.rs:429-443 | a field's initialiser depends only on the map's entry under the field's effective name |
| `Deserializer.DecodeFieldDistinct` | dynomite-derive/src/lib.rs:431-439 | with distinct names no earlier field's removal changes what a later field sees |
| `Deserializer.DeserializedDependsOnlyOnNames` | dynomite-derive/src/lib.rs:431-439 | two input maps that agree on the fields' effective names give the same result |
| `Deserializer.ExtraEntriesIgnored` | dynomite-derive/src/lib.rs:446-451 | entries whose names match no field do not change the result |
| `Deserializer.MissingFieldLaw` | dynomite-derive/src/lib.rs:436-443 | with distinct effective names, a missing non-`default` field, after fields that convert, fails with `MissingField` carrying its effective name |
| `Deserializer.PresentEntryErrorPropagates` | dynomite-derive/src/lib.rs:429-442 | with distinct effective names, a present entry that fails to convert decides the error, `default` field or not |
| `Deserializer.DefaultWhenAbsentLaw` | dynomite-derive/src/lib.rs:429-435 | with distinct effective names, removing a `default` field's entry from a map that converts yields the type default in that position and leaves every other field unchanged |
| `RoundTripLaws.RoundTrip` | dynomite-derive/src/lib.rs:15-19 | with distinct effective names and round-tripping field types, `from_attrs(into(v)) == Ok(v)` |
| `RoundTripLaws.RoundTripWithExtraEntries` | dynomite-derive/src/lib.rs:21-22 | the round trip still holds after adding entries under names no field uses |
| `Items.CountWith` | dynomite-derive/src/lib.rs:308 | the `filter().count()` of fields with a tag equals the number of positions whose field carries the tag; hence it is at most the number of fields, and zero iff no field has the tag |
| `Items.CountIsOne` | dynomite-derive/src/lib.rs:307-309 | the partition-key count is 1 iff exactly one field carries `partition_key` |
| `Items.MakeItem` | dynomite-derive/src/lib.rs:301-330 | item generation fails iff the partition-key count is not 1, the error carries the struct name and that count (the number of fields tagged `partition_key`, by `CountWith`), and on success it produces the key inserters and the key struct |
| `Items.FindField` | dynomite-derive/src/lib.rs:500-501 | `find` gives the first field with the tag, and nothing iff no field has it |
| `Items.GetItemTrait` | dynomite-derive/src/lib.rs:492-519 | nothing without a partition key; otherwise inserters for the first partition-key field and, iff some field has it, the first sort-key field; later `sort_key` fields are accepted and silently ignored, since the crate never rejects a second one |
| `Items.KeyMap` | dynomite-derive/src/lib.rs:505-519 | the specification of the generated `key()`: its keys are exactly the partition-key field's effective name plus the sort-key field's if there is one; the sort key's entry is its converted value, and so is the partition key's unless the sort key shares its name (the later insert wins) |
| `Items.Key` | dynomite-derive/src/lib.rs:505-536 | the generated `key()` map equals `KeyMap`: it holds exactly the partition-key field's effective name plus the sort-key field's if present; the sort key's entry is its converted value, and so is the partition key's unless the sort key shares its name (the later insert wins) |
| `Items.GetKeyStruct` | dynomite-derive/src/lib.rs:546-592 | nothing without a partition key; otherwise `{Name}Key` with the first partition-key field, then the first sort-key field iff one exists, copied whole |
| `Items.KeyStructMatchesKey` | dynomite-derive/src/lib.rs:557-579 | because the key struct keeps its fields' tags, serializing an item's key values as `{Name}Key` gives exactly the item's `key()` map |
| `Items.KeyStructRoundTrip` | dynomite-derive/src/lib.rs:21-28 | `{Name}Key::from_attrs` of an item's `key()` map gives back its key values when the key fields have distinct names and their types round-trip on those values |
| `Items.AcceptedItemKeyStruct` | dynomite-derive/src/lib.rs:307-319 | an accepted item has exactly one partition-key field, first in its key struct; the key struct has one field without a sort key and (partition, sort) with exactly one |
| `EnumAttribute.IntoAttr` | dynomite-derive/src/lib.rs:210-218 | `into_attr` gives an attribute whose only slot is `s`, holding the variant's name; for an enum with distinct variant names `from_attr` reads it back as the same variant |
| `EnumAttribute.MatchArms` | dynomite-derive/src/lib.rs:201-206 | the match arms pick the first variant whose name equals the string exactly, and none iff no variant has that name |
| `EnumAttribute.FromAttr` | dynomite-derive/src/lib.rs:219-225 | a successful read names a variant equal to the string slot; the only errors are `InvalidType` and `InvalidFormat` |
| `EnumAttribute.EnumRoundTrip` | dynomite-derive/src/lib.rs:208-225 | `from_attr(into_attr(c)) == Ok(c)` for every variant |
| `EnumAttribute.UnknownVariantIsInvalidFormat` | dynomite-derive/src/lib.rs:221-224 | a string matching no variant name exactly gives `InvalidFormat` |
| `EnumAttribute.NoStringIsInvalidType` | dynomite-derive/src/lib.rs:220 | an attribute without a string slot gives `InvalidType` |
| `EnumAttribute.FromAttrReadsOnlyString` | dynomite-derive/src/lib.rs:219-221 | reading depends on the string slot only |
| `NestedAttributes.IntoAttr` | dynomite-derive/src/lib.rs:278-283 | `into_attr` gives an attribute whose only slot is `m`, holding the struct's own serialized map (`Serialized`, the generated `from`), whose keys are exactly the fields' effective names |
| `NestedAttributes.FromAttr` | dynomite-derive/src/lib.rs:284-290 | `from_attr` fails with `InvalidType` without an `m` slot, and otherwise is exactly `from_attrs` (`Deserialized`) of the `m` map, so every deserializer law (missing fields, first failure decides, defaults) holds for nested structs; a success holds one value per field |
| `NestedAttributes.NestedRoundTrip` | dynomite-derive/src/lib.rs:276-291 | a struct wrapped in the `m` slot reads back as itself under the field round-trip conditions |
| `NestedAttributes.NoMapIsInvalidType` | dynomite-derive/src/lib.rs:284-289 | an attribute without an `m` slot gives `InvalidType` |

## Left out

- Token-stream parsing and emission (`syn`, `quote!`, spans, visibility, `proc_macro_error`): compiler plumbing; the model states what the emitted code does instead.
- `parse_attrs` and the `attr` module that parses `#[dynomite(...)]`: the attr module is not part of this model; tags are given as a datatype.
- The panics for non-struct / non-enum inputs and the "require named fields" errors: shape checks on the syntax tree.
- The exact wording of the partition-key error message: `BuildError` carries the struct name and the count the message reports.
- The `.clone()` before converting a key field: an ownership detail with no effect on values.
- The concrete `AttributeValue` conversions of each field type, and `Default`: external to the crate; each field type is a `Codec` value.
- Hash-map iteration order: maps are order-free in the model, as the attribute map is.
- Duplicate effective names are not rejected by the crate and are modelled as written: in serialization the later field overwrites, in deserialization the earlier field consumes the entry and the later one sees it missing.
- The default-when-absent, missing-field and error-propagation laws hold only when effective names are distinct, and `from_attrs` behaves that way too. When two fields share a name, the earlier field removes the entry, so the later field sees it as missing. For example, take a plain field `x` and a `default` field renamed to `x`. The map `{x: v}` decodes to `[v, default]`, but removing the entry gives `MissingField("x")`.
- A struct with more than one `sort_key` field is accepted as written: `key()` and the key struct use the first one, and the others are ignored.
- Two different key fields that share an effective name are modelled as written: the sort key's insert in `key()` overwrites the partition key's entry.
- A field tagged both `partition_key` and `sort_key` is modelled as written: `key()` inserts it twice under one name and the key struct lists the field twice (which Rust would then reject as a duplicate field).
