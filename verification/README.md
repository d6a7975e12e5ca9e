# rod: graph model, HAM merge and representations in Dafny

rod is a Rust graph database that aims to be wire-compatible with GUN. This
project models its core:

- **Graph** (`graph.dfy`, from `src/graph.rs`). A `Node` is a ULID and a map
  from field name to `Field`. A `Field` is an `updated_at` timestamp and a
  `Value`. A `Value` is one of seven variants: None, Bool, Int, Float,
  String, Binary or a Node reference. The module also has the `From`
  conversions into `Value`. A ULID is a natural number below 2^128. An f64
  is `F64`: a real number or NaN.
- **Crdt** (`crdt.dfy`, from `src/crdt.rs`). This is GUN's HAM rule:
  - the lexical order used to break ties;
  - `Field::merge_with` as a function from (existing, incoming, now) to the
    new field, or to the panic it would hit (the tie of two `None` values
    excepted, see "Findings");
  - `Node::merge_into` as a method with a loop over the incoming fields;
  - convergence theorems: merges commute and are independent of order for
    fields, and for whole nodes, as long as no timestamp is NaN or after
    `now` and no value is a NaN float.
- **ReprBorsh** (`repr_borsh.dfy`, from `src/graph/repr/repr_borsh.rs`).
  These are the Borsh mirror types and both conversion directions.
  `src/graph/repr.rs:9-114` is an inline copy of the same code, so it is
  modelled once here.
- **ReprJson** (`repr_json.dfy`, from `src/graph/repr.rs`). This is the JSON
  mirror:
  - a node splits into `_.#` (the id), `_.>` (the timestamps) and the
    flattened values;
  - the conversions between values and JSON values;
  - `Serialize for JsonValue`, which writes binary as `$base64$…` and a
    reference as `{"#": id}`;
  - the visitor that classifies a JSON document back into a value.

  base64 and ULID text come from other crates, so they are a `Codecs`
  parameter. `Lawful(c)` states the round-trip laws that the lemmas
  assume.
- **Engine** (`engine.dfy`, from `src/engine.rs`). `Rod::get` and
  `Rod::put` work over a `Store` class that holds the name→id table and the
  id→node table. The success or failure of each backend I/O call is a
  parameter.

The model follows what the code does, including where that is not what one
might expect of a HAM merge or a JSON mirror:

- **Equal timestamps.** The code keeps the lexically *lesser* value: an
  existing `Int(5)` against an incoming `Int(7)` stays 5
  (`MergeTieIntKeepsSmaller`), where GUN's HAM rule lets the lexically
  greater value win.
- **NaN order.** The code's `partial_cmp(..).unwrap_or(Less)` gives `Less`
  in both directions, so NaN is neither lowest nor highest and replicas can
  diverge (`MergeTieNaNDiverges`).
- **`Rod::put`.** The code stores the node as it is, without merging it
  with the stored node.
- **`Rod::get`.** On a miss the code returns `None`; it does not create a
  fresh node.
- **JSON round trip.** Not every value round-trips through JSON. A string
  that starts with `$base64$` does not (`PrefixedStringMisread`), and a NaN
  float is written as `null` by the JSON text layer.

## Model

| member | source | states |
|---|---|---|
| `Graph.Variant` | src/graph.rs:33-49 | every value is exactly one of the seven variants, numbered 0..6 in declaration order |
| `Graph.NewNode` | src/graph.rs:58-71 | a new node has the given fresh id and no fields |
| `Graph.FromInt` | src/graph.rs:83-110 | `i as i64` keeps every i8..i64 and u8..u32 value; a u64 of 2^63 or more becomes that value minus 2^64, which is negative |
| `Graph.FromU64MaxWraps` | src/graph.rs:83-110 | `u64::MAX` converts to `Int(-1)` |
| `Graph.AsI64` | src/graph.rs:83-92 | `as i64` keeps every value in the i64 range and otherwise lands on the i64 congruent to it modulo 2^64 |
| `Graph.FromUnit` | src/graph.rs:77-81 | `()` converts to the None variant |
| `Graph.FromFloat` | src/graph.rs:93-112 | a float converts to the Float variant carrying that float |
| `Graph.FromString` | src/graph.rs:114-118 | a string converts to the String variant carrying that string |
| `Graph.FromBytes` | src/graph.rs:120-124 | a byte vector converts to the Binary variant carrying those bytes |
| `Graph.FromNode` | src/graph.rs:126-130 | `&Node` converts to a Node reference carrying the node's id |
| `Crdt.IntCmp` | src/crdt.rs:111 | `Ord::cmp` on integers: Less, Equal and Greater exactly when <, = and > |
| `Crdt.FloatCmp` | src/crdt.rs:112 | two numbers compare Less, Equal and Greater exactly when <, = and >; a float comparison involving NaN is `Less` |
| `Crdt.SeqCmp` | src/crdt.rs:113-114 | a sequence that is a prefix of the other is Less when shorter and Equal when as long; symmetrically Greater |
| `Crdt.SeqCmpFirstDifference` | src/crdt.rs:113-114 | past a common prefix, the first differing element decides: Less when it is smaller, Greater when it is larger |
| `Crdt.SeqCmpEqual` | src/crdt.rs:113-114 | the lexicographic slice order says Equal exactly for equal sequences |
| `Crdt.SeqCmpReverse` | src/crdt.rs:113-114 | swapping the operands of the slice order reverses the answer |
| `Crdt.SeqCmpLessTrans` | src/crdt.rs:113-114 | the slice order's Less is transitive |
| `Crdt.BoolCmp` | src/crdt.rs:105-110 | booleans compare like the ranks true = 0, false = 1: `true` sorts before `false` |
| `Crdt.LexicalCmpAsWritten` | src/crdt.rs:100-146 | no contract of its own: the comparison as written, `Option.None` standing for the `unreachable!()` panic; `AsWrittenDiffersOnlyOnNone` and `NoneTiePanicsAsWritten` state its behaviour |
| `Crdt.LexicalCmp` | src/crdt.rs:100-146 | no contract of its own: the comparison with the `(None, None) => Equal` arm supplied; `CmpByRank`, `CmpSelf`, `CmpReverse`, `CmpEqualIff`, `CmpLessTrans` and `CmpNaNLess` state its properties |
| `Crdt.AsWrittenDiffersOnlyOnNone` | src/crdt.rs:103-117 | the source comparison panics exactly on two `None`s, and agrees with the corrected order everywhere else |
| `Crdt.CmpByRank` | src/crdt.rs:118-145 | values of different variants compare by rank None < Bool < Int < Float < String < Binary < Node |
| `Crdt.CmpSelf` | src/crdt.rs:103-117 | each value is Equal to itself, except a NaN float, which is Less than itself |
| `Crdt.CmpReverse` | src/crdt.rs:100-146 | without NaN, the order is antisymmetric: swapping the operands reverses the answer (booleans included) |
| `Crdt.CmpEqualIff` | src/crdt.rs:100-146 | without NaN, Equal holds exactly for identical values |
| `Crdt.CmpLessTrans` | src/crdt.rs:100-146 | without NaN, Less is transitive across and within variants |
| `Crdt.CmpAtMostTrans` | src/crdt.rs:100-146 | without NaN, "not Greater" is transitive |
| `Crdt.CmpNaNLess` | src/crdt.rs:112 | two floats, one of them NaN, compare Less in both directions |
| `Crdt.MergeWith` | src/crdt.rs:54-97 | fails with `IncomparableTimestamps` exactly when a timestamp is NaN, and with `DeferredUpdate` exactly when the incoming timestamp is newer and within 600 s after now; otherwise the result is the existing field, the incoming field, or at a tie the incoming value under the shared timestamp. The tie uses the corrected comparison, so two `None` values do not panic |
| `Crdt.MergeTieKeepsLesser` | src/crdt.rs:60-69 | at equal timestamps the merge succeeds and keeps the timestamp; the surviving value is one of the two and is not Greater than either; it changes exactly when the existing value is Greater |
| `Crdt.MergeTieNaNKeepsExisting` | src/crdt.rs:60-69 | at a tie between floats where either is NaN, the existing field is kept |
| `Crdt.MergeStaleIgnored` | src/crdt.rs:71-73 | an older incoming field leaves the field unchanged |
| `Crdt.MergeNewerAdopted` | src/crdt.rs:75-79 | a newer incoming field stamped no later than now replaces the field, value and timestamp |
| `Crdt.MergeFuture` | src/crdt.rs:81-93 | a newer field more than 600 s ahead of now (strictly) is discarded; one within the window is the unimplemented deferred path, an error |
| `Crdt.MergeNaNTimestamp` | src/crdt.rs:94-96 | a NaN timestamp fails all three comparisons and reaches `unreachable!()` |
| `Crdt.MergeIdempotent` | src/crdt.rs:54-97 | merging a field with a copy of itself changes nothing, for every variant (with the corrected `None` arm) |
| `Crdt.MergeTieTrueWins` | src/crdt.rs:105-110 | at a boolean tie `true` survives whichever side holds it |
| `Crdt.MergeTieIntKeepsSmaller` | src/crdt.rs:60-69 | existing 5 against incoming 7 at one timestamp stays 5, and so does the reverse |
| `Crdt.MergeTieNaNDiverges` | src/crdt.rs:112 | with NaN against 1.0 at a tie, each side keeps its own value, so two replicas disagree |
| `Crdt.MergeFarFutureDiverges` | src/crdt.rs:71-83 | a field stamped 1000 s after now wins when it is the existing field but is dropped when it is the incoming one, so merging in the two orders disagrees |
| `Crdt.NoneTiePanicsAsWritten` | src/crdt.rs:116 | as written, the tie comparison of two `None` values reaches `unreachable!()` |
| `Crdt.MergeIsPick` | src/crdt.rs:54-97 | on settled fields the merge returns the field that dominates: newer, or at a tie not lexically greater |
| `Crdt.DominatesTotal` | src/crdt.rs:60-79 | on settled fields one of any two dominates, and fields that dominate each other are equal |
| `Crdt.DominatesTrans` | src/crdt.rs:60-79 | domination is transitive on settled fields |
| `Crdt.MergeCommutes` | src/crdt.rs:54-97 | merging b into a gives the same field as merging a into b, for settled fields |
| `Crdt.PickOrderIndependent` | src/crdt.rs:54-97 | picking the dominant field among three does not depend on the order the two updates come in |
| `Crdt.MergeOrderIndependent` | src/crdt.rs:54-97 | two settled updates merged into a field in either order give the same field |
| `Crdt.MergedField` | src/crdt.rs:15-23 | a key only in the incoming node takes the incoming field, a key only in the target keeps the target's, and a common key gets the result of `merge_with` when that succeeds |
| `Crdt.MergedFields` | src/crdt.rs:15-23 | the merged key set is the union of both nodes' keys; target-only keys keep their field and incoming-only keys are inserted unchanged |
| `Crdt.MergeInto` | src/crdt.rs:15-23 | succeeds exactly when no common key's merge fails, keeps the target id and gives `MergedFields`; on failure it returns the error of some common key |
| `Crdt.MergedFieldsByKey` | src/crdt.rs:15-23 | common keys are merged with `merge_with`, incoming-only keys are inserted unchanged, target-only keys are untouched, and the key set is the union |
| `Crdt.MergedFieldsSettled` | src/crdt.rs:15-23 | on settled nodes the merge never fails, keeps every field settled and takes the dominant field for common keys |
| `Crdt.MergedFieldsIdempotent` | src/crdt.rs:15-23 | merging a node's fields into themselves changes nothing |
| `Crdt.MergedFieldsOrderIndependent` | src/crdt.rs:15-23 | two settled nodes merged into a third in either order give the same fields |
| `Crdt.MergedFieldsFarFutureDiverges` | src/crdt.rs:15-23 | the same two updates of a key, one stamped 1000 s after now, leave the node with different fields depending on their arrival order, because an incoming-only key is inserted with no future check |
| `ReprBorsh.ToBorshValue` | src/graph/repr/repr_borsh.rs:57-69 | no contract of its own: each variant to the Borsh variant of the same name with the same payload; `ValueRoundTrips` proves it inverse to `FromBorshValue`; the inline copy is src/graph/repr.rs:62-74 |
| `ReprBorsh.FromBorshValue` | src/graph/repr/repr_borsh.rs:95-107 | no contract of its own: each Borsh variant back to the value variant of the same name; `ValueRoundTrips` proves it inverse to `ToBorshValue`; the inline copy is src/graph/repr.rs:100-112 |
| `ReprBorsh.ToBorshField` | src/graph/repr/repr_borsh.rs:49-56 | no contract of its own: the timestamp copied, the value converted; `FieldConversions` states this; the inline copy is src/graph/repr.rs:54-61 |
| `ReprBorsh.FromBorshField` | src/graph/repr/repr_borsh.rs:87-94 | no contract of its own: the timestamp copied, the value converted back; `FieldConversions` states this; the inline copy is src/graph/repr.rs:92-99 |
| `ReprBorsh.ToBorshNode` | src/graph/repr/repr_borsh.rs:37-48 | no contract of its own: the id kept as a u128 and every field converted under its name; `NodeConversion` states this; the inline copy is src/graph/repr.rs:42-53 |
| `ReprBorsh.FromBorshNode` | src/graph/repr/repr_borsh.rs:75-86 | no contract of its own: the id and every field converted back; `NodeRoundTrips` proves it inverse to `ToBorshNode`; the inline copy is src/graph/repr.rs:80-91 |
| `ReprBorsh.ValueRoundTrips` | src/graph/repr/repr_borsh.rs:57-107 | value to Borsh to value, and Borsh to value to Borsh, are the identity for all seven variants; the inline copy is src/graph/repr.rs:62-112 |
| `ReprBorsh.FieldConversions` | src/graph/repr/repr_borsh.rs:49-94 | field conversion copies `updated_at` verbatim and converts the value, in both directions; the inline copy is src/graph/repr.rs:54-99 |
| `ReprBorsh.NodeConversion` | src/graph/repr/repr_borsh.rs:37-48 | node to Borsh keeps the id and the key set, and converts each field pointwise; the inline copy is src/graph/repr.rs:42-53 |
| `ReprBorsh.NodeRoundTrips` | src/graph/repr/repr_borsh.rs:37-107 | node to Borsh to node, and Borsh to node to Borsh, are the identity; the inline copy is src/graph/repr.rs:42-112 |
| `ReprJson.BinaryDataToString` | src/graph/repr.rs:154-158 | no contract of its own: the base64 text of the bytes; `BinaryDataRoundTrip` relates it to parsing |
| `ReprJson.BinaryDataFromString` | src/graph/repr.rs:160-168 | no contract of its own: the decoded bytes, or the error "String is not valid base64"; `BinaryDataRoundTrip` relates it to writing |
| `ReprJson.BinaryDataRoundTrip` | src/graph/repr.rs:150-168 | binary data turned into base64 text and parsed back is unchanged |
| `ReprJson.ToJsonValue` | src/graph/repr.rs:191-205 | no contract of its own: each variant to the JSON variant of the same name, binary bytes wrapped as `BinaryData`; `JsonValueRoundTrips` proves it inverse to `FromJsonValue` |
| `ReprJson.FromJsonValue` | src/graph/repr.rs:229-241 | no contract of its own: each JSON variant back to the value variant, binary data unwrapped; `JsonValueRoundTrips` proves it inverse to `ToJsonValue` |
| `ReprJson.JsonValueRoundTrips` | src/graph/repr.rs:191-241 | the value conversions to and from JSON values are mutually inverse for all seven variants |
| `ReprJson.JsonNodeOf` | src/graph/repr.rs:173-189 | no contract of its own: the JSON node `ToJsonNode` must build; `JsonNodeRoundTrip` proves `NodeOfJson` undoes it |
| `ReprJson.ToJsonNode` | src/graph/repr.rs:173-189 | the JSON node has the id, a timestamp map and a value map with the node's key set; each entry holds that field's `updated_at` and its value |
| `ReprJson.FromJsonNode` | src/graph/repr.rs:211-228 | succeeds exactly when every value has a timestamp, then pairs each value with its timestamp; otherwise it names a key without one (the `unwrap` panic) |
| `ReprJson.NodeOfJson` | src/graph/repr.rs:211-228 | no contract of its own: the node `FromJsonNode` must build, or nothing when a value lacks a timestamp; `NodeOfJsonDefinedness` states when it is defined |
| `ReprJson.NodeOfJsonDefinedness` | src/graph/repr.rs:211-228 | conversion is defined exactly when the value keys are among the timestamp keys; extra timestamps are ignored |
| `ReprJson.JsonNodeRoundTrip` | src/graph/repr.rs:173-228 | node to JSON node to node is the identity: id, keys, timestamps and values |
| `ReprJson.SerializeShapes` | src/graph/repr.rs:249-270 | binary is written as `$base64$` followed by its base64 text; a reference is the one-entry map `{"#": id}` |
| `ReprJson.Serialize` | src/graph/repr.rs:249-270 | None is written as null, strings and binary data as JSON strings, a node reference as a map, and nothing as an array |
| `ReprJson.VisitStr` | src/graph/repr.rs:323-351 | a string visit yields a String or binary data; a String result is the input itself, which lacks the `$base64$` prefix; only prefixed input can fail |
| `ReprJson.VisitMap` | src/graph/repr.rs:367-388 | a map visit that succeeds yields a node reference, and only when the first key is `#` holding a string |
| `ReprJson.Visit` | src/graph/repr.rs:272-398 | only strings, arrays and maps can fail; an array is always the invalid-type error, since the visitor has no `visit_seq` |
| `ReprJson.VisitScalars` | src/graph/repr.rs:274-365 | null is None, booleans and floats keep their value, and every integer width goes through `as i64` (a u64 of 2^63 or more wraps) |
| `ReprJson.VisitStrClassifies` | src/graph/repr.rs:323-351 | a string with the `$base64$` prefix is binary data, or an invalid-value error if the rest is not base64; any other string is a String |
| `ReprJson.VisitMapCases` | src/graph/repr.rs:367-388 | an empty map is a missing `#` field; a first key other than `#` is an unknown field; `#` with a parseable ULID string is a reference; an unparseable one is an invalid value |
| `ReprJson.WireRoundTrip` | src/graph/repr.rs:249-398 | writing a JSON value and visiting it gives it back, for every variant, unless it is a String starting with `$base64$` (NaN floats also excepted in practice: the JSON text layer writes them as null, which the model leaves out) |
| `ReprJson.PrefixedStringMisread` | src/graph/repr.rs:254-344 | a String that starts with `$base64$` does not come back as itself |
| `ReprJson.NodeWireRoundTrip` | src/graph/repr.rs:173-398 | a node with no `$base64$`-prefixed strings survives the JSON node conversion, the writing and visiting of every value, and the conversion back (NaN floats excepted in practice, as they are written as null by the JSON text layer) |
| `Engine.Store.GetId` | src/engine.rs:53 | returns the key's recorded mapping (outer option: recorded at all), or the I/O error |
| `Engine.Store.GetNode` | src/engine.rs:59 | returns the node stored under the id, which carries that id, or the I/O error |
| `Engine.Store.SetId` | src/engine.rs:70 | overwrites the key's mapping and nothing else, or fails and changes nothing |
| `Engine.Store.PutNode` | src/engine.rs:71 | stores the node under its id, replacing any previous node, or fails and changes nothing |
| `Engine.Rod.Get` | src/engine.rs:50-64 | None when the key is unmapped or mapped to no id (flatten), or when no node is stored under the id; the stored node when both exist; store errors passed on unchanged |
| `Engine.Rod.Put` | src/engine.rs:66-74 | maps the key to the node's id, then stores the node as is (no merge); a failing `set_id` writes nothing and returns its error; a failing `put_node` keeps the new mapping and returns its error |
| `Engine.Lookup` | src/engine.rs:50-64 | no contract of its own: what `get` returns when no I/O fails; `Rod.Get` is proved against it and `PutThenGet`, `PutLeavesOtherKeys` and `LookupFindsMappedId` state its properties |
| `Engine.PutThenGet` | src/engine.rs:50-74 | `get` after `put` of the same key finds the node that was put |
| `Engine.PutLeavesOtherKeys` | src/engine.rs:66-74 | `put` leaves other keys' mappings unchanged; another key sees the new node exactly when it maps to the same id |
| `Engine.LookupFindsMappedId` | src/engine.rs:50-64 | what `get` finds carries the id the key is mapped to |

## Left out

- Clock reads. `Field::new` (src/crdt.rs:32-41) stamps a value with the current time; the model takes timestamps as inputs. `merge_with` reads the clock itself; here `now` is a parameter.
- `Crdt.MergeInto`: one `now` serves every key, whereas the source reads the clock once per field merge.
- `Crdt.MergeInto`: after a panic the source target may already hold some merged fields. The model returns only the error, and says it comes from some failing common key. Which key comes first depends on HashMap order, which is not modelled.
- The deferred future-update path (`unimplemented!`, src/crdt.rs:87-93) is the error `DeferredUpdate`. No scheduling mechanism is modelled, because the source has none.
- IEEE-754 arithmetic. `F64` is a real or NaN. Infinities, signed zero and the rounding of `updated_at - current_time` are not modelled.
- Convergence under NaN or future timestamps. The convergence lemmas hold for settled fields: numeric timestamps not after `now`, and no NaN value. With NaN they fail, as `MergeTieNaNDiverges` shows. With a timestamp more than 600 s after `now` they fail too: `MergeFarFutureDiverges` shows it for one field, and `MergedFieldsFarFutureDiverges` for a node, where an incoming-only key is inserted without the future check.
- The getters `Field::value` and `Field::state` (src/crdt.rs:43-49). They only return a field of the struct.
- Borsh bytes. The byte encoding of `BorshNode` comes from derive macros of the Borsh library, so only the structural conversions are modelled.
- serde derives. The derived (de)serialisation of `JsonNode` and `JsonNodeMeta`, and the `try_from`/`into` serde attributes of `BinaryData`, are generated by serde and are not modelled.
- The JSON text layer (serde_json) is not modelled. That includes how the deserializer hands values to the visitor, what it does with map entries after the first, and writing non-finite floats. The visitor sees a `Json` tree instead.
- base64 and ULID text parsing are external crates, so they are the `Codecs` parameter. The model relies only on their round-trip laws, `Lawful`.
- The store backend (src/store/native.rs, src/store/wasm.rs) is not modelled. A store call's I/O outcome is a parameter, and a failed call leaves its table unchanged. The store trait's `get`/`put`/`delete` (src/store.rs:33-42) are not used by the engine.
- `Rod::new` (src/engine.rs:34-47) builds the default filesystem store, which is not part of this model. `Rod` is constructed over a given `Store`.
- async execution, `Arc` sharing and concurrent callers of the engine are not modelled.
- Strings are sequences of Unicode scalar values. Rust compares `String`s byte by byte in UTF-8, which gives the same order as comparing code points.

## Findings

| source | as written | input that shows it | evidently intended | confidence | as-written member | corrected member |
|---|---|---|---|---|---|---|
| src/crdt.rs:103-117 | two `None` values have the same discriminant, but the match has no `(None, None)` arm, so they fall to `_ => unreachable!()` and panic | `merge_with` of `Field { updated_at: t, value: None }` with a copy of itself | `(None, None)` compares `Equal`, so merging an empty field with itself changes nothing | high; not executed | `Crdt.NoneTiePanicsAsWritten` | `Crdt.MergeIdempotent` |

`Crdt.LexicalCmpAsWritten` is the comparison as written, and
`Crdt.AsWrittenDiffersOnlyOnNone` shows it differs from the corrected
`Crdt.LexicalCmp` only on that pair. The field and node merges use the
corrected order.
