/**
 * The JSON mirror of the graph (src/graph/repr.rs, module `repr_json`): a
 * node splits into a metadata part (`_.#`, the id, and `_.>`, the field
 * timestamps) and the flattened field values; values are written as JSON
 * scalars, binary data as a `$base64$`-prefixed string and a node reference
 * as the map `{"#": id}`, and a hand-written visitor classifies them back.
 */
module ReprJson {
  import opened Wrappers
  import opened Graph

  // ---------------------------------------------------------------------
  // External text codecs
  // ---------------------------------------------------------------------

  /**
   * The base64 codec and the ULID text form come from libraries outside the
   * model, so they are passed in.
   */
  datatype Codecs = Codecs(
    base64Encode: seq<Byte> -> string,
    base64Decode: string -> Option<seq<Byte>>,
    ulidToString: Ulid -> string,
    ulidFromString: string -> Option<Ulid>)

  /** What the model relies on: each decoder undoes its encoder. */
  ghost predicate Lawful(c: Codecs) {
    && (forall b: seq<Byte> :: c.base64Decode(c.base64Encode(b)) == Some(b))
    && (forall u: Ulid :: c.ulidFromString(c.ulidToString(u)) == Some(u))
  }

  // ---------------------------------------------------------------------
  // The JSON mirror types
  // ---------------------------------------------------------------------

  /** Binary data that travels as base64 text. */
  datatype BinaryData = BinaryData(bytes: seq<Byte>)

  datatype JsonValue =
    | None
    | Bool(b: bool)
    | Int(i: I64)
    | Float(f: F64)
    | String(s: string)
    | Binary(data: BinaryData)
    | Node(id: Ulid)

  /** The `_` member: `#` holds the id, `>` maps each field name to its timestamp. */
  datatype JsonNodeMeta = JsonNodeMeta(id: Ulid, fieldStates: map<string, F64>)

  datatype JsonNode = JsonNode(meta: JsonNodeMeta, fields: map<string, JsonValue>)

  /** `Into<String> for BinaryData`. */
  function BinaryDataToString(c: Codecs, d: BinaryData): string {
    c.base64Encode(d.bytes)
  }

  /** `TryFrom<String> for BinaryData`. */
  function BinaryDataFromString(c: Codecs, s: string): Result<BinaryData, string> {
    match c.base64Decode(s)
    case Some(b) => Ok(BinaryData(b))
    case None => Err("String is not valid base64")
  }

  lemma BinaryDataRoundTrip(c: Codecs, d: BinaryData)
    requires Lawful(c)
    ensures BinaryDataFromString(c, BinaryDataToString(c, d)) == Ok(d)
  {
  }

  /** `From<Value> for JsonValue`. */
  function ToJsonValue(v: Value): JsonValue {
    match v
    case None => JsonValue.None
    case Bool(b) => JsonValue.Bool(b)
    case Int(i) => JsonValue.Int(i)
    case Float(f) => JsonValue.Float(f)
    case String(s) => JsonValue.String(s)
    case Binary(b) => JsonValue.Binary(BinaryData(b))
    case Node(n) => JsonValue.Node(n)
  }

  /** `From<JsonValue> for Value`. */
  function FromJsonValue(v: JsonValue): Value {
    match v
    case None => Value.None
    case Bool(b) => Value.Bool(b)
    case Int(i) => Value.Int(i)
    case Float(f) => Value.Float(f)
    case String(s) => Value.String(s)
    case Binary(d) => Value.Binary(d.bytes)
    case Node(n) => Value.Node(n)
  }

  /** The two value conversions are inverse bijections over all seven variants. */
  lemma JsonValueRoundTrips(v: Value, j: JsonValue)
    ensures FromJsonValue(ToJsonValue(v)) == v
    ensures ToJsonValue(FromJsonValue(j)) == j
  {
  }

  // ---------------------------------------------------------------------
  // Node <-> JsonNode
  // ---------------------------------------------------------------------

  /** The JSON form of a node: timestamps under `_.>`, converted values flattened beside it. */
  function JsonNodeOf(n: Node): JsonNode {
    JsonNode(
      JsonNodeMeta(n.id, map k | k in n.fields :: n.fields[k].updatedAt),
      map k | k in n.fields :: ToJsonValue(n.fields[k].value))
  }

  /**
   * `From<Node> for JsonNode`: one pass over the fields fills the timestamp
   * map and the value map.
   */
  method ToJsonNode(node: Node) returns (j: JsonNode)
    ensures j == JsonNodeOf(node)
    ensures j.meta.id == node.id
    ensures j.meta.fieldStates.Keys == j.fields.Keys == node.fields.Keys
    ensures forall k :: k in node.fields ==>
      j.meta.fieldStates[k] == node.fields[k].updatedAt && FromJsonValue(j.fields[k]) == node.fields[k].value
  {
    var fieldStates: map<string, F64> := map[];
    var fields: map<string, JsonValue> := map[];
    var pending := node.fields.Keys;
    while pending != {}
      invariant pending <= node.fields.Keys
      invariant fieldStates.Keys == fields.Keys == node.fields.Keys - pending
      invariant forall k :: k in fieldStates ==>
        fieldStates[k] == node.fields[k].updatedAt && fields[k] == ToJsonValue(node.fields[k].value)
      decreases pending
    {
      var k :| k in pending;
      fieldStates := fieldStates[k := node.fields[k].updatedAt];
      fields := fields[k := ToJsonValue(node.fields[k].value)];
      pending := pending - {k};
    }
    j := JsonNode(JsonNodeMeta(node.id, fieldStates), fields);
    forall k | k in node.fields ensures FromJsonValue(j.fields[k]) == node.fields[k].value {
      JsonValueRoundTrips(node.fields[k].value, JsonValue.None);
    }
  }

  /** The `unwrap` on a missing timestamp in `From<JsonNode> for Node`. */
  datatype MissingFieldState = MissingFieldState(key: string)

  /**
   * The node a JSON node converts to: each value paired with the timestamp of
   * the same name; nothing when some value has no timestamp.
   */
  function NodeOfJson(j: JsonNode): Option<Node> {
    if j.fields.Keys <= j.meta.fieldStates.Keys then
      Some(Node.Node(j.meta.id, map k | k in j.fields :: Field(j.meta.fieldStates[k], FromJsonValue(j.fields[k]))))
    else
      Option.None
  }

  /**
   * `From<JsonNode> for Node`: the fields are converted one by one, each
   * taking (and removing) its timestamp from the metadata; a field without a
   * timestamp panics.
   */
  method FromJsonNode(j: JsonNode) returns (r: Result<Node, MissingFieldState>)
    ensures r.Ok? <==> j.fields.Keys <= j.meta.fieldStates.Keys
    ensures r.Ok? ==> NodeOfJson(j) == Some(r.value)
    ensures r.Err? ==> r.error.key in j.fields && r.error.key !in j.meta.fieldStates
  {
    var states := j.meta.fieldStates;
    var fields: map<string, Field> := map[];
    var pending := j.fields.Keys;
    while pending != {}
      invariant pending <= j.fields.Keys
      invariant fields.Keys == j.fields.Keys - pending
      invariant states == map k | k in j.meta.fieldStates && k !in fields :: j.meta.fieldStates[k]
      invariant forall k :: k in fields ==>
        k in j.meta.fieldStates && fields[k] == Field(j.meta.fieldStates[k], FromJsonValue(j.fields[k]))
      decreases pending
    {
      var k :| k in pending;
      if k !in states {
        return Err(MissingFieldState(k));
      }
      fields := fields[k := Field(states[k], FromJsonValue(j.fields[k]))];
      states := map k' | k' in states && k' != k :: states[k'];
      pending := pending - {k};
    }
    assert fields == NodeOfJson(j).value.fields;
    r := Ok(Node.Node(j.meta.id, fields));
  }

  /** The conversion fails exactly when some value has no timestamp; extra timestamps are ignored. */
  lemma NodeOfJsonDefinedness(j: JsonNode, extra: map<string, F64>)
    ensures NodeOfJson(j).Some? <==> j.fields.Keys <= j.meta.fieldStates.Keys
    ensures NodeOfJson(j).Some? && extra.Keys !! j.fields.Keys ==>
      NodeOfJson(JsonNode(JsonNodeMeta(j.meta.id, j.meta.fieldStates + extra), j.fields)) == NodeOfJson(j)
  {
    if NodeOfJson(j).Some? && extra.Keys !! j.fields.Keys {
      var j' := JsonNode(JsonNodeMeta(j.meta.id, j.meta.fieldStates + extra), j.fields);
      assert NodeOfJson(j').value.fields == NodeOfJson(j).value.fields;
    }
  }

  /** Node → JSON node → node is the identity: id, key set, timestamps and values. */
  lemma JsonNodeRoundTrip(n: Node)
    ensures NodeOfJson(JsonNodeOf(n)) == Some(n)
  {
    var j := JsonNodeOf(n);
    assert j.fields.Keys <= j.meta.fieldStates.Keys;
    var m := NodeOfJson(j).value;
    forall k | k in n.fields ensures m.fields[k] == n.fields[k] {
      JsonValueRoundTrips(n.fields[k].value, JsonValue.None);
    }
    assert m.fields == n.fields;
  }

  // ---------------------------------------------------------------------
  // The wire form of one value
  // ---------------------------------------------------------------------

  /** The integers a self-describing deserializer hands over: i64 or u64. */
  type WireInt = x: int | -0x8000_0000_0000_0000 <= x < 0x1_0000_0000_0000_0000

  /** A JSON document, as the serializer receives it and the deserializer hands it to the visitor. */
  datatype Json =
    | Null
    | Bool(b: bool)
    | Int(i: WireInt)
    | Float(f: F64)
    | Str(s: string)
    | Array(items: seq<Json>)
    | Map(entries: seq<(string, Json)>)

  /** The marker in front of base64 text that tells binary data from a string. */
  const Base64Prefix: string := "$base64$"

  /** `str::starts_with`. */
  predicate HasPrefix(s: string, p: string) {
    |p| <= |s| && s[..|p|] == p
  }

  /** `Serialize for JsonValue`. */
  function Serialize(c: Codecs, v: JsonValue): (j: Json)
    ensures j.Null? <==> v.None?
    ensures j.Str? <==> v.String? || v.Binary?
    ensures j.Map? <==> v.Node?
    ensures !j.Array?
  {
    match v
    case None => Json.Null
    case Bool(b) => Json.Bool(b)
    case Int(i) => Json.Int(i)
    case Float(f) => Json.Float(f)
    case String(s) => Json.Str(s)
    case Binary(d) => Json.Str(Base64Prefix + c.base64Encode(d.bytes))
    case Node(id) => Json.Map([("#", Json.Str(c.ulidToString(id)))])
  }

  /** The serde errors the visitor raises. */
  datatype DeError =
    | InvalidValue(unexpected: string, expected: string)
    | UnknownField(field: string, allowed: seq<string>)
    | MissingField(field: string)
    | InvalidType  // a JSON array, or a value under `#` that is not a string

  /** `visit_str` / `visit_string`. */
  function VisitStr(c: Codecs, s: string): (r: Result<JsonValue, DeError>)
    ensures r.Ok? ==> r.value.String? || r.value.Binary?
    ensures r.Ok? && r.value.String? ==> r.value.s == s && !HasPrefix(s, Base64Prefix)
    ensures r.Err? ==> HasPrefix(s, Base64Prefix)
  {
    if HasPrefix(s, Base64Prefix) then
      match c.base64Decode(s[|Base64Prefix|..])
      case Some(data) => Ok(JsonValue.Binary(BinaryData(data)))
      case None => Err(InvalidValue("$base64$[invalid base64 data]", "valid base64 encoded data"))
    else
      Ok(JsonValue.String(s))
  }

  /** `visit_map`: only the first entry is looked at; it must be `#` holding a ULID string. */
  function VisitMap(c: Codecs, entries: seq<(string, Json)>): (r: Result<JsonValue, DeError>)
    ensures r.Ok? ==> r.value.Node?
    ensures r.Ok? ==> |entries| > 0 && entries[0].0 == "#" && entries[0].1.Str?
  {
    if |entries| == 0 then Err(MissingField("#"))
    else if entries[0].0 != "#" then Err(UnknownField(entries[0].0, ["#"]))
    else match entries[0].1
      case Str(t) =>
        (match c.ulidFromString(t)
         case Some(id) => Ok(JsonValue.Node(id))
         case None => Err(InvalidValue(t, "Valid ULID")))
      case _ => Err(InvalidType)
  }

  /**
   * `JsonValueVisitor` driven by `deserialize_any`. The visitor has no
   * `visit_seq`, so an array is serde's default invalid-type error.
   */
  function Visit(c: Codecs, j: Json): (r: Result<JsonValue, DeError>)
    ensures r.Err? ==> j.Str? || j.Array? || j.Map?
    ensures j.Array? ==> r == Err(InvalidType)
  {
    match j
    case Null => Ok(JsonValue.None)
    case Bool(b) => Ok(JsonValue.Bool(b))
    case Int(i) => Ok(JsonValue.Int(AsI64(i)))
    case Float(f) => Ok(JsonValue.Float(f))
    case Str(s) => VisitStr(c, s)
    case Array(_) => Err(InvalidType)
    case Map(entries) => VisitMap(c, entries)
  }

  /** The scalar cases: null to None, booleans and floats as they are, every integer width through `as i64`. */
  lemma VisitScalars(c: Codecs, b: bool, i: WireInt, f: F64)
    ensures Visit(c, Json.Null) == Ok(JsonValue.None)
    ensures Visit(c, Json.Bool(b)) == Ok(JsonValue.Bool(b))
    ensures Visit(c, Json.Float(f)) == Ok(JsonValue.Float(f))
    ensures i < 0x8000_0000_0000_0000 ==> Visit(c, Json.Int(i)) == Ok(JsonValue.Int(i))
    ensures i >= 0x8000_0000_0000_0000 ==> Visit(c, Json.Int(i)) == Ok(JsonValue.Int(i - 0x1_0000_0000_0000_0000))
  {
  }

  /**
   * A string with the marker is binary data, or an error when the rest is not
   * base64; every other string is a string.
   */
  lemma VisitStrClassifies(c: Codecs, s: string)
    ensures !HasPrefix(s, Base64Prefix) ==> Visit(c, Json.Str(s)) == Ok(JsonValue.String(s))
    ensures HasPrefix(s, Base64Prefix) ==>
      (Visit(c, Json.Str(s)).Ok? <==> c.base64Decode(s[8..]).Some?)
    ensures HasPrefix(s, Base64Prefix) && c.base64Decode(s[8..]).Some? ==>
      Visit(c, Json.Str(s)) == Ok(JsonValue.Binary(BinaryData(c.base64Decode(s[8..]).value)))
  {
  }

  /** A map is a node reference only when its first key is `#` and its value parses as a ULID. */
  lemma VisitMapCases(c: Codecs, entries: seq<(string, Json)>)
    ensures |entries| == 0 ==> Visit(c, Json.Map(entries)) == Err(MissingField("#"))
    ensures |entries| > 0 && entries[0].0 != "#" ==> Visit(c, Json.Map(entries)) == Err(UnknownField(entries[0].0, ["#"]))
    ensures Visit(c, Json.Map(entries)).Ok? <==>
      (|entries| > 0 && entries[0].0 == "#" && entries[0].1.Str? && c.ulidFromString(entries[0].1.s).Some?)
    ensures |entries| > 0 && entries[0].0 == "#" && entries[0].1.Str? && c.ulidFromString(entries[0].1.s).None? ==>
      Visit(c, Json.Map(entries)) == Err(InvalidValue(entries[0].1.s, "Valid ULID"))
  {
  }

  /** Binary data is written as the marker followed by base64; a reference as the one-entry map `{"#": id}`. */
  lemma SerializeShapes(c: Codecs, d: BinaryData, id: Ulid)
    ensures Serialize(c, JsonValue.Binary(d)).Str?
    ensures HasPrefix(Serialize(c, JsonValue.Binary(d)).s, Base64Prefix)
    ensures Serialize(c, JsonValue.Binary(d)).s[8..] == c.base64Encode(d.bytes)
    ensures Serialize(c, JsonValue.Node(id)) == Json.Map([("#", Json.Str(c.ulidToString(id)))])
  {
    var s := Serialize(c, JsonValue.Binary(d)).s;
    assert s[..8] == Base64Prefix;
  }

  /** Writing a value and visiting it gives it back, unless it is a string that itself starts with the marker. */
  lemma WireRoundTrip(c: Codecs, v: JsonValue)
    requires Lawful(c)
    requires !(v.String? && HasPrefix(v.s, Base64Prefix))
    ensures Visit(c, Serialize(c, v)) == Ok(v)
  {
    match v
    case Binary(d) =>
      var s := Base64Prefix + c.base64Encode(d.bytes);
      assert s[..8] == Base64Prefix && s[8..] == c.base64Encode(d.bytes);
    case _ =>
  }

  /** A string value that starts with the marker does not survive the trip: it comes back as binary data or an error. */
  lemma PrefixedStringMisread(c: Codecs, s: string)
    requires HasPrefix(s, Base64Prefix)
    ensures Visit(c, Serialize(c, JsonValue.String(s))) != Ok(JsonValue.String(s))
  {
  }

  /**
   * A node whose string values do not start with the marker survives
   * conversion to its JSON form, the writing and visiting of every value,
   * and conversion back.
   */
  lemma NodeWireRoundTrip(c: Codecs, n: Node)
    requires Lawful(c)
    requires forall k :: k in n.fields ==> !(n.fields[k].value.String? && HasPrefix(n.fields[k].value.s, Base64Prefix))
    ensures var j := JsonNodeOf(n);
      && (forall k :: k in j.fields ==> Visit(c, Serialize(c, j.fields[k])) == Ok(j.fields[k]))
      && NodeOfJson(j) == Some(n)
  {
    var j := JsonNodeOf(n);
    forall k | k in j.fields ensures Visit(c, Serialize(c, j.fields[k])) == Ok(j.fields[k]) {
      WireRoundTrip(c, j.fields[k]);
    }
    JsonNodeRoundTrip(n);
  }
}
