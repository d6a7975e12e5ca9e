/**
 * The Borsh mirror of the graph (src/graph/repr/repr_borsh.rs, duplicated
 * inline in src/graph/repr.rs): plain structural copies of node, field and
 * value, with the node id stored as a u128. The byte encoding itself is
 * derived by the Borsh library and is not part of this model.
 */
module ReprBorsh {
  import opened Graph

  /** `u128`. */
  type U128 = Ulid

  datatype BorshValue =
    | None
    | Bool(b: bool)
    | Int(i: I64)
    | Float(f: F64)
    | String(s: string)
    | Binary(bytes: seq<Byte>)
    | Node(id: U128)

  datatype BorshField = BorshField(updatedAt: F64, value: BorshValue)

  datatype BorshNode = BorshNode(id: U128, fields: map<string, BorshField>)

  /** `From<Value> for BorshValue`. */
  function ToBorshValue(v: Value): BorshValue {
    match v
    case None => BorshValue.None
    case Bool(b) => BorshValue.Bool(b)
    case Int(i) => BorshValue.Int(i)
    case Float(f) => BorshValue.Float(f)
    case String(s) => BorshValue.String(s)
    case Binary(b) => BorshValue.Binary(b)
    case Node(n) => BorshValue.Node(n)
  }

  /** `From<BorshValue> for Value`. */
  function FromBorshValue(v: BorshValue): Value {
    match v
    case None => Value.None
    case Bool(b) => Value.Bool(b)
    case Int(i) => Value.Int(i)
    case Float(f) => Value.Float(f)
    case String(s) => Value.String(s)
    case Binary(b) => Value.Binary(b)
    case Node(n) => Value.Node(n)
  }

  /** `From<Field> for BorshField`. */
  function ToBorshField(f: Field): BorshField {
    BorshField(f.updatedAt, ToBorshValue(f.value))
  }

  /** `From<BorshField> for Field`. */
  function FromBorshField(f: BorshField): Field {
    Field(f.updatedAt, FromBorshValue(f.value))
  }

  /** `From<Node> for BorshNode`. */
  function ToBorshNode(n: Node): BorshNode {
    BorshNode(n.id, map k | k in n.fields :: ToBorshField(n.fields[k]))
  }

  /** `From<BorshNode> for Node`. */
  function FromBorshNode(n: BorshNode): Node {
    Node.Node(n.id, map k | k in n.fields :: FromBorshField(n.fields[k]))
  }

  /** Each conversion keeps the variant and its payload, so either direction undoes the other. */
  lemma ValueRoundTrips(v: Value, b: BorshValue)
    ensures FromBorshValue(ToBorshValue(v)) == v
    ensures ToBorshValue(FromBorshValue(b)) == b
  {
  }

  /** Field conversion copies the timestamp verbatim and converts the value, both ways. */
  lemma FieldConversions(f: Field, b: BorshField)
    ensures ToBorshField(f).updatedAt == f.updatedAt
    ensures FromBorshValue(ToBorshField(f).value) == f.value
    ensures FromBorshField(b).updatedAt == b.updatedAt
    ensures ToBorshValue(FromBorshField(b).value) == b.value
  {
    ValueRoundTrips(f.value, b.value);
  }

  /** Node conversion keeps the id and the key set, and converts each field in place. */
  lemma NodeConversion(n: Node)
    ensures ToBorshNode(n).id == n.id
    ensures ToBorshNode(n).fields.Keys == n.fields.Keys
    ensures forall k :: k in n.fields ==> FromBorshField(ToBorshNode(n).fields[k]) == n.fields[k]
  {
  }

  /** Node → Borsh → node is the identity, and so is Borsh → node → Borsh. */
  lemma NodeRoundTrips(n: Node, b: BorshNode)
    ensures FromBorshNode(ToBorshNode(n)) == n
    ensures ToBorshNode(FromBorshNode(b)) == b
  {
    var n' := FromBorshNode(ToBorshNode(n));
    forall k | k in n.fields ensures n'.fields[k] == n.fields[k] {
      ValueRoundTrips(n.fields[k].value, BorshValue.None);
    }
    assert n'.fields == n.fields;
    var b' := ToBorshNode(FromBorshNode(b));
    forall k | k in b.fields ensures b'.fields[k] == b.fields[k] {
      ValueRoundTrips(Value.None, b.fields[k].value);
    }
    assert b'.fields == b.fields;
  }
}
