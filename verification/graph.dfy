/**
 * The data graph of rod (src/graph.rs): a node is an identifier and a map
 * from field name to a timestamped field; a field holds one of seven values.
 */
module Graph {

  /** An unsigned byte. */
  type Byte = x: int | 0 <= x < 0x100

  /** A signed 64-bit integer, the payload of `Value::Int`. */
  type I64 = x: int | -0x8000_0000_0000_0000 <= x < 0x8000_0000_0000_0000

  /** A ULID, that is a 128-bit unsigned integer (the form Borsh stores). */
  type Ulid = x: int | 0 <= x < 0x1_0000_0000_0000_0000_0000_0000_0000_0000

  /**
   * An IEEE-754 double seen abstractly: a number, or not-a-number. Infinities,
   * signed zero and rounding are not modelled.
   */
  datatype F64 = Num(r: real) | NaN

  /** The seven kinds of field value; exactly one variant at a time. */
  datatype Value =
    | None
    | Bool(b: bool)
    | Int(i: I64)
    | Float(f: F64)
    | String(s: string)
    | Binary(bytes: seq<Byte>)
    | Node(id: Ulid)

  /** A value with the time (seconds since the Unix epoch) it was last updated. */
  datatype Field = Field(updatedAt: F64, value: Value)

  /** A graph node: its identifier and its named fields. */
  datatype Node = Node(id: Ulid, fields: map<string, Field>)

  /** The position of a variant in the closed list of seven. */
  function Variant(v: Value): (k: nat)
    ensures k < 7
    ensures k == 0 <==> v.None?
    ensures k == 1 <==> v.Bool?
    ensures k == 2 <==> v.Int?
    ensures k == 3 <==> v.Float?
    ensures k == 4 <==> v.String?
    ensures k == 5 <==> v.Binary?
    ensures k == 6 <==> v.Node?
  {
    match v
    case None => 0
    case Bool(_) => 1
    case Int(_) => 2
    case Float(_) => 3
    case String(_) => 4
    case Binary(_) => 5
    case Node(_) => 6
  }

  /**
   * `Node::new()` / `Node::default()`. The fresh ULID is drawn from the clock
   * and a random source, so it is a parameter here.
   */
  function NewNode(freshId: Ulid): (n: Node)
    ensures n.id == freshId && n.fields == map[]
  {
    Node.Node(freshId, map[])
  }

  /** Rust's `as i64` on an integer of any width: two's-complement truncation. */
  function AsI64(x: int): (r: I64)
    ensures -0x8000_0000_0000_0000 <= x < 0x8000_0000_0000_0000 ==> r == x
    ensures (r - x) % 0x1_0000_0000_0000_0000 == 0
  {
    (x + 0x8000_0000_0000_0000) % 0x1_0000_0000_0000_0000 - 0x8000_0000_0000_0000
  }

  /** The integer types `Value` has a `From` impl for: i8..i64 and u8..u64. */
  predicate IsSourceInteger(x: int) {
    -0x8000_0000_0000_0000 <= x < 0x1_0000_0000_0000_0000
  }

  /** `From<()>`. */
  function FromUnit(): (v: Value)
    ensures Variant(v) == 0
  {
    Value.None
  }

  /** `From<i8>` ... `From<u64>`: `Self::Int(i as i64)`. */
  function FromInt(x: int): (v: Value)
    requires IsSourceInteger(x)
    ensures v.Int?
    ensures x < 0x8000_0000_0000_0000 ==> v.i == x
    ensures x >= 0x8000_0000_0000_0000 ==> v.i == x - 0x1_0000_0000_0000_0000 < 0
  {
    Value.Int(AsI64(x))
  }

  /** `From<f32>` and `From<f64>`; widening f32 to f64 is exact. */
  function FromFloat(f: F64): (v: Value)
    ensures Variant(v) == 3 && v.f == f
  {
    Value.Float(f)
  }

  /** `From<String>`. */
  function FromString(s: string): (v: Value)
    ensures Variant(v) == 4 && v.s == s
  {
    Value.String(s)
  }

  /** `From<Vec<u8>>`. */
  function FromBytes(b: seq<Byte>): (v: Value)
    ensures Variant(v) == 5 && v.bytes == b
  {
    Value.Binary(b)
  }

  /** `From<&Node>`: a reference to the node. */
  function FromNode(n: Node): (v: Value)
    ensures Variant(v) == 6 && v.id == n.id
  {
    Value.Node(n.id)
  }

  /** `u64::MAX` converts to `Int(-1)`: the `as i64` cast wraps. */
  lemma FromU64MaxWraps()
    ensures FromInt(0xFFFF_FFFF_FFFF_FFFF) == Value.Int(-1)
  {
  }
}
