/**
 * GUN's HAM conflict resolution as rod implements it (src/crdt.rs): a lexical
 * order on values for tie-breaking, the field merge, and the node merge.
 */
module Crdt {
  import opened Wrappers
  import opened Graph

  /** `std::cmp::Ordering`. */
  datatype Ordering = Less | Equal | Greater {
    function Reverse(): Ordering {
      match this
      case Less => Greater
      case Equal => Equal
      case Greater => Less
    }
  }

  /**
   * An update more than this many seconds ahead of the local clock is taken
   * to come from a lying peer and is dropped.
   */
  const FutureUpdateThreshold: real := 600.0

  // ---------------------------------------------------------------------
  // Lexical order
  // ---------------------------------------------------------------------

  /** `Ord::cmp` on integers. */
  function IntCmp(x: int, y: int): (o: Ordering)
    ensures o == Less <==> x < y
    ensures o == Equal <==> x == y
    ensures o == Greater <==> x > y
  {
    if x < y then Less else if x > y then Greater else Equal
  }

  /** `Ord::cmp` on slices: the first differing element decides, a proper prefix is smaller. */
  function SeqCmp(a: seq<int>, b: seq<int>): (o: Ordering)
    ensures |a| <= |b| && a == b[..|a|] ==> o == (if |a| == |b| then Equal else Less)
    ensures |b| <= |a| && b == a[..|b|] ==> o == (if |a| == |b| then Equal else Greater)
    decreases |a|
  {
    if |a| == 0 && |b| == 0 then Equal
    else if |a| == 0 then Less
    else if |b| == 0 then Greater
    else if a[0] < b[0] then Less
    else if a[0] > b[0] then Greater
    else SeqCmp(a[1..], b[1..])
  }

  /** The first position where the sequences differ decides the order. */
  lemma {:induction false} SeqCmpFirstDifference(a: seq<int>, b: seq<int>, i: nat)
    requires i < |a| && i < |b| && a[..i] == b[..i] && a[i] != b[i]
    ensures SeqCmp(a, b) == (if a[i] < b[i] then Less else Greater)
    decreases i
  {
    if i > 0 {
      assert a[0] == a[..i][0] == b[..i][0] == b[0];
      assert a[1..][..i - 1] == a[..i][1..] == b[..i][1..] == b[1..][..i - 1];
      SeqCmpFirstDifference(a[1..], b[1..], i - 1);
    }
  }

  lemma {:induction false} SeqCmpEqual(a: seq<int>, b: seq<int>)
    ensures SeqCmp(a, b) == Equal <==> a == b
    decreases |a|
  {
    if |a| > 0 && |b| > 0 && a[0] == b[0] {
      SeqCmpEqual(a[1..], b[1..]);
      assert a == [a[0]] + a[1..] && b == [b[0]] + b[1..];
    }
  }

  lemma {:induction false} SeqCmpReverse(a: seq<int>, b: seq<int>)
    ensures SeqCmp(b, a) == SeqCmp(a, b).Reverse()
    decreases |a|
  {
    if |a| > 0 && |b| > 0 && a[0] == b[0] {
      SeqCmpReverse(a[1..], b[1..]);
    }
  }

  lemma {:induction false} SeqCmpLessTrans(a: seq<int>, b: seq<int>, c: seq<int>)
    requires SeqCmp(a, b) == Less && SeqCmp(b, c) == Less
    ensures SeqCmp(a, c) == Less
    decreases |a|
  {
    if |a| > 0 && |b| > 0 && |c| > 0 && a[0] == b[0] == c[0] {
      SeqCmpLessTrans(a[1..], b[1..], c[1..]);
    }
  }

  /**
   * The code points of a string. UTF-8 preserves code-point order, so Rust's
   * byte-wise `String` comparison is the comparison of these sequences.
   */
  function Codes(s: string): (c: seq<int>)
    ensures |c| == |s|
    ensures forall i :: 0 <= i < |s| ==> c[i] == s[i] as int
  {
    seq(|s|, i requires 0 <= i < |s| => s[i] as int)
  }

  lemma CodesInjective(s: string, t: string)
    requires Codes(s) == Codes(t)
    ensures s == t
  {
    assert |s| == |t|;
    forall i | 0 <= i < |s| ensures s[i] == t[i] {
      assert Codes(s)[i] == Codes(t)[i];
    }
  }

  /** `partial_cmp(..).unwrap_or(Less)` on two doubles: any NaN gives `Less`. */
  function FloatCmp(x: F64, y: F64): (o: Ordering)
    ensures (x.NaN? || y.NaN?) ==> o == Less
    ensures x.Num? && y.Num? ==>
      && (o == Less <==> x.r < y.r)
      && (o == Equal <==> x.r == y.r)
      && (o == Greater <==> x.r > y.r)
  {
    if x.Num? && y.Num? then
      (if x.r < y.r then Less else if x.r > y.r then Greater else Equal)
    else Less
  }

  /** The deliberately inverted boolean order: `true` sorts before `false`. */
  function BoolCmp(x: bool, y: bool): (o: Ordering)
    ensures o == IntCmp(if x then 0 else 1, if y then 0 else 1)
  {
    if x == y then Equal else if x then Less else Greater
  }

  /**
   * `lexical_cmp` as written: values of the same variant are compared by
   * payload, with no arm for two `None`s, which fall to `unreachable!()`
   * (returned here as `Option.None`); values of different variants are
   * compared by rank, the variant's position.
   */
  function LexicalCmpAsWritten(a: Value, b: Value): Option<Ordering> {
    if Variant(a) == Variant(b) then
      match (a, b)
      case (Bool(x), Bool(y)) => Some(BoolCmp(x, y))
      case (Int(x), Int(y)) => Some(IntCmp(x, y))
      case (Float(x), Float(y)) => Some(FloatCmp(x, y))
      case (String(x), String(y)) => Some(SeqCmp(Codes(x), Codes(y)))
      case (Binary(x), Binary(y)) => Some(SeqCmp(x, y))
      case (Node(x), Node(y)) => Some(IntCmp(x, y))
      case _ => Option.None
    else
      Some(IntCmp(Variant(a), Variant(b)))
  }

  /**
   * `lexical_cmp` with the missing arm supplied: two `None`s are `Equal`.
   * Pairs of different variants fall to the last case and compare by rank.
   */
  function LexicalCmp(a: Value, b: Value): Ordering {
    match (a, b)
    case (None, None) => Equal
    case (Bool(x), Bool(y)) => BoolCmp(x, y)
    case (Int(x), Int(y)) => IntCmp(x, y)
    case (Float(x), Float(y)) => FloatCmp(x, y)
    case (String(x), String(y)) => SeqCmp(Codes(x), Codes(y))
    case (Binary(x), Binary(y)) => SeqCmp(x, y)
    case (Node(x), Node(y)) => IntCmp(x, y)
    case _ => IntCmp(Variant(a), Variant(b))
  }

  /** The source differs from the corrected order exactly on a pair of `None`s, where it panics. */
  lemma AsWrittenDiffersOnlyOnNone(a: Value, b: Value)
    ensures LexicalCmpAsWritten(a, b) == Option.None <==> a.None? && b.None?
    ensures !(a.None? && b.None?) ==> LexicalCmpAsWritten(a, b) == Some(LexicalCmp(a, b))
  {
  }

  /** A value that is not a NaN float. */
  predicate NoNaN(v: Value) {
    !(v.Float? && v.f.NaN?)
  }

  /** Across variants the order is None < Bool < Int < Float < String < Binary < Node. */
  lemma CmpByRank(a: Value, b: Value)
    requires Variant(a) != Variant(b)
    ensures LexicalCmp(a, b) == (if Variant(a) < Variant(b) then Less else Greater)
  {
  }

  /** Every value compares `Equal` to itself, except a NaN float, which is `Less` than itself. */
  lemma CmpSelf(v: Value)
    ensures LexicalCmp(v, v) == if NoNaN(v) then Equal else Less
  {
    match v
    case String(s) => SeqCmpEqual(Codes(s), Codes(s));
    case Binary(b) => SeqCmpEqual(b, b);
    case _ =>
  }

  /** Without NaN, swapping the operands reverses the answer. */
  lemma CmpReverse(a: Value, b: Value)
    requires NoNaN(a) && NoNaN(b)
    ensures LexicalCmp(b, a) == LexicalCmp(a, b).Reverse()
  {
    match (a, b)
    case (String(x), String(y)) => SeqCmpReverse(Codes(x), Codes(y));
    case (Binary(x), Binary(y)) => SeqCmpReverse(x, y);
    case _ =>
  }

  /** Without NaN, `Equal` means identical. */
  lemma CmpEqualIff(a: Value, b: Value)
    requires NoNaN(a) && NoNaN(b)
    ensures LexicalCmp(a, b) == Equal <==> a == b
  {
    if a == b {
      CmpSelf(a);
    } else {
      match (a, b)
      case (String(x), String(y)) =>
        SeqCmpEqual(Codes(x), Codes(y));
        if Codes(x) == Codes(y) { CodesInjective(x, y); }
      case (Binary(x), Binary(y)) => SeqCmpEqual(x, y);
      case _ =>
    }
  }

  /** Without NaN, `Less` is transitive. */
  lemma CmpLessTrans(a: Value, b: Value, c: Value)
    requires NoNaN(a) && NoNaN(b) && NoNaN(c)
    requires LexicalCmp(a, b) == Less && LexicalCmp(b, c) == Less
    ensures LexicalCmp(a, c) == Less
  {
    if Variant(a) == Variant(b) == Variant(c) {
      match (a, b, c)
      case (String(x), String(y), String(z)) => SeqCmpLessTrans(Codes(x), Codes(y), Codes(z));
      case (Binary(x), Binary(y), Binary(z)) => SeqCmpLessTrans(x, y, z);
      case _ =>
    }
  }

  /** Without NaN, "not `Greater`" is a total preorder: transitive. */
  lemma CmpAtMostTrans(a: Value, b: Value, c: Value)
    requires NoNaN(a) && NoNaN(b) && NoNaN(c)
    requires LexicalCmp(a, b) != Greater && LexicalCmp(b, c) != Greater
    ensures LexicalCmp(a, c) != Greater
  {
    CmpEqualIff(a, b);
    CmpEqualIff(b, c);
    if LexicalCmp(a, b) == Less && LexicalCmp(b, c) == Less {
      CmpLessTrans(a, b, c);
    }
  }

  /** A comparison of two floats that involves a NaN is `Less` from both sides. */
  lemma CmpNaNLess(x: F64, y: F64)
    requires x.NaN? || y.NaN?
    ensures LexicalCmp(Value.Float(x), Value.Float(y)) == Less
    ensures LexicalCmp(Value.Float(y), Value.Float(x)) == Less
  {
  }

  // ---------------------------------------------------------------------
  // Field merge (HAM)
  // ---------------------------------------------------------------------

  /** Why a field merge cannot complete; each is a panic in the source. */
  datatype MergeError =
    | DeferredUpdate          // `unimplemented!`: a newer update within the future window
    | IncomparableTimestamps  // `unreachable!`: a NaN timestamp fails all three comparisons

  /**
   * `Field::merge_with`: the field that `existing` becomes when `incoming`
   * is merged into it at local time `now`.
   */
  function MergeWith(existing: Field, incoming: Field, now: real): (r: Result<Field, MergeError>)
    ensures r == Err(IncomparableTimestamps) <==> existing.updatedAt.NaN? || incoming.updatedAt.NaN?
    ensures r == Err(DeferredUpdate) <==>
      && existing.updatedAt.Num? && incoming.updatedAt.Num?
      && existing.updatedAt.r < incoming.updatedAt.r
      && now < incoming.updatedAt.r <= now + FutureUpdateThreshold
    ensures r.Ok? ==>
      || r.value == existing
      || r.value == incoming
      || (existing.updatedAt == incoming.updatedAt && r.value == Field(existing.updatedAt, incoming.value))
  {
    if existing.updatedAt.NaN? || incoming.updatedAt.NaN? then
      Err(IncomparableTimestamps)
    else
      var mine, theirs := existing.updatedAt.r, incoming.updatedAt.r;
      if theirs == mine then
        if LexicalCmp(existing.value, incoming.value) == Greater
        then Ok(Field(existing.updatedAt, incoming.value))
        else Ok(existing)
      else if theirs < mine then Ok(existing)
      else if theirs <= now then Ok(incoming)
      else if theirs - now > FutureUpdateThreshold then Ok(existing)
      else Err(DeferredUpdate)
  }

  /**
   * At equal timestamps the lexically lesser value survives under the old
   * timestamp: the value changes only when the existing one is `Greater`.
   */
  lemma MergeTieKeepsLesser(existing: Field, incoming: Field, now: real)
    requires existing.updatedAt.Num? && existing.updatedAt == incoming.updatedAt
    requires NoNaN(existing.value) && NoNaN(incoming.value)
    ensures MergeWith(existing, incoming, now).Ok?
    ensures var r := MergeWith(existing, incoming, now).value;
      && r.updatedAt == existing.updatedAt
      && (r.value == existing.value || r.value == incoming.value)
      && LexicalCmp(r.value, existing.value) != Greater
      && LexicalCmp(r.value, incoming.value) != Greater
      && (r.value != existing.value <==> LexicalCmp(existing.value, incoming.value) == Greater)
  {
    var e, i := existing.value, incoming.value;
    CmpSelf(e);
    CmpSelf(i);
    CmpReverse(e, i);
    CmpEqualIff(e, i);
  }

  /** At equal timestamps with a NaN float on either side, the existing field is kept. */
  lemma MergeTieNaNKeepsExisting(existing: Field, incoming: Field, now: real, x: F64, y: F64)
    requires existing.updatedAt.Num? && existing.updatedAt == incoming.updatedAt
    requires existing.value == Value.Float(x) && incoming.value == Value.Float(y)
    requires x.NaN? || y.NaN?
    ensures MergeWith(existing, incoming, now) == Ok(existing)
  {
    CmpNaNLess(x, y);
  }

  /** An older incoming field is ignored. */
  lemma MergeStaleIgnored(existing: Field, incoming: Field, now: real)
    requires existing.updatedAt.Num? && incoming.updatedAt.Num?
    requires incoming.updatedAt.r < existing.updatedAt.r
    ensures MergeWith(existing, incoming, now) == Ok(existing)
  {
  }

  /** A newer incoming field that is not in the future replaces the field wholesale. */
  lemma MergeNewerAdopted(existing: Field, incoming: Field, now: real)
    requires existing.updatedAt.Num? && incoming.updatedAt.Num?
    requires existing.updatedAt.r < incoming.updatedAt.r <= now
    ensures MergeWith(existing, incoming, now) == Ok(incoming)
  {
  }

  /**
   * A newer field stamped in the future is dropped when it is more than 600 s
   * ahead (strictly), and otherwise cannot be applied yet.
   */
  lemma MergeFuture(existing: Field, incoming: Field, now: real)
    requires existing.updatedAt.Num? && incoming.updatedAt.Num?
    requires incoming.updatedAt.r > existing.updatedAt.r && incoming.updatedAt.r > now
    ensures incoming.updatedAt.r > now + 600.0 ==> MergeWith(existing, incoming, now) == Ok(existing)
    ensures incoming.updatedAt.r <= now + 600.0 ==> MergeWith(existing, incoming, now) == Err(DeferredUpdate)
  {
  }

  /** A NaN timestamp on either side is a panic. */
  lemma MergeNaNTimestamp(existing: Field, incoming: Field, now: real)
    requires existing.updatedAt.NaN? || incoming.updatedAt.NaN?
    ensures MergeWith(existing, incoming, now) == Err(IncomparableTimestamps)
  {
  }

  /** Merging a field with a copy of itself changes nothing, for every variant. */
  lemma MergeIdempotent(f: Field, now: real)
    requires f.updatedAt.Num?
    ensures MergeWith(f, f, now) == Ok(f)
  {
    CmpSelf(f.value);
  }

  /** At a boolean tie `true` survives, whichever side holds it. */
  lemma MergeTieTrueWins(t: F64, now: real)
    requires t.Num?
    ensures MergeWith(Field(t, Value.Bool(false)), Field(t, Value.Bool(true)), now) == Ok(Field(t, Value.Bool(true)))
    ensures MergeWith(Field(t, Value.Bool(true)), Field(t, Value.Bool(false)), now) == Ok(Field(t, Value.Bool(true)))
  {
  }

  /** At an integer tie the smaller integer survives: existing 5 against incoming 7 stays 5. */
  lemma MergeTieIntKeepsSmaller(t: F64, now: real)
    requires t.Num?
    ensures MergeWith(Field(t, Value.Int(5)), Field(t, Value.Int(7)), now) == Ok(Field(t, Value.Int(5)))
    ensures MergeWith(Field(t, Value.Int(7)), Field(t, Value.Int(5)), now) == Ok(Field(t, Value.Int(5)))
  {
  }

  /** With a NaN at a tie, two replicas that received the updates in opposite orders disagree. */
  lemma MergeTieNaNDiverges(t: F64, now: real)
    requires t.Num?
    ensures MergeWith(Field(t, Value.Float(NaN)), Field(t, Value.Float(Num(1.0))), now) == Ok(Field(t, Value.Float(NaN)))
    ensures MergeWith(Field(t, Value.Float(Num(1.0))), Field(t, Value.Float(NaN)), now) == Ok(Field(t, Value.Float(Num(1.0))))
  {
  }

  /**
   * A field stamped more than 600 s ahead beats every older field when it is
   * the existing one, but is dropped when it is the incoming one, so two
   * replicas that hold the two fields in opposite roles disagree.
   */
  lemma MergeFarFutureDiverges(now: real)
    ensures MergeWith(Field(Num(now + 1000.0), Value.Int(1)), Field(Num(now - 1.0), Value.Int(2)), now)
         == Ok(Field(Num(now + 1000.0), Value.Int(1)))
    ensures MergeWith(Field(Num(now - 1.0), Value.Int(2)), Field(Num(now + 1000.0), Value.Int(1)), now)
         == Ok(Field(Num(now - 1.0), Value.Int(2)))
  {
  }

  /**
   * The equal-timestamp comparison of the source panics when both values are
   * `None`, so merging an empty field with a copy of itself panics there.
   */
  lemma NoneTiePanicsAsWritten(f: Field)
    requires f.value.None?
    ensures LexicalCmpAsWritten(f.value, f.value) == Option.None
  {
  }

  // ---------------------------------------------------------------------
  // Convergence
  // ---------------------------------------------------------------------

  /** A field whose merges never fail or defer: a numeric timestamp not after `now`, and no NaN value. */
  predicate Settled(f: Field, now: real) {
    f.updatedAt.Num? && f.updatedAt.r <= now && NoNaN(f.value)
  }

  /** The HAM winner order: newer wins; at a tie the lexically lesser value wins. */
  predicate Dominates(a: Field, b: Field)
    requires a.updatedAt.Num? && b.updatedAt.Num?
  {
    a.updatedAt.r > b.updatedAt.r
    || (a.updatedAt.r == b.updatedAt.r && LexicalCmp(a.value, b.value) != Greater)
  }

  /** The winner of two fields under `Dominates`; ties in both directions keep `a`. */
  function Pick(a: Field, b: Field): Field
    requires a.updatedAt.Num? && b.updatedAt.Num?
  {
    if Dominates(a, b) then a else b
  }

  /** On settled fields the merge returns the dominating field. */
  lemma MergeIsPick(existing: Field, incoming: Field, now: real)
    requires Settled(existing, now) && Settled(incoming, now)
    ensures MergeWith(existing, incoming, now) == Ok(Pick(existing, incoming))
  {
  }

  /** `Dominates` is total and antisymmetric on settled fields. */
  lemma DominatesTotal(a: Field, b: Field, now: real)
    requires Settled(a, now) && Settled(b, now)
    ensures Dominates(a, b) || Dominates(b, a)
    ensures Dominates(a, b) && Dominates(b, a) ==> a == b
  {
    CmpReverse(a.value, b.value);
    CmpEqualIff(a.value, b.value);
  }

  lemma DominatesTrans(a: Field, b: Field, c: Field, now: real)
    requires Settled(a, now) && Settled(b, now) && Settled(c, now)
    requires Dominates(a, b) && Dominates(b, c)
    ensures Dominates(a, c)
  {
    if a.updatedAt.r == b.updatedAt.r == c.updatedAt.r {
      CmpAtMostTrans(a.value, b.value, c.value);
    }
  }

  /** Two replicas that merge the same two settled fields in opposite roles agree. */
  lemma MergeCommutes(a: Field, b: Field, now: real)
    requires Settled(a, now) && Settled(b, now)
    ensures MergeWith(a, b, now) == MergeWith(b, a, now)
  {
    MergeIsPick(a, b, now);
    MergeIsPick(b, a, now);
    DominatesTotal(a, b, now);
  }

  /** Settled updates applied to a settled field in either order give the same field. */
  lemma MergeOrderIndependent(x: Field, a: Field, b: Field, now: real)
    requires Settled(x, now) && Settled(a, now) && Settled(b, now)
    ensures MergeWith(x, a, now).Ok? && MergeWith(x, b, now).Ok?
    ensures MergeWith(MergeWith(x, a, now).value, b, now) == MergeWith(MergeWith(x, b, now).value, a, now)
  {
    MergeIsPick(x, a, now);
    MergeIsPick(x, b, now);
    var xa, xb := Pick(x, a), Pick(x, b);
    MergeIsPick(xa, b, now);
    MergeIsPick(xb, a, now);
    PickOrderIndependent(x, a, b, now);
  }

  lemma PickOrderIndependent(x: Field, a: Field, b: Field, now: real)
    requires Settled(x, now) && Settled(a, now) && Settled(b, now)
    ensures Pick(Pick(x, a), b) == Pick(Pick(x, b), a)
  {
    DominatesTotal(x, a, now);
    DominatesTotal(x, b, now);
    DominatesTotal(a, b, now);
    if Dominates(x, a) && Dominates(a, b) { DominatesTrans(x, a, b, now); }
    if Dominates(x, b) && Dominates(b, a) { DominatesTrans(x, b, a, now); }
    if Dominates(a, x) && Dominates(x, b) { DominatesTrans(a, x, b, now); }
    if Dominates(b, x) && Dominates(x, a) { DominatesTrans(b, x, a, now); }
    if Dominates(a, b) && Dominates(b, x) { DominatesTrans(a, b, x, now); }
    if Dominates(b, a) && Dominates(a, x) { DominatesTrans(b, a, x, now); }
  }

  // ---------------------------------------------------------------------
  // Node merge
  // ---------------------------------------------------------------------

  /** Some key of both maps whose field merge fails or is deferred. */
  predicate MergeBlocked(incoming: map<string, Field>, target: map<string, Field>, now: real) {
    exists k :: k in incoming && k in target && MergeWith(target[k], incoming[k], now).Err?
  }

  /** The field a key ends up with after `incoming` is merged into `target`. */
  function MergedField(incoming: map<string, Field>, target: map<string, Field>, now: real, k: string): (f: Field)
    requires k in incoming || k in target
    ensures k !in target ==> f == incoming[k]
    ensures k !in incoming ==> f == target[k]
    ensures k in incoming && k in target && MergeWith(target[k], incoming[k], now).Ok? ==>
      MergeWith(target[k], incoming[k], now) == Ok(f)
  {
    if k in incoming && k in target then
      match MergeWith(target[k], incoming[k], now)
      case Ok(f) => f
      case Err(_) => target[k]
    else if k in incoming then incoming[k]
    else target[k]
  }

  /** The field map of the target after `merge_into`, when nothing blocks it. */
  function MergedFields(incoming: map<string, Field>, target: map<string, Field>, now: real): (m: map<string, Field>)
    ensures m.Keys == incoming.Keys + target.Keys
    ensures forall k :: k in target && k !in incoming ==> m[k] == target[k]
    ensures forall k :: k in incoming && k !in target ==> m[k] == incoming[k]
  {
    map k | k in incoming.Keys + target.Keys :: MergedField(incoming, target, now, k)
  }

  /**
   * `Node::merge_into`: every incoming field is merged into the target's
   * field of the same name, or inserted when the target has none. The first
   * field merge that fails ends the whole merge with its error.
   */
  method MergeInto(incoming: Node, target: Node, now: real) returns (r: Result<Node, MergeError>)
    ensures r.Ok? <==> !MergeBlocked(incoming.fields, target.fields, now)
    ensures r.Ok? ==> r.value.id == target.id
    ensures r.Ok? ==> r.value.fields == MergedFields(incoming.fields, target.fields, now)
    ensures r.Err? ==> exists k :: k in incoming.fields && k in target.fields
                        && MergeWith(target.fields[k], incoming.fields[k], now) == Err(r.error)
  {
    var fields := target.fields;
    var pending := incoming.fields.Keys;
    while pending != {}
      invariant pending <= incoming.fields.Keys
      invariant fields.Keys == target.fields.Keys + (incoming.fields.Keys - pending)
      invariant forall k :: k in fields && k !in pending && k in incoming.fields ==>
        fields[k] == MergedField(incoming.fields, target.fields, now, k)
      invariant forall k :: k in fields && (k in pending || k !in incoming.fields) ==> fields[k] == target.fields[k]
      invariant forall k :: k in incoming.fields && k !in pending && k in target.fields ==>
        MergeWith(target.fields[k], incoming.fields[k], now).Ok?
      decreases pending
    {
      var k :| k in pending;
      if k in fields {
        var merged := MergeWith(fields[k], incoming.fields[k], now);
        if merged.Err? {
          return Err(merged.error);
        }
        fields := fields[k := merged.value];
      } else {
        fields := fields[k := incoming.fields[k]];
      }
      pending := pending - {k};
    }
    assert fields == MergedFields(incoming.fields, target.fields, now);
    r := Ok(Node.Node(target.id, fields));
  }

  /**
   * What `merge_into` does to each key: keys of both are merged, incoming-only
   * keys are inserted as they are, target-only keys are untouched, and the key
   * set becomes the union, so a merge never removes a field.
   */
  lemma MergedFieldsByKey(incoming: map<string, Field>, target: map<string, Field>, now: real)
    requires !MergeBlocked(incoming, target, now)
    ensures MergedFields(incoming, target, now).Keys == incoming.Keys + target.Keys
    ensures forall k :: k in incoming && k in target ==>
      Ok(MergedFields(incoming, target, now)[k]) == MergeWith(target[k], incoming[k], now)
    ensures forall k :: k in incoming && k !in target ==> MergedFields(incoming, target, now)[k] == incoming[k]
    ensures forall k :: k !in incoming && k in target ==> MergedFields(incoming, target, now)[k] == target[k]
  {
  }

  /** Every field of a map is settled. */
  predicate AllSettled(m: map<string, Field>, now: real) {
    forall k :: k in m ==> Settled(m[k], now)
  }

  /** On settled maps the node merge never blocks and keeps every field settled. */
  lemma MergedFieldsSettled(incoming: map<string, Field>, target: map<string, Field>, now: real)
    requires AllSettled(incoming, now) && AllSettled(target, now)
    ensures !MergeBlocked(incoming, target, now)
    ensures AllSettled(MergedFields(incoming, target, now), now)
    ensures forall k :: k in incoming && k in target ==>
      MergedFields(incoming, target, now)[k] == Pick(target[k], incoming[k])
  {
    forall k | k in incoming && k in target
      ensures MergeWith(target[k], incoming[k], now) == Ok(Pick(target[k], incoming[k]))
    {
      MergeIsPick(target[k], incoming[k], now);
    }
  }

  /** Merging a node's fields into themselves changes nothing. */
  lemma MergedFieldsIdempotent(m: map<string, Field>, now: real)
    requires forall k :: k in m ==> m[k].updatedAt.Num?
    ensures !MergeBlocked(m, m, now)
    ensures MergedFields(m, m, now) == m
  {
    forall k | k in m ensures MergeWith(m[k], m[k], now) == Ok(m[k]) {
      MergeIdempotent(m[k], now);
    }
  }

  /**
   * Convergence: two settled updates merged into a settled node in either
   * order produce the same fields.
   */
  lemma MergedFieldsOrderIndependent(x: map<string, Field>, a: map<string, Field>, b: map<string, Field>, now: real)
    requires AllSettled(x, now) && AllSettled(a, now) && AllSettled(b, now)
    ensures MergedFields(b, MergedFields(a, x, now), now) == MergedFields(a, MergedFields(b, x, now), now)
  {
    MergedFieldsSettled(a, x, now);
    MergedFieldsSettled(b, x, now);
    var xa, xb := MergedFields(a, x, now), MergedFields(b, x, now);
    MergedFieldsSettled(b, xa, now);
    MergedFieldsSettled(a, xb, now);
    var left, right := MergedFields(b, xa, now), MergedFields(a, xb, now);
    assert left.Keys == right.Keys;
    forall k | k in left ensures left[k] == right[k] {
      if k in x && k in a && k in b {
        PickOrderIndependent(x[k], a[k], b[k], now);
      } else if k in a && k in b {
        DominatesTotal(a[k], b[k], now);
      }
    }
  }

  /**
   * Without the `now` bound convergence fails at node level too: an
   * incoming-only key is inserted with no future check, so a far-future field
   * gets in on one replica and is dropped on the other, depending on the order
   * in which the two updates arrive.
   */
  lemma MergedFieldsFarFutureDiverges(k: string, now: real)
    ensures var future, past := Field(Num(now + 1000.0), Value.Int(1)), Field(Num(now - 1.0), Value.Int(2));
      var pastFirst := MergedFields(map[k := future], MergedFields(map[k := past], map[], now), now);
      var futureFirst := MergedFields(map[k := past], MergedFields(map[k := future], map[], now), now);
      && k in pastFirst && pastFirst[k] == past
      && k in futureFirst && futureFirst[k] == future
  {
    var future, past := Field(Num(now + 1000.0), Value.Int(1)), Field(Num(now - 1.0), Value.Int(2));
    assert MergedFields(map[k := past], map[], now) == map[k := past];
    assert MergedFields(map[k := future], map[], now) == map[k := future];
  }
}
