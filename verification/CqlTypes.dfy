/** CQL types and the JavaScript values the codec of lib/encoder.js maps them to. */
module CqlTypes {
  import opened Bytes
  import opened Varint
  import D = Durations

  /** Leaf types whose bytes the codec copies without looking into them. */
  datatype Kind = Double | Float | Date | Time | Uuid | TimeUuid

  function Width(k: Kind): (n: nat)
    ensures n >= 4
  {
    match k
    case Double => 8
    case Float => 4
    case Date => 4
    case Time => 8
    case Uuid => 16
    case TimeUuid => 16
  }

  datatype CqlType =
    | Text | Blob | Boolean | TinyInt | SmallInt | Int | BigInt | Counter | Timestamp
    | VarInt | Decimal | Inet | Duration | Opaque(kind: Kind)
    | List(elem: CqlType)
    | Set(elem: CqlType)
    | Map(key: CqlType, value: CqlType)
    | Tuple(elems: seq<CqlType>)
    | Udt(fields: seq<Field>)
    | Vector(elem: CqlType, dimension: nat)

  datatype Field = Field(name: string, typ: CqlType)

  /** Values; text is carried as its encoded bytes, lists and sets as the sequence of their items, maps
      as the sequence of their entries. */
  datatype Value =
    | Null | Undefined | Unset
    | Buffer(bytes: seq<byte>)
    | TextValue(bytes: seq<byte>)
    | Truth(b: bool)
    | Number(n: int)
    | Long(n: int)
    | BigInteger(n: int)
    | BigDecimal(scale: int, n: int)
    | InetAddress(bytes: seq<byte>)
    | DurationValue(d: D.Duration)
    | OpaqueValue(kind: Kind, bytes: seq<byte>)
    | Items(items: seq<Value>)
    | Entries(entries: seq<(Value, Value)>)
    | TupleValue(items: seq<Value>)
    | UdtValue(members: seq<(string, Value)>)
    | VectorValue(items: seq<Value>)

  /** `serializationSizeIfFixed`: the size of a vector element without a length prefix, or -1. */
  function SizeIfFixed(t: CqlType): int {
    match t
    case BigInt => 8
    case Boolean => 1
    case Timestamp => 8
    case Int => 4
    case Opaque(k) => if k == Date || k == Time then -1 else Width(k)
    case Vector(elem, dimension) =>
      var size := SizeIfFixed(elem);
      if size == -1 then -1 else size * dimension
    case _ => -1
  }

  /** The two's complement width of the integer leaf types. */
  function IntWidth(t: CqlType): nat {
    match t
    case TinyInt => 1
    case SmallInt => 2
    case Int => 4
    case _ => 8
  }

  /** Values that belong to a type: nothing null inside collections, no empty list, tuples and user
      types complete and not empty, map keys distinct. */
  predicate WellTyped(v: Value, t: CqlType)
    decreases t
  {
    match t
    case Text => v.TextValue?
    case Blob => v.Buffer?
    case Boolean => v.Truth?
    case TinyInt => v.Number? && Fits(v.n, 1)
    case SmallInt => v.Number? && Fits(v.n, 2)
    case Int => v.Number? && Fits(v.n, 4)
    case BigInt => v.Long? && Fits(v.n, 8)
    case Counter => v.Long? && Fits(v.n, 8)
    case Timestamp => v.Long? && Fits(v.n, 8)
    case VarInt => v.BigInteger?
    case Decimal => v.BigDecimal? && Fits(v.scale, 4)
    case Inet => v.InetAddress? && (|v.bytes| == 4 || |v.bytes| == 16)
    case Duration => v.DurationValue? && D.Valid(v.d)
    case Opaque(k) => v.OpaqueValue? && v.kind == k && |v.bytes| == Width(k)
    case List(e) => v.Items? && v.items != [] && forall i :: 0 <= i < |v.items| ==> WellTyped(v.items[i], e)
    case Set(e) => v.Items? && v.items != [] && forall i :: 0 <= i < |v.items| ==> WellTyped(v.items[i], e)
    case Map(k, w) =>
      && v.Entries? && DistinctKeys(v.entries)
      && forall i :: 0 <= i < |v.entries| ==> WellTyped(v.entries[i].0, k) && WellTyped(v.entries[i].1, w)
    case Tuple(es) =>
      && v.TupleValue? && |v.items| == |es| && es != []
      && forall i :: 0 <= i < |es| ==> v.items[i] == Null || WellTyped(v.items[i], es[i])
    case Udt(fs) =>
      && v.UdtValue? && |v.members| == |fs| && fs != [] && DistinctNames(fs)
      && forall i :: 0 <= i < |fs| ==>
           v.members[i].0 == fs[i].name && (v.members[i].1 == Null || WellTyped(v.members[i].1, fs[i].typ))
    case Vector(e, dimension) =>
      && v.VectorValue? && |v.items| == dimension > 0
      && forall i :: 0 <= i < |v.items| ==> WellTyped(v.items[i], e)
  }

  predicate DistinctKeys(entries: seq<(Value, Value)>) {
    forall i, j :: 0 <= i < j < |entries| ==> entries[i].0 != entries[j].0
  }

  predicate DistinctNames(fs: seq<Field>) {
    forall i, j :: 0 <= i < j < |fs| ==> fs[i].name != fs[j].name
  }

  /** The shortest two's complement string of an integer, what both varint encoders produce. */
  function VarintBytes(n: int): (s: seq<byte>)
    ensures IsVarint(s, n)
  {
    var k := VarintLength(n, 1);
    SignedLowFits(n, k);
    NarrowestIsMinimal(n, k);
    Low(n, k)
  }

  /** The fewest bytes, from k on, that hold n. */
  function VarintLength(n: int, k: nat): (m: nat)
    requires k > 0 && (k > 1 ==> !Fits(n, k - 1))
    ensures m > 0 && Fits(n, m) && (m > 1 ==> !Fits(n, m - 1))
    decreases (if n < 0 then -n else n) - Pow256(k - 1)
  {
    if Fits(n, k) then k else VarintLength(n, k + 1)
  }

  lemma {:induction false} NarrowestIsMinimal(n: int, k: nat)
    requires k > 0 && Fits(n, k) && (k > 1 ==> !Fits(n, k - 1))
    ensures Minimal(Low(n, k))
  {
    var s := Low(n, k);
    SignedLowFits(n, k);
    if k > 1 && !Minimal(s) {
      hide Signed, Low;
      var t := s[1..];
      assert t[0] == s[1];
      SignExtendKeepsValue(t, 1);
      assert SignExtend(t, 0) == t;
      assert SignExtend(t, 1) == s;
      SignedRange(t);
    }
  }
}
