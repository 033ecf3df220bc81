/** The CQL value codec of lib/encoder.js as functions: what bytes a value becomes and what value bytes
    become, for every nesting of lists, sets, maps, tuples, user types and vectors. */
module Codec {
  import opened Bytes
  import opened CqlTypes
  import opened VIntCoding
  import D = Durations

  datatype Options = Options(version: nat, undefinedAsUnset: bool, bigIntVarint: bool)

  /** What `encode` returns when it does not throw: a buffer, null, or undefined for unset. */
  datatype Cell = Data(bytes: seq<byte>) | NullCell | UnsetCell

  // ---------------------------------------------------------------- lengths

  /** Size of a collection length: four bytes from protocol version 3 on. */
  function LengthSize(o: Options): (w: nat)
    ensures w == 2 || w == 4
  {
    if o.version >= 3 then 4 else 2
  }

  /** `getLengthBuffer`: a signed 32-bit or an unsigned 16-bit length; others throw. */
  function LengthBytes(o: Options, n: nat): (r: Result<seq<byte>>)
    ensures r.Ok? ==> |r.value| == LengthSize(o)
  {
    if n <= (if o.version >= 3 then 0x7fff_ffff else 0xffff) then Ok(Low(n, LengthSize(o))) else Err
  }

  /** `decodeCollectionLength`: reading beyond the buffer throws. */
  function ReadLength(o: Options, b: seq<byte>, offset: int): Result<int> {
    if offset < 0 || offset + LengthSize(o) > |b| then Err
    else if o.version >= 3 then Ok(Signed(b[offset..offset + 4]))
    else Ok(Unsigned(b[offset..offset + 2]))
  }

  /** `readInt32BE`. */
  function ReadInt(b: seq<byte>, offset: int): Result<int> {
    if offset < 0 || offset + 4 > |b| then Err else Ok(Signed(b[offset..offset + 4]))
  }

  /** A 32-bit length in front of tuple and user type members. */
  function Prefixed(bytes: seq<byte>): Result<seq<byte>> {
    if |bytes| <= 0x7fff_ffff then Ok(Low(|bytes|, 4) + bytes) else Err
  }

  /** `Buffer.slice`: negative positions count from the end, and an empty range is empty. */
  function Slice(b: seq<byte>, from: int, to: int): seq<byte> {
    var s, e := Position(b, from), Position(b, to);
    if s < e then b[s..e] else []
  }

  function Position(b: seq<byte>, p: int): (q: nat)
    ensures q <= |b|
  {
    if p < 0 then (if |b| + p < 0 then 0 else |b| + p) else if p > |b| then |b| else p
  }

  const NULL_LENGTH: seq<byte> := [255, 255, 255, 255]

  // ---------------------------------------------------------------- encoding

  predicate Missing(v: Value) {
    v.Null? || v.Undefined? || v.Unset?
  }

  function Encode(o: Options, v: Value, t: CqlType): Result<Cell>
    decreases t, 1, 0
  {
    if v.Unset? || (v.Undefined? && o.undefinedAsUnset && o.version >= 4) then
      (if o.version >= 4 then Ok(UnsetCell) else Err)
    else if v.Null? || v.Undefined? then Ok(NullCell)
    else if v.Buffer? then Ok(Data(v.bytes))
    else match t
    case Text => if v.TextValue? then Ok(Data(v.bytes)) else Err
    case Blob => Err
    case Boolean => if v.Truth? then Ok(Data([if v.b then 1 else 0])) else Err
    case TinyInt => EncodeNumber(v, 1)
    case SmallInt => EncodeNumber(v, 2)
    case Int => EncodeNumber(v, 4)
    case BigInt => EncodeLong(v)
    case Counter => EncodeLong(v)
    case Timestamp => EncodeLong(v)
    case VarInt => if v.BigInteger? then Ok(Data(VarintBytes(v.n))) else Err
    case Decimal => if v.BigDecimal? && Fits(v.scale, 4) then Ok(Data(Low(v.scale, 4) + VarintBytes(v.n))) else Err
    case Inet => if v.InetAddress? then Ok(Data(v.bytes)) else Err
    case Duration => if v.DurationValue? then Ok(Data(D.Binary(v.d))) else Err
    case Opaque(k) => if v.OpaqueValue? then Ok(Data(v.bytes)) else Err
    case List(_) => if v.Items? then EncodeList(o, v.items, t) else Err
    case Set(_) => if v.Items? then EncodeList(o, v.items, t) else Err
    case Map(_, _) =>
      if v.Entries? then
        var count :- LengthBytes(o, |v.entries|);
        var body :- EncodeEntries(o, v.entries, t);
        Ok(Data(count + body))
      else Err
    case Tuple(es) => if v.TupleValue? then
        var body :- EncodeTuple(o, v.items, t, 0);
        Ok(Data(body))
      else Err
    case Udt(fs) => if v.UdtValue? then
        var body :- EncodeUdt(o, v.members, t, 0);
        Ok(Data(body))
      else Err
    case Vector(e, dimension) =>
      if v.VectorValue? && |v.items| == dimension && v.items != [] then
        var body :- EncodeVector(o, v.items, t);
        Ok(Data(body))
      else Err
  }

  /** `writeInt8`, `writeInt16BE` and `writeInt32BE` throw on numbers that do not fit. */
  function EncodeNumber(v: Value, n: nat): Result<Cell>
    requires n > 0
  {
    if v.Number? && Fits(v.n, n) then Ok(Data(Low(v.n, n))) else Err
  }

  /** Longs, and BigInts cut to their low 64 bits. */
  function EncodeLong(v: Value): Result<Cell> {
    if v.Long? then Ok(Data(Low(v.n, 8))) else Err
  }

  /** An empty list has no encoding but null. */
  function EncodeList(o: Options, items: seq<Value>, t: CqlType): Result<Cell>
    requires t.List? || t.Set?
    decreases t, 0, |items| + 1
  {
    if items == [] then Ok(NullCell)
    else
      var count :- LengthBytes(o, |items|);
      var body :- EncodeItems(o, items, t);
      Ok(Data(count + body))
  }

  /** Items with their lengths; an item that is missing, or encodes to null, throws. */
  function EncodeItems(o: Options, items: seq<Value>, t: CqlType): Result<seq<byte>>
    requires t.List? || t.Set?
    decreases t, 0, |items|
  {
    if items == [] then Ok([])
    else if Missing(items[0]) then Err
    else
      var cell :- Encode(o, items[0], t.elem);
      if !cell.Data? then Err
      else
        var length :- LengthBytes(o, |cell.bytes|);
        var rest :- EncodeItems(o, items[1..], t);
        Ok(length + cell.bytes + rest)
  }

  /** Entries of a map; a value that encodes to null becomes a zero length. */
  function EncodeEntries(o: Options, entries: seq<(Value, Value)>, t: CqlType): Result<seq<byte>>
    requires t.Map?
    decreases t, 0, |entries|
  {
    if entries == [] then Ok([])
    else if Missing(entries[0].0) || Missing(entries[0].1) then Err
    else
      var k :- Encode(o, entries[0].0, t.key);
      var w :- Encode(o, entries[0].1, t.value);
      if !k.Data? then Err
      else
        var value := if w.Data? then w.bytes else [];
        var keyLength :- LengthBytes(o, |k.bytes|);
        var valueLength :- LengthBytes(o, |value|);
        var rest :- EncodeEntries(o, entries[1..], t);
        Ok(keyLength + k.bytes + valueLength + value + rest)
  }

  /** The members of a tuple from index i on, as many as both the value and the type have. */
  function EncodeTuple(o: Options, items: seq<Value>, t: CqlType, i: nat): Result<seq<byte>>
    requires t.Tuple?
    decreases t, 0, |t.elems| - i
  {
    if i >= |t.elems| || i >= |items| then Ok([])
    else
      var cell :- Encode(o, items[i], t.elems[i]);
      var member :- if cell.Data? then Prefixed(cell.bytes) else Ok(NULL_LENGTH);
      var rest :- EncodeTuple(o, items, t, i + 1);
      Ok(member + rest)
  }

  function Member(members: seq<(string, Value)>, name: string): Value {
    if members == [] then Undefined
    else if members[0].0 == name then members[0].1
    else Member(members[1..], name)
  }

  function EncodeUdt(o: Options, members: seq<(string, Value)>, t: CqlType, i: nat): Result<seq<byte>>
    requires t.Udt?
    decreases t, 0, |t.fields| - i
  {
    if i >= |t.fields| then Ok([])
    else
      assert t.fields[i].typ < t.fields[i];
      var cell :- Encode(o, Member(members, t.fields[i].name), t.fields[i].typ);
      var member :- if cell.Data? then Prefixed(cell.bytes) else Ok(NULL_LENGTH);
      var rest :- EncodeUdt(o, members, t, i + 1);
      Ok(member + rest)
  }

  /** Elements of a vector, with a packed length only when their size is not fixed. */
  function EncodeVector(o: Options, items: seq<Value>, t: CqlType): Result<seq<byte>>
    requires t.Vector?
    decreases t, 0, |items|
  {
    if items == [] then Ok([])
    else
      var cell :- Encode(o, items[0], t.elem);
      if !cell.Data? || |cell.bytes| >= 0x20_0000_0000_0000 then Err
      else
        var rest :- EncodeVector(o, items[1..], t);
        Ok((if SizeIfFixed(t.elem) == -1 then Packed(|cell.bytes|) else []) + cell.bytes + rest)
  }

  // ---------------------------------------------------------------- decoding

  /** Types whose empty buffer is a value of its own and not null. */
  predicate SupportsEmpty(t: CqlType) {
    t.Text? || t.Blob? || t.Vector?
  }

  function Decode(o: Options, b: seq<byte>, t: CqlType): Result<Value>
    decreases t, 2, 0
  {
    if b == [] && !SupportsEmpty(t) then Ok(Null)
    else match t
    case Text => Ok(TextValue(b))
    case Blob => Ok(Buffer(b))
    case Boolean => Ok(Truth(b[0] != 0))
    case TinyInt => DecodeNumber(b, 1)
    case SmallInt => DecodeNumber(b, 2)
    case Int => DecodeNumber(b, 4)
    case BigInt => DecodeLong(b)
    case Counter => DecodeLong(b)
    case Timestamp => DecodeLong(b)
    case VarInt => Ok(BigInteger(Signed(b)))
    case Decimal => if |b| < 4 then Err else Ok(BigDecimal(Signed(b[..4]), Signed(b[4..])))
    case Inet => if |b| == 4 || |b| == 16 then Ok(InetAddress(b)) else Err
    case Duration =>
      var d :- D.FromBinary(b);
      Ok(DurationValue(d))
    case Opaque(k) => DecodeOpaque(b, k)
    case List(_) => DecodeList(o, b, t)
    case Set(_) => DecodeList(o, b, t)
    case Map(_, _) =>
      var n :- ReadLength(o, b, 0);
      if n < 0 then Ok(Entries([]))
      else
        var entries :- DecodeEntries(o, b, t, LengthSize(o), n, []);
        Ok(Entries(entries))
    case Tuple(es) =>
      var items :- DecodeTuple(o, b, t, 0, 0);
      if es == [] then Err else Ok(TupleValue(items))
    case Udt(_) =>
      var members :- DecodeUdt(o, b, t, 0, 0);
      Ok(UdtValue(members))
    case Vector(_, dimension) =>
      var items :- DecodeVector(o, b, t, 0, dimension);
      if dimension == 0 then Err else Ok(VectorValue(items))
  }

  function DecodeNumber(b: seq<byte>, n: nat): Result<Value> {
    if |b| < n then Err else Ok(Number(Signed(b[..n])))
  }

  function DecodeLong(b: seq<byte>): Result<Value> {
    if |b| < 8 then Err else Ok(Long(Signed(b[..8])))
  }

  /** Uuids insist on their length, the others read a prefix. */
  function DecodeOpaque(b: seq<byte>, k: Kind): Result<Value> {
    if |b| < Width(k) || ((k == Uuid || k == TimeUuid) && |b| != Width(k)) then Err
    else Ok(OpaqueValue(k, b[..Width(k)]))
  }

  function DecodeList(o: Options, b: seq<byte>, t: CqlType): Result<Value>
    requires t.List? || t.Set?
    decreases t, 1, 0
  {
    var n :- ReadLength(o, b, 0);
    if n < 0 then Err
    else
      var items :- DecodeItems(o, b, t, LengthSize(o), n);
      Ok(Items(items))
  }

  function DecodeItems(o: Options, b: seq<byte>, t: CqlType, offset: int, n: nat): Result<seq<Value>>
    requires t.List? || t.Set?
    decreases t, 0, n
  {
    if n == 0 then Ok([])
    else
      var length :- ReadLength(o, b, offset);
      var at := offset + LengthSize(o);
      var item :- Decode(o, Slice(b, at, at + length), t.elem);
      var rest :- DecodeItems(o, b, t, at + length, n - 1);
      Ok([item] + rest)
  }

  /** `Map.set`: a key already present keeps its place and takes the new value. */
  function SetEntry(entries: seq<(Value, Value)>, key: Value, value: Value): seq<(Value, Value)> {
    if entries == [] then [(key, value)]
    else if entries[0].0 == key then [(key, value)] + entries[1..]
    else [entries[0]] + SetEntry(entries[1..], key, value)
  }

  function DecodeEntries(o: Options, b: seq<byte>, t: CqlType, offset: int, n: nat, acc: seq<(Value, Value)>)
    : Result<seq<(Value, Value)>>
    requires t.Map?
    decreases t, 0, n
  {
    if n == 0 then Ok(acc)
    else
      var keyLength :- ReadLength(o, b, offset);
      var keyAt := offset + LengthSize(o);
      var key :- Decode(o, Slice(b, keyAt, keyAt + keyLength), t.key);
      var valueLength :- ReadLength(o, b, keyAt + keyLength);
      var valueAt := keyAt + keyLength + LengthSize(o);
      if valueLength < 0 then DecodeEntries(o, b, t, valueAt, n - 1, SetEntry(acc, key, Null))
      else
        var value :- Decode(o, Slice(b, valueAt, valueAt + valueLength), t.value);
        DecodeEntries(o, b, t, valueAt + valueLength, n - 1, SetEntry(acc, key, value))
  }

  /** Members from index i on; those the buffer does not reach stay undefined. */
  function DecodeTuple(o: Options, b: seq<byte>, t: CqlType, i: nat, offset: nat): Result<seq<Value>>
    requires t.Tuple?
    decreases t, 0, |t.elems| - i
  {
    if i >= |t.elems| then Ok([])
    else if offset >= |b| then
      var rest :- DecodeTuple(o, b, t, i + 1, offset);
      Ok([Undefined] + rest)
    else
      var length :- ReadInt(b, offset);
      if length < 0 then
        var rest :- DecodeTuple(o, b, t, i + 1, offset + 4);
        Ok([Null] + rest)
      else
        var item :- Decode(o, Slice(b, offset + 4, offset + 4 + length), t.elems[i]);
        var rest :- DecodeTuple(o, b, t, i + 1, offset + 4 + length);
        Ok([item] + rest)
  }

  /** Only the fields the buffer reaches become members. */
  function DecodeUdt(o: Options, b: seq<byte>, t: CqlType, i: nat, offset: nat): Result<seq<(string, Value)>>
    requires t.Udt?
    decreases t, 0, |t.fields| - i
  {
    if i >= |t.fields| || offset >= |b| then Ok([])
    else
      assert t.fields[i].typ < t.fields[i];
      var length :- ReadInt(b, offset);
      if length < 0 then
        var rest :- DecodeUdt(o, b, t, i + 1, offset + 4);
        Ok([(t.fields[i].name, Null)] + rest)
      else
        var item :- Decode(o, Slice(b, offset + 4, offset + 4 + length), t.fields[i].typ);
        var rest :- DecodeUdt(o, b, t, i + 1, offset + 4 + length);
        Ok([(t.fields[i].name, item)] + rest)
  }

  /** The n elements of a vector from an offset on, which must end exactly at the end of the buffer. A
      packed length can come out negative after wrapping to 32 bits. */
  function DecodeVector(o: Options, b: seq<byte>, t: CqlType, offset: int, n: nat): Result<seq<Value>>
    requires t.Vector?
    decreases t, 0, n
  {
    if n == 0 then (if offset == |b| then Ok([]) else Err)
    else
      var fixed := SizeIfFixed(t.elem);
      var packed := if fixed == -1 then Unpacked(Slice(b, offset, |b|)) else Some((fixed, 0));
      if packed.None? then Err
      else
        var at, size := offset + packed.value.1, packed.value.0;
        if at + size > |b| then Err
        else
          var item :- Decode(o, Slice(b, at, at + size), t.elem);
          var rest :- DecodeVector(o, b, t, at + size, n - 1);
          Ok([item] + rest)
  }
}
