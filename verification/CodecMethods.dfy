/** The encoder and decoder of lib/encoder.js as the source runs them: loops over parts and offsets that
    call back into the dispatch. Each is proved to compute the function of the Codec module. */
module CodecMethods {
  import opened Bytes
  import opened Varint
  import opened CqlTypes
  import opened VIntCoding
  import opened Codec
  import I = IntegerArithmetic
  import B = IntegerBuffer

  /** What is done so far in front of what is left. */
  function Joined<T>(done: seq<T>, rest: Result<seq<T>>): Result<seq<T>> {
    if rest.Err? then Err else Ok(done + rest.value)
  }

  lemma JoinedMore<T>(done: seq<T>, more: seq<T>, rest: Result<seq<T>>)
    ensures Joined(done, Joined(more, rest)) == Joined(done + more, rest)
  {
    if rest.Ok? {
      assert done + (more + rest.value) == (done + more) + rest.value;
    }
  }

  lemma JoinedNothing<T>(r: Result<seq<T>>, done: seq<T>)
    ensures Joined([], r) == r && Joined(done, Ok([])) == Ok(done)
  {
    assert done + [] == done;
    if r.Ok? {
      assert [] + r.value == r.value;
    }
  }

  // ---------------------------------------------------------------- varints

  /** Whichever of the two encoders the options select, the bytes are the same. */
  method EncodeVarint(o: Options, n: int) returns (bytes: seq<byte>)
    ensures bytes == VarintBytes(n)
  {
    hide VarintBytes;
    if o.bigIntVarint {
      bytes := EncodeBigInt(n);
    } else {
      var x := I.FromNumber(n);
      bytes := B.ToBuffer(x);
    }
    MinimalIsUnique(bytes, VarintBytes(n));
  }

  method DecodeVarint(o: Options, bytes: seq<byte>) returns (n: int)
    requires bytes != []
    ensures n == Signed(bytes)
  {
    if o.bigIntVarint {
      n := DecodeBigInt(bytes);
    } else {
      var x := B.FromBuffer(bytes);
      n := I.Value(x);
    }
  }

  // ---------------------------------------------------------------- encoding

  predicate PassesThrough(v: Value) {
    v.Unset? || v.Undefined? || v.Null? || v.Buffer?
  }

  predicate IsComposite(t: CqlType) {
    t.List? || t.Set? || t.Map? || t.Tuple? || t.Udt? || t.Vector?
  }

  /** `encode`: missing values and buffers first, then the encoder of the type. */
  method EncodeValue(o: Options, v: Value, t: CqlType) returns (r: Result<Cell>)
    ensures r == Encode(o, v, t)
    decreases t, 3, 0
  {
    if !PassesThrough(v) && t.VarInt? && v.BigInteger? {
      hide VarintBytes;
      var bytes := EncodeVarint(o, v.n);
      return Ok(Data(bytes));
    }
    hide Encode;
    if PassesThrough(v) || !IsComposite(t) {
      return Encode(o, v, t);
    }
    r := EncodeComposite(o, v, t);
  }

  method EncodeComposite(o: Options, v: Value, t: CqlType) returns (r: Result<Cell>)
    requires !PassesThrough(v) && IsComposite(t)
    ensures r == Encode(o, v, t)
    decreases t, 2, 0
  {
    hide EncodeList, EncodeEntries, EncodeTuple, EncodeUdt, EncodeVector;
    if t.List? || t.Set? {
      if v.Items? {
        r := EncodeListLoop(o, v.items, t);
        return;
      }
      return Err;
    }
    if t.Map? {
      if v.Entries? {
        r := EncodeMapLoop(o, v.entries, t);
        return;
      }
      return Err;
    }
    var body: Result<seq<byte>> := Err;
    if t.Tuple? && v.TupleValue? {
      body := EncodeTupleLoop(o, v.items, t);
    } else if t.Udt? && v.UdtValue? {
      body := EncodeUdtLoop(o, v.members, t);
    } else if t.Vector? && v.VectorValue? && |v.items| == t.dimension && |v.items| != 0 {
      body := EncodeVectorLoop(o, v.items, t);
    }
    return if body.Err? then Err else Ok(Data(body.value));
  }

  method EncodeListLoop(o: Options, items: seq<Value>, t: CqlType) returns (r: Result<Cell>)
    requires t.List? || t.Set?
    ensures r == EncodeList(o, items, t)
    decreases t, 1, 0
  {
    hide Encode, LengthBytes;
    if |items| == 0 {
      return Ok(NullCell);
    }
    var count := LengthBytes(o, |items|);
    if count.Err? {
      return Err;
    }
    var parts: seq<byte> := [];
    assert items[0..] == items;
    JoinedNothing(EncodeItems(o, items, t), []);
    for i := 0 to |items|
      invariant EncodeItems(o, items, t) == Joined(parts, EncodeItems(o, items[i..], t))
    {
      assert items[i..][0] == items[i] && items[i..][1..] == items[i + 1..];
      if Missing(items[i]) {
        return Err;
      }
      var cell := EncodeValue(o, items[i], t.elem);
      if cell.Err? || !cell.value.Data? {
        return Err;
      }
      var length := LengthBytes(o, |cell.value.bytes|);
      if length.Err? {
        return Err;
      }
      JoinedMore(parts, length.value + cell.value.bytes, EncodeItems(o, items[i + 1..], t));
      parts := parts + (length.value + cell.value.bytes);
    }
    assert items[|items|..] == [];
    JoinedNothing(EncodeItems(o, items, t), parts);
    return Ok(Data(count.value + parts));
  }

  method EncodeMapLoop(o: Options, entries: seq<(Value, Value)>, t: CqlType) returns (r: Result<Cell>)
    requires t.Map?
    ensures r == Encode(o, Entries(entries), t)
    decreases t, 1, 0
  {
    assert Encode(o, Entries(entries), t) ==
      (var count :- LengthBytes(o, |entries|); var body :- EncodeEntries(o, entries, t); Ok(Data(count + body)));
    hide Encode, LengthBytes;
    var parts: seq<byte> := [];
    var count := 0;
    assert entries[0..] == entries;
    JoinedNothing(EncodeEntries(o, entries, t), []);
    for i := 0 to |entries|
      invariant count == i
      invariant EncodeEntries(o, entries, t) == Joined(parts, EncodeEntries(o, entries[i..], t))
    {
      assert entries[i..][0] == entries[i] && entries[i..][1..] == entries[i + 1..];
      var (key, value) := entries[i];
      if Missing(key) || Missing(value) {
        return Err;
      }
      var k := EncodeValue(o, key, t.key);
      if k.Err? || !k.value.Data? {
        return Err;
      }
      var w := EncodeValue(o, value, t.value);
      if w.Err? {
        return Err;
      }
      var bytes := if w.value.Data? then w.value.bytes else [];
      var keyLength := LengthBytes(o, |k.value.bytes|);
      var valueLength := LengthBytes(o, |bytes|);
      if keyLength.Err? || valueLength.Err? {
        return Err;
      }
      var part := keyLength.value + k.value.bytes + valueLength.value + bytes;
      JoinedMore(parts, part, EncodeEntries(o, entries[i + 1..], t));
      parts := parts + part;
      count := count + 1;
    }
    assert entries[|entries|..] == [];
    JoinedNothing(EncodeEntries(o, entries, t), parts);
    var header := LengthBytes(o, count);
    r := if header.Err? then Err else Ok(Data(header.value + parts));
  }

  method EncodeTupleLoop(o: Options, items: seq<Value>, t: CqlType) returns (r: Result<seq<byte>>)
    requires t.Tuple?
    ensures r == EncodeTuple(o, items, t, 0)
    decreases t, 1, 0
  {
    hide Encode, Prefixed;
    var length := if |t.elems| < |items| then |t.elems| else |items|;
    var parts: seq<byte> := [];
    JoinedNothing(EncodeTuple(o, items, t, 0), []);
    for i := 0 to length
      invariant EncodeTuple(o, items, t, 0) == Joined(parts, EncodeTuple(o, items, t, i))
    {
      var cell := EncodeValue(o, items[i], t.elems[i]);
      if cell.Err? {
        return Err;
      }
      var member := if cell.value.Data? then Prefixed(cell.value.bytes) else Ok(NULL_LENGTH);
      if member.Err? {
        return Err;
      }
      JoinedMore(parts, member.value, EncodeTuple(o, items, t, i + 1));
      parts := parts + member.value;
    }
    JoinedNothing(EncodeTuple(o, items, t, 0), parts);
    return Ok(parts);
  }

  method EncodeUdtLoop(o: Options, members: seq<(string, Value)>, t: CqlType) returns (r: Result<seq<byte>>)
    requires t.Udt?
    ensures r == EncodeUdt(o, members, t, 0)
    decreases t, 1, 0
  {
    hide Encode, Prefixed, Member;
    var parts: seq<byte> := [];
    JoinedNothing(EncodeUdt(o, members, t, 0), []);
    for i := 0 to |t.fields|
      invariant EncodeUdt(o, members, t, 0) == Joined(parts, EncodeUdt(o, members, t, i))
    {
      var field := t.fields[i];
      assert field.typ < field;
      var cell := EncodeValue(o, Member(members, field.name), field.typ);
      if cell.Err? {
        return Err;
      }
      var member := if cell.value.Data? then Prefixed(cell.value.bytes) else Ok(NULL_LENGTH);
      if member.Err? {
        return Err;
      }
      JoinedMore(parts, member.value, EncodeUdt(o, members, t, i + 1));
      parts := parts + member.value;
    }
    JoinedNothing(EncodeUdt(o, members, t, 0), parts);
    return Ok(parts);
  }

  method EncodeVectorLoop(o: Options, items: seq<Value>, t: CqlType) returns (r: Result<seq<byte>>)
    requires t.Vector?
    ensures r == EncodeVector(o, items, t)
    decreases t, 1, 0
  {
    hide Encode, SizeIfFixed, Packed;
    var fixed := SizeIfFixed(t.elem);
    var encoded: seq<byte> := [];
    assert items[0..] == items;
    JoinedNothing(EncodeVector(o, items, t), []);
    for i := 0 to |items|
      invariant EncodeVector(o, items, t) == Joined(encoded, EncodeVector(o, items[i..], t))
    {
      assert items[i..][0] == items[i] && items[i..][1..] == items[i + 1..];
      var cell := EncodeValue(o, items[i], t.elem);
      if cell.Err? || !cell.value.Data? || |cell.value.bytes| >= 0x20_0000_0000_0000 {
        return Err;
      }
      var prefix: seq<byte> := [];
      if fixed == -1 {
        prefix := UvintPack(|cell.value.bytes|);
      }
      JoinedMore(encoded, prefix + cell.value.bytes, EncodeVector(o, items[i + 1..], t));
      encoded := encoded + (prefix + cell.value.bytes);
    }
    assert items[|items|..] == [];
    JoinedNothing(EncodeVector(o, items, t), encoded);
    return Ok(encoded);
  }

  // ---------------------------------------------------------------- decoding

  method DecodeValue(o: Options, b: seq<byte>, t: CqlType) returns (r: Result<Value>)
    ensures r == Decode(o, b, t)
    decreases t, 2, 0
  {
    if |b| == 0 && !SupportsEmpty(t) {
      return Ok(Null);
    }
    hide DecodeList, DecodeEntries, DecodeTuple, DecodeUdt, DecodeVector;
    match t
    case VarInt =>
      var n := DecodeVarint(o, b);
      return Ok(BigInteger(n));
    case List(_) => r := DecodeListLoop(o, b, t);
    case Set(_) => r := DecodeListLoop(o, b, t);
    case Map(_, _) =>
      var n := ReadLength(o, b, 0);
      if n.Err? {
        return Err;
      }
      if n.value < 0 {
        return Ok(Entries([]));
      }
      var entries := DecodeMapLoop(o, b, t, n.value);
      return if entries.Err? then Err else Ok(Entries(entries.value));
    case Tuple(es) =>
      var items := DecodeTupleLoop(o, b, t);
      return if items.Err? || |es| == 0 then Err else Ok(TupleValue(items.value));
    case Udt(_) =>
      var members := DecodeUdtLoop(o, b, t);
      return if members.Err? then Err else Ok(UdtValue(members.value));
    case Vector(_, dimension) =>
      var items := DecodeVectorLoop(o, b, t);
      return if items.Err? || dimension == 0 then Err else Ok(VectorValue(items.value));
    case _ =>
      return Decode(o, b, t);
  }

  method DecodeListLoop(o: Options, b: seq<byte>, t: CqlType) returns (r: Result<Value>)
    requires t.List? || t.Set?
    ensures r == DecodeList(o, b, t)
    decreases t, 1, 0
  {
    hide Decode, ReadLength, Slice;
    var total := ReadLength(o, b, 0);
    if total.Err? || total.value < 0 {
      return Err;
    }
    var offset: int := LengthSize(o);
    var list: seq<Value> := [];
    ghost var all := DecodeItems(o, b, t, offset, total.value);
    JoinedNothing(all, []);
    for i := 0 to total.value
      invariant all == Joined(list, DecodeItems(o, b, t, offset, total.value - i))
    {
      var length := ReadLength(o, b, offset);
      if length.Err? {
        return Err;
      }
      offset := offset + LengthSize(o);
      var item := DecodeValue(o, Slice(b, offset, offset + length.value), t.elem);
      if item.Err? {
        return Err;
      }
      offset := offset + length.value;
      JoinedMore(list, [item.value], DecodeItems(o, b, t, offset, total.value - i - 1));
      list := list + [item.value];
    }
    JoinedNothing(all, list);
    return Ok(Items(list));
  }

  method DecodeMapLoop(o: Options, b: seq<byte>, t: CqlType, total: nat) returns (r: Result<seq<(Value, Value)>>)
    requires t.Map?
    ensures r == DecodeEntries(o, b, t, LengthSize(o), total, [])
    decreases t, 1, 0
  {
    hide Decode, ReadLength, Slice, SetEntry;
    var offset: int := LengthSize(o);
    var map_: seq<(Value, Value)> := [];
    for i := 0 to total
      invariant DecodeEntries(o, b, t, LengthSize(o), total, []) == DecodeEntries(o, b, t, offset, total - i, map_)
    {
      var keyLength := ReadLength(o, b, offset);
      if keyLength.Err? {
        return Err;
      }
      offset := offset + LengthSize(o);
      var key := DecodeValue(o, Slice(b, offset, offset + keyLength.value), t.key);
      if key.Err? {
        return Err;
      }
      offset := offset + keyLength.value;
      var valueLength := ReadLength(o, b, offset);
      if valueLength.Err? {
        return Err;
      }
      offset := offset + LengthSize(o);
      if valueLength.value < 0 {
        map_ := SetEntry(map_, key.value, Null);
      } else {
        var value := DecodeValue(o, Slice(b, offset, offset + valueLength.value), t.value);
        if value.Err? {
          return Err;
        }
        offset := offset + valueLength.value;
        map_ := SetEntry(map_, key.value, value.value);
      }
    }
    return Ok(map_);
  }

  /** An array whose slots are still undefined. */
  function Undefineds(n: nat): (s: seq<Value>)
    ensures |s| == n && forall i :: 0 <= i < n ==> s[i] == Undefined
  {
    if n == 0 then [] else Undefineds(n - 1) + [Undefined]
  }

  lemma {:induction false} RestUndefined(o: Options, b: seq<byte>, t: CqlType, i: nat, offset: nat)
    requires t.Tuple? && i <= |t.elems| && offset >= |b|
    ensures DecodeTuple(o, b, t, i, offset) == Ok(Undefineds(|t.elems| - i))
    decreases |t.elems| - i
  {
    hide Decode;
    if i < |t.elems| {
      RestUndefined(o, b, t, i + 1, offset);
      assert Undefineds(|t.elems| - i) == [Undefined] + Undefineds(|t.elems| - i - 1);
    }
  }

  method DecodeTupleLoop(o: Options, b: seq<byte>, t: CqlType) returns (r: Result<seq<Value>>)
    requires t.Tuple?
    ensures r == DecodeTuple(o, b, t, 0, 0)
    decreases t, 1, 0
  {
    hide Decode, ReadInt, Slice;
    var n := |t.elems|;
    var elements := Undefineds(n);
    var offset, i := 0, 0;
    ghost var all := DecodeTuple(o, b, t, 0, 0);
    assert elements[..0] == [];
    JoinedNothing(all, []);
    while i < n && offset < |b|
      invariant 0 <= i <= n && |elements| == n && offset >= 0
      invariant forall j :: i <= j < n ==> elements[j] == Undefined
      invariant all == Joined(elements[..i], DecodeTuple(o, b, t, i, offset))
      decreases n - i
    {
      var length := ReadInt(b, offset);
      if length.Err? {
        return Err;
      }
      offset := offset + 4;
      var item := Null;
      if length.value >= 0 {
        var decoded := DecodeValue(o, Slice(b, offset, offset + length.value), t.elems[i]);
        if decoded.Err? {
          return Err;
        }
        item := decoded.value;
        offset := offset + length.value;
      }
      JoinedMore(elements[..i], [item], DecodeTuple(o, b, t, i + 1, offset));
      elements := elements[i := item];
      i := i + 1;
      assert elements[..i] == elements[..i - 1] + [item];
    }
    if i < n {
      RestUndefined(o, b, t, i, offset);
    }
    assert elements == elements[..i] + Undefineds(n - i);
    return Ok(elements);
  }

  method DecodeUdtLoop(o: Options, b: seq<byte>, t: CqlType) returns (r: Result<seq<(string, Value)>>)
    requires t.Udt?
    ensures r == DecodeUdt(o, b, t, 0, 0)
    decreases t, 1, 0
  {
    hide Decode, ReadInt, Slice;
    var result: seq<(string, Value)> := [];
    var offset, i := 0, 0;
    ghost var all := DecodeUdt(o, b, t, 0, 0);
    JoinedNothing(all, []);
    while i < |t.fields| && offset < |b|
      invariant 0 <= i <= |t.fields| && offset >= 0
      invariant all == Joined(result, DecodeUdt(o, b, t, i, offset))
      decreases |t.fields| - i
    {
      var field := t.fields[i];
      assert field.typ < field;
      var length := ReadInt(b, offset);
      if length.Err? {
        return Err;
      }
      offset := offset + 4;
      var item := Null;
      if length.value >= 0 {
        var decoded := DecodeValue(o, Slice(b, offset, offset + length.value), field.typ);
        if decoded.Err? {
          return Err;
        }
        item := decoded.value;
        offset := offset + length.value;
      }
      JoinedMore(result, [(field.name, item)], DecodeUdt(o, b, t, i + 1, offset));
      result := result + [(field.name, item)];
      i := i + 1;
    }
    JoinedNothing(all, result);
    return Ok(result);
  }

  method DecodeVectorLoop(o: Options, b: seq<byte>, t: CqlType) returns (r: Result<seq<Value>>)
    requires t.Vector?
    ensures r == DecodeVector(o, b, t, 0, t.dimension)
    decreases t, 1, 0
  {
    hide Decode, SizeIfFixed, Unpacked, Slice;
    var fixed := SizeIfFixed(t.elem);
    var rv: seq<Value> := [];
    var offset: int := 0;
    ghost var all := DecodeVector(o, b, t, 0, t.dimension);
    JoinedNothing(all, []);
    for i := 0 to t.dimension
      invariant all == Joined(rv, DecodeVector(o, b, t, offset, t.dimension - i))
    {
      var size := fixed;
      if fixed == -1 {
        var packed := UvintUnpack(Slice(b, offset, |b|));
        if packed.None? {
          return Err;
        }
        size := packed.value.0;
        offset := offset + packed.value.1;
      }
      if offset + size > |b| {
        return Err;
      }
      var item := DecodeValue(o, Slice(b, offset, offset + size), t.elem);
      if item.Err? {
        return Err;
      }
      offset := offset + size;
      JoinedMore(rv, [item.value], DecodeVector(o, b, t, offset, t.dimension - i - 1));
      rv := rv + [item.value];
    }
    JoinedNothing(all, rv);
    return if offset != |b| then Err else Ok(rv);
  }
}
