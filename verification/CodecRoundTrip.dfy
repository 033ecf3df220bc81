/** Decoding undoes encoding, and fixed sizes are what they say. */
module CodecRoundTrip {
  import opened Bytes
  import opened CqlTypes
  import opened VIntCoding
  import opened Codec
  import D = Durations

  // ---------------------------------------------------------------- lengths and slices

  /** A region of a buffer. */
  predicate At(b: seq<byte>, offset: nat, s: seq<byte>) {
    offset + |s| <= |b| && b[offset..offset + |s|] == s
  }

  lemma {:induction false} AtParts(b: seq<byte>, offset: nat, x: seq<byte>, y: seq<byte>)
    requires At(b, offset, x + y)
    ensures At(b, offset, x) && At(b, offset + |x|, y)
  {
    var s := b[offset..offset + |x + y|];
    assert b[offset..offset + |x|] == s[..|x|] == x;
    assert b[offset + |x|..offset + |x| + |y|] == s[|x|..] == y;
  }

  lemma {:induction false} SliceAt(b: seq<byte>, offset: nat, s: seq<byte>)
    requires At(b, offset, s)
    ensures Slice(b, offset, offset + |s|) == s
  {
  }

  lemma {:induction false} LengthRoundTrip(o: Options, n: nat, b: seq<byte>, offset: nat)
    requires LengthBytes(o, n).Ok? && At(b, offset, LengthBytes(o, n).value)
    ensures ReadLength(o, b, offset) == Ok(n)
  {
    if o.version >= 3 {
      FourByteFits(n);
      SignedLowFits(n, 4);
    } else {
      assert Pow256(2) == 65536;
      UnsignedLow(n, 2);
    }
  }

  lemma FourByteFits(n: nat)
    requires n <= 0x7fff_ffff
    ensures Fits(n, 4)
  {
    assert Pow256(1) == 256 && Pow256(2) == 65536 && Pow256(3) == 16777216;
  }

  lemma {:induction false} PrefixRoundTrip(s: seq<byte>, b: seq<byte>, offset: nat)
    requires Prefixed(s).Ok? && At(b, offset, Prefixed(s).value)
    ensures ReadInt(b, offset) == Ok(|s|) && At(b, offset + 4, s)
    ensures |Prefixed(s).value| == 4 + |s|
  {
    AtParts(b, offset, Low(|s|, 4), s);
    FourByteFits(|s|);
    SignedLowFits(|s|, 4);
  }

  lemma {:induction false} NullLengthRead(b: seq<byte>, offset: nat)
    requires At(b, offset, NULL_LENGTH)
    ensures ReadInt(b, offset) == Ok(-1)
  {
    assert Low(-1, 1) == [255] && Low(-1, 2) == [255, 255] && Low(-1, 3) == [255, 255, 255];
    assert Low(-1, 4) == NULL_LENGTH;
    assert Fits(-1, 4);
    SignedLowFits(-1, 4);
  }

  // ---------------------------------------------------------------- leaves

  predicate IsLeaf(t: CqlType) {
    !(t.List? || t.Set? || t.Map? || t.Tuple? || t.Udt? || t.Vector?)
  }

  lemma {:induction false} LeafRoundTrip(o: Options, v: Value, t: CqlType)
    requires IsLeaf(t) && WellTyped(v, t)
    ensures Encode(o, v, t).Ok? && Encode(o, v, t).value.Data?
    ensures Decode(o, Encode(o, v, t).value.bytes, t) == Ok(v)
  {
    hide VarintBytes, Low, Signed, D.Binary, D.FromBinary, DecodeNumber, DecodeLong, DecodeOpaque;
    if t.TinyInt? || t.SmallInt? || t.Int? || t.BigInt? || t.Counter? || t.Timestamp? {
      IntegerRoundTrip(o, v, t);
    } else if t.Decimal? {
      DecimalRoundTrip(v);
    } else if t.Duration? {
      DurationRoundTrip(v);
    } else if t.Opaque? {
      OpaqueRoundTrip(v, t.kind);
    }
  }

  lemma {:induction false} IntegerRoundTrip(o: Options, v: Value, t: CqlType)
    requires WellTyped(v, t) && (t.TinyInt? || t.SmallInt? || t.Int? || t.BigInt? || t.Counter? || t.Timestamp?)
    ensures Encode(o, v, t).Ok? && Encode(o, v, t).value.Data?
    ensures Decode(o, Encode(o, v, t).value.bytes, t) == Ok(v)
  {
    hide Low, Signed, DecodeNumber, DecodeLong;
    if v.Number? {
      NumberRoundTrip(v, IntWidth(t));
    } else {
      LongRoundTrip(v);
    }
  }

  lemma OpaqueRoundTrip(v: Value, k: Kind)
    requires v.OpaqueValue? && v.kind == k && |v.bytes| == Width(k)
    ensures DecodeOpaque(v.bytes, k) == Ok(v)
  {
    assert v.bytes[..Width(k)] == v.bytes;
  }

  lemma {:induction false} NumberRoundTrip(v: Value, n: nat)
    requires n > 0 && v.Number? && Fits(v.n, n)
    ensures DecodeNumber(Low(v.n, n), n) == Ok(v)
  {
    SignedLowFits(v.n, n);
    assert Low(v.n, n)[..n] == Low(v.n, n);
  }

  lemma {:induction false} LongRoundTrip(v: Value)
    requires v.Long?
    ensures DecodeLong(Low(v.n, 8)) == Ok(v) <==> Fits(v.n, 8)
  {
    SignedLow(v.n, 8);
    assert Low(v.n, 8)[..8] == Low(v.n, 8);
  }

  lemma {:induction false} DecimalRoundTrip(v: Value)
    requires v.BigDecimal? && Fits(v.scale, 4)
    ensures var b := Low(v.scale, 4) + VarintBytes(v.n); Signed(b[..4]) == v.scale && Signed(b[4..]) == v.n
  {
    hide VarintBytes, Low, Signed;
    SignedLowFits(v.scale, 4);
    var b := Low(v.scale, 4) + VarintBytes(v.n);
    assert b[..4] == Low(v.scale, 4) && b[4..] == VarintBytes(v.n);
  }

  lemma {:induction false} DurationRoundTrip(v: Value)
    requires v.DurationValue? && D.Valid(v.d)
    ensures D.FromBinary(D.Binary(v.d)) == Ok(v.d) && D.Binary(v.d) != []
  {
    hide D.FromBinary;
    D.BinaryRoundTrip(v.d, []);
    assert D.Binary(v.d) + [] == D.Binary(v.d);
  }

  // ---------------------------------------------------------------- all types

  /** A type that `serializationSizeIfFixed` gives a size encodes to exactly that many bytes. */
  lemma {:induction false} FixedSize(o: Options, v: Value, t: CqlType)
    requires WellTyped(v, t) && Encode(o, v, t).Ok? && Encode(o, v, t).value.Data?
    requires SizeIfFixed(t) != -1
    ensures |Encode(o, v, t).value.bytes| == SizeIfFixed(t)
    decreases t, 1, 0
  {
    hide Low, VarintBytes;
    if t.Vector? {
      FixedVector(o, v.items, t);
    }
  }

  lemma {:induction false} FixedVector(o: Options, items: seq<Value>, t: CqlType)
    requires t.Vector? && SizeIfFixed(t.elem) != -1
    requires forall i :: 0 <= i < |items| ==> WellTyped(items[i], t.elem)
    requires EncodeVector(o, items, t).Ok?
    ensures |EncodeVector(o, items, t).value| == SizeIfFixed(t.elem) * |items|
    decreases t, 0, |items|
  {
    hide SizeIfFixed, Encode, WellTyped, Packed;
    var size := SizeIfFixed(t.elem);
    Multiples(size, |items|);
    if items != [] {
      FixedSize(o, items[0], t.elem);
      FixedVector(o, items[1..], t);
    }
  }

  lemma Multiples(size: int, n: nat)
    ensures n == 0 ==> size * n == 0
    ensures n > 0 ==> size * n == size + size * (n - 1)
  {
  }

  predicate AllWellTyped(items: seq<Value>, t: CqlType) {
    forall i :: 0 <= i < |items| ==> WellTyped(items[i], t)
  }

  /** Every well-typed value that encodes to less than 2 GiB decodes to itself. */
  lemma {:induction false} RoundTrip(o: Options, v: Value, t: CqlType)
    requires WellTyped(v, t) && Encode(o, v, t).Ok?
    ensures Encode(o, v, t).value.Data?
    ensures |Encode(o, v, t).value.bytes| < 0x8000_0000 ==> Decode(o, Encode(o, v, t).value.bytes, t) == Ok(v)
    decreases t, 1, 0
  {
    hide WellTyped, Encode, Decode;
    if IsLeaf(t) {
      LeafRoundTrip(o, v, t);
    } else if t.List? || t.Set? {
      ListRoundTrip(o, v, t);
    } else if t.Map? {
      MapRoundTrip(o, v, t);
    } else if t.Tuple? {
      TupleValueRoundTrip(o, v, t);
    } else if t.Udt? {
      UdtValueRoundTrip(o, v, t);
    } else {
      VectorValueRoundTrip(o, v, t);
    }
  }

  lemma {:induction false} TupleValueRoundTrip(o: Options, v: Value, t: CqlType)
    requires t.Tuple? && WellTyped(v, t) && Encode(o, v, t).Ok?
    ensures Encode(o, v, t).value.Data?
    ensures |Encode(o, v, t).value.bytes| < 0x8000_0000 ==> Decode(o, Encode(o, v, t).value.bytes, t) == Ok(v)
    decreases t, 0, |t.elems| + 1
  {
    hide EncodeTuple, DecodeTuple;
    var b := Encode(o, v, t).value.bytes;
    if |b| < 0x8000_0000 {
      assert b[0..0 + |b|] == b && v.items[0..] == v.items;
      TupleNonEmpty(o, v.items, t);
      TupleRoundTrip(o, v.items, t, t, 0, b, 0);
      assert v.items[0..] + Undefineds(0) == v.items;
    }
  }

  lemma {:induction false} UdtValueRoundTrip(o: Options, v: Value, t: CqlType)
    requires t.Udt? && WellTyped(v, t) && Encode(o, v, t).Ok?
    ensures Encode(o, v, t).value.Data?
    ensures |Encode(o, v, t).value.bytes| < 0x8000_0000 ==> Decode(o, Encode(o, v, t).value.bytes, t) == Ok(v)
    decreases t, 0, |t.fields| + 1
  {
    hide EncodeUdt, DecodeUdt;
    var b := Encode(o, v, t).value.bytes;
    if |b| < 0x8000_0000 {
      assert b[0..0 + |b|] == b && v.members[0..] == v.members;
      UdtNonEmpty(o, v.members, t);
      UdtRoundTrip(o, v.members, t, t, 0, b, 0);
    }
  }

  /** A value written before its type got more fields: the new fields are no members of what is read. */
  lemma {:induction false} UdtGrows(o: Options, v: Value, t: CqlType, u: CqlType)
    requires t.Udt? && u.Udt? && t.fields <= u.fields && WellTyped(v, t) && Encode(o, v, t).Ok?
    requires |Encode(o, v, t).value.bytes| < 0x8000_0000
    ensures Decode(o, Encode(o, v, t).value.bytes, u) == Ok(v)
  {
    hide EncodeUdt, DecodeUdt;
    var b := Encode(o, v, t).value.bytes;
    assert b[0..0 + |b|] == b && v.members[0..] == v.members;
    UdtNonEmpty(o, v.members, t);
    UdtRoundTrip(o, v.members, t, u, 0, b, 0);
  }

  /** A tuple written before its type got more elements: the new elements are read as undefined. */
  lemma {:induction false} TupleGrows(o: Options, v: Value, t: CqlType, u: CqlType)
    requires t.Tuple? && u.Tuple? && t.elems <= u.elems && WellTyped(v, t) && Encode(o, v, t).Ok?
    requires |Encode(o, v, t).value.bytes| < 0x8000_0000
    ensures Decode(o, Encode(o, v, t).value.bytes, u)
         == Ok(TupleValue(v.items + seq(|u.elems| - |t.elems|, _ => Undefined)))
  {
    hide EncodeTuple, DecodeTuple;
    var b := Encode(o, v, t).value.bytes;
    assert b[0..0 + |b|] == b && v.items[0..] == v.items;
    TupleNonEmpty(o, v.items, t);
    TupleRoundTrip(o, v.items, t, u, 0, b, 0);
    assert Undefineds(|u.elems| - |t.elems|) == seq(|u.elems| - |t.elems|, _ => Undefined);
  }

  lemma {:induction false} VectorValueRoundTrip(o: Options, v: Value, t: CqlType)
    requires t.Vector? && WellTyped(v, t) && Encode(o, v, t).Ok?
    ensures Encode(o, v, t).value.Data?
    ensures |Encode(o, v, t).value.bytes| < 0x8000_0000 ==> Decode(o, Encode(o, v, t).value.bytes, t) == Ok(v)
    decreases t, 0, |v.items| + 1
  {
    hide EncodeVector, DecodeVector;
    var b := Encode(o, v, t).value.bytes;
    if |b| < 0x8000_0000 {
      assert b[0..0 + |b|] == b;
      VectorRoundTrip(o, v.items, t, b, 0);
    }
  }

  lemma {:induction false} ListRoundTrip(o: Options, v: Value, t: CqlType)
    requires (t.List? || t.Set?) && WellTyped(v, t) && Encode(o, v, t).Ok?
    ensures Encode(o, v, t).value.Data?
    ensures |Encode(o, v, t).value.bytes| < 0x8000_0000 ==> Decode(o, Encode(o, v, t).value.bytes, t) == Ok(v)
    decreases t, 0, |v.items| + 1
  {
    hide Encode, Decode, WellTyped, LengthBytes, ReadLength;
    ListForm(o, v, t);
    var b := Encode(o, v, t).value.bytes;
    var count, body := LengthBytes(o, |v.items|).value, EncodeItems(o, v.items, t).value;
    assert b[0..0 + |b|] == b;
    hide EncodeItems, DecodeItems;
    AtParts(b, 0, count, body);
    LengthRoundTrip(o, |v.items|, b, 0);
    if |b| < 0x8000_0000 {
      ListDecodes(o, b, t);
      ItemsRoundTrip(o, v.items, t, b, LengthSize(o));
    }
  }

  lemma {:induction false} ListForm(o: Options, v: Value, t: CqlType)
    requires (t.List? || t.Set?) && WellTyped(v, t)
    ensures v.Items? && v.items != [] && AllWellTyped(v.items, t.elem)
    ensures Encode(o, v, t) == EncodeList(o, v.items, t)
  {
    hide EncodeList;
  }

  lemma {:induction false} ListDecodes(o: Options, b: seq<byte>, t: CqlType)
    requires (t.List? || t.Set?) && b != []
    ensures Decode(o, b, t) == DecodeList(o, b, t)
  {
    hide DecodeList;
  }

  lemma {:induction false} ItemsRoundTrip(o: Options, items: seq<Value>, t: CqlType, b: seq<byte>, offset: nat)
    requires (t.List? || t.Set?) && AllWellTyped(items, t.elem) && EncodeItems(o, items, t).Ok?
    requires |EncodeItems(o, items, t).value| < 0x8000_0000 && At(b, offset, EncodeItems(o, items, t).value)
    ensures DecodeItems(o, b, t, offset, |items|) == Ok(items)
    decreases t, 0, |items|
  {
    hide Encode, Decode, WellTyped, LengthBytes, ReadLength, Slice;
    if items != [] {
      var item := Encode(o, items[0], t.elem).value.bytes;
      var length, rest := LengthBytes(o, |item|).value, EncodeItems(o, items[1..], t).value;
      AtParts(b, offset, length + item, rest);
      AtParts(b, offset, length, item);
      LengthRoundTrip(o, |item|, b, offset);
      SliceAt(b, offset + |length|, item);
      RoundTrip(o, items[0], t.elem);
      ItemsRoundTrip(o, items[1..], t, b, offset + |length| + |item|);
      assert items == [items[0]] + items[1..];
    }
  }

  lemma {:induction false} MapRoundTrip(o: Options, v: Value, t: CqlType)
    requires t.Map? && WellTyped(v, t) && Encode(o, v, t).Ok?
    ensures Encode(o, v, t).value.Data?
    ensures |Encode(o, v, t).value.bytes| < 0x8000_0000 ==> Decode(o, Encode(o, v, t).value.bytes, t) == Ok(v)
    decreases t, 0, |v.entries| + 1
  {
    hide WellTyped, Encode, Decode, LengthBytes, ReadLength, EncodeEntries, DecodeEntries;
    MapForm(o, v, t);
    var count, body := LengthBytes(o, |v.entries|).value, EncodeEntries(o, v.entries, t).value;
    var b := Encode(o, v, t).value.bytes;
    assert b[0..0 + |b|] == b;
    AtParts(b, 0, count, body);
    LengthRoundTrip(o, |v.entries|, b, 0);
    if |b| < 0x8000_0000 {
      assert [] + v.entries == v.entries;
      EntriesRoundTrip(o, v.entries, t, b, LengthSize(o), []);
      MapDecodes(o, b, t, |v.entries|);
    }
  }

  lemma {:induction false} MapForm(o: Options, v: Value, t: CqlType)
    requires t.Map? && WellTyped(v, t)
    ensures v.Entries? && EntriesWellTyped(v.entries, t) && DistinctKeys(v.entries)
    ensures Encode(o, v, t).Ok? ==>
              && LengthBytes(o, |v.entries|).Ok? && EncodeEntries(o, v.entries, t).Ok?
              && Encode(o, v, t).value == Data(LengthBytes(o, |v.entries|).value + EncodeEntries(o, v.entries, t).value)
  {
    hide EncodeEntries, LengthBytes;
  }

  lemma {:induction false} MapDecodes(o: Options, b: seq<byte>, t: CqlType, n: nat)
    requires t.Map? && b != [] && ReadLength(o, b, 0) == Ok(n) && DecodeEntries(o, b, t, LengthSize(o), n, []).Ok?
    ensures Decode(o, b, t) == Ok(Entries(DecodeEntries(o, b, t, LengthSize(o), n, []).value))
  {
    hide DecodeEntries, ReadLength;
  }

  predicate EntriesWellTyped(entries: seq<(Value, Value)>, t: CqlType)
    requires t.Map?
  {
    forall i :: 0 <= i < |entries| ==> WellTyped(entries[i].0, t.key) && WellTyped(entries[i].1, t.value)
  }

  lemma {:induction false} EntriesRoundTrip(o: Options, entries: seq<(Value, Value)>, t: CqlType,
                                            b: seq<byte>, offset: nat, acc: seq<(Value, Value)>)
    requires t.Map? && EntriesWellTyped(entries, t) && DistinctKeys(acc + entries) && EncodeEntries(o, entries, t).Ok?
    requires |EncodeEntries(o, entries, t).value| < 0x8000_0000 && At(b, offset, EncodeEntries(o, entries, t).value)
    ensures DecodeEntries(o, b, t, offset, |entries|, acc) == Ok(acc + entries)
    decreases t, 0, |entries|
  {
    hide Encode, Decode, WellTyped, LengthBytes, ReadLength, Slice, SetEntry;
    if entries == [] {
      assert acc + entries == acc;
    } else {
      hide DecodeEntries;
      var (key, value) := entries[0];
      RoundTrip(o, key, t.key);
      RoundTrip(o, value, t.value);
      var k, w := Encode(o, key, t.key).value.bytes, Encode(o, value, t.value).value.bytes;
      var kn, wn := LengthBytes(o, |k|).value, LengthBytes(o, |w|).value;
      var rest := EncodeEntries(o, entries[1..], t).value;
      hide EncodeEntries;
      AtParts(b, offset, kn + k + wn + w, rest);
      AtParts(b, offset, kn + k + wn, w);
      AtParts(b, offset, kn + k, wn);
      AtParts(b, offset, kn, k);
      LengthRoundTrip(o, |k|, b, offset);
      LengthRoundTrip(o, |w|, b, offset + |kn| + |k|);
      SliceAt(b, offset + |kn|, k);
      SliceAt(b, offset + |kn| + |k| + |wn|, w);
      NewEntry(acc, entries);
      DecodeEntriesOnce(o, b, t, offset, |entries|, acc, |k|, |w|, key, value);
      hide DistinctKeys;
      EntriesRoundTrip(o, entries[1..], t, b, offset + |kn| + |k| + |wn| + |w|, acc + [entries[0]]);
    }
  }

  lemma {:induction false} DecodeEntriesOnce(o: Options, b: seq<byte>, t: CqlType, offset: nat, n: nat,
                                             acc: seq<(Value, Value)>, k: nat, w: nat, key: Value, value: Value)
    requires t.Map? && n > 0
    requires ReadLength(o, b, offset) == Ok(k) && ReadLength(o, b, offset + LengthSize(o) + k) == Ok(w)
    requires var keyAt := offset + LengthSize(o); Decode(o, Slice(b, keyAt, keyAt + k), t.key) == Ok(key)
    requires var valueAt := offset + 2 * LengthSize(o) + k;
      Decode(o, Slice(b, valueAt, valueAt + w), t.value) == Ok(value)
    ensures DecodeEntries(o, b, t, offset, n, acc)
         == DecodeEntries(o, b, t, offset + 2 * LengthSize(o) + k + w, n - 1, SetEntry(acc, key, value))
  {
    hide Decode, Slice, ReadLength, SetEntry;
  }

  lemma {:induction false} NewEntry(acc: seq<(Value, Value)>, entries: seq<(Value, Value)>)
    requires entries != [] && DistinctKeys(acc + entries)
    ensures SetEntry(acc, entries[0].0, entries[0].1) == acc + [entries[0]]
    ensures acc + entries == (acc + [entries[0]]) + entries[1..]
  {
    var whole := acc + entries;
    assert whole[|acc|] == entries[0];
    assert forall i :: 0 <= i < |acc| ==> acc[i] == whole[i] && whole[i].0 != whole[|acc|].0;
    AppendsEntry(acc, entries[0].0, entries[0].1);
  }

  lemma {:induction false} AppendsEntry(acc: seq<(Value, Value)>, key: Value, value: Value)
    requires forall i :: 0 <= i < |acc| ==> acc[i].0 != key
    ensures SetEntry(acc, key, value) == acc + [(key, value)]
  {
    if acc != [] {
      AppendsEntry(acc[1..], key, value);
    }
  }

  lemma {:induction false} TupleNonEmpty(o: Options, items: seq<Value>, t: CqlType)
    requires t.Tuple? && t.elems != [] && items != []
    ensures EncodeTuple(o, items, t, 0).Ok? ==> EncodeTuple(o, items, t, 0).value != []
  {
    hide Encode;
  }

  lemma {:induction false} UdtNonEmpty(o: Options, members: seq<(string, Value)>, t: CqlType)
    requires t.Udt? && t.fields != []
    ensures EncodeUdt(o, members, t, 0).Ok? ==> EncodeUdt(o, members, t, 0).value != []
  {
    hide Encode;
  }

  /** Members written under a tuple type, read under one that has as many more at its end. */
  lemma {:induction false} TupleRoundTrip(o: Options, items: seq<Value>, t: CqlType, u: CqlType, i: nat, b: seq<byte>,
                                          offset: nat)
    requires t.Tuple? && u.Tuple? && t.elems <= u.elems
    requires |items| == |t.elems| && i <= |items| && EncodeTuple(o, items, t, i).Ok?
    requires forall j :: 0 <= j < |items| ==> items[j] == Null || WellTyped(items[j], t.elems[j])
    requires |b| < 0x8000_0000 && At(b, offset, EncodeTuple(o, items, t, i).value)
    requires offset + |EncodeTuple(o, items, t, i).value| == |b|
    ensures DecodeTuple(o, b, u, i, offset) == Ok(items[i..] + Undefineds(|u.elems| - |t.elems|))
    decreases t, 0, |items| - i
  {
    hide WellTyped, Encode, Decode, Slice, ReadInt, Prefixed, DecodeTuple, EncodeTuple, Undefineds;
    var more := Undefineds(|u.elems| - |t.elems|);
    if i < |items| {
      TupleStep(o, items, t, i);
      MemberRoundTrip(o, items[i], t.elems[i]);
      var member := MemberOf(Encode(o, items[i], t.elems[i]).value);
      AtParts(b, offset, member, EncodeTuple(o, items, t, i + 1).value);
      MemberRead(o, items[i], t.elems[i], member, b, offset);
      TupleRoundTrip(o, items, t, u, i + 1, b, offset + |member|);
      DecodeTupleOnce(o, b, u, i, offset, |member|, items[i], items[i + 1..] + more);
      assert items[i..] + more == [items[i]] + (items[i + 1..] + more);
    } else {
      NoTuple(o, items, t, i);
      BeyondTheBuffer(o, b, u, i, offset);
      assert items[i..] + more == more;
    }
  }

  function MemberOf(cell: Cell): seq<byte>
    requires cell.Data? ==> Prefixed(cell.bytes).Ok?
  {
    if cell.Data? then Prefixed(cell.bytes).value else NULL_LENGTH
  }

  lemma {:induction false} TupleStep(o: Options, items: seq<Value>, t: CqlType, i: nat)
    requires t.Tuple? && i < |items| && i < |t.elems| && EncodeTuple(o, items, t, i).Ok?
    ensures var cell := Encode(o, items[i], t.elems[i]);
      && cell.Ok? && (cell.value.Data? ==> Prefixed(cell.value.bytes).Ok?) && EncodeTuple(o, items, t, i + 1).Ok?
      && EncodeTuple(o, items, t, i).value == MemberOf(cell.value) + EncodeTuple(o, items, t, i + 1).value
  {
    hide Encode, Prefixed;
  }

  lemma {:induction false} NoTuple(o: Options, items: seq<Value>, t: CqlType, i: nat)
    requires t.Tuple? && i >= |items|
    ensures EncodeTuple(o, items, t, i) == Ok([])
  {
  }

  lemma {:induction false} DecodeTupleOnce(o: Options, b: seq<byte>, u: CqlType, i: nat, offset: nat, size: nat,
                                           v: Value, rest: seq<Value>)
    requires u.Tuple? && i < |u.elems| && offset < |b| && size >= 4 && ReadInt(b, offset).Ok?
    requires v == Null ==> size == 4 && ReadInt(b, offset).value < 0
    requires v != Null ==> ReadInt(b, offset).value == size - 4
                           && Decode(o, Slice(b, offset + 4, offset + size), u.elems[i]) == Ok(v)
    requires DecodeTuple(o, b, u, i + 1, offset + size) == Ok(rest)
    ensures DecodeTuple(o, b, u, i, offset) == Ok([v] + rest)
  {
    hide Decode, Slice, ReadInt;
  }

  function Undefineds(n: nat): seq<Value> {
    seq(n, _ => Undefined)
  }

  lemma {:induction false} BeyondTheBuffer(o: Options, b: seq<byte>, u: CqlType, i: nat, offset: nat)
    requires u.Tuple? && i <= |u.elems| && offset >= |b|
    ensures DecodeTuple(o, b, u, i, offset) == Ok(Undefineds(|u.elems| - i))
    decreases |u.elems| - i
  {
    hide Decode;
    if i < |u.elems| {
      BeyondTheBuffer(o, b, u, i + 1, offset);
      assert Undefineds(|u.elems| - i) == [Undefined] + Undefineds(|u.elems| - (i + 1));
    }
  }

  /** What a tuple or user type member encodes to. */
  lemma {:induction false} MemberRoundTrip(o: Options, v: Value, t: CqlType)
    requires (v == Null || WellTyped(v, t)) && Encode(o, v, t).Ok?
    ensures v == Null || (WellTyped(v, t) && Encode(o, v, t).value.Data?)
    ensures v == Null ==> Encode(o, v, t).value == NullCell
    ensures v != Null && |Encode(o, v, t).value.bytes| < 0x8000_0000 ==>
      Decode(o, Encode(o, v, t).value.bytes, t) == Ok(v)
    decreases t, 2, 0
  {
    if v != Null {
      hide Encode, Decode;
      RoundTrip(o, v, t);
    }
  }

  /** Reading a member that was written at an offset. */
  lemma {:induction false} MemberRead(o: Options, v: Value, t: CqlType, member: seq<byte>, b: seq<byte>, offset: nat)
    requires Encode(o, v, t).Ok? && At(b, offset, member) && |b| < 0x8000_0000
    requires v == Null ==> member == NULL_LENGTH
    requires v != Null ==>
               && Encode(o, v, t).value.Data?
               && Prefixed(Encode(o, v, t).value.bytes) == Ok(member)
               && (|Encode(o, v, t).value.bytes| < 0x8000_0000 ==> Decode(o, Encode(o, v, t).value.bytes, t) == Ok(v))
    ensures |member| >= 4 && ReadInt(b, offset).Ok?
    ensures v == Null ==> |member| == 4 && ReadInt(b, offset).value < 0
    ensures v != Null ==> ReadInt(b, offset).value == |member| - 4
                          && Decode(o, Slice(b, offset + 4, offset + |member|), t) == Ok(v)
  {
    hide Encode, Decode, Slice, ReadInt, Prefixed;
    if v == Null {
      NullLengthRead(b, offset);
    } else {
      var bytes := Encode(o, v, t).value.bytes;
      PrefixRoundTrip(bytes, b, offset);
      SliceAt(b, offset + 4, bytes);
    }
  }

  lemma {:induction false} MemberByName(members: seq<(string, Value)>, fields: seq<Field>, i: nat)
    requires i < |members| == |fields| && DistinctNames(fields)
    requires forall j :: 0 <= j < |fields| ==> members[j].0 == fields[j].name
    ensures Member(members, fields[i].name) == members[i].1
    decreases i
  {
    if i > 0 {
      assert fields[0].name != fields[i].name;
      MemberByName(members[1..], fields[1..], i - 1);
    }
  }

  /** Members written under a user type, read under one that has more fields at its end. */
  lemma {:induction false} UdtRoundTrip(o: Options, members: seq<(string, Value)>, t: CqlType, u: CqlType, i: nat,
                                        b: seq<byte>, offset: nat)
    requires t.Udt? && u.Udt? && t.fields <= u.fields
    requires |members| == |t.fields| && i <= |members| && DistinctNames(t.fields)
    requires EncodeUdt(o, members, t, i).Ok?
    requires forall j :: 0 <= j < |members| ==>
               members[j].0 == t.fields[j].name && (members[j].1 == Null || WellTyped(members[j].1, t.fields[j].typ))
    requires |b| < 0x8000_0000 && At(b, offset, EncodeUdt(o, members, t, i).value)
    requires offset + |EncodeUdt(o, members, t, i).value| == |b|
    ensures DecodeUdt(o, b, u, i, offset) == Ok(members[i..])
    decreases t, 0, |members| - i
  {
    hide WellTyped, Encode, Decode, Slice, ReadInt, Prefixed, Member, EncodeUdt, DecodeUdt;
    if i < |members| {
      var field, v := t.fields[i], members[i].1;
      assert field.typ < field && u.fields[i] == field;
      MemberByName(members, t.fields, i);
      UdtStep(o, members, t, i);
      MemberRoundTrip(o, v, field.typ);
      var member := MemberOf(Encode(o, v, field.typ).value);
      AtParts(b, offset, member, EncodeUdt(o, members, t, i + 1).value);
      MemberRead(o, v, field.typ, member, b, offset);
      UdtRoundTrip(o, members, t, u, i + 1, b, offset + |member|);
      DecodeUdtOnce(o, b, u, i, offset, |member|, v, members[i + 1..]);
      assert members[i..] == [members[i]] + members[i + 1..] && members[i] == (field.name, v);
    } else {
      NoUdt(o, members, t, u, i, b, offset);
      assert members[i..] == [];
    }
  }

  lemma {:induction false} UdtStep(o: Options, members: seq<(string, Value)>, t: CqlType, i: nat)
    requires t.Udt? && i < |t.fields| && EncodeUdt(o, members, t, i).Ok?
    ensures var cell := Encode(o, Member(members, t.fields[i].name), t.fields[i].typ);
      && cell.Ok? && (cell.value.Data? ==> Prefixed(cell.value.bytes).Ok?) && EncodeUdt(o, members, t, i + 1).Ok?
      && EncodeUdt(o, members, t, i).value == MemberOf(cell.value) + EncodeUdt(o, members, t, i + 1).value
  {
    hide Encode, Prefixed, Member;
  }

  lemma {:induction false} NoUdt(o: Options, members: seq<(string, Value)>, t: CqlType, u: CqlType, i: nat,
                                 b: seq<byte>, offset: nat)
    requires t.Udt? && u.Udt? && i >= |t.fields|
    ensures EncodeUdt(o, members, t, i) == Ok([])
    ensures offset >= |b| ==> DecodeUdt(o, b, u, i, offset) == Ok([])
  {
  }

  lemma {:induction false} DecodeUdtOnce(o: Options, b: seq<byte>, u: CqlType, i: nat, offset: nat, size: nat,
                                         v: Value, rest: seq<(string, Value)>)
    requires u.Udt? && i < |u.fields| && offset < |b| && size >= 4 && ReadInt(b, offset).Ok?
    requires v == Null ==> size == 4 && ReadInt(b, offset).value < 0
    requires v != Null ==> ReadInt(b, offset).value == size - 4
                           && Decode(o, Slice(b, offset + 4, offset + size), u.fields[i].typ) == Ok(v)
    requires DecodeUdt(o, b, u, i + 1, offset + size) == Ok(rest)
    ensures DecodeUdt(o, b, u, i, offset) == Ok([(u.fields[i].name, v)] + rest)
  {
    hide Decode, Slice, ReadInt;
  }

  lemma {:induction false} VectorRoundTrip(o: Options, items: seq<Value>, t: CqlType, b: seq<byte>, offset: nat)
    requires t.Vector? && AllWellTyped(items, t.elem) && EncodeVector(o, items, t).Ok?
    requires |b| < 0x8000_0000 && At(b, offset, EncodeVector(o, items, t).value)
    requires offset + |EncodeVector(o, items, t).value| == |b|
    ensures DecodeVector(o, b, t, offset, |items|) == Ok(items)
    decreases t, 0, |items|
  {
    hide Encode, Decode, WellTyped, Slice, SizeIfFixed, Packed, Unpacked;
    if items != [] {
      hide DecodeVector;
      RoundTrip(o, items[0], t.elem);
      var item := Encode(o, items[0], t.elem).value.bytes;
      var fixed := SizeIfFixed(t.elem);
      var prefix := if fixed == -1 then Packed(|item|) else [];
      var rest := EncodeVector(o, items[1..], t).value;
      hide EncodeVector;
      AtParts(b, offset, prefix + item, rest);
      AtParts(b, offset, prefix, item);
      SliceAt(b, offset + |prefix|, item);
      if fixed == -1 {
        PackedAt(b, offset, |item|);
      } else {
        FixedSize(o, items[0], t.elem);
      }
      VectorRoundTrip(o, items[1..], t, b, offset + |prefix| + |item|);
      DecodeVectorOnce(o, b, t, offset, |items|, offset + |prefix|, |item|, items[0], items[1..]);
      assert items == [items[0]] + items[1..];
    }
  }

  lemma {:induction false} DecodeVectorOnce(o: Options, b: seq<byte>, t: CqlType, offset: nat, n: nat,
                                            at: nat, size: nat, item: Value, rest: seq<Value>)
    requires t.Vector? && n > 0 && at + size <= |b|
    requires if SizeIfFixed(t.elem) == -1 then Unpacked(Slice(b, offset, |b|)) == Some((size, at - offset))
             else at == offset && size == SizeIfFixed(t.elem)
    requires Decode(o, Slice(b, at, at + size), t.elem) == Ok(item)
    requires DecodeVector(o, b, t, at + size, n - 1) == Ok(rest)
    ensures DecodeVector(o, b, t, offset, n) == Ok([item] + rest)
  {
    hide Decode, Slice, SizeIfFixed, Unpacked;
  }

  lemma {:induction false} PackedAt(b: seq<byte>, offset: nat, n: nat)
    requires n < 0x8000_0000 && At(b, offset, Packed(n))
    ensures Unpacked(Slice(b, offset, |b|)) == Some((n, |Packed(n)|))
  {
    hide Packed, Unpacked;
    var after := b[offset + |Packed(n)|..];
    UnpackUndoesPack(n, after);
    assert Slice(b, offset, |b|) == b[offset..] == Packed(n) + after;
  }
}
