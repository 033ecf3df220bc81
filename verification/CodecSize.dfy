/** How many bytes a value takes on the wire, and that encoding a well-typed value fails only when a
    length prefix would overflow. */
module CodecSize {
  import opened Bytes
  import opened CqlTypes
  import opened VIntCoding
  import opened Codec
  import opened CodecRoundTrip
  import D = Durations

  /** The wire size of a well-typed value under protocol version 3 or later. */
  function WireSize(v: Value, t: CqlType): nat
    requires WellTyped(v, t)
    decreases t, 1, 0
  {
    match t
    case Text => |v.bytes|
    case Blob => |v.bytes|
    case Boolean => 1
    case TinyInt => 1
    case SmallInt => 2
    case Int => 4
    case BigInt => 8
    case Counter => 8
    case Timestamp => 8
    case VarInt => |VarintBytes(v.n)|
    case Decimal => 4 + |VarintBytes(v.n)|
    case Inet => |v.bytes|
    case Duration => |D.Binary(v.d)|
    case Opaque(k) => Width(k)
    case List(_) => 4 + ItemsSize(v.items, t)
    case Set(_) => 4 + ItemsSize(v.items, t)
    case Map(_, _) => 4 + EntriesSize(v.entries, t)
    case Tuple(_) => TupleSize(v.items, t, 0)
    case Udt(_) => UdtSize(v.members, t, 0)
    case Vector(_, _) => VectorSize(v.items, t)
  }

  function ItemsSize(items: seq<Value>, t: CqlType): (n: nat)
    requires (t.List? || t.Set?) && AllWellTyped(items, t.elem)
    ensures n >= |items|
    decreases t, 0, |items|
  {
    if items == [] then 0 else 4 + WireSize(items[0], t.elem) + ItemsSize(items[1..], t)
  }

  function EntriesSize(entries: seq<(Value, Value)>, t: CqlType): (n: nat)
    requires t.Map? && EntriesWellTyped(entries, t)
    ensures n >= |entries|
    decreases t, 0, |entries|
  {
    if entries == [] then 0
    else 8 + WireSize(entries[0].0, t.key) + WireSize(entries[0].1, t.value) + EntriesSize(entries[1..], t)
  }

  predicate Members(items: seq<Value>, t: CqlType) {
    t.Tuple? && |items| == |t.elems| && forall j :: 0 <= j < |items| ==>
      items[j] == Null || WellTyped(items[j], t.elems[j])
  }

  function TupleSize(items: seq<Value>, t: CqlType, i: nat): nat
    requires Members(items, t) && i <= |items|
    decreases t, 0, |items| - i
  {
    if i == |items| then 0
    else 4 + (if items[i] == Null then 0 else WireSize(items[i], t.elems[i])) + TupleSize(items, t, i + 1)
  }

  predicate NamedMembers(members: seq<(string, Value)>, t: CqlType) {
    && t.Udt? && |members| == |t.fields| && DistinctNames(t.fields)
    && forall j :: 0 <= j < |members| ==>
         members[j].0 == t.fields[j].name && (members[j].1 == Null || WellTyped(members[j].1, t.fields[j].typ))
  }

  function UdtSize(members: seq<(string, Value)>, t: CqlType, i: nat): nat
    requires NamedMembers(members, t) && i <= |members|
    decreases t, 0, |members| - i
  {
    if i == |members| then 0
    else
      assert t.fields[i].typ < t.fields[i];
      4 + (if members[i].1 == Null then 0 else WireSize(members[i].1, t.fields[i].typ)) + UdtSize(members, t, i + 1)
  }

  function VectorSize(items: seq<Value>, t: CqlType): nat
    requires t.Vector? && AllWellTyped(items, t.elem)
    decreases t, 0, |items|
  {
    if items == [] then 0
    else
      var n := WireSize(items[0], t.elem);
      (if SizeIfFixed(t.elem) == -1 && n < 0x20_0000_0000_0000 then |Packed(n)| else 0) + n + VectorSize(items[1..], t)
  }

  predicate Encodes(o: Options, v: Value, t: CqlType, n: nat) {
    Encode(o, v, t).Ok? && Encode(o, v, t).value.Data? && |Encode(o, v, t).value.bytes| == n
  }

  predicate DecodesBack(o: Options, v: Value, t: CqlType) {
    var cell := Encode(o, v, t);
    cell.Ok? && cell.value.Data? && Decode(o, cell.value.bytes, t) == Ok(v)
  }

  /** A well-typed value below 2 GiB encodes, to exactly its wire size. */
  lemma {:induction false} EncodingSucceeds(o: Options, v: Value, t: CqlType)
    requires o.version >= 3 && WellTyped(v, t) && WireSize(v, t) < 0x8000_0000
    ensures Encodes(o, v, t, WireSize(v, t))
    decreases t, 1, 0
  {
    hide Encode, WireSize, WellTyped;
    if IsLeaf(t) {
      LeafSucceeds(o, v, t);
    } else if t.List? || t.Set? {
      ListForm(o, v, t);
      ListSize(v, t);
      ItemsSucceed(o, v.items, t);
    } else if t.Map? {
      MapSize(o, v, t);
      EntriesSucceed(o, v.entries, t);
    } else if t.Tuple? {
      TupleForm(o, v, t);
      TupleSucceeds(o, v.items, t, 0);
    } else if t.Udt? {
      UdtForm(o, v, t);
      UdtSucceeds(o, v.members, t, 0);
    } else {
      VectorForm(o, v, t);
      VectorSucceeds(o, v.items, t);
    }
  }

  lemma {:induction false} LeafSucceeds(o: Options, v: Value, t: CqlType)
    requires IsLeaf(t) && WellTyped(v, t)
    ensures Encodes(o, v, t, WireSize(v, t))
  {
    hide VarintBytes, D.Binary, Low;
  }

  lemma {:induction false} ListSize(v: Value, t: CqlType)
    requires (t.List? || t.Set?) && WellTyped(v, t)
    ensures AllWellTyped(v.items, t.elem) && WireSize(v, t) == 4 + ItemsSize(v.items, t)
  {
    hide ItemsSize;
  }

  lemma {:induction false} MapSize(o: Options, v: Value, t: CqlType)
    requires o.version >= 3 && t.Map? && WellTyped(v, t)
    ensures v.Entries? && EntriesWellTyped(v.entries, t) && WireSize(v, t) == 4 + EntriesSize(v.entries, t)
    ensures LengthBytes(o, |v.entries|).Ok? && EncodeEntries(o, v.entries, t).Ok? ==>
              Encode(o, v, t) == Ok(Data(LengthBytes(o, |v.entries|).value + EncodeEntries(o, v.entries, t).value))
  {
    hide EntriesSize, EncodeEntries;
  }

  lemma {:induction false} TupleForm(o: Options, v: Value, t: CqlType)
    requires t.Tuple? && WellTyped(v, t)
    ensures v.TupleValue? && Members(v.items, t) && WireSize(v, t) == TupleSize(v.items, t, 0)
    ensures EncodeTuple(o, v.items, t, 0).Ok? ==> Encode(o, v, t) == Ok(Data(EncodeTuple(o, v.items, t, 0).value))
  {
    hide TupleSize, EncodeTuple;
  }

  lemma {:induction false} UdtForm(o: Options, v: Value, t: CqlType)
    requires t.Udt? && WellTyped(v, t)
    ensures v.UdtValue? && NamedMembers(v.members, t) && WireSize(v, t) == UdtSize(v.members, t, 0)
    ensures EncodeUdt(o, v.members, t, 0).Ok? ==> Encode(o, v, t) == Ok(Data(EncodeUdt(o, v.members, t, 0).value))
  {
    hide UdtSize, EncodeUdt;
  }

  lemma {:induction false} VectorForm(o: Options, v: Value, t: CqlType)
    requires t.Vector? && WellTyped(v, t)
    ensures v.VectorValue? && AllWellTyped(v.items, t.elem) && WireSize(v, t) == VectorSize(v.items, t)
    ensures EncodeVector(o, v.items, t).Ok? ==> Encode(o, v, t) == Ok(Data(EncodeVector(o, v.items, t).value))
  {
    hide VectorSize, EncodeVector;
  }

  lemma NotMissing(v: Value, t: CqlType)
    requires WellTyped(v, t)
    ensures !Missing(v)
  {
  }

  lemma {:induction false} ItemsSucceed(o: Options, items: seq<Value>, t: CqlType)
    requires o.version >= 3 && (t.List? || t.Set?) && AllWellTyped(items, t.elem) && ItemsSize(items, t) < 0x8000_0000
    ensures EncodeItems(o, items, t).Ok? && |EncodeItems(o, items, t).value| == ItemsSize(items, t)
    decreases t, 0, |items|
  {
    hide Encode, WireSize, WellTyped;
    if items != [] {
      NotMissing(items[0], t.elem);
      EncodingSucceeds(o, items[0], t.elem);
      ItemsSucceed(o, items[1..], t);
    }
  }

  lemma {:induction false} EntriesSucceed(o: Options, entries: seq<(Value, Value)>, t: CqlType)
    requires o.version >= 3 && t.Map? && EntriesWellTyped(entries, t) && EntriesSize(entries, t) < 0x8000_0000
    ensures EncodeEntries(o, entries, t).Ok? && |EncodeEntries(o, entries, t).value| == EntriesSize(entries, t)
    decreases t, 0, |entries|
  {
    hide Encode, WireSize, WellTyped;
    if entries != [] {
      NotMissing(entries[0].0, t.key);
      NotMissing(entries[0].1, t.value);
      EncodingSucceeds(o, entries[0].0, t.key);
      EncodingSucceeds(o, entries[0].1, t.value);
      EntriesSucceed(o, entries[1..], t);
    }
  }

  lemma {:induction false} NullMember(o: Options, t: CqlType)
    ensures Encode(o, Null, t) == Ok(NullCell)
  {
  }

  lemma {:induction false} TupleSucceeds(o: Options, items: seq<Value>, t: CqlType, i: nat)
    requires o.version >= 3 && Members(items, t) && i <= |items| && TupleSize(items, t, i) < 0x8000_0000
    ensures EncodeTuple(o, items, t, i).Ok? && |EncodeTuple(o, items, t, i).value| == TupleSize(items, t, i)
    decreases t, 0, |items| - i
  {
    hide Encode, WireSize, WellTyped;
    if i < |items| {
      NullMember(o, t.elems[i]);
      if items[i] != Null {
        EncodingSucceeds(o, items[i], t.elems[i]);
      }
      TupleSucceeds(o, items, t, i + 1);
    }
  }

  lemma {:induction false} UdtSucceeds(o: Options, members: seq<(string, Value)>, t: CqlType, i: nat)
    requires o.version >= 3 && NamedMembers(members, t) && i <= |members| && UdtSize(members, t, i) < 0x8000_0000
    ensures EncodeUdt(o, members, t, i).Ok? && |EncodeUdt(o, members, t, i).value| == UdtSize(members, t, i)
    decreases t, 0, |members| - i
  {
    hide Encode, WireSize, WellTyped, Member;
    if i < |members| {
      var field := t.fields[i];
      assert field.typ < field;
      MemberByName(members, t.fields, i);
      NullMember(o, field.typ);
      if members[i].1 != Null {
        EncodingSucceeds(o, members[i].1, field.typ);
      }
      UdtSucceeds(o, members, t, i + 1);
    }
  }

  lemma {:induction false} VectorSucceeds(o: Options, items: seq<Value>, t: CqlType)
    requires o.version >= 3 && t.Vector? && AllWellTyped(items, t.elem) && VectorSize(items, t) < 0x8000_0000
    ensures EncodeVector(o, items, t).Ok? && |EncodeVector(o, items, t).value| == VectorSize(items, t)
    decreases t, 0, |items|
  {
    hide Encode, WireSize, WellTyped, SizeIfFixed, Packed;
    if items != [] {
      EncodingSucceeds(o, items[0], t.elem);
      VectorSucceeds(o, items[1..], t);
    }
  }

  /** The codec law: every well-typed value below 2 GiB, of every nested type, encodes and decodes back
      to itself; a type with a fixed size takes exactly that size. */
  lemma {:induction false} CodecLaw(o: Options, v: Value, t: CqlType)
    requires o.version >= 3 && WellTyped(v, t) && WireSize(v, t) < 0x8000_0000
    ensures Encodes(o, v, t, WireSize(v, t))
    ensures DecodesBack(o, v, t)
    ensures SizeIfFixed(t) != -1 ==> WireSize(v, t) == SizeIfFixed(t)
  {
    hide Encode, Decode, WireSize, WellTyped, SizeIfFixed;
    EncodingSucceeds(o, v, t);
    RoundTrip(o, v, t);
    if SizeIfFixed(t) != -1 {
      FixedSize(o, v, t);
    }
  }
}
