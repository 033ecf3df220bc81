/** The bytes of every type as the native protocol lays them out: each cell behind its length, in the
    order of the value, with the literal widths. Nothing here asks the encoder for a size. */
module WireFormat {
  import opened Bytes
  import opened Varint
  import opened CqlTypes
  import opened VIntCoding
  import opened Codec
  import V = VInt
  import D = Durations

  // ---------------------------------------------------------------- fixed sizes

  /** Element types that a vector writes without a length. */
  predicate FixedType(t: CqlType) {
    || t in {Boolean, Int, BigInt, Timestamp, Opaque(Float), Opaque(Double), Opaque(Uuid), Opaque(TimeUuid)}
    || (t.Vector? && FixedType(t.elem))
  }

  /** `serializationSizeIfFixed` gives a size to exactly those types, and which. */
  lemma {:induction false} FixedExactly(t: CqlType)
    ensures SizeIfFixed(t) != -1 <==> FixedType(t)
    ensures t == Boolean ==> SizeIfFixed(t) == 1
    ensures t == Int || t == Opaque(Float) ==> SizeIfFixed(t) == 4
    ensures t == BigInt || t == Timestamp || t == Opaque(Double) ==> SizeIfFixed(t) == 8
    ensures t == Opaque(Uuid) || t == Opaque(TimeUuid) ==> SizeIfFixed(t) == 16
    ensures t.Vector? && FixedType(t.elem) ==> SizeIfFixed(t) == SizeIfFixed(t.elem) * t.dimension
    ensures SizeIfFixed(t) >= -1
  {
    if t.Vector? {
      FixedExactly(t.elem);
      if FixedType(t.elem) {
        NotNegative(SizeIfFixed(t.elem), t.dimension);
      }
    }
  }

  lemma NotNegative(a: nat, b: nat)
    ensures a * b >= 0
  {
  }

  // ---------------------------------------------------------------- layout

  /** What stands in front of a cell: nothing, two bytes, four bytes, or an unsigned vint. */
  datatype Prefix = Bare | TwoBytes | FourBytes | VariableLength

  function LengthOf(p: Prefix, n: nat): seq<byte> {
    match p
    case Bare => []
    case TwoBytes => Low(n, 2)
    case FourBytes => Low(n, 4)
    case VariableLength => if n < V.TWO_64 then V.Encode(n) else []
  }

  /** Cells one after the other; one that is not data is the length -1. */
  function Laid(p: Prefix, cells: seq<Cell>): seq<byte> {
    if cells == [] then []
    else (if cells[0].Data? then LengthOf(p, |cells[0].bytes|) + cells[0].bytes else [0xff, 0xff, 0xff, 0xff])
         + Laid(p, cells[1..])
  }

  /** Collections have four-byte lengths from protocol version 3 on, two-byte ones before. */
  function CollectionPrefix(version: nat): Prefix {
    if version >= 3 then FourBytes else TwoBytes
  }

  /** The longest length a prefix holds. */
  function Largest(p: Prefix): nat {
    match p
    case TwoBytes => 0xffff
    case _ => 0x7fff_ffff
  }

  function CellOf(o: Options, v: Value, t: CqlType): Cell {
    var r := Encode(o, v, t);
    if r.Ok? then r.value else UnsetCell
  }

  /** The cells of values of one type, in order. */
  function Cells(o: Options, items: seq<Value>, t: CqlType): (cells: seq<Cell>) {
    seq(|items|, i requires 0 <= i < |items| => CellOf(o, items[i], t))
  }

  /** Every value of a type has bytes, no more than a length can say. */
  predicate AllData(o: Options, items: seq<Value>, t: CqlType, most: nat) {
    forall i :: 0 <= i < |items| ==> HasData(o, items[i], t, most)
  }

  predicate HasData(o: Options, v: Value, t: CqlType, most: nat) {
    Encode(o, v, t).Ok? && Encode(o, v, t).value.Data? && |Encode(o, v, t).value.bytes| <= most
  }

  function CellBytes(o: Options, v: Value, t: CqlType): seq<byte> {
    var c := CellOf(o, v, t);
    if c.Data? then c.bytes else []
  }

  lemma {:induction false} LaidFirst(p: Prefix, cells: seq<Cell>)
    requires cells != []
    ensures Laid(p, cells) == Laid(p, cells[..1]) + Laid(p, cells[1..])
    ensures cells[0].Data? ==> Laid(p, cells[..1]) == LengthOf(p, |cells[0].bytes|) + cells[0].bytes
  {
    hide LengthOf;
    var first := cells[..1];
    assert first[1..] == [] && first[0] == cells[0];
    assert Laid(p, first) + [] == Laid(p, first);
  }

  /** The cell of the first value stands in front of the others. */
  lemma {:induction false} FirstCell(o: Options, items: seq<Value>, t: CqlType, p: Prefix)
    requires items != []
    ensures var bytes := CellBytes(o, items[0], t);
      CellOf(o, items[0], t).Data? ==>
        Laid(p, Cells(o, items, t)) == LengthOf(p, |bytes|) + bytes + Laid(p, Cells(o, items[1..], t))
  {
    hide Laid, LengthOf, CellOf;
    var cells := Cells(o, items, t);
    assert cells[1..] == Cells(o, items[1..], t);
    LaidFirst(p, cells);
  }

  lemma {:induction false} AllDataFirst(o: Options, items: seq<Value>, t: CqlType, most: nat)
    requires items != []
    ensures AllData(o, items, t, most) <==> HasData(o, items[0], t, most) && AllData(o, items[1..], t, most)
  {
    hide HasData;
    assert items == [items[0]] + items[1..];
  }

  lemma {:induction false} NothingToSay(o: Options, t: CqlType)
    ensures Cells(o, [], t) == [] && (forall p :: Laid(p, []) == []) && NoneMissing([])
    ensures forall most :: AllData(o, [], t, most)
  {
    hide CellOf, HasData;
  }

  // ---------------------------------------------------------------- vectors

  /** The bytes of a vector: plain concatenation of the elements' encodings for the fixed types, and for
      every other type each encoding behind its length as an unsigned vint. */
  lemma {:induction false} VectorWire(o: Options, v: Value, t: CqlType)
    requires t.Vector? && v.VectorValue?
    requires forall i :: 0 <= i < |v.items| ==> |CellBytes(o, v.items[i], t.elem)| < 0x8000_0000
    ensures Encode(o, v, t).Ok? <==> |v.items| == t.dimension > 0 && AllData(o, v.items, t.elem, 0x7fff_ffff)
    ensures Encode(o, v, t).Ok? ==>
      Encode(o, v, t).value == Data(Laid(if FixedType(t.elem) then Bare else VariableLength, Cells(o, v.items, t.elem)))
  {
    hide EncodeVector, SizeIfFixed, FixedType, Laid;
    VectorBody(o, v.items, t);
  }

  lemma {:induction false} VectorBody(o: Options, items: seq<Value>, t: CqlType)
    requires t.Vector?
    requires forall i :: 0 <= i < |items| ==> |CellBytes(o, items[i], t.elem)| < 0x8000_0000
    ensures EncodeVector(o, items, t).Ok? <==> AllData(o, items, t.elem, 0x7fff_ffff)
    ensures EncodeVector(o, items, t).Ok? ==>
      EncodeVector(o, items, t).value
      == Laid(if FixedType(t.elem) then Bare else VariableLength, Cells(o, items, t.elem))
  {
    hide Encode, SizeIfFixed, FixedType, Packed, V.Encode, Laid, Cells, AllData;
    if items == [] {
      NothingToSay(o, t.elem);
    } else {
      FirstCell(o, items, t.elem, if FixedType(t.elem) then Bare else VariableLength);
      AllDataFirst(o, items, t.elem, 0x7fff_ffff);
      VectorBody(o, items[1..], t);
      FixedExactly(t.elem);
      var bytes := CellBytes(o, items[0], t.elem);
      PackedIsEncoding(|bytes|);
    }
  }

  // ---------------------------------------------------------------- lists and sets

  /** A list or set: the number of items and every item behind its length; an empty one is null. */
  lemma {:induction false} ListWire(o: Options, v: Value, t: CqlType)
    requires (t.List? || t.Set?) && v.Items?
    ensures v.items == [] ==> Encode(o, v, t) == Ok(NullCell)
    ensures var p := CollectionPrefix(o.version);
      v.items != [] ==>
        && (Encode(o, v, t).Ok? <==>
            |v.items| <= Largest(p) && NoneMissing(v.items) && AllData(o, v.items, t.elem, Largest(p)))
        && (Encode(o, v, t).Ok? ==>
            Encode(o, v, t).value == Data(LengthOf(p, |v.items|) + Laid(p, Cells(o, v.items, t.elem))))
  {
    hide Laid;
    ListBody(o, v.items, t);
    ListDispatch(o, v, t);
    hide Encode, EncodeItems;
  }

  lemma {:induction false} ListDispatch(o: Options, v: Value, t: CqlType)
    requires (t.List? || t.Set?) && v.Items?
    ensures Encode(o, v, t) == EncodeList(o, v.items, t)
  {
    hide EncodeList;
  }

  predicate NoneMissing(items: seq<Value>) {
    forall i :: 0 <= i < |items| ==> items[i] !in {Null, Undefined, Unset}
  }

  lemma {:induction false} NoneMissingFirst(items: seq<Value>)
    requires items != []
    ensures NoneMissing(items) <==> !Missing(items[0]) && NoneMissing(items[1..])
  {
    assert items == [items[0]] + items[1..];
  }

  lemma {:induction false} ListBody(o: Options, items: seq<Value>, t: CqlType)
    requires t.List? || t.Set?
    ensures var p := CollectionPrefix(o.version);
      && (EncodeItems(o, items, t).Ok? <==> NoneMissing(items) && AllData(o, items, t.elem, Largest(p)))
      && (EncodeItems(o, items, t).Ok? ==> EncodeItems(o, items, t).value == Laid(p, Cells(o, items, t.elem)))
  {
    hide Encode, Laid, Cells, AllData, NoneMissing, Low;
    if items == [] {
      NothingToSay(o, t.elem);
    } else {
      var p := CollectionPrefix(o.version);
      FirstCell(o, items, t.elem, p);
      AllDataFirst(o, items, t.elem, Largest(p));
      ListBody(o, items[1..], t);
      NoneMissingFirst(items);
    }
  }

  // ---------------------------------------------------------------- maps

  /** Keys and values in turn; a value that has no bytes counts as empty. */
  function EntryCells(o: Options, entries: seq<(Value, Value)>, k: CqlType, w: CqlType): seq<Cell> {
    if entries == [] then []
    else [CellOf(o, entries[0].0, k), Data(CellBytes(o, entries[0].1, w))] + EntryCells(o, entries[1..], k, w)
  }

  /** The keys have bytes and neither keys nor values are missing, and no length is too large. */
  predicate EntriesFit(o: Options, entries: seq<(Value, Value)>, k: CqlType, w: CqlType, most: nat) {
    forall i :: 0 <= i < |entries| ==> EntryFits(o, entries[i], k, w, most)
  }

  predicate EntryFits(o: Options, e: (Value, Value), k: CqlType, w: CqlType, most: nat) {
    && e.0 !in {Null, Undefined, Unset} && e.1 !in {Null, Undefined, Unset}
    && HasData(o, e.0, k, most) && Encode(o, e.1, w).Ok? && |CellBytes(o, e.1, w)| <= most
  }

  /** A map: the number of entries, then every key and its value, each behind its length. */
  lemma {:induction false} MapWire(o: Options, v: Value, t: CqlType)
    requires t.Map? && v.Entries?
    ensures var p := CollectionPrefix(o.version);
      && (Encode(o, v, t).Ok? <==>
          |v.entries| <= Largest(p) && EntriesFit(o, v.entries, t.key, t.value, Largest(p)))
      && (Encode(o, v, t).Ok? ==>
          Encode(o, v, t).value == Data(LengthOf(p, |v.entries|) + Laid(p, EntryCells(o, v.entries, t.key, t.value))))
  {
    MapDispatch(o, v, t);
    MapBody(o, v.entries, t);
    hide Laid, Encode, EncodeEntries, EntriesFit, EntryCells;
  }

  lemma {:induction false} MapDispatch(o: Options, v: Value, t: CqlType)
    requires t.Map? && v.Entries?
    ensures Encode(o, v, t)
         == if LengthBytes(o, |v.entries|).Err? || EncodeEntries(o, v.entries, t).Err? then Err
            else Ok(Data(LengthBytes(o, |v.entries|).value + EncodeEntries(o, v.entries, t).value))
  {
    hide LengthBytes, EncodeEntries;
  }

  lemma {:induction false} MapBody(o: Options, entries: seq<(Value, Value)>, t: CqlType)
    requires t.Map?
    ensures var p := CollectionPrefix(o.version);
      && (EncodeEntries(o, entries, t).Ok? <==> EntriesFit(o, entries, t.key, t.value, Largest(p)))
      && (EncodeEntries(o, entries, t).Ok? ==>
          EncodeEntries(o, entries, t).value == Laid(p, EntryCells(o, entries, t.key, t.value)))
  {
    if entries != [] {
      var p := CollectionPrefix(o.version);
      MapBody(o, entries[1..], t);
      FirstEntry(o, entries, t);
      var rest := EntryCells(o, entries[1..], t.key, t.value);
      var k, w := CellOf(o, entries[0].0, t.key), Data(CellBytes(o, entries[0].1, t.value));
      assert entries == [entries[0]] + entries[1..];
      assert EntryCells(o, entries, t.key, t.value) == [k, w] + rest;
      hide EncodeEntries, EntryFits, EntryCells, Encode;
      if k.Data? {
        TwoCells(p, k, w, rest);
      }
    }
  }

  lemma {:induction false} TwoCells(p: Prefix, k: Cell, w: Cell, rest: seq<Cell>)
    requires k.Data? && w.Data?
    ensures Laid(p, [k, w] + rest)
         == LengthOf(p, |k.bytes|) + k.bytes + LengthOf(p, |w.bytes|) + w.bytes + Laid(p, rest)
  {
    hide LengthOf;
    var cells := [k, w] + rest;
    assert cells[1..] == [w] + rest && cells[1..][1..] == rest;
  }

  lemma {:induction false} FirstEntry(o: Options, entries: seq<(Value, Value)>, t: CqlType)
    requires t.Map? && entries != []
    ensures var p, e, rest := CollectionPrefix(o.version), entries[0], EncodeEntries(o, entries[1..], t);
      var k, w := CellBytes(o, e.0, t.key), CellBytes(o, e.1, t.value);
      && (EncodeEntries(o, entries, t).Ok? <==> EntryFits(o, e, t.key, t.value, Largest(p)) && rest.Ok?)
      && (EncodeEntries(o, entries, t).Ok? ==>
          && CellOf(o, e.0, t.key) == Data(k)
          && EncodeEntries(o, entries, t).value == LengthOf(p, |k|) + k + LengthOf(p, |w|) + w + rest.value)
  {
    hide Encode, Low;
  }

  // ---------------------------------------------------------------- tuples and user types

  function TupleCells(o: Options, items: seq<Value>, es: seq<CqlType>): (cells: seq<Cell>) {
    var n := if |items| < |es| then |items| else |es|;
    seq(n, i requires 0 <= i < n => CellOf(o, items[i], es[i]))
  }

  /** A member may be null or unset; its bytes must not be too many. */
  predicate MemberFits(o: Options, v: Value, t: CqlType) {
    Encode(o, v, t).Ok? && |CellBytes(o, v, t)| <= 0x7fff_ffff
  }

  /** A tuple: each member, of its own type, behind four bytes of length, or the length -1. */
  lemma {:induction false} TupleWire(o: Options, v: Value, t: CqlType)
    requires t.Tuple? && v.TupleValue?
    ensures Encode(o, v, t).Ok? <==>
      forall i :: 0 <= i < |v.items| && i < |t.elems| ==> MemberFits(o, v.items[i], t.elems[i])
    ensures Encode(o, v, t).Ok? ==>
      Encode(o, v, t).value == Data(Laid(FourBytes, TupleCells(o, v.items, t.elems)))
  {
    hide Laid, EncodeTuple, MemberFits;
    TupleBody(o, v.items, t, 0);
    assert TupleCells(o, v.items, t.elems)[0..] == TupleCells(o, v.items, t.elems);
  }

  lemma {:induction false} TupleBody(o: Options, items: seq<Value>, t: CqlType, i: nat)
    requires t.Tuple? && i <= |TupleCells(o, items, t.elems)|
    ensures EncodeTuple(o, items, t, i).Ok? <==>
      forall j :: i <= j < |items| && j < |t.elems| ==> MemberFits(o, items[j], t.elems[j])
    ensures EncodeTuple(o, items, t, i).Ok? ==>
      EncodeTuple(o, items, t, i).value == Laid(FourBytes, TupleCells(o, items, t.elems)[i..])
    decreases |items| - i
  {
    hide Encode, EncodeTuple, MemberFits, Laid, Prefixed;
    var cells := TupleCells(o, items, t.elems);
    if i < |cells| {
      TupleBody(o, items, t, i + 1);
      TupleFirst(o, items, t, i);
      assert cells[i..][1..] == cells[i + 1..];
      if EncodeTuple(o, items, t, i).Ok? {
        MemberCell(cells[i], cells[i..]);
      }
    } else {
      NoMembers(o, items, t, i);
      assert cells[i..] == [];
    }
  }

  lemma {:induction false} TupleFirst(o: Options, items: seq<Value>, t: CqlType, i: nat)
    requires t.Tuple? && i < |items| && i < |t.elems|
    ensures var c, rest := CellOf(o, items[i], t.elems[i]), EncodeTuple(o, items, t, i + 1);
      && (EncodeTuple(o, items, t, i).Ok? <==> MemberFits(o, items[i], t.elems[i]) && rest.Ok?)
      && (EncodeTuple(o, items, t, i).Ok? ==>
          && (c.Data? ==> Prefixed(c.bytes).Ok?)
          && EncodeTuple(o, items, t, i).value
             == (if c.Data? then Prefixed(c.bytes).value else NULL_LENGTH) + rest.value)
  {
    hide Encode, Low;
  }

  lemma {:induction false} NoMembers(o: Options, items: seq<Value>, t: CqlType, i: nat)
    requires t.Tuple? && (i >= |items| || i >= |t.elems|)
    ensures EncodeTuple(o, items, t, i) == Ok([]) && Laid(FourBytes, []) == []
  {
  }

  /** One member in front of the others. */
  lemma {:induction false} MemberCell(c: Cell, cells: seq<Cell>)
    requires cells != [] && cells[0] == c && (c.Data? ==> Prefixed(c.bytes).Ok?)
    ensures Laid(FourBytes, cells)
         == (if c.Data? then Prefixed(c.bytes).value else NULL_LENGTH) + Laid(FourBytes, cells[1..])
  {
  }

  function UdtCells(o: Options, members: seq<(string, Value)>, fs: seq<Field>): (cells: seq<Cell>) {
    seq(|fs|, i requires 0 <= i < |fs| => CellOf(o, Member(members, fs[i].name), fs[i].typ))
  }

  predicate FirstNamed(members: seq<(string, Value)>, name: string, j: nat) {
    j < |members| && members[j].0 == name && forall k :: 0 <= k < j ==> members[k].0 != name
  }

  /** The property of an object with a name; one that is not there is undefined. */
  lemma {:induction false} MemberMeans(members: seq<(string, Value)>, name: string)
    ensures (forall j :: 0 <= j < |members| ==> members[j].0 != name) ==> Member(members, name) == Undefined
    ensures forall j :: 0 <= j < |members| && FirstNamed(members, name, j) ==> Member(members, name) == members[j].1
  {
    if members != [] && members[0].0 != name {
      MemberMeans(members[1..], name);
      forall j | 0 <= j < |members| && FirstNamed(members, name, j)
        ensures Member(members, name) == members[j].1
      {
        assert members[1..][j - 1] == members[j] && FirstNamed(members[1..], name, j - 1);
      }
    }
  }

  /** A user type: the fields in the order of the type, whatever the order of the object's properties. */
  lemma {:induction false} UdtWire(o: Options, v: Value, t: CqlType)
    requires t.Udt? && v.UdtValue?
    ensures Encode(o, v, t).Ok? <==>
      forall i :: 0 <= i < |t.fields| ==> MemberFits(o, Member(v.members, t.fields[i].name), t.fields[i].typ)
    ensures Encode(o, v, t).Ok? ==>
      Encode(o, v, t).value == Data(Laid(FourBytes, UdtCells(o, v.members, t.fields)))
  {
    hide Laid, EncodeUdt, MemberFits, Member;
    UdtBody(o, v.members, t, 0);
    assert UdtCells(o, v.members, t.fields)[0..] == UdtCells(o, v.members, t.fields);
  }

  lemma {:induction false} UdtBody(o: Options, members: seq<(string, Value)>, t: CqlType, i: nat)
    requires t.Udt? && i <= |t.fields|
    ensures EncodeUdt(o, members, t, i).Ok? <==>
      forall j :: i <= j < |t.fields| ==> MemberFits(o, Member(members, t.fields[j].name), t.fields[j].typ)
    ensures EncodeUdt(o, members, t, i).Ok? ==>
      EncodeUdt(o, members, t, i).value == Laid(FourBytes, UdtCells(o, members, t.fields)[i..])
    decreases |t.fields| - i
  {
    hide Encode, Member, EncodeUdt, MemberFits, Laid, Prefixed;
    var cells := UdtCells(o, members, t.fields);
    if i < |cells| {
      UdtBody(o, members, t, i + 1);
      UdtFirst(o, members, t, i);
      assert cells[i..][1..] == cells[i + 1..];
      if EncodeUdt(o, members, t, i).Ok? {
        MemberCell(cells[i], cells[i..]);
      }
    } else {
      NoFields(o, members, t, i);
      assert cells[i..] == [];
    }
  }

  lemma {:induction false} UdtFirst(o: Options, members: seq<(string, Value)>, t: CqlType, i: nat)
    requires t.Udt? && i < |t.fields|
    ensures var v := Member(members, t.fields[i].name);
      var c, rest := CellOf(o, v, t.fields[i].typ), EncodeUdt(o, members, t, i + 1);
      && (EncodeUdt(o, members, t, i).Ok? <==> MemberFits(o, v, t.fields[i].typ) && rest.Ok?)
      && (EncodeUdt(o, members, t, i).Ok? ==>
          && (c.Data? ==> Prefixed(c.bytes).Ok?)
          && EncodeUdt(o, members, t, i).value
             == (if c.Data? then Prefixed(c.bytes).value else NULL_LENGTH) + rest.value)
  {
    hide Encode, Low, Member;
  }

  lemma {:induction false} NoFields(o: Options, members: seq<(string, Value)>, t: CqlType, i: nat)
    requires t.Udt? && i >= |t.fields|
    ensures EncodeUdt(o, members, t, i) == Ok([]) && Laid(FourBytes, []) == []
  {
  }

  // ---------------------------------------------------------------- leaves

  /** The bytes of every well-typed leaf, read as the protocol reads them. */
  ghost predicate LeafBytes(v: Value, t: CqlType, b: seq<byte>) {
    match t
    case Text => v == TextValue(b)
    case Blob => v == Buffer(b)
    case Boolean => (b == [0] || b == [1]) && v == Truth(b == [1])
    case TinyInt => |b| == 1 && v == Number(Signed(b))
    case SmallInt => |b| == 2 && v == Number(Signed(b))
    case Int => |b| == 4 && v == Number(Signed(b))
    case BigInt => |b| == 8 && v == Long(Signed(b))
    case Counter => |b| == 8 && v == Long(Signed(b))
    case Timestamp => |b| == 8 && v == Long(Signed(b))
    case VarInt => v.BigInteger? && IsVarint(b, v.n)
    case Decimal => |b| > 4 && v.BigDecimal? && Signed(b[..4]) == v.scale && IsVarint(b[4..], v.n)
    case Inet => v == InetAddress(b)
    case Duration => v.DurationValue? && D.Valid(v.d) && b == ThreeVInts(v.d)
    case Opaque(k) => v == OpaqueValue(k, b) && |b| == (if k == Uuid || k == TimeUuid then 16
                                                        else if k == Float || k == Date then 4 else 8)
    case _ => false
  }

  /** Months, days and nanoseconds; 0, -1, 1, -2, 2, ... are numbered from 0 on. */
  ghost function ThreeVInts(d: D.Duration): seq<byte>
    requires D.Valid(d)
  {
    V.Encode(Alternating(d.months)) + V.Encode(Alternating(d.days)) + V.Encode(Alternating(d.nanoseconds))
  }

  ghost function Alternating(n: int): nat {
    if n >= 0 then n + n else -n - n - 1
  }

  /** Every well-typed leaf has exactly these bytes. */
  lemma {:induction false} LeafWire(o: Options, v: Value, t: CqlType, b: seq<byte>)
    requires WellTyped(v, t) && !(t.List? || t.Set? || t.Map? || t.Tuple? || t.Udt? || t.Vector?)
    ensures LeafBytes(v, t, b) <==> Encode(o, v, t) == Ok(Data(b))
  {
    hide LeafBytes, Encode, WellTyped;
    var bytes := LeafEncodes(o, v, t);
    if LeafBytes(v, t, b) {
      LeafUnique(v, t, b, bytes);
    }
  }

  lemma {:induction false} LeafEncodes(o: Options, v: Value, t: CqlType) returns (b: seq<byte>)
    requires WellTyped(v, t) && !(t.List? || t.Set? || t.Map? || t.Tuple? || t.Udt? || t.Vector?)
    ensures Encode(o, v, t) == Ok(Data(b)) && LeafBytes(v, t, b)
  {
    hide Encode, LeafBytes, WellTyped;
    if t.TinyInt? || t.SmallInt? || t.Int? {
      b := NumberEncodes(o, v, t);
    } else if t.BigInt? || t.Counter? || t.Timestamp? {
      b := LongEncodes(o, v, t);
    } else {
      b := OtherEncodes(o, v, t);
    }
  }

  lemma {:induction false} NumberEncodes(o: Options, v: Value, t: CqlType) returns (b: seq<byte>)
    requires WellTyped(v, t) && (t.TinyInt? || t.SmallInt? || t.Int?)
    ensures Encode(o, v, t) == Ok(Data(b)) && LeafBytes(v, t, b)
  {
    hide Low, Signed, Fits;
    b := Low(v.n, IntWidth(t));
    SignedLowFits(v.n, IntWidth(t));
  }

  lemma {:induction false} LongEncodes(o: Options, v: Value, t: CqlType) returns (b: seq<byte>)
    requires WellTyped(v, t) && (t.BigInt? || t.Counter? || t.Timestamp?)
    ensures Encode(o, v, t) == Ok(Data(b)) && LeafBytes(v, t, b)
  {
    hide Low, Signed, Fits;
    b := Low(v.n, 8);
    SignedLowFits(v.n, 8);
  }

  lemma {:induction false} OtherEncodes(o: Options, v: Value, t: CqlType) returns (b: seq<byte>)
    requires WellTyped(v, t)
    requires t.Text? || t.Blob? || t.Boolean? || t.VarInt? || t.Decimal? || t.Inet? || t.Duration? || t.Opaque?
    ensures Encode(o, v, t) == Ok(Data(b)) && LeafBytes(v, t, b)
  {
    hide Low, Signed, VarintBytes, Fits, D.Binary, ThreeVInts;
    b := Encode(o, v, t).value.bytes;
    if t.Decimal? {
      DecimalEncodes(v.scale, v.n, b);
    } else if t.Duration? {
      BinaryIsThreeVInts(v.d);
    }
  }

  lemma {:induction false} DecimalEncodes(scale: int, n: int, b: seq<byte>)
    requires Fits(scale, 4) && b == Low(scale, 4) + VarintBytes(n)
    ensures |b| > 4 && Signed(b[..4]) == scale && IsVarint(b[4..], n)
  {
    hide Low, Signed, VarintBytes, Fits;
    SignedLowFits(scale, 4);
    assert b[..4] == Low(scale, 4) && b[4..] == VarintBytes(n);
  }

  lemma BinaryIsThreeVInts(d: D.Duration)
    requires D.Valid(d)
    ensures D.Binary(d) == ThreeVInts(d)
  {
    hide V.Encode, ZigZag;
    ZigZagAlternates(d.months);
    ZigZagAlternates(d.days);
    ZigZagAlternates(d.nanoseconds);
  }

  lemma ZigZagAlternates(n: int)
    requires IsInt64(n)
    ensures ZigZag(n) == Alternating(n)
  {
  }

  lemma {:induction false} LeafUnique(v: Value, t: CqlType, b: seq<byte>, c: seq<byte>)
    requires WellTyped(v, t) && LeafBytes(v, t, b) && LeafBytes(v, t, c)
    ensures b == c
  {
    hide Signed, Fits, Minimal, ThreeVInts;
    if v.Number? || v.Long? {
      SignedInjective(b, c);
    } else if t.VarInt? {
      MinimalIsUnique(b, c);
    } else if t.Decimal? {
      SignedInjective(b[..4], c[..4]);
      MinimalIsUnique(b[4..], c[4..]);
      assert b == b[..4] + b[4..] && c == c[..4] + c[4..];
    }
  }

  // ---------------------------------------------------------------- missing values

  /** What becomes of unset, undefined and null, for every type: unset needs protocol version 4,
      undefined counts as unset only from version 4 on and when the option says so, else as null. */
  lemma {:induction false} MissingWire(o: Options, t: CqlType)
    ensures o.version >= 4 ==> Encode(o, Unset, t) == Ok(UnsetCell)
    ensures o.version < 4 ==> Encode(o, Unset, t) == Err
    ensures Encode(o, Null, t) == Ok(NullCell)
    ensures o.version >= 4 && o.undefinedAsUnset ==> Encode(o, Undefined, t) == Ok(UnsetCell)
    ensures o.version < 4 || !o.undefinedAsUnset ==> Encode(o, Undefined, t) == Ok(NullCell)
  {
  }

  /** The converse: nothing but these values and the empty list or set encodes to null or unset. */
  lemma {:induction false} OnlyMissing(o: Options, v: Value, t: CqlType)
    ensures Encode(o, v, t) == Ok(UnsetCell) <==>
      o.version >= 4 && (v == Unset || (v == Undefined && o.undefinedAsUnset))
    ensures Encode(o, v, t) == Ok(NullCell) <==>
      || v == Null || (v == Undefined && (o.version < 4 || !o.undefinedAsUnset))
      || (v == Items([]) && (t.List? || t.Set?))
  {
    if v.Null? || v.Undefined? || v.Unset? {
      MissingWire(o, t);
      hide Encode;
    } else if t.List? || t.Set? {
      EmptyListOnly(o, v, t);
      hide Encode;
    } else {
      NeverMissing(o, v, t);
      hide Encode;
    }
  }

  lemma {:induction false} EmptyListOnly(o: Options, v: Value, t: CqlType)
    requires !(v.Null? || v.Undefined? || v.Unset?) && (t.List? || t.Set?)
    ensures Encode(o, v, t) != Ok(UnsetCell) && (Encode(o, v, t) == Ok(NullCell) <==> v == Items([]))
  {
    hide EncodeItems, LengthBytes;
  }

  lemma {:induction false} NeverMissing(o: Options, v: Value, t: CqlType)
    requires !(v.Null? || v.Undefined? || v.Unset?) && !(t.List? || t.Set?)
    ensures Encode(o, v, t).Ok? ==> Encode(o, v, t).value.Data?
  {
    hide EncodeEntries, EncodeTuple, EncodeUdt, EncodeVector, LengthBytes, VarintBytes, Low, D.Binary, Fits;
  }

  // ---------------------------------------------------------------- what is read

  /** An empty cell is null for every type but text, blob and vector. */
  lemma {:induction false} EmptyCell(o: Options, t: CqlType)
    ensures t == Text ==> Decode(o, [], t) == Ok(TextValue([]))
    ensures t == Blob ==> Decode(o, [], t) == Ok(Buffer([]))
    ensures t != Text && t != Blob && !t.Vector? ==> Decode(o, [], t) == Ok(Null)
  {
    hide DecodeVector;
  }

  /** Numbers are read from the first bytes of their cell, and any first byte but zero is true. */
  lemma {:induction false} NumberRead(o: Options, b: seq<byte>, t: CqlType)
    requires b != []
    ensures t == Boolean ==> Decode(o, b, t) == Ok(Truth(b[0] > 0))
    ensures t == TinyInt || t == SmallInt || t == Int ==>
      var n := if t == TinyInt then 1 else if t == SmallInt then 2 else 4;
      Decode(o, b, t) == if |b| < n then Err else Ok(Number(Signed(b[..n])))
    ensures t == BigInt || t == Counter || t == Timestamp ==>
      Decode(o, b, t) == if |b| < 8 then Err else Ok(Long(Signed(b[..8])))
  {
    hide Signed, DecodeList, DecodeEntries, DecodeTuple, DecodeUdt, DecodeVector, D.FromBinary, ReadLength;
    hide DecodeOpaque;
  }

  /** Only a Uuid, a TimeUuid or an address insists on the length of its cell. */
  lemma {:induction false} OpaqueRead(o: Options, b: seq<byte>, t: CqlType)
    requires b != []
    ensures t == Opaque(Uuid) || t == Opaque(TimeUuid) ==>
      Decode(o, b, t) == if |b| != 16 then Err else Ok(OpaqueValue(t.kind, b))
    ensures t == Opaque(Float) || t == Opaque(Date) ==>
      Decode(o, b, t) == if |b| < 4 then Err else Ok(OpaqueValue(t.kind, b[..4]))
    ensures t == Opaque(Double) || t == Opaque(Time) ==>
      Decode(o, b, t) == if |b| < 8 then Err else Ok(OpaqueValue(t.kind, b[..8]))
    ensures t == Inet ==> Decode(o, b, t) == if |b| == 4 || |b| == 16 then Ok(InetAddress(b)) else Err
  {
    hide Signed, DecodeList, DecodeEntries, DecodeTuple, DecodeUdt, DecodeVector, D.FromBinary, ReadLength;
    hide DecodeNumber, DecodeLong;
    assert |b| == 16 ==> b[..16] == b;
  }

  /** A vector of fixed-size elements is read from exactly as many bytes as they take: nothing may be
      missing and nothing may follow. */
  lemma {:induction false} VectorBytesExact(o: Options, b: seq<byte>, t: CqlType)
    requires t.Vector? && FixedType(t.elem) && Decode(o, b, t).Ok?
    ensures |b| == SizeIfFixed(t.elem) * t.dimension && t.dimension > 0
    ensures Decode(o, b, t).value.VectorValue? && |Decode(o, b, t).value.items| == t.dimension
  {
    hide DecodeVector, SizeIfFixed, FixedType;
    FixedExactly(t.elem);
    FixedElements(o, b, t, 0, t.dimension);
  }

  lemma {:induction false} FixedElements(o: Options, b: seq<byte>, t: CqlType, offset: int, n: nat)
    requires t.Vector? && SizeIfFixed(t.elem) != -1 && DecodeVector(o, b, t, offset, n).Ok?
    ensures offset + SizeIfFixed(t.elem) * n == |b| && |DecodeVector(o, b, t, offset, n).value| == n
    decreases n
  {
    hide Decode, Slice, SizeIfFixed, Unpacked;
    var size := SizeIfFixed(t.elem);
    if n > 0 {
      FixedElements(o, b, t, offset + size, n - 1);
      assert size * n == size + size * (n - 1);
    }
  }
}
