/** The frame reader (lib/reader.js) and the decoding of a page of rows (`decodeRows` of lib/encoder.js):
    length-prefixed cells, section 4.2.5.2 of the CQL binary protocol v4. */
module Rows {
  import opened Bytes
  import opened CqlTypes
  import opened Codec
  import opened CodecRoundTrip
  import opened CodecMethods
  import opened CodecSize

  // ---------------------------------------------------------------- reading cells

  /** `readBytes` at an offset: the cell, nothing for a negative length, and the offset after it. */
  function CellAt(buf: seq<byte>, offset: nat): Result<(Option<seq<byte>>, nat)> {
    var length :- ReadInt(buf, offset);
    if length < 0 then Ok((None, offset + 4))
    else if offset + 4 + length > |buf| then Err
    else Ok((Some(buf[offset + 4..offset + 4 + length]), offset + 4 + length))
  }

  /** The reader, whose offset every read advances. */
  class FrameReader {
    var offset: nat
    const buf: seq<byte>

    constructor (body: seq<byte>)
      ensures offset == 0 && buf == body
    {
      offset := 0;
      buf := body;
    }

    /** `checkOffset` then `readInt32BE`. */
    method ReadLengthField() returns (r: Result<int>)
      modifies this
      ensures r == ReadInt(buf, old(offset))
      ensures offset == if r.Ok? then old(offset) + 4 else old(offset)
    {
      if offset + 4 > |buf| {
        return Err;
      }
      r := Ok(Signed(buf[offset..offset + 4]));
      offset := offset + 4;
    }

    /** `read`: the rest of the buffer when the length reaches or passes its end. */
    method Read(length: nat) returns (bytes: seq<byte>)
      requires offset <= |buf|
      modifies this
      ensures offset == (if old(offset) + length < |buf| then old(offset) + length else |buf|)
      ensures bytes == buf[old(offset)..offset]
    {
      var end := |buf|;
      if offset + length < |buf| {
        end := offset + length;
      }
      bytes := Slice(buf, offset, end);
      offset := end;
    }

    method ReadBytes() returns (r: Result<Option<seq<byte>>>)
      modifies this
      ensures r.Ok? <==> CellAt(buf, old(offset)).Ok?
      ensures r.Ok? ==> (r.value, offset) == CellAt(buf, old(offset)).value
    {
      hide ReadInt;
      var length := ReadLengthField();
      if length.Err? {
        return Err;
      }
      if length.value < 0 {
        return Ok(None);
      }
      if offset + length.value > |buf| {
        return Err;
      }
      var bytes := Read(length.value);
      r := Ok(Some(bytes));
    }
  }

  // ---------------------------------------------------------------- decoding rows

  function DecodeCell(o: Options, cell: Option<seq<byte>>, t: CqlType): Result<Value> {
    if cell.None? then Ok(Null) else Decode(o, cell.value, t)
  }

  /** The cells of a row from column j on, and the offset after them. */
  function RowAt(o: Options, buf: seq<byte>, offset: nat, types: seq<CqlType>, j: nat): Result<(seq<Value>, nat)>
    requires j <= |types|
    decreases |types| - j
  {
    if j == |types| then Ok(([], offset))
    else
      var cell :- CellAt(buf, offset);
      var value :- DecodeCell(o, cell.0, types[j]);
      var rest :- RowAt(o, buf, cell.1, types, j + 1);
      Ok(([value] + rest.0, rest.1))
  }

  function RowsAt(o: Options, buf: seq<byte>, offset: nat, types: seq<CqlType>, n: nat): Result<(seq<seq<Value>>, nat)>
    decreases n
  {
    if n == 0 then Ok(([], offset))
    else
      var row :- RowAt(o, buf, offset, types, 0);
      var rest :- RowsAt(o, buf, row.1, types, n - 1);
      Ok(([row.0] + rest.0, rest.1))
  }

  /** `decodeRows`; a row is the sequence of its column values. */
  method DecodeRows(o: Options, data: seq<byte>, rowsNumber: nat, types: seq<CqlType>)
    returns (r: Result<seq<seq<Value>>>)
    ensures r.Ok? <==> RowsAt(o, data, 0, types, rowsNumber).Ok?
    ensures r.Ok? ==> r.value == RowsAt(o, data, 0, types, rowsNumber).value.0
  {
    hide CellAt, DecodeCell, RowAt;
    var reader := new FrameReader(data);
    var res: seq<seq<Value>> := [];
    ghost var all := RowsAt(o, data, 0, types, rowsNumber);
    assert all.Ok? ==> res + all.value.0 == all.value.0;
    for i := 0 to rowsNumber
      invariant fresh(reader) && reader.buf == data
      invariant var rest := RowsAt(o, data, reader.offset, types, rowsNumber - i);
                (all.Ok? <==> rest.Ok?) && (all.Ok? ==> all.value.0 == res + rest.value.0)
    {
      var row := DecodeRow(o, reader, types);
      if row.Err? {
        return Err;
      }
      assert forall rest: seq<seq<Value>> :: res + ([row.value] + rest) == (res + [row.value]) + rest;
      res := res + [row.value];
    }
    assert res + [] == res;
    return Ok(res);
  }

  method DecodeRow(o: Options, reader: FrameReader, types: seq<CqlType>) returns (r: Result<seq<Value>>)
    modifies reader
    ensures r.Ok? <==> RowAt(o, reader.buf, old(reader.offset), types, 0).Ok?
    ensures r.Ok? ==> (r.value, reader.offset) == RowAt(o, reader.buf, old(reader.offset), types, 0).value
  {
    hide CellAt, Decode;
    var row: seq<Value> := [];
    ghost var all := RowAt(o, reader.buf, reader.offset, types, 0);
    assert all.Ok? ==> row + all.value.0 == all.value.0;
    for j := 0 to |types|
      invariant var rest := RowAt(o, reader.buf, reader.offset, types, j);
                (all.Ok? <==> rest.Ok?) && (all.Ok? ==> all.value == (row + rest.value.0, rest.value.1))
    {
      var cell := reader.ReadBytes();
      if cell.Err? {
        return Err;
      }
      var value: Result<Value> := Ok(Null);
      if cell.value.Some? {
        value := DecodeValue(o, cell.value.value, types[j]);
      }
      if value.Err? {
        return Err;
      }
      assert forall rest: seq<Value> :: row + ([value.value] + rest) == (row + [value.value]) + rest;
      row := row + [value.value];
    }
    assert row + [] == row;
    return Ok(row);
  }

  // ---------------------------------------------------------------- a page decodes cell by cell

  /** A cell on the wire: its length and bytes, or -1. */
  function CellBytes(cell: Option<seq<byte>>): seq<byte> {
    if cell.None? then NULL_LENGTH else Low(|cell.value|, 4) + cell.value
  }

  predicate SmallCell(cell: Option<seq<byte>>) {
    cell.Some? ==> |cell.value| <= 0x7fff_ffff
  }

  function RowBytes(cells: seq<Option<seq<byte>>>): seq<byte> {
    if cells == [] then [] else CellBytes(cells[0]) + RowBytes(cells[1..])
  }

  function PageBytes(rows: seq<seq<Option<seq<byte>>>>): seq<byte> {
    if rows == [] then [] else RowBytes(rows[0]) + PageBytes(rows[1..])
  }

  /** Each cell decoded in its place. */
  predicate DecodedRow(o: Options, cells: seq<Option<seq<byte>>>, types: seq<CqlType>, row: seq<Value>) {
    |row| == |cells| == |types| && forall j :: 0 <= j < |cells| ==> DecodeCell(o, cells[j], types[j]) == Ok(row[j])
  }

  lemma {:induction false} CellIsRead(cell: Option<seq<byte>>, buf: seq<byte>, offset: nat)
    requires SmallCell(cell) && At(buf, offset, CellBytes(cell))
    ensures CellAt(buf, offset) == Ok((cell, offset + |CellBytes(cell)|))
  {
    hide ReadInt;
    if cell.None? {
      NullLengthRead(buf, offset);
    } else {
      assert Prefixed(cell.value) == Ok(CellBytes(cell));
      hide Prefixed;
      PrefixRoundTrip(cell.value, buf, offset);
    }
  }

  /** A row of cells is read back in place, ending where it ends. */
  lemma {:induction false} RowIsRead(o: Options, cells: seq<Option<seq<byte>>>, types: seq<CqlType>, row: seq<Value>,
                                     buf: seq<byte>, offset: nat, j: nat)
    requires DecodedRow(o, cells, types, row) && j <= |cells|
    requires forall i :: 0 <= i < |cells| ==> SmallCell(cells[i])
    requires At(buf, offset, RowBytes(cells[j..]))
    ensures RowAt(o, buf, offset, types, j) == Ok((row[j..], offset + |RowBytes(cells[j..])|))
    decreases |cells| - j
  {
    hide CellAt, DecodeCell, CellBytes;
    if j < |cells| {
      assert cells[j..][0] == cells[j] && cells[j..][1..] == cells[j + 1..];
      AtParts(buf, offset, CellBytes(cells[j]), RowBytes(cells[j + 1..]));
      CellIsRead(cells[j], buf, offset);
      RowIsRead(o, cells, types, row, buf, offset + |CellBytes(cells[j])|, j + 1);
      assert row[j..] == [row[j]] + row[j + 1..];
    }
  }

  /** The whole page: every row is the decoding of its cells, in order, and the page is consumed. */
  lemma {:induction false} PageIsRead(o: Options, rows: seq<seq<Option<seq<byte>>>>, types: seq<CqlType>,
                                      values: seq<seq<Value>>, buf: seq<byte>, offset: nat)
    requires |values| == |rows|
    requires forall i :: 0 <= i < |rows| ==> DecodedRow(o, rows[i], types, values[i])
    requires forall i, j :: 0 <= i < |rows| && 0 <= j < |rows[i]| ==> SmallCell(rows[i][j])
    requires At(buf, offset, PageBytes(rows))
    ensures RowsAt(o, buf, offset, types, |rows|) == Ok((values, offset + |PageBytes(rows)|))
    decreases |rows|
  {
    hide RowAt, RowBytes, DecodedRow;
    if rows != [] {
      AtParts(buf, offset, RowBytes(rows[0]), PageBytes(rows[1..]));
      assert rows[0][0..] == rows[0] && values[0][0..] == values[0];
      RowIsRead(o, rows[0], types, values[0], buf, offset, 0);
      PageIsRead(o, rows[1..], types, values[1..], buf, offset + |RowBytes(rows[0])|);
      assert values == [values[0]] + values[1..];
    }
  }

  /** A table of well-typed or null values, each below 2 GiB. */
  predicate Table(o: Options, values: seq<seq<Value>>, types: seq<CqlType>) {
    o.version >= 3 && forall i :: 0 <= i < |values| ==> TableRow(values[i], types)
  }

  predicate TableRow(row: seq<Value>, types: seq<CqlType>) {
    |row| == |types| && forall j :: 0 <= j < |row| ==>
      row[j] == Null || (WellTyped(row[j], types[j]) && WireSize(row[j], types[j]) < 0x8000_0000)
  }

  /** The cell that a value is sent as. */
  function CellOf(o: Options, v: Value, t: CqlType): Option<seq<byte>> {
    var cell := Encode(o, v, t);
    if cell.Ok? && cell.value.Data? then Some(cell.value.bytes) else None
  }

  function RowCells(o: Options, row: seq<Value>, types: seq<CqlType>): (cells: seq<Option<seq<byte>>>)
    requires |row| == |types|
    ensures |cells| == |row|
  {
    seq(|row|, j requires 0 <= j < |row| => CellOf(o, row[j], types[j]))
  }

  function TableCells(o: Options, values: seq<seq<Value>>, types: seq<CqlType>): (rows: seq<seq<Option<seq<byte>>>>)
    requires Table(o, values, types)
    ensures |rows| == |values|
  {
    seq(|values|, i requires 0 <= i < |values| => RowCells(o, values[i], types))
  }

  /** Sending a table of values and decoding the page gives the table back. */
  lemma {:induction false} TableRoundTrip(o: Options, values: seq<seq<Value>>, types: seq<CqlType>)
    requires Table(o, values, types)
    ensures var page := PageBytes(TableCells(o, values, types));
            RowsAt(o, page, 0, types, |values|) == Ok((values, |page|))
  {
    hide CellOf, Decode, DecodeCell, RowsAt, PageBytes, WireSize;
    var rows := TableCells(o, values, types);
    forall i | 0 <= i < |values|
      ensures DecodedRow(o, rows[i], types, values[i]) && forall j :: 0 <= j < |rows[i]| ==> SmallCell(rows[i][j])
    {
      RowDecodes(o, values[i], types);
    }
    var page := PageBytes(rows);
    assert page[0..0 + |page|] == page;
    PageIsRead(o, rows, types, values, page, 0);
  }

  lemma {:induction false} RowDecodes(o: Options, row: seq<Value>, types: seq<CqlType>)
    requires o.version >= 3 && TableRow(row, types)
    ensures DecodedRow(o, RowCells(o, row, types), types, row)
    ensures forall j :: 0 <= j < |row| ==> SmallCell(RowCells(o, row, types)[j])
  {
    hide CellOf, DecodeCell, WireSize, WellTyped;
    forall j | 0 <= j < |row|
      ensures DecodeCell(o, CellOf(o, row[j], types[j]), types[j]) == Ok(row[j])
      ensures SmallCell(CellOf(o, row[j], types[j]))
    {
      CellDecodes(o, row[j], types[j]);
    }
  }

  lemma {:induction false} CellDecodes(o: Options, v: Value, t: CqlType)
    requires o.version >= 3 && (v == Null || (WellTyped(v, t) && WireSize(v, t) < 0x8000_0000))
    ensures DecodeCell(o, CellOf(o, v, t), t) == Ok(v) && SmallCell(CellOf(o, v, t))
  {
    hide Encode, Decode, WireSize, WellTyped;
    if v == Null {
      NullMember(o, t);
    } else {
      CodecLaw(o, v, t);
    }
  }
}
