/** What the decoder makes of maps as a server may send them: repeated keys and null values. */
module WireReading {
  import opened Bytes
  import opened CqlTypes
  import opened Codec
  import opened CodecRoundTrip
  import opened WireFormat

  // ---------------------------------------------------------------- Map.set

  /** The value stored under a key. */
  ghost function Lookup(entries: seq<(Value, Value)>, key: Value): Option<Value> {
    if entries == [] then None
    else if entries[0].0 == key then Some(entries[0].1)
    else Lookup(entries[1..], key)
  }

  ghost function KeysOf(entries: seq<(Value, Value)>): seq<Value> {
    seq(|entries|, i requires 0 <= i < |entries| => entries[i].0)
  }

  /** Setting a key gives it the value, and no other key another one. */
  lemma {:induction false} SetEntryMeans(entries: seq<(Value, Value)>, key: Value, value: Value, other: Value)
    ensures Lookup(SetEntry(entries, key, value), other) == if other == key then Some(value) else Lookup(entries, other)
  {
    if entries != [] && entries[0].0 != key {
      SetEntryMeans(entries[1..], key, value, other);
    }
  }

  lemma {:induction false} KeysFirst(entries: seq<(Value, Value)>)
    requires entries != []
    ensures KeysOf(entries) == [entries[0].0] + KeysOf(entries[1..])
  {
  }

  /** A new key comes last, and one that is there stays in its place. */
  lemma {:induction false} SetEntryKeys(entries: seq<(Value, Value)>, key: Value, value: Value)
    ensures KeysOf(SetEntry(entries, key, value))
         == if key in KeysOf(entries) then KeysOf(entries) else KeysOf(entries) + [key]
  {
    var after := SetEntry(entries, key, value);
    KeysFirst(after);
    if entries == [] {
      assert after[1..] == [] && KeysOf(after[1..]) == [];
      hide KeysOf;
      assert KeysOf(entries) == [];
    } else {
      KeysFirst(entries);
      var first, rest := entries[0].0, KeysOf(entries[1..]);
      if first == key {
        assert after[1..] == entries[1..];
        hide KeysOf;
        assert KeysOf(entries)[0] == key;
      } else {
        SetEntryKeys(entries[1..], key, value);
        assert after[1..] == SetEntry(entries[1..], key, value);
        hide KeysOf, SetEntry;
        assert [first] + (rest + [key]) == [first] + rest + [key];
      }
    }
  }

  /** Entries set one after the other. */
  ghost function Merged(acc: seq<(Value, Value)>, entries: seq<(Value, Value)>): seq<(Value, Value)>
    decreases |entries|
  {
    if entries == [] then acc else Merged(SetEntry(acc, entries[0].0, entries[0].1), entries[1..])
  }

  /** The last entry with a key is the one that counts. */
  lemma {:induction false} LastCounts(acc: seq<(Value, Value)>, entries: seq<(Value, Value)>, key: Value, j: nat)
    requires j < |entries| && entries[j].0 == key && forall k :: j < k < |entries| ==> entries[k].0 != key
    ensures Lookup(Merged(acc, entries), key) == Some(entries[j].1)
    decreases |entries|
  {
    var next := SetEntry(acc, entries[0].0, entries[0].1);
    if j > 0 {
      LastCounts(next, entries[1..], key, j - 1);
    } else {
      SetEntryMeans(acc, key, entries[0].1, key);
      NotAmong(next, entries[1..], key);
    }
  }

  lemma {:induction false} NotAmong(acc: seq<(Value, Value)>, entries: seq<(Value, Value)>, key: Value)
    requires forall k :: 0 <= k < |entries| ==> entries[k].0 != key
    ensures Lookup(Merged(acc, entries), key) == Lookup(acc, key)
    decreases |entries|
  {
    if entries != [] {
      SetEntryMeans(acc, entries[0].0, entries[0].1, key);
      NotAmong(SetEntry(acc, entries[0].0, entries[0].1), entries[1..], key);
    }
  }

  // ---------------------------------------------------------------- maps

  /** A key cell and a value cell, which may be null, with the entry they are read as. */
  datatype Pair = Pair(key: seq<byte>, value: Cell, entry: (Value, Value))

  ghost predicate Reads(o: Options, p: Pair, t: CqlType)
    requires t.Map?
  {
    && Decode(o, p.key, t.key) == Ok(p.entry.0)
    && (if p.value.Data? then Decode(o, p.value.bytes, t.value) == Ok(p.entry.1) else p.entry.1 == Null)
  }

  ghost function CellsOf(pairs: seq<Pair>): seq<Cell> {
    if pairs == [] then [] else [Data(pairs[0].key), pairs[0].value] + CellsOf(pairs[1..])
  }

  ghost function EntriesOf(pairs: seq<Pair>): (entries: seq<(Value, Value)>)
    ensures |entries| == |pairs|
  {
    seq(|pairs|, i requires 0 <= i < |pairs| => pairs[i].entry)
  }

  /** Any map a server sends, below 2 GiB, is read as its entries in order, the last one of a key counting. */
  lemma {:induction false} MapRead(o: Options, pairs: seq<Pair>, t: CqlType)
    requires o.version >= 3 && t.Map? && forall i :: 0 <= i < |pairs| ==> Reads(o, pairs[i], t)
    requires |Laid(FourBytes, CellsOf(pairs))| + 4 < 0x8000_0000 && |pairs| < 0x8000_0000
    ensures Decode(o, Low(|pairs|, 4) + Laid(FourBytes, CellsOf(pairs)), t) == Ok(Entries(Merged([], EntriesOf(pairs))))
  {
    hide Decode, Reads, Laid, CellsOf, Merged, DecodeEntries, LengthBytes, ReadLength, Low;
    var body := Laid(FourBytes, CellsOf(pairs));
    var b := Low(|pairs|, 4) + body;
    CountBytes(o, |pairs|);
    assert b[0..4] == Low(|pairs|, 4) && b[4..4 + |body|] == body;
    LengthRoundTrip(o, |pairs|, b, 0);
    PairsRead(o, pairs, t, b, 4, []);
    MapDecodes(o, b, t, |pairs|);
  }

  lemma {:induction false} CountBytes(o: Options, n: nat)
    requires o.version >= 3 && n < 0x8000_0000
    ensures LengthBytes(o, n) == Ok(Low(n, 4)) && LengthSize(o) == 4
  {
    hide Low;
  }

  lemma {:induction false} PairsRead(o: Options, pairs: seq<Pair>, t: CqlType, b: seq<byte>, offset: nat,
                                     acc: seq<(Value, Value)>)
    requires o.version >= 3 && t.Map? && forall i :: 0 <= i < |pairs| ==> Reads(o, pairs[i], t)
    requires |b| < 0x8000_0000 && At(b, offset, Laid(FourBytes, CellsOf(pairs)))
    ensures DecodeEntries(o, b, t, offset, |pairs|, acc) == Ok(Merged(acc, EntriesOf(pairs)))
    decreases |pairs|
  {
    hide Decode, Laid, DecodeEntries, SetEntry, Slice, ReadLength;
    if pairs == [] {
      NoEntries(o, b, t, offset, acc);
    } else {
      var p, rest := pairs[0], pairs[1..];
      var next := SetEntry(acc, p.entry.0, p.entry.1);
      PairLaid(p, CellsOf(rest));
      var size := |PairBytes(p)|;
      AtParts(b, offset, PairBytes(p), Laid(FourBytes, CellsOf(rest)));
      OnePairRead(o, p, t, b, offset, |pairs|, acc);
      PairsRead(o, rest, t, b, offset + size, next);
      var entries := EntriesOf(pairs);
      assert entries[0] == p.entry && entries[1..] == EntriesOf(rest);
    }
  }

  lemma {:induction false} NoEntries(o: Options, b: seq<byte>, t: CqlType, offset: nat, acc: seq<(Value, Value)>)
    requires t.Map?
    ensures DecodeEntries(o, b, t, offset, 0, acc) == Ok(acc)
  {
  }

  ghost function PairBytes(p: Pair): seq<byte> {
    (Low(|p.key|, 4) + p.key) + if p.value.Data? then Low(|p.value.bytes|, 4) + p.value.bytes else NULL_LENGTH
  }

  lemma {:induction false} PairLaid(p: Pair, rest: seq<Cell>)
    ensures Laid(FourBytes, [Data(p.key), p.value] + rest) == PairBytes(p) + Laid(FourBytes, rest)
  {
    hide Low;
    var cells := [Data(p.key), p.value] + rest;
    assert cells[1..] == [p.value] + rest && cells[1..][1..] == rest;
  }

  lemma {:induction false} LengthAt(o: Options, n: nat, b: seq<byte>, offset: nat)
    requires o.version >= 3 && |b| < 0x8000_0000 && n <= |b| && At(b, offset, Low(n, 4))
    ensures ReadLength(o, b, offset) == Ok(n)
  {
    hide ReadLength, Low, LengthBytes;
    CountBytes(o, n);
    LengthRoundTrip(o, n, b, offset);
  }

  lemma {:induction false} OnePairRead(o: Options, p: Pair, t: CqlType, b: seq<byte>, offset: nat, n: nat,
                                       acc: seq<(Value, Value)>)
    requires o.version >= 3 && t.Map? && Reads(o, p, t) && n > 0
    requires |b| < 0x8000_0000 && At(b, offset, PairBytes(p))
    ensures DecodeEntries(o, b, t, offset, n, acc)
         == DecodeEntries(o, b, t, offset + |PairBytes(p)|, n - 1, SetEntry(acc, p.entry.0, p.entry.1))
  {
    hide Decode, SetEntry, DecodeEntries, Slice, ReadLength, Low;
    var k := |p.key|;
    var second := if p.value.Data? then Low(|p.value.bytes|, 4) + p.value.bytes else NULL_LENGTH;
    AtParts(b, offset, Low(k, 4) + p.key, second);
    AtParts(b, offset, Low(k, 4), p.key);
    LengthAt(o, k, b, offset);
    SliceAt(b, offset + 4, p.key);
    if p.value.Data? {
      var w := |p.value.bytes|;
      AtParts(b, offset + 4 + k, Low(w, 4), p.value.bytes);
      LengthAt(o, w, b, offset + 4 + k);
      SliceAt(b, offset + 8 + k, p.value.bytes);
      DecodeEntriesOnce(o, b, t, offset, n, acc, k, w, p.entry.0, p.entry.1);
    } else {
      NullLengthRead(b, offset + 4 + k);
      NullEntry(o, b, t, offset, n, acc, k, p.entry.0);
    }
  }

  lemma {:induction false} NullEntry(o: Options, b: seq<byte>, t: CqlType, offset: nat, n: nat,
                                     acc: seq<(Value, Value)>, k: nat, key: Value)
    requires o.version >= 3 && t.Map? && n > 0
    requires ReadLength(o, b, offset) == Ok(k) && ReadInt(b, offset + 4 + k) == Ok(-1)
    requires Decode(o, Slice(b, offset + 4, offset + 4 + k), t.key) == Ok(key)
    ensures DecodeEntries(o, b, t, offset, n, acc)
         == DecodeEntries(o, b, t, offset + 8 + k, n - 1, SetEntry(acc, key, Null))
  {
    hide Decode, Slice, SetEntry, Signed;
  }
}
