/** The vint writers and readers of lib/utils.js as the source runs them. */
module VIntCoding {
  import opened Bytes
  import opened Bits
  import opened Varint
  import opened Words
  import opened VInt

  // ---------------------------------------------------------------- leading zeros

  /** The shift cascade that counts the leading zeros of a 32-bit number. */
  method LeadingZeros32(i: nat) returns (n: int)
    requires i < BASE
    ensures n == 32 - BitLength(i)
  {
    if i == 0 {
      return 32;
    }
    SixtyFour();
    BitLengthAtMost(i, 32);
    var x := i;
    n := 1;
    x, n := ShiftIfBelow(i, x, n, 16);
    x, n := ShiftIfBelow(i, x, n, 8);
    x, n := ShiftIfBelow(i, x, n, 4);
    x, n := ShiftIfBelow(i, x, n, 2);
    BitLengthAtMost(x, 31);
    ThirtyOne();
    n := n - x / 0x8000_0000;
  }

  lemma ThirtyOne()
    ensures Pow2(31) == 0x8000_0000
  {
    SixtyFour();
    assert Pow2(32) == 2 * Pow2(31);
  }

  /** `if (x >>> (32 - k) === 0) { n += k; x <<= k; }` */
  method ShiftIfBelow(ghost i: nat, x: nat, n: int, k: nat) returns (y: nat, m: int)
    requires 0 < i && 0 < x < BASE && k in {16, 8, 4, 2}
    requires BitLength(x) == BitLength(i) + n - 1 && 32 - 2 * k < BitLength(x) <= 32
    ensures 0 < y < BASE
    ensures BitLength(y) == BitLength(i) + m - 1 && 32 - k < BitLength(y) <= 32
  {
    SixtyFour();
    BitLengthAtMost(x, 32 - k);
    Quarter(k);
    if x < Pow2(32 - k) {
      BitLengthShift(x, k);
      BitLengthAtMost(x * Pow2(k), 32);
      y, m := x * Pow2(k), n + k;
    } else {
      y, m := x, n;
    }
  }

  lemma Quarter(k: nat)
    requires k in {16, 8, 4, 2}
    ensures forall x: nat :: x < Pow2(32 - k) <==> x * Pow2(k) < BASE
  {
    SixtyFour();
    EightBits(16);
    assert Pow2(24) == 0x100_0000;
    assert Pow2(26) == 4 * Pow2(24) && Pow2(28) == 4 * Pow2(26) && Pow2(30) == 4 * Pow2(28);
  }

  /** `numberOfLeadingZeros` of a 64-bit number. */
  method LeadingZeros64(value: nat) returns (n: int)
    requires value < TWO_64
    ensures n == 64 - BitLength(value)
  {
    if value == 0 {
      return 64;
    }
    var x := value / BASE;
    if x == 0 {
      n := LeadingZeros32(value % BASE);
      n := n + 32;
    } else {
      n := LeadingZeros32(x);
      HighWord(value);
    }
  }

  lemma {:induction false} HighWord(value: nat)
    requires value >= BASE
    ensures BitLength(value) == 32 + BitLength(value / BASE)
  {
    var x := value / BASE;
    var k := BitLength(x);
    assert k > 0;
    hide Pow2, BitLength;
    BitLengthAtMost(x, k);
    BitLengthAtMost(x, k - 1);
    Scale32(k);
    Scale32(k - 1);
    BitLengthIs(value, k + 32);
  }

  lemma {:induction false} Scale32(k: nat)
    ensures Pow2(k + 32) == Pow2(k) * BASE
  {
    EightBits(k);
    EightBits(k + 8);
    EightBits(k + 16);
    EightBits(k + 24);
  }

  method ComputeSize(value: nat) returns (size: nat)
    requires value < TWO_64
    ensures size == Size(value)
  {
    SizeRange(value);
    OddKeepsLength(value);
    var n := LeadingZeros64(value + (if value % 2 == 0 then 1 else 0));
    size := (639 - n * 9) / 64;
  }

  /** `value | 1` has the length of the value, or one bit for zero. */
  lemma OddKeepsLength(value: nat)
    ensures value % 2 == 0 ==> BitLength(value + 1) == BitLength(if value == 0 then 1 else value)
    ensures value < TWO_64 && value % 2 == 0 ==> value + 1 < TWO_64
  {
    if value % 2 == 0 {
      assert (value + 1) / 2 == value / 2;
    }
  }

  // ---------------------------------------------------------------- writing

  /** `writeUnsignedVInt`: writes the encoding at the front of a reusable buffer and leaves the
      stale bytes after it alone. */
  method WriteUnsigned(value: nat, buffer: array<byte>) returns (size: nat)
    requires value < TWO_64 && buffer.Length >= 9
    modifies buffer
    ensures size == Size(value) && buffer[..size] == Encode(value)
    ensures forall k :: size <= k < buffer.Length ==> buffer[k] == old(buffer[k])
  {
    size := ComputeSize(value);
    EncodingParts(value);
    hide Size, Low, Shift, Or, OrByte;
    if size == 1 {
      WholeValue(value);
      buffer[0] := value;
      OneByte(value);
      assert buffer[..1] == [value];
    } else {
      WriteBytes(value, size, buffer);
      ghost var low := buffer[..size];
      buffer[0] := OrByte(buffer[0], Mask(size - 1));
      assert buffer[..size] == [OrByte(low[0], Mask(size - 1))] + low[1..];
    }
  }

  lemma WholeValue(value: nat)
    requires value < TWO_64 && Size(value) == 1
    ensures value < 128 && Low(value, 1) == [value]
  {
    EncodingParts(value);
    assert Low(value, 0) == [];
  }

  /** The loop of `encodeVInt`. */
  method WriteBytes(value: nat, size: nat, buffer: array<byte>)
    requires 1 <= size <= buffer.Length
    modifies buffer
    ensures buffer[..size] == Low(value, size)
    ensures forall k :: size <= k < buffer.Length ==> buffer[k] == old(buffer[k])
  {
    var v := value;
    var i := size;
    StartShift(value);
    hide Low, Shift;
    while i > 0
      invariant 0 <= i <= size
      invariant v == Shift(value, size - i) && buffer[i..size] == Low(value, size - i)
      invariant forall k :: size <= k < buffer.Length ==> buffer[k] == old(buffer[k])
    {
      i := i - 1;
      LowHead(value, size - i - 1);
      ShiftOnce(value, size - i - 1);
      ghost var tail := buffer[i + 1..size];
      buffer[i] := v % 256;
      assert buffer[i + 1..size] == tail;
      assert buffer[i..size] == [buffer[i]] + tail;
      v := v / 256;
    }
    assert buffer[..size] == buffer[0..size];
  }

  // ---------------------------------------------------------------- reading

  /** `readUnsignedVInt`: the offset moves past the number. */
  method ReadUnsigned(input: seq<byte>, offset: nat) returns (r: Result<(nat, nat)>)
    ensures r == DecodeAt(input, offset)
  {
    if offset >= |input| {
      return Err;
    }
    var first := input[offset];
    if first < 128 {
      return Ok((first, offset + 1));
    }
    var zeros := LeadingZeros32(255 - first);
    var size := zeros - 24;
    assert size == Extra(first);
    var result: nat := FirstBits(first, size);
    var head := FirstBits(first, size);
    hide Unsigned;
    SingleByte(head);
    assert input[offset + 1..offset + 1] == [];
    assert [head] + [] == [head];
    for ii := 0 to size
      invariant offset + 1 + ii <= |input|
      invariant result == Unsigned([head] + input[offset + 1..offset + 1 + ii])
    {
      if offset + 1 + ii >= |input| {
        return Err;
      }
      var b := input[offset + 1 + ii];
      UnsignedAppend([head] + input[offset + 1..offset + 1 + ii], b);
      assert [head] + input[offset + 1..offset + 2 + ii] == ([head] + input[offset + 1..offset + 1 + ii]) + [b];
      result := result * 256 + b;
    }
    return Ok((result, offset + 1 + size));
  }

  lemma SingleByte(b: byte)
    ensures Unsigned([b]) == b
  {
    UnsignedAppend([], b);
  }

  // ---------------------------------------------------------------- signed numbers

  predicate IsInt64(n: int) {
    -TWO_63 <= n < TWO_63
  }

  /** `asUintN(64, (n << 1) ^ (n >> 63))`; xor with -1 complements. */
  function ZigZag(n: int): (z: nat)
    ensures z < TWO_64
  {
    (if n >= 0 then 2 * n else -(2 * n) - 1) % TWO_64
  }

  /** `asIntN(64, (z >> 1) ^ -(z & 1))`. */
  function UnZigZag(z: nat): int {
    var n := if z % 2 == 0 then z / 2 else -(z / 2) - 1;
    (n + TWO_63) % TWO_64 - TWO_63
  }

  lemma ZigZagInverse(n: int)
    ensures UnZigZag(ZigZag(n)) == n <==> IsInt64(n)
  {
  }

  method WriteVInt(value: int, buffer: array<byte>) returns (size: nat)
    requires buffer.Length >= 9
    modifies buffer
    ensures size == Size(ZigZag(value)) && buffer[..size] == Encode(ZigZag(value))
    ensures forall k :: size <= k < buffer.Length ==> buffer[k] == old(buffer[k])
  {
    hide ZigZag;
    size := WriteUnsigned(ZigZag(value), buffer);
  }

  function ReadVIntAt(input: seq<byte>, offset: nat): Result<(int, nat)> {
    var r :- DecodeAt(input, offset);
    Ok((UnZigZag(r.0), r.1))
  }

  method ReadVInt(input: seq<byte>, offset: nat) returns (r: Result<(int, nat)>)
    ensures r == ReadVIntAt(input, offset)
  {
    var u := ReadUnsigned(input, offset);
    r := if u.Err? then Err else Ok((UnZigZag(u.value.0), u.value.1));
  }

  /** Every int64 is read back from its 1 to 9 bytes, wherever they stand. */
  lemma {:induction false} VIntRoundTrip(n: int, before: seq<byte>, after: seq<byte>)
    requires IsInt64(n)
    ensures ReadVIntAt(before + Encode(ZigZag(n)) + after, |before|) == Ok((n, |before| + Size(ZigZag(n))))
  {
    hide DecodeAt, Encode;
    DecodeUndoesEncode(ZigZag(n), before, after);
    ZigZagInverse(n);
  }

  // ---------------------------------------------------------------- vector element lengths

  /** `uvintPack` of a length: the low bytes come from the 32-bit value that `>>=` shifts, and the
      first byte is `Math.abs(v | mask)` of what is left of it. */
  function Packed(val: nat): (s: seq<byte>)
    requires val < 0x20_0000_0000_0000
  {
    if val < 128 then [val]
    else
      SizeOfSafe(val);
      var e := Size(val) - 1;
      [PackedFirst(Shift(ToInt32(val), e), e)] + Low(ToInt32(val), e)
  }

  function PackedFirst(v: int, e: nat): byte
    requires e <= 8
  {
    if v < 0 then 1 else OrByte(v % 256, Mask(e))
  }

  lemma SizeOfSafe(val: nat)
    requires val < 0x20_0000_0000_0000
    ensures val < TWO_64 && Size(val) <= 8
    ensures val >= 128 ==> Size(val) >= 2
    ensures val < 0x8000_0000 ==> Size(val) <= 5
  {
    SixtyFour();
    ThirtyOne();
    EightBits(32);
    EightBits(40);
    EightBits(48);
    assert val > 0 ==> BitLength(val) <= 56 by { BitLengthAtMost(val, 56); }
    BitLengthAtMost(val, 7);
    assert Pow2(8) == 2 * Pow2(7);
    BitLengthAtMost(val, 31);
  }

  /** `uvintPack`. */
  method UvintPack(val: nat) returns (bytes: seq<byte>)
    requires val < 0x20_0000_0000_0000
    ensures bytes == Packed(val)
  {
    if val < 128 {
      return [val];
    }
    SizeOfSafe(val);
    SizeRange(val);
    StartShift(ToInt32(val));
    LowByte(val);
    hide Shift, Low, ToInt32, Size;
    var rv: seq<byte> := [];
    var v: int := val;
    var numExtra := 0;
    var numBits := BitLength(val);
    var reserved := 1;
    SizeByBits(val);
    while numBits > 8 - reserved
      invariant numExtra <= 8 && reserved == (if numExtra + 1 < 8 then numExtra + 1 else 8)
      invariant numBits == BitLength(val) - 8 * numExtra
      invariant numExtra <= Size(val) - 1 && (numBits > 8 - reserved <==> numExtra < Size(val) - 1)
      invariant v == if numExtra == 0 then val else Shift(ToInt32(val), numExtra)
      invariant rv == Low(ToInt32(val), numExtra)
      decreases 8 - numExtra
    {
      LowHead(ToInt32(val), numExtra);
      ShiftOnce(ToInt32(val), numExtra);
      ShiftIsSmall(val, numExtra);
      rv := [v % 256] + rv;
      v := ToInt32(v) / 256;
      numExtra := numExtra + 1;
      numBits := numBits - 8;
      reserved := if numExtra + 1 < 8 then numExtra + 1 else 8;
    }
    var first := PackedFirst(v, numExtra);
    bytes := [first] + rv;
  }

  lemma SizeByBits(val: nat)
    requires 128 <= val < 0x20_0000_0000_0000
    ensures Size(val) <= 8
    ensures forall e: nat :: e <= 7 ==> (BitLength(val) - 8 * e > 7 - e <==> e < Size(val) - 1)
  {
    SizeOfSafe(val);
    SizeRange(val);
  }

  lemma LowByte(val: nat)
    ensures ToInt32(val) % 256 == val % 256
  {
  }

  /** What `>>=` shifts is a 32-bit number from its second turn on. */
  lemma {:induction false} ShiftIsSmall(val: nat, n: nat)
    ensures ToInt32(Shift(ToInt32(val), n)) == Shift(ToInt32(val), n)
  {
    ShiftInt32(ToInt32(val), n);
  }

  lemma {:induction false} ShiftInt32(v: int, n: nat)
    requires -0x8000_0000 <= v < 0x8000_0000
    ensures -0x8000_0000 <= Shift(v, n) < 0x8000_0000
    decreases n
  {
    if n > 0 {
      ShiftInt32(v / 256, n - 1);
    }
  }

  /** The packer writes what the unsigned vint writer does exactly for lengths below 2^31. */
  lemma {:induction false} PackedIsEncoding(val: nat)
    requires val < 0x20_0000_0000_0000
    ensures val < TWO_64 && (Packed(val) == Encode(val) <==> val < 0x8000_0000)
  {
    if val < 128 {
      SmallIsOneByte(val);
    } else if val < 0x8000_0000 {
      EncodingParts(val);
      SizeOfSafe(val);
      assert ToInt32(val) == val;
      hide Size, Low, Shift, OrByte, ToInt32, Room;
    } else {
      PackingLargeLengths(val);
    }
  }

  /** The first length that the two writers differ on. */
  lemma {:induction false} PackingFailsAtTwo31()
    ensures Packed(0x8000_0000) != Encode(0x8000_0000)
  {
    hide Packed, Encode;
    PackedIsEncoding(0x8000_0000);
  }

  lemma SmallIsOneByte(val: nat)
    requires val < 128
    ensures Encode(val) == [val]
  {
    SizeOne(val);
    WholeValue(val);
    hide Size, OrByte, Low, Mask;
    OneByte(val);
  }

  lemma SizeOne(val: nat)
    requires val < 128
    ensures Size(val) == 1
  {
    SixtyFour();
    assert Pow2(8) == 2 * Pow2(7);
    BitLengthAtMost(if val == 0 then 1 else val, 7);
  }

  /** From 2^31 on, either the sign leaks into the first byte, which becomes 1, or bits above the
      32nd are lost. */
  lemma {:induction false} PackingLargeLengths(val: nat)
    requires 0x8000_0000 <= val < 0x20_0000_0000_0000
    ensures val < TWO_64 && Packed(val) != Encode(val)
  {
    SizeOfSafe(val);
    AtLeastFive(val);
    EncodingParts(val);
    var w, e := ToInt32(val), Size(val) - 1;
    assert -0x8000_0000 <= w < 0x8000_0000;
    hide Size, ToInt32, OrByte, Low, Shift, Room, Payload;
    FirstByte(Shift(val, e), e);
    Exhausted(w, e);
    if Shift(w, e) == 0 && Packed(val) == Encode(val) {
      assert Packed(val)[1..] == Encode(val)[1..];
      FirstByte(0, e);
      LowDetermines(val, w, e);
    }
  }

  lemma {:induction false} LowDetermines(a: nat, b: nat, e: nat)
    requires Low(a, e) == Low(b, e) && Shift(a, e) == 0 && Shift(b, e) == 0
    ensures a == b
  {
    ShiftedOut(a, e);
    ShiftedOut(b, e);
    UnsignedLow(a, e);
    UnsignedLow(b, e);
  }

  lemma AtLeastFive(val: nat)
    requires 0x8000_0000 <= val < TWO_64
    ensures Size(val) >= 5
  {
    ThirtyOne();
    BitLengthAtMost(val, 31);
  }

  lemma {:induction false} Exhausted(w: int, e: nat)
    requires -0x8000_0000 <= w < 0x8000_0000 && e >= 4
    ensures Shift(w, e) == if w < 0 then -1 else 0
  {
    assert Pow256(4) == BASE by { assert Pow256(3) == 16777216; }
    Pow256Monotone(4, e);
    ShiftedOut(w, e);
  }

  lemma {:induction false} Pow256Monotone(m: nat, n: nat)
    requires m <= n
    ensures Pow256(m) <= Pow256(n)
  {
    if m < n {
      Pow256Monotone(m, n - 1);
    }
  }

  /** `uvintUnpack`: the 32-bit value and the bytes read; an empty buffer yields no number. Missing
      bytes read as zero. */
  function Unpacked(bytes: seq<byte>): Option<(int, nat)> {
    if bytes == [] then None
    else if bytes[0] < 128 then Some((bytes[0], 1))
    else
      var n := UnpackExtra(bytes[0]);
      Some((Join(FirstBits(bytes[0], n), bytes, 1, n), n + 1))
  }

  /** `8 - (~first & 0xff).toString(2).length`; the text of zero has length one. */
  function UnpackExtra(first: byte): (n: nat)
    ensures n <= 7
    ensures first < 255 ==> n == Extra(first)
  {
    SixtyFour();
    BitLengthAtMost(255 - first, 8);
    8 - (if first == 255 then 1 else BitLength(255 - first))
  }

  /** `rv <<= 8; rv |= bytes[idx] & 0xff` for the remaining indexes. */
  function Join(rv: int, bytes: seq<byte>, idx: nat, last: nat): int
    decreases last + 1 - idx
  {
    if idx > last then rv
    else Join(ToInt32(rv * 256 + (if idx < |bytes| then bytes[idx] else 0)), bytes, idx + 1, last)
  }

  method UvintUnpack(bytes: seq<byte>) returns (r: Option<(int, nat)>)
    ensures r == Unpacked(bytes)
  {
    if |bytes| == 0 {
      return None;
    }
    var first := bytes[0];
    if first < 128 {
      return Some((first, 1));
    }
    var n := UnpackExtra(first);
    hide UnpackExtra, FirstBits, ToInt32;
    var rv: int := FirstBits(first, n);
    for idx := 1 to n + 1
      invariant Join(FirstBits(first, n), bytes, 1, n) == Join(rv, bytes, idx, n)
    {
      rv := ToInt32(rv * 256 + (if idx < |bytes| then bytes[idx] else 0));
    }
    r := Some((rv, n + 1));
  }

  lemma {:induction false} JoinIsUnsigned(s: seq<byte>, bytes: seq<byte>, idx: nat, last: nat)
    requires idx == |s| >= 1 && last < |bytes| && idx <= last + 1
    requires s[1..] == bytes[1..idx] && Unsigned([s[0]] + bytes[1..last + 1]) < 0x8000_0000
    ensures Join(Unsigned(s), bytes, idx, last) == Unsigned([s[0]] + bytes[1..last + 1])
    decreases last + 1 - idx
  {
    hide Unsigned, ToInt32;
    if idx > last {
      assert s == [s[0]] + bytes[1..last + 1];
    } else {
      var t := s + [bytes[idx]];
      assert t[1..] == bytes[1..idx + 1] by { assert t[1..] == s[1..] + [bytes[idx]]; }
      UnsignedAppend(s, bytes[idx]);
      var whole := [s[0]] + bytes[1..last + 1];
      assert t == whole[..idx + 1] by { assert t == [s[0]] + bytes[1..idx + 1]; }
      PrefixIsSmaller(whole, idx + 1);
      SmallInt32(Unsigned(t));
      JoinIsUnsigned(t, bytes, idx + 1, last);
    }
  }

  lemma SmallInt32(x: nat)
    requires x < 0x8000_0000
    ensures ToInt32(x) == x
  {
  }

  lemma {:induction false} PrefixIsSmaller(s: seq<byte>, n: nat)
    requires n <= |s|
    ensures Unsigned(s[..n]) <= Unsigned(s)
    decreases |s|
  {
    if n < |s| {
      PrefixIsSmaller(s[..|s| - 1], n);
      assert s[..|s| - 1][..n] == s[..n];
    } else {
      assert s[..n] == s;
    }
  }

  /** On short numbers below 2^31 the two decoders agree. */
  lemma {:induction false} DecodersAgree(bytes: seq<byte>, val: nat, n: nat)
    requires DecodeAt(bytes, 0) == Ok((val, n)) && val < 0x8000_0000 && n <= 5
    ensures Unpacked(bytes) == Some((val, n))
  {
    AllOnes();
    hide Extra, FirstBits, Unsigned;
    var first := bytes[0];
    if first >= 128 {
      var head := FirstBits(first, Extra(first));
      SingleByte(head);
      assert bytes[1..1] == [head][1..];
      JoinIsUnsigned([head], bytes, 1, n - 1);
    }
  }

  lemma AllOnes()
    ensures Extra(255) == 8
  {
  }

  /** Packing a length below 2^31 and unpacking it, with anything after it, gives the length back. */
  lemma {:induction false} UnpackUndoesPack(val: nat, after: seq<byte>)
    requires val < 0x8000_0000
    ensures Unpacked(Packed(val) + after) == Some((val, |Packed(val)|))
  {
    hide Encode, Size, Packed, DecodeAt, Unpacked;
    PackedIsEncoding(val);
    DecodeUndoesEncode(val, [], after);
    SizeOfSafe(val);
    assert [] + Encode(val) + after == Encode(val) + after;
    DecodersAgree(Encode(val) + after, val, Size(val));
  }
}
