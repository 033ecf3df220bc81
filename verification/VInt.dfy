/** Variable-length integers (the `VIntCoding` of lib/utils.js): the number of leading one bits of the
    first byte is the number of bytes that follow it. */
module VInt {
  import opened Bytes
  import opened Bits
  import opened Varint

  const TWO_64: int := 0x1_0000_0000_0000_0000
  const TWO_63: int := 0x8000_0000_0000_0000

  // ---------------------------------------------------------------- format

  /** Bytes needed: seven payload bits per byte, all sixty-four in nine. */
  function Size(v: nat): (s: nat)
    requires v < TWO_64
    ensures 1 <= s <= 9
  {
    SizeRange(v);
    (63 + 9 * BitLength(if v == 0 then 1 else v)) / 64
  }

  lemma SizeRange(v: nat)
    requires v < TWO_64
    ensures 1 <= BitLength(if v == 0 then 1 else v) <= 64
  {
    SixtyFour();
    BitLengthAtMost(if v == 0 then 1 else v, 64);
  }

  lemma SixtyFour()
    ensures Pow2(64) == TWO_64 && Pow2(32) == 0x1_0000_0000 && Pow2(16) == 65536 && Pow2(8) == 256
    ensures Pow2(4) == 16 && Pow2(2) == 4 && Pow2(1) == 2 && Pow2(0) == 1
  {
    assert Pow2(4) == 16;
    assert Pow2(8) == 16 * Pow2(4);
    assert Pow2(16) == 256 * Pow2(8) by { assert Pow2(12) == 16 * Pow2(8); }
    assert Pow2(32) == 65536 * Pow2(16) by {
      assert Pow2(20) == 16 * Pow2(16);
      assert Pow2(24) == 16 * Pow2(20);
      assert Pow2(28) == 16 * Pow2(24);
    }
    assert Pow2(64) == 0x1_0000_0000 * Pow2(32) by {
      assert Pow2(36) == 16 * Pow2(32) && Pow2(40) == 16 * Pow2(36) && Pow2(44) == 16 * Pow2(40);
      assert Pow2(48) == 16 * Pow2(44) && Pow2(52) == 16 * Pow2(48) && Pow2(56) == 16 * Pow2(52);
      assert Pow2(60) == 16 * Pow2(56);
    }
  }

  /** `(0xff >> e) + 1`: what the bits of a first byte below e leading ones can hold. */
  function Room(e: nat): (r: nat)
    requires e <= 8
    ensures 1 <= r <= 256 && (e >= 1 ==> r <= 128)
  {
    if e == 0 then 256 else if e == 1 then 128 else if e == 2 then 64 else if e == 3 then 32
    else if e == 4 then 16 else if e == 5 then 8 else if e == 6 then 4 else if e == 7 then 2 else 1
  }

  lemma RoomIsPow2(e: nat)
    requires e <= 8
    ensures Room(e) == Pow2(8 - e)
  {
    assert Pow2(0) == 1 && Pow2(1) == 2 && Pow2(2) == 4;
    assert Pow2(3) == 2 * Pow2(2) && Pow2(4) == 4 * Pow2(2) && Pow2(5) == 2 * Pow2(4);
    assert Pow2(6) == 4 * Pow2(4) && Pow2(7) == 2 * Pow2(6) && Pow2(8) == 4 * Pow2(6);
  }

  /** `~(0xff >> e)` as a byte: e leading one bits. */
  function Mask(e: nat): byte
    requires e <= 8
  {
    256 - Room(e)
  }

  /** The encoding of an unsigned 64-bit number. */
  function Encode(v: nat): (s: seq<byte>)
    requires v < TWO_64
    ensures |s| == Size(v)
  {
    var b := Low(v, Size(v));
    [OrByte(b[0], Mask(Size(v) - 1))] + b[1..]
  }

  function OrByte(a: byte, b: byte): (r: byte)
    ensures r == Or(a, b)
  {
    OrFits(a, b, 8);
    SixtyFour();
    Or(a, b)
  }

  lemma {:induction false} OrFits(a: nat, b: nat, k: nat)
    requires a < Pow2(k) && b < Pow2(k)
    ensures Or(a, b) < Pow2(k)
    decreases k
  {
    if k > 0 && a != 0 && b != 0 {
      OrFits(a / 2, b / 2, k - 1);
    }
  }

  /** Decodes at an offset, returning the number and the offset after it; running out of bytes throws. */
  function DecodeAt(input: seq<byte>, offset: nat): Result<(nat, nat)> {
    if offset >= |input| then Err
    else
      var first := input[offset];
      if first < 128 then Ok((first, offset + 1))
      else
        var extra := Extra(first);
        if offset + 1 + extra > |input| then Err
        else Ok((Unsigned([FirstBits(first, extra)] + input[offset + 1..offset + 1 + extra]), offset + 1 + extra))
  }

  /** Leading one bits of a byte. */
  function Extra(first: byte): (e: nat)
    ensures e <= 8
  {
    SixtyFour();
    BitLengthAtMost(255 - first, 8);
    8 - BitLength(255 - first)
  }

  /** `first & (0xff >> extra)`. */
  function FirstBits(first: byte, extra: nat): (b: byte)
    requires extra <= 8
  {
    first % Room(extra)
  }

  // ---------------------------------------------------------------- decoding undoes encoding

  /** What the payload of a first byte with e leading ones may hold: one bit less than its room. */
  function Payload(e: nat): nat
    requires 1 <= e <= 8
  {
    if e == 8 then 1 else Room(e) / 2
  }

  /** The first byte of an encoding says how many bytes follow and keeps its payload. */
  lemma {:induction false} FirstByte(b: byte, e: nat)
    requires 1 <= e <= 8 && b < Payload(e)
    ensures var first := OrByte(b, Mask(e)); first >= 128 && Extra(first) == e && FirstBits(first, e) == b
  {
    hide Or, OrByte;
    MaskAdds(b, e);
    LeadingOnes(b, e);
    KeepsPayload(b, e);
  }

  lemma {:induction false} MaskAdds(b: byte, e: nat)
    requires 1 <= e <= 8 && b < Payload(e)
    ensures OrByte(b, Mask(e)) == b + Mask(e)
  {
    RoomIsPow2(e);
    var c := if e == 8 then 255 else 256 / Room(e) - 1;
    OrDisjoint(b, c, 8 - e);
    RoomTimes(e);
    hide Room, Or, OrByte;
  }

  lemma {:induction false} RoomTimes(e: nat)
    requires 1 <= e <= 8
    ensures var c := if e == 8 then 255 else 256 / Room(e) - 1; c >= 0 && c * Room(e) == 256 - Room(e)
  {
    assert 256 / 128 == 2 && 256 / 64 == 4 && 256 / 32 == 8 && 256 / 16 == 16 && 256 / 8 == 32 && 256 / 4 == 64;
    assert 256 / 2 == 128;
  }

  lemma {:induction false} LeadingOnes(b: byte, e: nat)
    requires 1 <= e <= 8 && b < Payload(e)
    ensures 128 <= b + Mask(e) < 256 && Extra(b + Mask(e)) == e
  {
    if e < 8 {
      RoomIsPow2(e);
      RoomIsPow2(e + 1);
      BitLengthIs(Room(e) - 1 - b, 8 - e);
    }
  }

  lemma KeepsPayload(b: byte, e: nat)
    requires 1 <= e <= 8 && b < Payload(e)
    ensures b + Mask(e) < 256 && FirstBits(b + Mask(e), e) == b
  {
  }

  /** The top byte of n bytes of a number below 2^(8 (n - 1) + k) has only its low k bits set. */
  lemma {:induction false} TopByteBits(v: nat, n: nat, k: nat)
    requires v < Pow2(8 * n + k)
    ensures Shift(v, n) < Pow2(k)
    decreases n
  {
    if n > 0 {
      EightBits(8 * (n - 1) + k);
      TopByteBits(v / 256, n - 1, k);
    }
  }

  lemma EightBits(n: nat)
    ensures Pow2(n + 8) == 256 * Pow2(n)
  {
    assert Pow2(n + 2) == 4 * Pow2(n);
    assert Pow2(n + 4) == 4 * Pow2(n + 2);
    assert Pow2(n + 6) == 4 * Pow2(n + 4);
    assert Pow2(n + 8) == 4 * Pow2(n + 6);
  }

  lemma {:induction false} SizeBounds(v: nat)
    requires v < TWO_64
    ensures Size(v) <= 8 ==> v < Pow2(7 * Size(v))
    ensures Size(v) > 1 ==> v >= Pow2(7 * (Size(v) - 1))
  {
    var bits := BitLength(if v == 0 then 1 else v);
    SizeRange(v);
    BitLengthAtMost(v, bits);
    assert v == 0 ==> v < Pow2(bits);
    var s := Size(v);
    if s <= 8 {
      Pow2Monotone(bits, 7 * s);
    }
    if s > 1 {
      BitLengthAtMost(v, 7 * (s - 1));
    }
  }

  /** The bytes of a number as the encoding splits them. */
  lemma {:induction false} EncodingParts(v: nat)
    requires v < TWO_64
    ensures var e := Size(v) - 1;
            && 0 <= Shift(v, e) < (if e == 0 then 128 else Payload(e))
            && Low(v, Size(v)) == [Shift(v, e)] + Low(v, e)
  {
    hide Size, Low, Shift, Pow2;
    var e := Size(v) - 1;
    SizeBounds(v);
    ShiftNonNegative(v, e);
    if e == 8 {
      SixtyFour();
      assert v < Pow2(8 * 8 + 0);
      TopByteBits(v, 8, 0);
    } else {
      TopByteBits(v, e, 7 - e);
      RoomIsPow2(e + 1);
    }
    LowHead(v, e);
  }

  lemma {:induction false} ShiftNonNegative(v: nat, n: nat)
    ensures Shift(v, n) >= 0
    decreases n
  {
    if n > 0 {
      ShiftNonNegative(v / 256, n - 1);
    }
  }

  /** Whatever surrounds it, an encoding decodes to its number and ends where it ends. */
  lemma {:induction false} DecodeUndoesEncode(v: nat, before: seq<byte>, after: seq<byte>)
    requires v < TWO_64
    ensures DecodeAt(before + Encode(v) + after, |before|) == Ok((v, |before| + Size(v)))
  {
    hide Size, Extra, FirstBits, Low, Unsigned, Or, OrByte, Mask;
    var s, e, b := Encode(v), Size(v) - 1, Low(v, Size(v));
    var input := before + s + after;
    EncodingParts(v);
    assert input[|before|] == s[0];
    SizeFits(v);
    UnsignedLow(v, Size(v));
    if e == 0 {
      OneByte(b[0]);
      assert b == [] + [b[0]];
      UnsignedAppend([], b[0]);
      UnsignedEmpty();
    } else {
      FirstByte(b[0], e);
      assert input[|before| + 1..|before| + 1 + e] == s[1..] == b[1..];
      assert [b[0]] + b[1..] == b;
    }
  }

  lemma UnsignedEmpty()
    ensures Unsigned([]) == 0
  {
  }

  lemma OneByte(b: byte)
    ensures OrByte(b, Mask(0)) == b
  {
  }

  lemma {:induction false} SizeFits(v: nat)
    requires v < TWO_64
    ensures v < Pow256(Size(v))
  {
    var s := Size(v);
    SizeBounds(v);
    ByteBits(s);
    SixtyFour();
    if s <= 8 {
      Pow2Monotone(7 * s, 8 * s);
    } else {
      Pow2Monotone(64, 8 * s);
    }
  }

  lemma {:induction false} ByteBits(n: nat)
    ensures Pow256(n) == Pow2(8 * n)
  {
    if n > 0 {
      ByteBits(n - 1);
      EightBits(8 * (n - 1));
    }
  }
}
