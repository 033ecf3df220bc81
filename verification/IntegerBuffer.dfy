/** `Integer.fromBuffer` and `Integer.toBuffer` (lib/types/integer.js): varint bytes to 32-bit pieces
    and back. */
module IntegerBuffer {
  import opened Bytes
  import opened Varint
  import opened Words
  import opened IntegerArithmetic

  /** One more piece at the bottom. */
  lemma {:induction false} RawValuePrepend(w: int32, ws: seq<int32>, sign: int)
    requires sign == 0 || sign == -1
    ensures RawValue([w] + ws, sign) == Uint32(w) + BASE * RawValue(ws, sign)
  {
    assert ([w] + ws)[1..] == ws;
  }

  lemma {:induction false} SignedAppendFour(s: seq<byte>, t: seq<byte>)
    requires s != [] && |t| == 4
    ensures Signed(s + t) == BASE * Signed(s) + Unsigned(t)
  {
    hide Signed, Unsigned;
    var s1, s2, s3 := s + [t[0]], s + [t[0], t[1]], s + [t[0], t[1], t[2]];
    SignedAppend(s, t[0]);
    assert s2 == s1 + [t[1]];
    SignedAppend(s1, t[1]);
    assert s3 == s2 + [t[2]];
    SignedAppend(s2, t[2]);
    assert s + t == s3 + [t[3]];
    SignedAppend(s3, t[3]);
    UnsignedFour(t);
  }

  lemma {:induction false} UnsignedFour(t: seq<byte>)
    requires |t| == 4
    ensures Unsigned(t) == 16777216 * t[0] as int + 65536 * t[1] as int + 256 * t[2] as int + t[3]
  {
    assert t == ((([] + [t[0]]) + [t[1]]) + [t[2]]) + [t[3]];
    UnsignedAppend([], t[0]);
    UnsignedAppend([t[0]], t[1]);
    UnsignedAppend([t[0], t[1]], t[2]);
    UnsignedAppend([t[0], t[1], t[2]], t[3]);
    assert [] + [t[0]] == [t[0]] && [t[0]] + [t[1]] == [t[0], t[1]];
    assert [t[0], t[1]] + [t[2]] == [t[0], t[1], t[2]];
  }

  // ---------------------------------------------------------------- fromBuffer

  function SignOf(s: seq<byte>): int32 {
    if s != [] && s[0] >= 128 then -1 else 0
  }

  /** `readInt32BE` on at most four bytes. */
  function ReadInt32(s: seq<byte>): (w: int32)
    requires |s| <= 4
    ensures w == Signed(s)
  {
    if s == [] then 0 else
      SignedRange(s);
      FourBytes(|s|);
      Signed(s)
  }

  lemma FourBytes(n: nat)
    requires 1 <= n <= 4
    ensures 128 * Pow256(n - 1) <= HALF
  {
    assert Pow256(1) == 256 && Pow256(2) == 65536 && Pow256(3) == 16777216;
  }

  /** The pieces of a big-endian two's complement string, lowest first. */
  function Pieces(s: seq<byte>): seq<int32> {
    if |s| <= 4 then (if s == [] then [] else [ReadInt32(s)])
    else [ReadInt32(s[|s| - 4..])] + Pieces(s[..|s| - 4])
  }

  lemma {:induction false} PiecesValue(s: seq<byte>)
    ensures RawValue(Pieces(s), SignOf(s)) == Signed(s)
  {
    if s == [] {
    } else if |s| <= 4 {
      RawValuePrepend(ReadInt32(s), [], SignOf(s));
      assert [ReadInt32(s)] + [] == [ReadInt32(s)];
      SignedRange(s);
      hide Signed;
    } else {
      var head, tail := s[..|s| - 4], s[|s| - 4..];
      assert s == head + tail;
      PiecesValue(head);
      SignedAppendFour(head, tail);
      RawValuePrepend(ReadInt32(tail), Pieces(head), SignOf(s));
      UnsignedPiece(tail);
    }
  }

  lemma {:induction false} UnsignedPiece(t: seq<byte>)
    requires |t| == 4
    ensures Uint32(ReadInt32(t)) == Unsigned(t)
  {
    SignedRange(t);
    UnsignedBound(t);
    assert Pow256(4) == BASE by { assert Pow256(3) == 16777216; }
  }

  /** The high piece when the length is no multiple of four: bytes inverted, joined, inverted back. */
  method ReadPartial(buf: seq<byte>, offset: nat, sign: int32) returns (value: int32)
    requires 0 < offset < 4 && offset <= |buf| && sign == SignOf(buf)
    ensures value == ReadInt32(buf[..offset])
  {
    ghost var t: seq<byte> := if sign == -1 then Invert(buf[..offset]) else buf[..offset];
    var v: int := 0;
    for j := 0 to offset
      invariant v + Unsigned(t[j..]) == Unsigned(t)
    {
      var b := if sign == -1 then 255 - buf[j] else buf[j];
      UnsignedHead(t[j..]);
      assert t[j..][1..] == t[j + 1..];
      v := v + b * Pow256(offset - j - 1);
    }
    assert t[offset..] == [];
    InvertedValue(buf[..offset]);
    UnsignedBound(t);
    FourBytes(offset);
    SignedRange(buf[..offset]);
    value := if sign == -1 then -v - 1 else v;
  }

  /** `fromBuffer`: the integer any two's complement string denotes, minimal or not. */
  method FromBuffer(buf: seq<byte>) returns (r: Integer)
    ensures Valid(r) && Value(r) == Signed(buf)
  {
    hide ReadInt32, Signed, Pieces, Int32s, RawValue;
    var n := (|buf| + 3) / 4;
    var sign := SignOf(buf);
    var bits: seq<int32> := [];
    ghost var left := |buf|;
    assert buf[..left] == buf;
    for i := 0 to n
      invariant left == if |buf| >= 4 * i then |buf| - 4 * i else 0
      invariant Pieces(buf) == bits + Pieces(buf[..left])
    {
      var offset := |buf| - (i + 1) * 4;
      var value;
      if offset < 0 {
        value := ReadPartial(buf, offset + 4, sign);
        LastPiece(buf[..left]);
        left := 0;
      } else {
        value := ReadInt32(buf[offset..offset + 4]);
        PieceOff(buf, left);
        left := offset;
      }
      bits := bits + [value];
    }
    LastPiece(buf[..left]);
    assert left == 0 && bits + [] == bits;
    PiecesValue(buf);
    Int32sOfWords(bits);
    r := New(bits, sign);
  }

  lemma LastPiece(s: seq<byte>)
    requires |s| <= 4
    ensures Pieces(s) == if s == [] then [] else [ReadInt32(s)] + Pieces([])
  {
  }

  lemma Int32sOfWords(ws: seq<int32>)
    ensures Int32s(ws) == ws
  {
  }

  lemma {:induction false} PieceOff(buf: seq<byte>, left: nat)
    requires 4 <= left <= |buf|
    ensures Pieces(buf[..left]) == [ReadInt32(buf[left - 4..left])] + Pieces(buf[..left - 4])
  {
    assert buf[..left][left - 4..] == buf[left - 4..left];
    assert buf[..left][..left - 4] == buf[..left - 4];
    if left == 4 {
      assert buf[..4] == buf[0..4];
    }
  }

  // ---------------------------------------------------------------- toBuffer

  /** The bytes of a 32-bit number without leading zero bytes, at least one. */
  function HighBytes(u: nat): (h: seq<byte>)
    requires u < BASE
    ensures h != [] && Unsigned(h) == u
    ensures |h| > 1 ==> h[0] != 0
    ensures u > 0 ==> h[0] != 0
  {
    UnsignedAppend([], u % 256);
    if u < 256 then [u]
    else
      UnsignedAppend(HighBytes(u / 256), u % 256);
      HighBytes(u / 256) + [u % 256]
  }

  /** `high` before the lower pieces are appended: sign bit restored, inverted back if negative. */
  function TopBytes(top: int32, sign: int32): (h: seq<byte>)
    requires sign == 0 || sign == -1
    ensures h != []
  {
    var u := if sign == -1 then Uint32(-1 - top) else Uint32(top);
    var high := HighBytes(u);
    var padded := if high[0] >= 128 then [0] + high else high;
    if sign == -1 then Invert(padded) else padded
  }

  lemma {:induction false} TopBytesValue(top: int32, sign: int32)
    requires (sign == 0 || sign == -1) && top != sign
    ensures Signed(TopBytes(top, sign)) == Uint32(top) + sign * BASE
    ensures Minimal(TopBytes(top, sign))
    ensures |TopBytes(top, sign)| == 1 ==> TopBytes(top, sign)[0] != 0 && TopBytes(top, sign)[0] != 255
  {
    var u := if sign == -1 then Uint32(-1 - top) else Uint32(top);
    var high := HighBytes(u);
    var padded := if high[0] >= 128 then [0] + high else high;
    hide HighBytes;
    SignedPad(high);
    InvertedValue(padded);
    assert Signed(padded) == Unsigned(padded) == u;
  }

  /** The whole buffer: the top bytes, then the lower pieces from high to low. */
  function AllBytes(bits: seq<int32>, sign: int32): (s: seq<byte>)
    requires bits != [] && (sign == 0 || sign == -1)
    ensures s != []
  {
    if |bits| == 1 then TopBytes(bits[0], sign)
    else AllBytes(bits[1..], sign) + Low(bits[0], 4)
  }

  lemma {:induction false} AllBytesValue(bits: seq<int32>, sign: int32)
    requires bits != [] && (sign == 0 || sign == -1) && bits[|bits| - 1] != sign
    ensures Signed(AllBytes(bits, sign)) == RawValue(bits, sign)
  {
    hide Signed, TopBytes;
    if |bits| == 1 {
      TopBytesValue(bits[0], sign);
      RawValuePrepend(bits[0], [], sign);
      assert bits == [bits[0]] + [];
    } else {
      AllBytesValue(bits[1..], sign);
      hide Low, RawValue;
      RawValuePrepend(bits[0], bits[1..], sign);
      assert bits == [bits[0]] + bits[1..];
      SignedAppendFour(AllBytes(bits[1..], sign), Low(bits[0], 4));
      LowOfPiece(bits[0]);
    }
  }

  lemma {:induction false} LowOfPiece(w: int32)
    ensures Unsigned(Low(w, 4)) == Uint32(w)
  {
    assert Pow256(4) == BASE by { assert Pow256(3) == 16777216; }
    if w < 0 {
      UnsignedLowNegative(w, 4);
    } else {
      UnsignedLow(w, 4);
    }
  }

  lemma {:induction false} AllBytesMinimal(bits: seq<int32>, sign: int32)
    requires bits != [] && (sign == 0 || sign == -1) && bits[|bits| - 1] != sign
    ensures Minimal(AllBytes(bits, sign))
  {
    hide TopBytes;
    var top := TopBytes(bits[|bits| - 1], sign);
    TopBytesValue(bits[|bits| - 1], sign);
    TopBytesFirst(bits, sign);
  }

  lemma {:induction false} TopBytesFirst(bits: seq<int32>, sign: int32)
    requires bits != [] && (sign == 0 || sign == -1)
    ensures var top := TopBytes(bits[|bits| - 1], sign); var s := AllBytes(bits, sign);
            |s| >= |top| && s[0] == top[0] && (|top| >= 2 ==> s[1] == top[1])
  {
    hide TopBytes;
    if |bits| > 1 {
      TopBytesFirst(bits[1..], sign);
    }
  }

  /** `toBuffer`: the shortest two's complement string of the integer. */
  method ToBuffer(x: Integer) returns (buf: seq<byte>)
    requires Valid(x)
    ensures IsVarint(buf, Value(x))
  {
    hide Signed;
    if |x.bits| == 0 {
      SignedByte(0);
      SignedByte(255);
      return [if x.sign == 0 then 0 else 255];
    }
    AllBytesValue(x.bits, x.sign);
    AllBytesMinimal(x.bits, x.sign);
    hide AllBytes, TopBytes, Low, Minimal, RawValue;
    var n := |x.bits|;
    assert x.bits[0..] == x.bits;
    buf := TopBytesOf(x.bits[n - 1], x.sign);
    JustTheTop(x.bits, x.sign);
    for i := 0 to n - 1
      invariant buf == AllBytes(x.bits[n - 1 - i..], x.sign)
    {
      AppendGroup(x.bits, x.sign, n - 2 - i);
      buf := buf + Low(x.bits[n - 2 - i], 4);
    }
  }

  lemma JustTheTop(bits: seq<int32>, sign: int32)
    requires bits != [] && (sign == 0 || sign == -1)
    ensures AllBytes(bits[|bits| - 1..], sign) == TopBytes(bits[|bits| - 1], sign)
  {
    hide TopBytes;
  }

  lemma AppendGroup(bits: seq<int32>, sign: int32, i: nat)
    requires i + 1 < |bits| && (sign == 0 || sign == -1)
    ensures AllBytes(bits[i..], sign) == AllBytes(bits[i + 1..], sign) + Low(bits[i], 4)
  {
    hide TopBytes, Low;
    assert bits[i..][1..] == bits[i + 1..];
  }

  /** The `high` part of `toBuffer`, step by step. */
  method TopBytesOf(top: int32, sign: int32) returns (h: seq<byte>)
    requires sign == 0 || sign == -1
    ensures h == TopBytes(top, sign)
  {
    hide HighBytes, Invert;
    var highBits := if sign == -1 then Uint32(-1 - top) else Uint32(top);
    var high: seq<byte> := if highBits / 16777216 > 0 then [highBits / 16777216] else [];
    high := high + (if highBits / 65536 > 0 then [highBits / 65536 % 256] else []);
    high := high + (if highBits / 256 > 0 then [highBits / 256 % 256] else []);
    high := high + [highBits % 256];
    HighBytesUnrolled(highBits);
    if high[0] >= 128 {
      high := [0] + high;
    }
    h := SignBytes(high, sign);
  }

  method SignBytes(high: seq<byte>, sign: int32) returns (h: seq<byte>)
    ensures h == if sign == -1 then Invert(high) else high
  {
    h := [];
    for j := 0 to |high|
      invariant |h| == j
      invariant forall k :: 0 <= k < j ==> h[k] == if sign == -1 then 255 - high[k] else high[k]
    {
      h := h + [if sign == -1 then 255 - high[j] else high[j]];
    }
  }

  lemma HighBytesUnrolled(u: nat)
    requires u < BASE
    ensures HighBytes(u)
      == (if u / 16777216 > 0 then [u / 16777216] else []) + (if u / 65536 > 0 then [u / 65536 % 256] else [])
                          + (if u / 256 > 0 then [u / 256 % 256] else []) + [u % 256]
  {
    var v := u / 256;
    var w := v / 256;
    var x := w / 256;
    Quotients(u);
    assert HighBytes(u) == if v == 0 then [u % 256] else HighBytes(v) + [u % 256];
    assert v > 0 ==> HighBytes(v) == if w == 0 then [v % 256] else HighBytes(w) + [v % 256];
    assert w > 0 ==> HighBytes(w) == if x == 0 then [w % 256] else [x] + [w % 256];
    hide HighBytes;
  }

  lemma {:induction false} Quotients(u: nat)
    requires u < BASE
    ensures u / 65536 == u / 256 / 256 && u / 16777216 == u / 256 / 256 / 256 && u / 256 / 256 / 256 < 256
  {
  }

  // ---------------------------------------------------------------- both codecs together

  /** The two independent encoders produce the same bytes for equal integers, and each decoder
      recovers the integer from either. */
  method EncodersAgree(x: Integer) returns (a: seq<byte>, b: seq<byte>, back: Integer, n: int)
    requires Valid(x)
    ensures a == b && IsVarint(a, Value(x)) && back == x && n == Value(x)
  {
    a := ToBuffer(x);
    b := EncodeBigInt(Value(x));
    MinimalIsUnique(a, b);
    back := FromBuffer(b);
    ValidIsCanonical(back, x);
    n := DecodeBigInt(a);
  }

  method RoundTrip(x: Integer) returns (r: Integer, n: int)
    requires Valid(x)
    ensures r == x && n == Value(x)
  {
    var buf := ToBuffer(x);
    r := FromBuffer(buf);
    ValidIsCanonical(r, x);
    n := DecodeBigInt(buf);
  }
}
