/** The CQL `varint`: variable-length two's complement (section 6.23 of the CQL binary protocol v4),
    and the driver's BigInt encoder and decoder of it. */
module Varint {
  import opened Bytes

  /** No leading byte merely repeats the sign bit of the byte after it. */
  predicate Minimal(s: seq<byte>) {
    && s != []
    && (|s| >= 2 ==> !(s[0] == 0 && s[1] < 128) && !(s[0] == 255 && s[1] >= 128))
  }

  /** The byte strings that denote the integer v in as few bytes as possible. */
  predicate IsVarint(s: seq<byte>, v: int) {
    Minimal(s) && Signed(s) == v
  }

  // ---------------------------------------------------------------- shortest forms

  lemma {:induction false} FitsMonotone(v: int, m: nat, n: nat)
    requires 0 < m <= n && Fits(v, m)
    ensures Fits(v, n)
    decreases n
  {
    if m < n {
      FitsMonotone(v, m, n - 1);
    }
  }

  /** A minimal string is too wide for its value by less than one byte. */
  lemma {:induction false} MinimalIsTight(s: seq<byte>)
    requires Minimal(s) && |s| >= 2
    ensures !Fits(Signed(s), |s| - 1)
  {
    var p := Pow256(|s| - 2);
    assert Pow256(|s| - 1) == 256 * p && Pow256(|s|) == 65536 * p;
    UnsignedHead(s);
    UnsignedHead(s[1..]);
    UnsignedBound(s[1..][1..]);
    LeadingPair(s[0], s[1], p);
  }

  lemma LeadingPair(a: byte, b: byte, p: nat)
    ensures a == 0 && b >= 128 ==> a * (256 * p) + b * p >= 128 * p
    ensures 1 <= a < 128 ==> a * (256 * p) + b * p >= 256 * p
    ensures 128 <= a < 255 ==> a * (256 * p) + b * p <= 65536 * p - 257 * p
    ensures a == 255 && b < 128 ==> a * (256 * p) + b * p <= 65536 * p - 129 * p
  {
    var d := 256 * a + b;
    assert a * (256 * p) + b * p == d * p;
    if a == 0 && b >= 128 { Scale(128, d, p); }
    if 1 <= a < 128 { Scale(256, d, p); }
    if 128 <= a < 255 { Scale(d, 65279, p); }
    if a == 255 && b < 128 { Scale(d, 65407, p); }
  }

  lemma Scale(x: int, y: int, p: nat)
    requires x <= y
    ensures x * p <= y * p
  {
  }

  /** Every other byte string with the same value is at least as long. */
  lemma {:induction false} MinimalIsShortest(s: seq<byte>, t: seq<byte>)
    requires Minimal(s) && t != [] && Signed(t) == Signed(s)
    ensures |s| <= |t|
  {
    if |t| < |s| {
      SignedRange(t);
      FitsMonotone(Signed(t), |t|, |s| - 1);
      MinimalIsTight(s);
    }
  }

  /** There is only one minimal string per integer, so two encoders that both produce one agree. */
  lemma {:induction false} MinimalIsUnique(s: seq<byte>, t: seq<byte>)
    requires Minimal(s) && Minimal(t) && Signed(s) == Signed(t)
    ensures s == t
  {
    MinimalIsShortest(s, t);
    MinimalIsShortest(t, s);
    SignedInjective(s, t);
  }

  // ---------------------------------------------------------------- sign extension

  /** s with k more copies of its sign in front. */
  function SignExtend(s: seq<byte>, k: nat): (r: seq<byte>)
    requires s != []
    ensures |r| == |s| + k && (r[0] >= 128 <==> s[0] >= 128)
  {
    if k == 0 then s else [if s[0] >= 128 then 255 else 0] + SignExtend(s, k - 1)
  }

  lemma {:induction false} SignExtendKeepsValue(s: seq<byte>, k: nat)
    requires s != []
    ensures Signed(SignExtend(s, k)) == Signed(s)
  {
    if k > 0 {
      var t := SignExtend(s, k - 1);
      SignExtendKeepsValue(s, k - 1);
      UnsignedHead(SignExtend(s, k));
      assert SignExtend(s, k)[1..] == t;
    }
  }

  /** The strings that denote an integer are exactly the sign extensions of its minimal one. */
  lemma {:induction false} ExactlyTheSignExtensions(s: seq<byte>, t: seq<byte>)
    requires Minimal(s) && t != []
    ensures Signed(t) == Signed(s) <==> |t| >= |s| && t == SignExtend(s, |t| - |s|)
  {
    if Signed(t) == Signed(s) {
      MinimalIsShortest(s, t);
      SignExtendKeepsValue(s, |t| - |s|);
      SignedInjective(t, SignExtend(s, |t| - |s|));
    } else if |t| >= |s| {
      SignExtendKeepsValue(s, |t| - |s|);
    }
  }

  // ---------------------------------------------------------------- the BigInt encoder

  /** v shifted right by n bytes, keeping the sign. */
  function Shift(v: int, n: nat): int
    decreases n
  {
    if n == 0 then v else Shift(v / 256, n - 1)
  }

  lemma {:induction false} ShiftOnce(v: int, n: nat)
    ensures Shift(v, n + 1) == Shift(v, n) / 256
    decreases n
  {
    if n > 0 {
      ShiftOnce(v / 256, n - 1);
    }
  }

  lemma {:induction false} LowHead(v: int, n: nat)
    ensures Low(v, n + 1) == [Shift(v, n) % 256] + Low(v, n)
    decreases n
  {
    if n > 0 {
      LowHead(v / 256, n - 1);
    }
  }

  lemma {:induction false} ShiftedOut(v: int, n: nat)
    ensures Shift(v, n) == 0 <==> 0 <= v < Pow256(n)
    ensures Shift(v, n) == -1 <==> -Pow256(n) <= v < 0
    decreases n
  {
    if n > 0 {
      ShiftedOut(v / 256, n - 1);
    }
  }

  lemma {:induction false} SignedPad(s: seq<byte>)
    ensures Signed([0] + s) == Unsigned(s)
    ensures Signed([255] + s) == Unsigned(s) - Pow256(|s|)
  {
    UnsignedHead([0] + s);
    UnsignedHead([255] + s);
    assert ([0] + s)[1..] == s == ([255] + s)[1..];
    assert 0 * Pow256(|s|) == 0;
  }

  lemma {:induction false} UnsignedLowNegative(v: int, n: nat)
    requires -Pow256(n) <= v < 0
    ensures Unsigned(Low(v, n)) == v + Pow256(n)
    decreases n
  {
    if n > 0 {
      UnsignedLowNegative(v / 256, n - 1);
      UnsignedAppend(Low(v / 256, n - 1), v % 256);
    }
  }

  /** The BigInt branch of the varint encoder. */
  method EncodeBigInt(value: int) returns (parts: seq<byte>)
    ensures IsVarint(parts, value)
  {
    if value == 0 {
      SignedByte(0);
      return [0];
    } else if value == -1 {
      SignedByte(255);
      return [255];
    }
    parts := [];
    var v := value;
    hide Signed, Low, Shift, Minimal;
    StartShift(value);
    if value > 0 {
      while v != 0
        invariant v >= 0
        invariant v == Shift(value, |parts|) && parts == Low(value, |parts|)
        invariant v == 0 ==> parts != [] && 0 < Shift(value, |parts| - 1) < 256
        decreases v
      {
        ShiftOnce(value, |parts|);
        LowHead(value, |parts|);
        parts := [v % 256] + parts;
        v := v / 256;
      }
      PositiveParts(value, parts);
      if parts[0] > 0x7f {
        parts := [0] + parts;
      }
    } else {
      while v != -1
        invariant v <= -1
        invariant v == Shift(value, |parts|) && parts == Low(value, |parts|)
        invariant v == -1 ==> parts != [] && -256 <= Shift(value, |parts| - 1) < -1
        decreases -v
      {
        ShiftOnce(value, |parts|);
        LowHead(value, |parts|);
        parts := [v % 256] + parts;
        v := v / 256;
      }
      NegativeParts(value, parts);
      if parts[0] <= 0x7f {
        parts := [255] + parts;
      }
    }
  }

  lemma StartShift(v: int)
    ensures Shift(v, 0) == v && Low(v, 0) == []
  {
  }

  /** All bytes of a positive number, which may lack a sign bit. */
  lemma {:induction false} PositiveParts(v: int, parts: seq<byte>)
    requires parts != [] && parts == Low(v, |parts|)
    requires Shift(v, |parts|) == 0 && 0 < Shift(v, |parts| - 1) < 256
    ensures parts[0] > 0x7f ==> IsVarint([0] + parts, v)
    ensures parts[0] <= 0x7f ==> IsVarint(parts, v)
  {
    hide Low, Shift, Unsigned;
    ShiftedOut(v, |parts|);
    UnsignedLow(v, |parts|);
    LowHead(v, |parts| - 1);
    SignedPad(parts);
  }

  lemma {:induction false} NegativeParts(v: int, parts: seq<byte>)
    requires parts != [] && parts == Low(v, |parts|)
    requires Shift(v, |parts|) == -1 && -256 <= Shift(v, |parts| - 1) < -1
    ensures parts[0] <= 0x7f ==> IsVarint([255] + parts, v)
    ensures parts[0] > 0x7f ==> IsVarint(parts, v)
  {
    hide Low, Shift, Unsigned;
    ShiftedOut(v, |parts|);
    UnsignedLowNegative(v, |parts|);
    LowHead(v, |parts| - 1);
    SignedPad(parts);
  }

  // ---------------------------------------------------------------- the BigInt decoder

  /** Each byte inverted, the value of `~b & 0xff`. */
  function Invert(s: seq<byte>): (r: seq<byte>)
    ensures |r| == |s|
  {
    seq(|s|, i requires 0 <= i < |s| => 255 - s[i])
  }

  lemma {:induction false} InvertedValue(s: seq<byte>)
    ensures Unsigned(Invert(s)) == Pow256(|s|) - 1 - Unsigned(s)
  {
    if s != [] {
      InvertedValue(s[..|s| - 1]);
      assert Invert(s)[..|s| - 1] == Invert(s[..|s| - 1]);
    }
  }

  /** Decodes any two's complement string, minimal or not; an empty buffer, which `decode` never
      passes on, would give -1 because `undefined <= 0x7f` is false. */
  method DecodeBigInt(bytes: seq<byte>) returns (result: int)
    ensures result == if bytes == [] then -1 else Signed(bytes)
  {
    var n := |bytes|;
    ghost var inverted := Invert(bytes);
    result := 0;
    var weight: int := 1;
    if n > 0 && bytes[0] <= 0x7f {
      for i := 0 to n
        invariant weight == Pow256(i) && result == Unsigned(bytes[n - i..])
      {
        var b := bytes[n - 1 - i];
        UnsignedHead(bytes[n - 1 - i..]);
        assert bytes[n - 1 - i..][1..] == bytes[n - i..];
        result := result + b * weight;
        weight := weight * 256;
      }
      assert bytes[0..] == bytes;
    } else {
      for i := 0 to n
        invariant weight == Pow256(i) && result == Unsigned(inverted[n - i..])
      {
        var b := 255 - bytes[n - 1 - i];
        UnsignedHead(inverted[n - 1 - i..]);
        assert inverted[n - 1 - i..][1..] == inverted[n - i..];
        result := result + b * weight;
        weight := weight * 256;
      }
      assert inverted[0..] == inverted;
      InvertedValue(bytes);
      result := -result - 1;
    }
  }
}
