/** Big-endian bytes and two's complement, the vocabulary every codec of the driver is stated in.

    The JavaScript bit operations are written as arithmetic: on an integer of any sign `x & 0xff`
    is `x % 256` and `x >> 8` is `x / 256`, because Dafny's division by a positive number floors. */
module Bytes {

  type byte = x: int | 0 <= x < 256

  /** Outcome of an operation that may throw in the source. */
  datatype Result<+T> = Ok(value: T) | Err {
    predicate IsFailure() { Err? }
    function PropagateFailure<U>(): Result<U>
      requires Err?
    {
      Err
    }
    function Extract(): T
      requires Ok?
    {
      value
    }
  }

  datatype Option<+T> = None | Some(value: T)

  /** 256 to the power n. */
  function Pow256(n: nat): (p: int)
    ensures p >= 1
  {
    if n == 0 then 1 else 256 * Pow256(n - 1)
  }

  /** The unsigned big-endian value of a byte string. */
  function Unsigned(s: seq<byte>): (v: nat) {
    if s == [] then 0 else 256 * Unsigned(s[..|s| - 1]) + s[|s| - 1]
  }

  /** The two's complement big-endian value of a byte string; an empty one denotes 0. */
  function Signed(s: seq<byte>): int {
    if s != [] && s[0] >= 128 then Unsigned(s) - Pow256(|s|) else Unsigned(s)
  }

  /** The low n bytes of an integer of either sign, most significant first. */
  function Low(v: int, n: nat): (s: seq<byte>)
    ensures |s| == n
    decreases n
  {
    if n == 0 then [] else Low(v / 256, n - 1) + [v % 256]
  }

  /** Values that fit n bytes of two's complement. */
  predicate Fits(v: int, n: nat)
    requires n > 0
  {
    -128 * Pow256(n - 1) <= v < 128 * Pow256(n - 1)
  }

  lemma {:induction false} UnsignedBound(s: seq<byte>)
    ensures 0 <= Unsigned(s) < Pow256(|s|)
  {
    if s != [] {
      UnsignedBound(s[..|s| - 1]);
    }
  }

  /** The first byte carries the most significant digit. */
  lemma {:induction false} UnsignedHead(s: seq<byte>)
    requires s != []
    ensures Unsigned(s) == s[0] * Pow256(|s| - 1) + Unsigned(s[1..])
  {
    if |s| == 1 {
      assert s[..0] == [] && s[1..] == [];
      assert s[0] * Pow256(0) == s[0];
    } else {
      var t := s[..|s| - 1];
      UnsignedHead(t);
      assert s[1..][..|s| - 2] == t[1..];
      assert s[0] * Pow256(|s| - 1) == 256 * (s[0] * Pow256(|s| - 2));
    }
  }

  lemma {:induction false} UnsignedAppend(s: seq<byte>, b: byte)
    ensures Unsigned(s + [b]) == 256 * Unsigned(s) + b
  {
    assert (s + [b])[..|s|] == s;
  }

  lemma {:induction false} UnsignedInjective(s: seq<byte>, t: seq<byte>)
    requires |s| == |t| && Unsigned(s) == Unsigned(t)
    ensures s == t
  {
    if s != [] {
      UnsignedInjective(s[..|s| - 1], t[..|t| - 1]);
      assert s == s[..|s| - 1] + [s[|s| - 1]];
      assert t == t[..|t| - 1] + [t[|t| - 1]];
    }
  }

  /** A negative two's complement number starts with a byte of 128 or more. */
  lemma {:induction false} SignedRange(s: seq<byte>)
    requires s != []
    ensures Fits(Signed(s), |s|)
    ensures Signed(s) < 0 <==> s[0] >= 128
  {
    UnsignedHead(s);
    UnsignedBound(s[1..]);
    var p := Pow256(|s| - 1);
    assert Pow256(|s|) == 256 * p;
    MulBounds(s[0], p);
  }

  /** Bounds of a leading digit times its weight. */
  lemma MulBounds(b: byte, p: nat)
    ensures b < 128 ==> 0 <= b * p <= 127 * p
    ensures b >= 128 ==> 128 * p <= b * p <= 255 * p
  {
  }

  lemma {:induction false} SignedAppend(s: seq<byte>, b: byte)
    requires s != []
    ensures Signed(s + [b]) == 256 * Signed(s) + b
  {
    UnsignedAppend(s, b);
  }

  lemma {:induction false} SignedInjective(s: seq<byte>, t: seq<byte>)
    requires |s| == |t| && Signed(s) == Signed(t)
    ensures s == t
  {
    if s != [] {
      SignedRange(s);
      SignedRange(t);
      UnsignedInjective(s, t);
    }
  }

  /** Writing an integer into n bytes and reading it back gives the integer modulo 256^n. */
  lemma {:induction false} UnsignedLow(v: int, n: nat)
    requires 0 <= v < Pow256(n)
    ensures Unsigned(Low(v, n)) == v
    decreases n
  {
    if n > 0 {
      UnsignedLow(v / 256, n - 1);
      UnsignedAppend(Low(v / 256, n - 1), v % 256);
    }
  }

  /** Reading back a two's complement field recovers the number exactly when it fits the field. */
  lemma {:induction false} SignedLow(v: int, n: nat)
    requires n > 0
    ensures Signed(Low(v, n)) == v <==> Fits(v, n)
  {
    SignedRange(Low(v, n));
    if Fits(v, n) {
      SignedLowFits(v, n);
    }
  }

  lemma {:induction false} SignedLowFits(v: int, n: nat)
    requires n > 0 && Fits(v, n)
    ensures Signed(Low(v, n)) == v
    decreases n
  {
    hide Signed;
    if n == 1 {
      assert Low(v, 1) == [v % 256];
      SignedByte(v % 256);
    } else {
      assert Fits(v / 256, n - 1);
      SignedLowFits(v / 256, n - 1);
      SignedAppend(Low(v / 256, n - 1), v % 256);
    }
  }

  lemma SignedByte(b: byte)
    ensures Signed([b]) == if b < 128 then b else b - 256
  {
    UnsignedAppend([], b);
  }
}
