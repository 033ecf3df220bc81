/** The driver's hand-written arbitrary precision `Integer` (lib/types/integer.js): construction,
    addition, negation, subtraction and comparison, all exact over unbounded integers. */
module IntegerArithmetic {
  import opened Words

  /** 32-bit pieces, lowest first, continued to infinity by the sign (0 or -1). */
  datatype Integer = Integer(bits: seq<int32>, sign: int32)

  /** What the constructor establishes: the sign is 0 or -1 and the top piece is not redundant. */
  predicate Valid(x: Integer) {
    && (x.sign == 0 || x.sign == -1)
    && (x.bits != [] ==> x.bits[|x.bits| - 1] != x.sign)
  }

  /** The integer that an Integer denotes. */
  function Value(x: Integer): int {
    RawValue(x.bits, x.sign)
  }

  function Int32s(bits: seq<int>): (ws: seq<int32>)
    ensures |ws| == |bits|
  {
    seq(|bits|, i requires 0 <= i < |bits| => ToInt32(bits[i]))
  }

  /** The constructor: copies the pieces and prunes those at the top that equal the sign. */
  method New(bits: seq<int>, sign: int32) returns (r: Integer)
    requires sign == 0 || sign == -1
    ensures Valid(r) && r.sign == sign
    ensures Value(r) == RawValue(Int32s(bits), sign)
  {
    ghost var ws := Int32s(bits);
    var kept: seq<int32> := [];
    var top := true;
    var i := |bits|;
    assert ws[..i] + kept == ws;
    while i > 0
      invariant 0 <= i <= |bits|
      invariant top <==> kept == []
      invariant kept != [] ==> kept[|kept| - 1] != sign
      invariant RawValue(ws[..i] + kept, sign) == RawValue(ws, sign)
      invariant !top ==> i + |kept| <= |bits|
    {
      i := i - 1;
      var val := ToInt32(bits[i]);
      assert ws[..i + 1] == ws[..i] + [val];
      if !top || val != sign {
        assert ws[..i + 1] + kept == ws[..i] + ([val] + kept);
        kept := [val] + kept;
        top := false;
      } else {
        assert ws[..i + 1] + kept == ws[..i] + [val];
        assert ws[..i] + kept == ws[..i];
        DropSignWord(ws[..i], sign);
      }
    }
    assert ws[..0] + kept == kept;
    r := Integer(kept, sign);
  }

  /** Integers are canonical: equal values are equal representations. */
  lemma {:induction false} ValidIsCanonical(x: Integer, y: Integer)
    requires Valid(x) && Valid(y) && Value(x) == Value(y)
    ensures x == y
  {
    SignOfValue(x);
    SignOfValue(y);
    if |x.bits| <= |y.bits| {
      SameValueSameBits(x, y);
    } else {
      SameValueSameBits(y, x);
    }
  }

  lemma {:induction false} SignOfValue(x: Integer)
    requires Valid(x)
    ensures x.sign == -1 <==> Value(x) < 0
  {
    MagnitudeBound(x.bits);
  }

  lemma {:induction false} SameValueSameBits(x: Integer, y: Integer)
    requires Valid(x) && Valid(y) && x.sign == y.sign && Value(x) == Value(y) && |x.bits| <= |y.bits|
    ensures x.bits == y.bits
  {
    ExtendedValue(x, |y.bits|);
    MagnitudeInjective(Extended(x, |y.bits|), y.bits);
    assert y.bits != [] ==> y.bits[|y.bits| - 1] == GetBits(x, |y.bits| - 1);
    assert forall i :: 0 <= i < |x.bits| ==> y.bits[i] == GetBits(x, i);
  }

  // ---------------------------------------------------------------- pieces beyond the top

  /** `getBits`: pieces beyond the top repeat the sign. */
  function GetBits(x: Integer, index: int): int32 {
    if index < 0 then 0 else if index < |x.bits| then x.bits[index] else x.sign
  }

  function Extended(x: Integer, n: nat): (ws: seq<int32>)
    ensures |ws| == n
  {
    seq(n, i requires 0 <= i < n => GetBits(x, i))
  }

  lemma {:induction false} ExtendedValue(x: Integer, n: nat)
    requires Valid(x) && |x.bits| <= n
    ensures RawValue(Extended(x, n), x.sign) == Value(x)
    decreases n - |x.bits|
  {
    if n == |x.bits| {
      assert Extended(x, n) == x.bits;
    } else {
      ExtendedValueStep(x, n);
    }
  }

  lemma {:induction false} ExtendedValueStep(x: Integer, n: nat)
    requires Valid(x) && |x.bits| < n
    ensures RawValue(Extended(x, n), x.sign) == Value(x)
    decreases n
  {
    assert Extended(x, n) == Extended(x, n - 1) + [x.sign];
    DropSignWord(Extended(x, n - 1), x.sign);
    if n - 1 > |x.bits| {
      ExtendedValueStep(x, n - 1);
    } else {
      assert Extended(x, n - 1) == x.bits;
    }
  }

  // ---------------------------------------------------------------- addition

  /** One 32-bit position of the addition, done on 16-bit halves: the piece and the carry out. */
  function AddPiece(a: int32, b: int32, carry: int): (r: (int32, int))
    requires 0 <= carry <= 1
    ensures 0 <= r.1 <= 1
    ensures Uint32(r.0) + BASE * r.1 == Uint32(a) + Uint32(b) + carry
  {
    var c0 := carry + Uint32(a) % 65536 + Uint32(b) % 65536;
    var c1 := c0 / 65536 + Uint32(a) / 65536 + Uint32(b) / 65536;
    (Combine(c1 % 65536, c0 % 65536), c1 / 65536)
  }

  /** `fromBits`: the sign is that of the top piece. */
  method FromBits(bits: seq<int32>) returns (r: Integer)
    requires bits != []
    ensures Valid(r)
    ensures Value(r) == RawValue(bits, if bits[|bits| - 1] < 0 then -1 else 0)
  {
    assert Int32s(bits) == bits;
    r := New(bits, if bits[|bits| - 1] < 0 then -1 else 0);
  }

  /** n words of two's complement determine a number of that range. */
  lemma {:induction false} TwosComplementIsExact(ws: seq<int32>, v: int)
    requires ws != []
    requires -HALF * Pow32(|ws| - 1) <= v < HALF * Pow32(|ws| - 1)
    requires Magnitude(ws) == v || Magnitude(ws) == v + Pow32(|ws|) || Magnitude(ws) == v - Pow32(|ws|)
    ensures RawValue(ws, if ws[|ws| - 1] < 0 then -1 else 0) == v
  {
    TopWordDecides(ws);
    MagnitudeBound(ws);
    assert Pow32(|ws|) == BASE * Pow32(|ws| - 1);
  }

  method Add(x: Integer, y: Integer) returns (r: Integer)
    requires Valid(x) && Valid(y)
    ensures Valid(r) && Value(r) == Value(x) + Value(y)
  {
    hide Magnitude, Extended, GetBits;
    var len := if |x.bits| > |y.bits| then |x.bits| else |y.bits|;
    var arr: seq<int32> := [];
    var carry := 0;
    NothingAdded(x, y);
    for i := 0 to len + 1
      invariant |arr| == i && 0 <= carry <= 1
      invariant Magnitude(arr) == Magnitude(Extended(x, i)) + Magnitude(Extended(y, i)) - Overflow(carry, Pow32(i))
    {
      var a, b := GetBits(x, i), GetBits(y, i);
      var piece := AddPiece(a, b, carry);
      ExtendOnce(x, i);
      ExtendOnce(y, i);
      MagnitudeAppend(arr, piece.0);
      AddAtWeight(a, b, carry, piece.0, piece.1, Pow32(i));
      arr := arr + [piece.0];
      carry := piece.1;
    }
    SumIsExact(x, y, arr, carry);
    r := FromBits(arr);
  }

  lemma {:induction false} NothingAdded(x: Integer, y: Integer)
    ensures Magnitude([]) == Magnitude(Extended(x, 0)) + Magnitude(Extended(y, 0)) - Overflow(0, Pow32(0))
  {
  }

  function Overflow(carry: int, p: int): int {
    if carry == 1 then p else 0
  }

  lemma {:induction false} ExtendOnce(x: Integer, i: nat)
    ensures Magnitude(Extended(x, i + 1)) == Magnitude(Extended(x, i)) + Uint32(GetBits(x, i)) * Pow32(i)
  {
    assert Extended(x, i + 1) == Extended(x, i) + [GetBits(x, i)];
    MagnitudeAppend(Extended(x, i), GetBits(x, i));
  }

  lemma AddAtWeight(a: int32, b: int32, carry: int, w: int32, c: int, p: nat)
    requires 0 <= carry <= 1 && 0 <= c <= 1
    requires Uint32(w) + BASE * c == Uint32(a) + Uint32(b) + carry
    ensures Uint32(w) * p + Overflow(c, BASE * p) == Uint32(a) * p + Uint32(b) * p + Overflow(carry, p)
  {
    Distribute(Uint32(w), Uint32(a), Uint32(b), carry - BASE * c, p);
    assert (carry - BASE * c) * p == Overflow(carry, p) - Overflow(c, BASE * p);
  }

  lemma Distribute(w: int, a: int, b: int, c: int, p: int)
    requires w == a + b + c
    ensures w * p == a * p + b * p + c * p
  {
  }

  /** One piece more than the longer operand has is enough for the sum. */
  lemma {:induction false} SumIsExact(x: Integer, y: Integer, ws: seq<int32>, over: int)
    requires Valid(x) && Valid(y) && |x.bits| < |ws| && |y.bits| < |ws| && 0 <= over <= 1
    requires Magnitude(ws) == Magnitude(Extended(x, |ws|)) + Magnitude(Extended(y, |ws|)) - Overflow(over, Pow32(|ws|))
    ensures RawValue(ws, if ws[|ws| - 1] < 0 then -1 else 0) == Value(x) + Value(y)
  {
    hide Extended, Magnitude;
    ExtendedValue(x, |ws|);
    ExtendedValue(y, |ws|);
    ValueRange(x, |ws| - 1);
    ValueRange(y, |ws| - 1);
    MagnitudeBound(ws);
    OneWrapAtMost(Value(x), Value(y), Magnitude(Extended(x, |ws|)), Magnitude(Extended(y, |ws|)),
                  Magnitude(ws), Pow32(|ws| - 1), over);
    TwosComplementIsExact(ws, Value(x) + Value(y));
  }

  lemma OneWrapAtMost(vx: int, vy: int, mx: int, my: int, m: int, p: int, over: int)
    requires -p <= vx < p && -p <= vy < p && 0 <= over <= 1
    requires mx == vx || mx == vx + BASE * p
    requires my == vy || my == vy + BASE * p
    requires m == mx + my - Overflow(over, BASE * p) && 0 <= m < BASE * p
    ensures m == vx + vy || m == vx + vy + BASE * p || m == vx + vy - BASE * p
    ensures -HALF * p <= vx + vy < HALF * p
  {
  }

  lemma {:induction false} ValueRange(x: Integer, n: nat)
    requires Valid(x) && |x.bits| <= n
    ensures -Pow32(n) <= Value(x) < Pow32(n)
  {
    MagnitudeBound(x.bits);
    Pow32Monotone(|x.bits|, n);
  }

  lemma {:induction false} Pow32Monotone(m: nat, n: nat)
    requires m <= n
    ensures Pow32(m) <= Pow32(n)
  {
    if m < n {
      Pow32Monotone(m, n - 1);
    }
  }

  // ---------------------------------------------------------------- negation, subtraction, comparison

  function NotBits(ws: seq<int32>): (r: seq<int32>)
    ensures |r| == |ws|
  {
    seq(|ws|, i requires 0 <= i < |ws| => -1 - ws[i])
  }

  lemma {:induction false} NotValue(ws: seq<int32>)
    ensures Magnitude(NotBits(ws)) == Pow32(|ws|) - 1 - Magnitude(ws)
  {
    if ws != [] {
      NotValue(ws[1..]);
      assert NotBits(ws)[1..] == NotBits(ws[1..]);
    }
  }

  method Not(x: Integer) returns (r: Integer)
    requires Valid(x)
    ensures Valid(r) && Value(r) == -Value(x) - 1
  {
    var arr: seq<int32> := [];
    hide Magnitude;
    for i := 0 to |x.bits|
      invariant arr == NotBits(x.bits[..i])
    {
      assert x.bits[..i + 1] == x.bits[..i] + [x.bits[i]];
      arr := arr + [-1 - x.bits[i]];
    }
    assert x.bits[..|x.bits|] == x.bits;
    NotValue(x.bits);
    assert Int32s(arr) == arr;
    r := New(arr, -1 - x.sign);
  }

  const ZERO := Integer([], 0)
  const ONE := Integer([1], 0)

  method Negate(x: Integer) returns (r: Integer)
    requires Valid(x)
    ensures Valid(r) && Value(r) == -Value(x)
  {
    var n := Not(x);
    assert ONE.bits[1..] == [];
    r := Add(n, ONE);
  }

  method Subtract(x: Integer, y: Integer) returns (r: Integer)
    requires Valid(x) && Valid(y)
    ensures Valid(r) && Value(r) == Value(x) - Value(y)
  {
    var n := Negate(y);
    r := Add(x, n);
  }

  method IsZero(x: Integer) returns (zero: bool)
    requires Valid(x)
    ensures zero <==> Value(x) == 0
  {
    SignOfValue(x);
    if x.sign != 0 {
      return false;
    }
    for i := 0 to |x.bits|
      invariant forall k :: 0 <= k < i ==> x.bits[k] == 0
    {
      if x.bits[i] != 0 {
        NonZeroWord(x.bits, i);
        return false;
      }
    }
    ValidIsCanonical(x, ZERO);
    return true;
  }

  lemma {:induction false} NonZeroWord(ws: seq<int32>, i: nat)
    requires i < |ws| && ws[i] != 0
    ensures Magnitude(ws) > 0
  {
    if i > 0 {
      NonZeroWord(ws[1..], i - 1);
    }
  }

  /** `compare`: the sign of the difference. */
  method Compare(x: Integer, y: Integer) returns (order: int)
    requires Valid(x) && Valid(y)
    ensures order == if Value(x) < Value(y) then -1 else if Value(x) == Value(y) then 0 else 1
  {
    var diff := Subtract(x, y);
    SignOfValue(diff);
    var zero := IsZero(diff);
    order := if diff.sign == -1 then -1 else if zero then 0 else 1;
  }

  // ---------------------------------------------------------------- numbers

  /** `fromNumber` on an integral Number, which a double holds exactly. */
  method FromNumber(value: int) returns (r: Integer)
    ensures Valid(r) && Value(r) == value
    decreases value < 0
  {
    if value < 0 {
      var n := FromNumber(-value);
      r := Negate(n);
      return;
    }
    r := FromNatural(value);
  }

  /** The loop of `fromNumber`: piece i is `(value / 2^(32 i)) | 0`. */
  method FromNatural(value: nat) returns (r: Integer)
    ensures Valid(r) && Value(r) == value
  {
    var bits: seq<int> := [];
    var pow := 1;
    var quotient := value;  // floor(value / pow)
    hide WordsOf, Quotient, Int32s, RawValue;
    StartQuotient(value);
    while value >= pow
      invariant pow == Pow32(|bits|) && quotient == Quotient(value, |bits|)
      invariant WordsOf(value) == Int32s(bits) + WordsOf(quotient)
      decreases quotient
    {
      QuotientPositive(value, |bits|);
      QuotientOnce(value, |bits|);
      AppendPiece(bits, quotient);
      bits := bits + [quotient];
      pow := pow * BASE;
      quotient := quotient / BASE;
    }
    QuotientPositive(value, |bits|);
    WordsAreComplete(value, bits);
    r := New(bits, 0);
  }

  lemma StartQuotient(value: nat)
    ensures Quotient(value, 0) == value && WordsOf(value) == Int32s([]) + WordsOf(value)
  {
  }

  lemma WordsAreComplete(value: nat, bits: seq<int>)
    requires WordsOf(value) == Int32s(bits) + WordsOf(0)
    ensures RawValue(Int32s(bits), 0) == value
  {
    assert Int32s(bits) + [] == Int32s(bits);
  }

  /** floor(n / 2^(32 i)) */
  function Quotient(n: nat, i: nat): nat
    decreases i
  {
    if i == 0 then n else Quotient(n / BASE, i - 1)
  }

  lemma {:induction false} QuotientOnce(n: nat, i: nat)
    ensures Quotient(n, i + 1) == Quotient(n, i) / BASE
    decreases i
  {
    if i > 0 {
      QuotientOnce(n / BASE, i - 1);
    }
  }

  lemma {:induction false} QuotientPositive(n: nat, i: nat)
    ensures n >= Pow32(i) <==> Quotient(n, i) > 0
    decreases i
  {
    if i > 0 {
      QuotientPositive(n / BASE, i - 1);
    }
  }

  lemma {:induction false} AppendPiece(bits: seq<int>, rest: nat)
    requires rest > 0
    ensures Int32s(bits) + WordsOf(rest) == Int32s(bits + [rest]) + WordsOf(rest / BASE)
  {
    hide ToInt32, Int32s, WordsOf;
    SameLowWord(rest);
    Int32sAppend(bits, rest);
    WordsOfOnce(rest);
  }

  lemma WordsOfOnce(n: nat)
    requires n > 0
    ensures WordsOf(n) == [ToInt32(n % BASE)] + WordsOf(n / BASE)
  {
  }

  lemma Int32sAppend(bits: seq<int>, x: int)
    ensures Int32s(bits + [x]) == Int32s(bits) + [ToInt32(x)]
  {
    hide ToInt32;
  }

  lemma SameLowWord(x: int)
    ensures ToInt32(x) == ToInt32(x % BASE)
  {
  }
}
