/** `Integer.multiply` and `Integer.fromString` as the source runs them, and what they compute. */
module IntegerText {
  import opened Bytes
  import opened Words
  import opened IntegerArithmetic
  import opened IntegerMultiplication
  import opened Digits

  // ---------------------------------------------------------------- the loops

  /** `carry16`. */
  method Carry16(bits: array<int>, index: nat)
    requires index + 1 < bits.Length && NonNegative(bits[..])
    modifies bits
    ensures bits[..] == Carry(old(bits[..]), index)
  {
    ghost var before := bits[..];
    assert before[index] < 65536 ==> Carry(before, index) == before;
    while bits[index] % 65536 != bits[index]
      invariant 0 <= bits[index]
      invariant (bits[..] == before && before[index] >= 65536) || bits[..] == Carry(before, index)
      decreases bits[index]
    {
      bits[index + 1] := bits[index + 1] + bits[index] % BASE / 65536;
      bits[index] := bits[index] % 65536;
      assert bits[..] == Carry(before, index);
    }
  }

  /** `arr[k] += x` followed by its carry. */
  method AddToCell(arr: array<int>, k: nat, x: nat, ghost s: State)
    requires k + 1 < arr.Length && arr[..] == s.cells && NonNegative(s.cells)
    modifies arr
    ensures arr[..] == Accumulate(s, k, x).cells
  {
    arr[k] := arr[k] + x;
    assert arr[..] == s.cells[k := s.cells[k] + x];
    Carry16(arr, k);
  }

  /** The body of the inner loop. */
  method AddPieceProduct(arr: array<int>, k: nat, u: nat, v: nat, ghost s: State)
    requires k + 3 < arr.Length && arr[..] == s.cells && NonNegative(s.cells) && u < BASE && v < BASE
    modifies arr
    ensures arr[..] == PieceProduct(s, k, u, v).cells
  {
    hide Accumulate;
    var a1, a0, b1, b0 := Half(u), u % 65536, Half(v), v % 65536;
    ghost var s1 := Accumulate(s, k, a0 * b0);
    ghost var s2 := Accumulate(s1, k + 1, a1 * b0);
    ghost var s3 := Accumulate(s2, k + 1, a0 * b1);
    AddToCell(arr, k, a0 * b0, s);
    AddToCell(arr, k + 1, a1 * b0, s1);
    AddToCell(arr, k + 1, a0 * b1, s2);
    AddToCell(arr, k + 2, a1 * b1, s3);
  }

  function Start(xs: seq<int32>, ys: seq<int32>): (s: State)
    ensures |s.cells| == 2 * (|xs| + |ys|) && NonNegative(s.cells)
  {
    State(seq(2 * (|xs| + |ys|), i => 0), 0)
  }

  /** The double loop over the pieces of both operands. */
  method MultiplyCells(xs: seq<int32>, ys: seq<int32>) returns (arr: array<int>)
    ensures fresh(arr) && arr[..] == Run(Start(xs, ys), xs, ys, 0, 0).cells
  {
    hide PieceProduct;
    arr := new int[2 * (|xs| + |ys|)](i => 0);
    ghost var s := Start(xs, ys);
    assert arr[..] == s.cells;
    for i := 0 to |xs|
      invariant arr[..] == s.cells && |s.cells| == 2 * (|xs| + |ys|) && NonNegative(s.cells)
      invariant Run(Start(xs, ys), xs, ys, 0, 0) == Run(s, xs, ys, i, 0)
    {
      for j := 0 to |ys|
        invariant arr[..] == s.cells && |s.cells| == 2 * (|xs| + |ys|) && NonNegative(s.cells)
        invariant Run(Start(xs, ys), xs, ys, 0, 0) == Run(s, xs, ys, i, j)
      {
        var k := 2 * i + 2 * j;
        AddPieceProduct(arr, k, Uint32(xs[i]), Uint32(ys[j]), s);
        s := PieceProduct(s, k, Uint32(xs[i]), Uint32(ys[j]));
      }
    }
  }

  /** Joins the 16-bit cells into words in place, then clears the upper half. */
  method CombineCells(arr: array<int>, len: nat)
    requires arr.Length == 2 * len && Normal(arr[..])
    modifies arr
    ensures arr[..len] == Paired(old(arr[..]))
    ensures forall i :: len <= i < 2 * len ==> arr[i] == 0
  {
    ghost var cells := arr[..];
    for i := 0 to len
      invariant forall k :: 0 <= k < i ==> arr[k] == Paired(cells)[k]
      invariant forall k :: i <= k < 2 * len ==> arr[k] == cells[k]
    {
      PairedAt(cells, i);
      assert cells[2 * i] == arr[2 * i] && cells[2 * i + 1] == arr[2 * i + 1];
      arr[i] := Combine(arr[2 * i + 1], arr[2 * i]);
    }
    for i := len to 2 * len
      invariant forall k :: 0 <= k < len ==> arr[k] == Paired(cells)[k]
      invariant forall k :: len <= k < i ==> arr[k] == 0
    {
      arr[i] := 0;
    }
  }

  /** The product of two non-negative Integers by cells: short of the true product by what the
      carries dropped. */
  method MultiplyPieces(x: Integer, y: Integer) returns (r: Integer)
    requires Valid(x) && Valid(y) && x.sign == 0 && y.sign == 0
    ensures Valid(r)
    ensures Value(r) == Value(x) * Value(y) - Run(Start(x.bits, y.bits), x.bits, y.bits, 0, 0).dropped
  {
    hide Run;
    var arr := MultiplyCells(x.bits, y.bits);
    ghost var cells := arr[..];
    ProductOfPieces(x.bits, y.bits);
    CombineCells(arr, |x.bits| + |y.bits|);
    var ws := arr[..];
    PaddedMagnitude(ws, Paired(cells));
    PairedValue(cells);
    r := New(ws, 0);
  }

  lemma {:induction false} ProductOfPieces(xs: seq<int32>, ys: seq<int32>)
    ensures var r := Run(Start(xs, ys), xs, ys, 0, 0);
            Normal(r.cells) && CellValue(r.cells) == Magnitude(xs) * Magnitude(ys) - r.dropped
  {
    hide Run;
    RunIsNormal(Start(xs, ys), xs, ys, 0, 0);
    RunTotal(Start(xs, ys), xs, ys, 0, 0);
    RemainingIsProduct(xs, ys, 0);
    ZeroCells(Start(xs, ys).cells);
    assert xs[0..] == xs;
    UnitWeight(Magnitude(xs) * Magnitude(ys));
  }

  lemma UnitWeight(m: int)
    ensures m * Pow16(0) == m
  {
  }

  lemma {:induction false} PaddedMagnitude(bits: seq<int>, ws: seq<int32>)
    requires |ws| <= |bits| && bits[..|ws|] == ws
    requires forall i :: |ws| <= i < |bits| ==> bits[i] == 0
    ensures RawValue(Int32s(bits), 0) == Magnitude(ws)
  {
    if |bits| == |ws| {
      assert forall i :: 0 <= i < |bits| ==> bits[i] == ws[i];
      assert Int32s(bits) == ws;
    } else {
      var shorter := bits[..|bits| - 1];
      PaddedMagnitude(shorter, ws);
      assert bits == shorter + [0];
      Int32sAppend(shorter, 0);
      DropSignWord(Int32s(shorter), 0);
    }
  }

  // ---------------------------------------------------------------- multiply

  const TWO_PWR_24: int := 0x100_0000

  function Abs(n: int): nat {
    if n < 0 then -n else n
  }

  /** What the product of two magnitudes loses to dropped carries. */
  function Deficit(m: nat, n: nat): nat {
    if m == 0 || n == 0 || (m < TWO_PWR_24 && n < TWO_PWR_24) then 0
    else Run(Start(WordsOf(m), WordsOf(n)), WordsOf(m), WordsOf(n), 0, 0).dropped
  }

  /** What `multiply` returns for two integers. */
  function Product(a: int, b: int): int {
    var m := Abs(a) * Abs(b) - Deficit(Abs(a), Abs(b));
    if (a < 0) == (b < 0) then m else -m
  }

  /** The value of a non-negative Integer as a Number; exact below 2^53, and only used below 2^24. */
  method ToNumber(x: Integer) returns (n: int)
    requires Valid(x) && x.sign == 0
    ensures n == Value(x)
  {
    n := 0;
    var pow := 1;
    for i := 0 to |x.bits|
      invariant pow == Pow32(i) && n == Magnitude(x.bits[..i])
    {
      assert x.bits[..i + 1] == x.bits[..i] + [x.bits[i]];
      MagnitudeAppend(x.bits[..i], x.bits[i]);
      n := n + Uint32(x.bits[i]) * pow;
      pow := pow * BASE;
    }
    assert x.bits[..|x.bits|] == x.bits;
  }

  /** `multiply`: the product of the magnitudes less the deficit, with the sign of the product. */
  method Multiply(x: Integer, y: Integer) returns (r: Integer)
    requires Valid(x) && Valid(y)
    ensures Valid(r)
    ensures Value(r) == Product(Value(x), Value(y))
    decreases x.sign == -1, y.sign == -1
  {
    hide Value, Deficit, Product;
    SignOfValue(x);
    SignOfValue(y);
    var xZero := IsZero(x);
    var yZero := IsZero(y);
    if xZero || yZero {
      ZeroIsValid();
      return ZERO;
    }
    if x.sign == -1 {
      var nx := Negate(x);
      SignOfValue(nx);
      if y.sign == -1 {
        var ny := Negate(y);
        SignOfValue(ny);
        r := Multiply(nx, ny);
      } else {
        var p := Multiply(nx, y);
        r := Negate(p);
      }
    } else if y.sign == -1 {
      var ny := Negate(y);
      SignOfValue(ny);
      var p := Multiply(x, ny);
      r := Negate(p);
    } else {
      r := MultiplyNatural(x, y);
    }
    ProductSigns(Value(x), Value(y));
  }

  lemma ProductSigns(a: int, b: int)
    ensures a != 0 && b != 0 ==> Product(-a, b) == -Product(a, b) && Product(a, -b) == -Product(a, b)
    ensures a != 0 && b != 0 ==> Product(-a, -b) == Product(a, b)
    ensures a > 0 && b > 0 ==> Product(a, b) == a * b - Deficit(a, b)
  {
    hide Deficit;
  }

  lemma ZeroIsValid()
    ensures Valid(ZERO) && Value(ZERO) == 0
    ensures forall a, b :: a == 0 || b == 0 ==> Product(a, b) == 0
  {
  }

  method MultiplyNatural(x: Integer, y: Integer) returns (r: Integer)
    requires Valid(x) && Valid(y) && x.sign == 0 && y.sign == 0 && Value(x) != 0 && Value(y) != 0
    ensures Valid(r)
    ensures Value(r) == Value(x) * Value(y) - Deficit(Value(x), Value(y))
  {
    var limit := FromNumber(TWO_PWR_24);
    var cx := Compare(x, limit);
    var cy := Compare(y, limit);
    if cx < 0 && cy < 0 {
      var nx := ToNumber(x);
      var ny := ToNumber(y);
      r := FromNumber(nx * ny);
    } else {
      WordsOfIsUnique(x.bits);
      WordsOfIsUnique(y.bits);
      r := MultiplyPieces(x, y);
    }
  }

  // ---------------------------------------------------------------- when multiplication is exact

  /** The product of the magnitudes takes the loops, and in them no cell reaches 2^32. */
  ghost predicate LoopFits(m: nat, n: nat) {
    var xs, ys := WordsOf(m), WordsOf(n);
    CellsFit(Start(xs, ys).cells, xs, ys, 0, 0)
  }

  /** multiply is exact exactly when an operand is zero, both are below 2^24, or no cell reaches 2^32. */
  lemma {:induction false} ExactExactly(a: int, b: int)
    ensures Product(a, b) == a * b
      <==> a == 0 || b == 0 || (Abs(a) < TWO_PWR_24 && Abs(b) < TWO_PWR_24) || LoopFits(Abs(a), Abs(b))
  {
    DeficitExactly(Abs(a), Abs(b));
    hide Deficit, LoopFits;
    SignedMultiple(a, b);
  }

  lemma {:induction false} DeficitExactly(m: nat, n: nat)
    ensures Deficit(m, n) == 0 <==> m == 0 || n == 0 || (m < TWO_PWR_24 && n < TWO_PWR_24) || LoopFits(m, n)
  {
    hide Run, CellsFit;
    var xs, ys := WordsOf(m), WordsOf(n);
    NothingDroppedExactly(Start(xs, ys), xs, ys, 0, 0);
  }

  /** multiply is exact when no 32-bit piece of |a| has an upper half of 0xfffe or more, or no 16-bit half of |b| is
      that large. */
  lemma {:induction false} LowHalvesAreExact(a: int, b: int)
    requires UpperHalvesLow(WordsOf(Abs(a))) || HalvesLow(WordsOf(Abs(b)))
    ensures Product(a, b) == a * b
  {
    var xs, ys := WordsOf(Abs(a)), WordsOf(Abs(b));
    hide CellsFit, Product, UpperHalvesLow, HalvesLow, WordsOf;
    LowHalvesFit(Start(xs, ys), xs, ys, 0, 0);
    ExactExactly(a, b);
  }

  lemma SignedMultiple(a: int, b: int)
    ensures a * b == if (a < 0) == (b < 0) then Abs(a) * Abs(b) else -(Abs(a) * Abs(b))
  {
  }

  /** Nothing is dropped when either magnitude is below 2^32. */
  lemma {:induction false} SmallOperandIsExact(a: int, b: int)
    requires Abs(a) < BASE || Abs(b) < BASE
    ensures Product(a, b) == a * b
  {
    SignedMultiple(a, b);
    var m, n := Abs(a), Abs(b);
    if Deficit(m, n) != 0 {
      var xs, ys := WordsOf(m), WordsOf(n);
      assert |xs| == 1 || |ys| == 1;
      OnePieceDropsNothing(Start(xs, ys), xs, ys, 0, 0);
    }
  }

  // ---------------------------------------------------------------- fromString

  /** `parseInt(text, 10)`: the longest digit prefix; NaN, when there is none, becomes 0. */
  function ParseInt(s: string): nat {
    Decimal(DigitPrefix(s))
  }

  function DigitPrefix(s: string): (p: string)
    ensures AllDigits(p)
    ensures AllDigits(s) ==> p == s
  {
    if s == "" || !IsDigit(s[0]) then ""
    else
      assert AllDigits(s) ==> AllDigits(s[1..]);
      [s[0]] + DigitPrefix(s[1..])
  }

  /** What a decimal text denotes: digits, negated once for every leading minus. */
  function Denoted(s: string): Result<int> {
    if s == "" then Err
    else if s[0] == '-' then
      var r :- Denoted(s[1..]);
      Ok(-r)
    else if AllDigits(s) then Ok(Decimal(s))
    else Err
  }

  /** `fromString` in base ten, eight digits at a time. */
  method FromString(str: string) returns (r: Result<Integer>)
    ensures Denoted(str).Ok? ==> r.Ok? && Valid(r.value) && Value(r.value) == Denoted(str).value
    ensures r.Err? ==> Denoted(str).Err?
    ensures r.Ok? ==> Valid(r.value)
    decreases |str|
  {
    if |str| == 0 {
      return Err;
    }
    if str[0] == '-' {
      var rest := FromString(str[1..]);
      if rest.Err? {
        return Err;
      }
      var n := Negate(rest.value);
      return Ok(n);
    }
    if '-' in str {
      return Err;
    }
    var result := FromDigits(str);
    r := Ok(result);
  }

  method FromDigits(str: string) returns (result: Integer)
    ensures Valid(result)
    ensures AllDigits(str) ==> Value(result) == Decimal(str)
  {
    hide Value, Valid, ParseInt, Product;
    ZeroIsValid();
    result := ZERO;
    var i := 0;
    while i < |str|
      invariant 0 <= i <= |str| && Valid(result)
      invariant AllDigits(str) ==> Value(result) == Decimal(str[..i])
    {
      var size := if |str| - i < 8 then |str| - i else 8;
      var value := ParseInt(str[i..i + size]);
      var power := FromNumber(Pow10(size));
      var scaled := Multiply(result, power);
      var digits := FromNumber(value);
      result := Add(scaled, digits);
      if AllDigits(str) {
        NextChunk(str, i, size, Decimal(str[..i]));
      }
      i := i + size;
    }
    assert str[..|str|] == str;
  }

  lemma {:induction false} NextChunk(str: string, i: nat, size: nat, before: nat)
    requires AllDigits(str) && i + size <= |str| && size <= 8 && before == Decimal(str[..i])
    ensures Product(before, Pow10(size)) + ParseInt(str[i..i + size]) == Decimal(str[..i + size])
  {
    hide Product, Pow10;
    EightDigits(size);
    SmallOperandIsExact(before, Pow10(size));
    DecimalAppend(str[..i], str[i..i + size]);
    assert str[..i] + str[i..i + size] == str[..i + size];
  }

  lemma EightDigits(size: nat)
    requires size <= 8
    ensures 1 <= Pow10(size) <= 100_000_000
  {
    assert Pow10(4) == 10_000 && Pow10(3) == 1000 && Pow10(2) == 100 && Pow10(1) == 10;
    assert Pow10(8) == 10_000 * Pow10(4) && Pow10(7) == 10_000 * Pow10(3);
    assert Pow10(6) == 10_000 * Pow10(2) && Pow10(5) == 10_000 * Pow10(1);
  }

  lemma CellStep(s: State, k: nat, x: nat, lo: nat, hi: nat)
    requires k + 1 < |s.cells| && NonNegative(s.cells) && lo < 65536 && hi < 65536
    requires s.cells[k] + x == 65536 * hi + lo
    ensures Accumulate(s, k, x).cells == s.cells[k := lo][k + 1 := s.cells[k + 1] + hi]
  {
  }

  /** The three turns of the loop that lead to the first dropped carry. */
  lemma {:induction false} FirstTurn(d: nat)
    ensures PieceProduct(State([0, 0, 0, 0, 0, 0, 0, 0], d), 0, 0x8000_0000, 0xFFFF_FFFF).cells
         == [0, 0x8000, 0xffff, 0x7fff, 0, 0, 0, 0]
  {
    var s := State([0, 0, 0, 0, 0, 0, 0, 0], d);
    hide Accumulate;
    CellStep(s, 0, 0, 0, 0);
    var s1 := Accumulate(s, 0, 0);
    assert s1.cells == [0, 0, 0, 0, 0, 0, 0, 0];
    CellStep(s1, 1, 0x8000 * 0xffff, 0x8000, 0x7fff);
    var s2 := Accumulate(s1, 1, 0x8000 * 0xffff);
    assert s2.cells == [0, 0x8000, 0x7fff, 0, 0, 0, 0, 0];
    CellStep(s2, 1, 0, 0x8000, 0);
    var s3 := Accumulate(s2, 1, 0);
    assert s3.cells == [0, 0x8000, 0x7fff, 0, 0, 0, 0, 0];
    CellStep(s3, 2, 0x8000 * 0xffff, 0xffff, 0x7fff);
    var s4 := Accumulate(s3, 2, 0x8000 * 0xffff);
    assert s4.cells == [0, 0x8000, 0xffff, 0x7fff, 0, 0, 0, 0];
  }

  lemma {:induction false} SecondTurn(d: nat)
    ensures PieceProduct(State([0, 0x8000, 0xffff, 0x7fff, 0, 0, 0, 0], d), 2, 0x8000_0000, 0xFFFF_FFFF).cells
         == [0, 0x8000, 0xffff, 0xffff, 0xffff, 0x7fff, 0, 0]
  {
    var s := State([0, 0x8000, 0xffff, 0x7fff, 0, 0, 0, 0], d);
    hide Accumulate;
    CellStep(s, 2, 0, 0xffff, 0);
    var s1 := Accumulate(s, 2, 0);
    assert s1.cells == [0, 0x8000, 0xffff, 0x7fff, 0, 0, 0, 0];
    CellStep(s1, 3, 0x8000 * 0xffff, 0xffff, 0x7fff);
    var s2 := Accumulate(s1, 3, 0x8000 * 0xffff);
    assert s2.cells == [0, 0x8000, 0xffff, 0xffff, 0x7fff, 0, 0, 0];
    CellStep(s2, 3, 0, 0xffff, 0);
    var s3 := Accumulate(s2, 3, 0);
    assert s3.cells == [0, 0x8000, 0xffff, 0xffff, 0x7fff, 0, 0, 0];
    CellStep(s3, 4, 0x8000 * 0xffff, 0xffff, 0x7fff);
    var s4 := Accumulate(s3, 4, 0x8000 * 0xffff);
    assert s4.cells == [0, 0x8000, 0xffff, 0xffff, 0xffff, 0x7fff, 0, 0];
  }

  lemma {:induction false} ThirdTurn(d: nat)
    ensures PieceProduct(State([0, 0x8000, 0xffff, 0xffff, 0xffff, 0x7fff, 0, 0], d), 2, 0xFFFF_FFFF,
                         0xFFFF_FFFF).dropped > 0
  {
    var s := State([0, 0x8000, 0xffff, 0xffff, 0xffff, 0x7fff, 0, 0], d);
    var s1 := Accumulate(s, 2, 0xffff * 0xffff);
    assert s1.cells == [0, 0x8000, 0, 0x1fffe, 0xffff, 0x7fff, 0, 0];
    var s2 := Accumulate(s1, 3, 0xffff * 0xffff);
    assert s2.cells == [0, 0x8000, 0, 0xffff, 0x1fffe, 0x7fff, 0, 0];
    var s3 := Accumulate(s2, 3, 0xffff * 0xffff);
    assert s3.cells[4] == 0x2fffd;
    StepDrops(s3, 4, 0xffff * 0xffff);
  }

  /** The shortfall is real: the product of 0xFFFFFFFF80000000 and 0xFFFFFFFFFFFFFFFF is wrong. */
  lemma {:induction false} MultiplyCanBeWrong()
    ensures Product(0xFFFF_FFFF_8000_0000, 0xFFFF_FFFF_FFFF_FFFF) != 0xFFFF_FFFF_8000_0000 * 0xFFFF_FFFF_FFFF_FFFF
  {
    hide PieceProduct;
    SignedMultiple(0xFFFF_FFFF_8000_0000, 0xFFFF_FFFF_FFFF_FFFF);
    var xs, ys := WitnessWords();
    var s0 := Start(xs, ys);
    assert s0.cells == [0, 0, 0, 0, 0, 0, 0, 0];
    FirstTurn(0);
    var s1 := PieceProduct(s0, 0, 0x8000_0000, 0xFFFF_FFFF);
    SecondTurn(s1.dropped);
    var s2 := PieceProduct(s1, 2, 0x8000_0000, 0xFFFF_FFFF);
    ThirdTurn(s2.dropped);
    var s3 := PieceProduct(s2, 2, 0xFFFF_FFFF, 0xFFFF_FFFF);
    NothingDroppedExactly(s3, xs, ys, 1, 1);
    assert Run(s1, xs, ys, 0, 1) == Run(s2, xs, ys, 0, 2) == Run(s2, xs, ys, 1, 0) == Run(s3, xs, ys, 1, 1);
  }

  lemma {:induction false} WitnessWords() returns (xs: seq<int32>, ys: seq<int32>)
    ensures xs == [-0x8000_0000, -1] == WordsOf(0xFFFF_FFFF_8000_0000)
    ensures ys == [-1, -1] == WordsOf(0xFFFF_FFFF_FFFF_FFFF)
  {
    xs, ys := [-0x8000_0000, -1], [-1, -1];
    assert xs[1..] == [-1] && ys[1..] == [-1];
    assert Magnitude([-1]) == 0xFFFF_FFFF;
    WordsOfIsUnique(xs);
    WordsOfIsUnique(ys);
  }
}
