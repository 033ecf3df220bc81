/** `Integer.multiply` (lib/types/integer.js): schoolbook multiplication on 16-bit cells.

    `carry16` carries once and never advances, so the cell it carries into can grow past 16 bits and,
    on a later turn, past 32 bits, where `>>> 16` drops what does not fit. The model keeps account of
    what is dropped: the product is exact exactly when nothing is, and nothing is whenever one operand
    is below 2^32. */
module IntegerMultiplication {
  import opened Words
  import Arithmetic

  // ---------------------------------------------------------------- one carry

  predicate NonNegative(cells: seq<int>) {
    forall c :: 0 <= c < |cells| ==> cells[c] >= 0
  }

  /** What one turn of `carry16` leaves; a cell below 2^16 is left alone. */
  function Carry(cells: seq<int>, k: nat): seq<int>
    requires k + 1 < |cells|
  {
    cells[k := cells[k] % 65536][k + 1 := cells[k + 1] + cells[k] % BASE / 65536]
  }

  /** Add x to cell k, then carry. */
  function AddTo(cells: seq<int>, k: nat, x: nat): (r: seq<int>)
    requires k + 1 < |cells| && NonNegative(cells)
    ensures |r| == |cells| && NonNegative(r)
    ensures r[k] < 65536 && cells[k + 1] <= r[k + 1] <= cells[k + 1] + 65535
    ensures forall c :: 0 <= c < |cells| && c != k && c != k + 1 ==> r[c] == cells[c]
  {
    Carry(cells[k := cells[k] + x], k)
  }

  /** What the carry drops from cell k: the multiple of 2^32 in it. */
  function Dropped(cells: seq<int>, k: nat, x: nat): (d: nat)
    requires k < |cells| && NonNegative(cells)
    ensures d == 0 <==> cells[k] + x < BASE
  {
    cells[k] + x - (cells[k] + x) % BASE
  }

  lemma {:induction false} AddToValue(cells: seq<int>, k: nat, x: nat)
    requires k + 1 < |cells| && NonNegative(cells)
    ensures CellValue(AddTo(cells, k, x)) + Dropped(cells, k, x) * Pow16(k) == CellValue(cells) + x * Pow16(k)
  {
    hide CellValue, Pow16;
    var c := cells[k] + x;
    var c1 := cells[k := c];
    var c2 := c1[k := c % 65536];
    CellUpdate(cells, k, c);
    CellUpdate(c1, k, c % 65536);
    CellUpdate(c2, k + 1, cells[k + 1] + c % BASE / 65536);
    HalvesOf(c);
    assert Pow16(k + 1) == 65536 * Pow16(k) by { Pow16Once(k); }
    Account(c, x, c % 65536, c % BASE / 65536, Dropped(cells, k, x), Pow16(k));
  }

  lemma HalvesOf(c: nat)
    ensures c % BASE == 65536 * (c % BASE / 65536) + c % 65536
  {
  }

  lemma Pow16Once(k: nat)
    ensures Pow16(k + 1) == 65536 * Pow16(k)
  {
  }

  lemma Account(c: int, x: int, lo: int, hi: int, dropped: int, p: int)
    requires dropped == c - (65536 * hi + lo)
    ensures x * p + (lo - c) * p + hi * (65536 * p) + dropped * p == x * p
  {
    assert hi * (65536 * p) == 65536 * hi * p;
    assert (lo - c) * p + 65536 * hi * p + dropped * p == (lo - c + 65536 * hi + dropped) * p;
  }

  // ---------------------------------------------------------------- one pair of pieces

  /** The cells and, for the account, the total weight dropped so far. */
  datatype State = State(cells: seq<int>, dropped: nat)

  function Total(s: State): int {
    CellValue(s.cells) + s.dropped
  }

  function Accumulate(s: State, k: nat, x: nat): (r: State)
    requires k + 1 < |s.cells| && NonNegative(s.cells)
    ensures |r.cells| == |s.cells| && NonNegative(r.cells)
  {
    assert Dropped(s.cells, k, x) * Pow16(k) >= 0;
    State(AddTo(s.cells, k, x), s.dropped + Dropped(s.cells, k, x) * Pow16(k))
  }

  lemma {:induction false} AccumulateTotal(s: State, k: nat, x: nat)
    requires k + 1 < |s.cells| && NonNegative(s.cells)
    ensures Total(Accumulate(s, k, x)) == Total(s) + x * Pow16(k)
  {
    AddToValue(s.cells, k, x);
  }

  function Half(u: nat): (h: nat)
    requires u < BASE
    ensures h < 65536 && u == 65536 * h + u % 65536
  {
    u / 65536
  }

  /** The body of the inner loop: the four partial products of two 32-bit pieces. */
  function PieceProduct(s: State, k: nat, u: nat, v: nat): (r: State)
    requires k + 3 < |s.cells| && NonNegative(s.cells) && u < BASE && v < BASE
    ensures |r.cells| == |s.cells| && NonNegative(r.cells)
  {
    Arithmetic.Scaled(0, u % 65536, v % 65536);
    Arithmetic.Scaled(0, Half(u), v % 65536);
    Arithmetic.Scaled(0, u % 65536, Half(v));
    Arithmetic.Scaled(0, Half(u), Half(v));
    var s1 := Accumulate(s, k, u % 65536 * (v % 65536));
    var s2 := Accumulate(s1, k + 1, Half(u) * (v % 65536));
    var s3 := Accumulate(s2, k + 1, u % 65536 * Half(v));
    Accumulate(s3, k + 2, Half(u) * Half(v))
  }

  lemma {:induction false} PieceTotal(s: State, k: nat, u: nat, v: nat)
    requires k + 3 < |s.cells| && NonNegative(s.cells) && u < BASE && v < BASE
    ensures Total(PieceProduct(s, k, u, v)) == Total(s) + u * v * Pow16(k)
  {
    hide Accumulate, Total, CellValue;
    var a1, a0, b1, b0 := Half(u), u % 65536, Half(v), v % 65536;
    var s1 := Accumulate(s, k, a0 * b0);
    var s2 := Accumulate(s1, k + 1, a1 * b0);
    var s3 := Accumulate(s2, k + 1, a0 * b1);
    AccumulateTotal(s, k, a0 * b0);
    AccumulateTotal(s1, k + 1, a1 * b0);
    AccumulateTotal(s2, k + 1, a0 * b1);
    AccumulateTotal(s3, k + 2, a1 * b1);
    FourProducts(a1, a0, b1, b0, Pow16(k));
  }

  lemma FourProducts(a1: nat, a0: nat, b1: nat, b0: nat, p: nat)
    ensures a0 * b0 * p + a1 * b0 * (65536 * p) + a0 * b1 * (65536 * p) + a1 * b1 * (65536 * (65536 * p))
         == (65536 * a1 + a0) * (65536 * b1 + b0) * p
  {
    var x, y, z, w := a0 * b0, a1 * b0, a0 * b1, a1 * b1;
    assert (65536 * a1 + a0) * (65536 * b1 + b0) == 65536 * 65536 * w + 65536 * z + 65536 * y + x;
    Spread(x, y, z, w, p);
  }

  lemma Spread(x: nat, y: nat, z: nat, w: nat, p: nat)
    ensures x * p + y * (65536 * p) + z * (65536 * p) + w * (65536 * (65536 * p))
         == (65536 * 65536 * w + 65536 * z + 65536 * y + x) * p
  {
  }

  // ---------------------------------------------------------------- the whole run

  /** The remaining iterations of the double loop, from pieces i and j on. */
  function Run(s: State, xs: seq<int32>, ys: seq<int32>, i: nat, j: nat): (r: State)
    requires |s.cells| == 2 * (|xs| + |ys|) && NonNegative(s.cells) && i <= |xs| && j <= |ys|
    ensures |r.cells| == |s.cells| && NonNegative(r.cells)
    decreases |xs| - i, |ys| - j
  {
    if i == |xs| then s
    else if j == |ys| then Run(s, xs, ys, i + 1, 0)
    else Run(PieceProduct(s, 2 * i + 2 * j, Uint32(xs[i]), Uint32(ys[j])), xs, ys, i, j + 1)
  }

  /** The products still to come. */
  function Remaining(xs: seq<int32>, ys: seq<int32>, i: nat, j: nat): int
    requires i <= |xs| && j <= |ys|
    decreases |xs| - i, |ys| - j
  {
    if i == |xs| then 0
    else if j == |ys| then Remaining(xs, ys, i + 1, 0)
    else Uint32(xs[i]) * Uint32(ys[j]) * Pow16(2 * i + 2 * j) + Remaining(xs, ys, i, j + 1)
  }

  lemma {:induction false} RunTotal(s: State, xs: seq<int32>, ys: seq<int32>, i: nat, j: nat)
    requires |s.cells| == 2 * (|xs| + |ys|) && NonNegative(s.cells) && i <= |xs| && j <= |ys|
    ensures Total(Run(s, xs, ys, i, j)) == Total(s) + Remaining(xs, ys, i, j)
    decreases |xs| - i, |ys| - j
  {
    hide PieceProduct, Total;
    if i < |xs| {
      if j == |ys| {
        RunTotal(s, xs, ys, i + 1, 0);
      } else {
        PieceTotal(s, 2 * i + 2 * j, Uint32(xs[i]), Uint32(ys[j]));
        RunTotal(PieceProduct(s, 2 * i + 2 * j, Uint32(xs[i]), Uint32(ys[j])), xs, ys, i, j + 1);
      }
    }
  }

  /** The double sum is the product. */
  lemma {:induction false} RemainingIsProduct(xs: seq<int32>, ys: seq<int32>, i: nat)
    requires i <= |xs|
    ensures Remaining(xs, ys, i, 0) == Magnitude(xs[i..]) * Magnitude(ys) * Pow16(2 * i)
    decreases |xs| - i
  {
    if i < |xs| {
      RemainingIsProduct(xs, ys, i + 1);
      RowIsProduct(xs, ys, i, 0);
      assert ys[0..] == ys && xs[i..][1..] == xs[i + 1..];
      RowAlgebra(Uint32(xs[i]), Magnitude(xs[i + 1..]), Magnitude(ys), Pow16(2 * i));
      assert Pow16(2 * i + 2) == 65536 * Pow16(2 * i + 1) == BASE * Pow16(2 * i);
    } else {
      assert xs[i..] == [];
    }
  }

  lemma {:induction false} RowIsProduct(xs: seq<int32>, ys: seq<int32>, i: nat, j: nat)
    requires i < |xs| && j <= |ys|
    ensures Remaining(xs, ys, i, j)
         == Uint32(xs[i]) * Magnitude(ys[j..]) * Pow16(2 * i + 2 * j) + Remaining(xs, ys, i + 1, 0)
    decreases |ys| - j
  {
    if j < |ys| {
      RowIsProduct(xs, ys, i, j + 1);
      assert ys[j..][1..] == ys[j + 1..];
      var k := 2 * i + 2 * j;
      assert Pow16(k + 2) == 65536 * Pow16(k + 1) == BASE * Pow16(k);
      CellAlgebra(Uint32(xs[i]), Uint32(ys[j]), Magnitude(ys[j + 1..]), Pow16(k));
    } else {
      assert ys[j..] == [];
    }
  }

  lemma RowAlgebra(u: nat, rest: nat, m: nat, p: nat)
    ensures u * m * p + rest * m * (BASE * p) == (u + BASE * rest) * m * p
  {
    assert rest * m * (BASE * p) == BASE * rest * m * p;
    assert (u * m + BASE * rest * m) * p == u * m * p + BASE * rest * m * p;
    assert u * m + BASE * rest * m == (u + BASE * rest) * m;
  }

  lemma CellAlgebra(u: nat, v: nat, rest: nat, p: nat)
    ensures u * v * p + u * rest * (BASE * p) == u * (v + BASE * rest) * p
  {
    assert u * rest * (BASE * p) == u * (BASE * rest) * p;
    assert (u * v + u * (BASE * rest)) * p == u * v * p + u * (BASE * rest) * p;
    assert u * v + u * (BASE * rest) == u * (v + BASE * rest);
  }

  // ---------------------------------------------------------------- the cells end up normalized

  /** Between iterations every cell is below 2^16, except that the next odd cell of the row may hold
      one more bit; cells the run has not reached are zero. */
  predicate Shape(cells: seq<int>, m: nat, i: nat, j: nat) {
    forall c :: 0 <= c < |cells| ==>
      && 0 <= cells[c] < (if c == 2 * i + 2 * j + 1 && c < 2 * i + 2 * m then 131072 else 65536)
      && (c >= 2 * i + 2 * m && c > 2 * i + 2 * j + 1 ==> cells[c] == 0)
  }

  lemma {:induction false} PieceCells(s: State, k: nat, u: nat, v: nat)
    requires k + 3 < |s.cells| && NonNegative(s.cells) && u < BASE && v < BASE
    ensures var r := PieceProduct(s, k, u, v).cells;
            && r[k] < 65536 && r[k + 1] < 65536 && r[k + 2] < 65536
            && r[k + 3] <= s.cells[k + 3] + 65535
            && forall c :: 0 <= c < |r| && (c < k || c > k + 3) ==> r[c] == s.cells[c]
  {
  }

  lemma {:induction false} PieceShape(s: State, n: nat, m: nat, i: nat, j: nat, u: nat, v: nat)
    requires |s.cells| == 2 * (n + m) && i < n && j < m && u < BASE && v < BASE
    requires NonNegative(s.cells) && Shape(s.cells, m, i, j)
    ensures Shape(PieceProduct(s, 2 * i + 2 * j, u, v).cells, m, i, j + 1)
  {
    PieceCells(s, 2 * i + 2 * j, u, v);
  }

  lemma {:induction false} RunIsNormal(s: State, xs: seq<int32>, ys: seq<int32>, i: nat, j: nat)
    requires |s.cells| == 2 * (|xs| + |ys|) && NonNegative(s.cells) && i <= |xs| && j <= |ys|
    requires i == |xs| ==> j == 0
    requires Shape(s.cells, |ys|, i, j) && (j == 0 ==> Normal(s.cells))
    ensures Normal(Run(s, xs, ys, i, j).cells)
    decreases |xs| - i, |ys| - j
  {
    hide PieceProduct;
    if i < |xs| {
      if j == |ys| {
        RunIsNormal(s, xs, ys, i + 1, 0);
      } else {
        PieceShape(s, |xs|, |ys|, i, j, Uint32(xs[i]), Uint32(ys[j]));
        RunIsNormal(PieceProduct(s, 2 * i + 2 * j, Uint32(xs[i]), Uint32(ys[j])), xs, ys, i, j + 1);
      }
    }
  }

  // ---------------------------------------------------------------- nothing is dropped next to one piece

  /** Cells are normalized and those from k + 2 on untouched. */
  predicate Fresh(cells: seq<int>, k: nat) {
    Normal(cells) && forall c :: k + 2 <= c < |cells| ==> cells[c] == 0
  }

  lemma ProductBound(a: nat, b: nat)
    requires a < 65536 && b < 65536
    ensures a * b <= 65535 * 65535
  {
    AtMost(a, 65535, b);
  }

  lemma AtMost(a: nat, bound: nat, b: nat)
    requires a <= bound
    ensures a * b <= bound * b
  {
  }

  /** Adding to a cell that stays below 2^32 drops nothing. */
  lemma {:induction false} SmallStep(s: State, k: nat, x: nat)
    requires k + 1 < |s.cells| && NonNegative(s.cells) && s.cells[k] + x < BASE
    ensures Accumulate(s, k, x) == State(AddTo(s.cells, k, x), s.dropped)
  {
    hide AddTo;
    assert Dropped(s.cells, k, x) == 0;
  }

  lemma {:induction false} FreshPiece(s: State, k: nat, u: nat, v: nat)
    requires k + 3 < |s.cells| && u < BASE && v < BASE && Fresh(s.cells, k)
    ensures var r := PieceProduct(s, k, u, v); Fresh(r.cells, k + 2) && r.dropped == s.dropped
  {
    hide Accumulate, AddTo;
    ProductBound(u % 65536, v % 65536);
    ProductBound(Half(u), v % 65536);
    ProductBound(u % 65536, Half(v));
    ProductBound(Half(u), Half(v));
    SmallStep(s, k, u % 65536 * (v % 65536));
    var s1 := Accumulate(s, k, u % 65536 * (v % 65536));
    SmallStep(s1, k + 1, Half(u) * (v % 65536));
    var s2 := Accumulate(s1, k + 1, Half(u) * (v % 65536));
    SmallStep(s2, k + 1, u % 65536 * Half(v));
    var s3 := Accumulate(s2, k + 1, u % 65536 * Half(v));
    SmallStep(s3, k + 2, Half(u) * Half(v));
  }

  lemma {:induction false} OnePieceDropsNothing(s: State, xs: seq<int32>, ys: seq<int32>, i: nat, j: nat)
    requires |s.cells| == 2 * (|xs| + |ys|) && i <= |xs| && j <= |ys|
    requires |xs| == 1 || |ys| == 1
    requires i < |xs| ==> Fresh(s.cells, 2 * i + 2 * j)
    requires NonNegative(s.cells)
    ensures Run(s, xs, ys, i, j).dropped == s.dropped
    decreases |xs| - i, |ys| - j
  {
    hide PieceProduct;
    if i < |xs| {
      if j == |ys| {
        OnePieceDropsNothing(s, xs, ys, i + 1, 0);
      } else {
        FreshPiece(s, 2 * i + 2 * j, Uint32(xs[i]), Uint32(ys[j]));
        OnePieceDropsNothing(PieceProduct(s, 2 * i + 2 * j, Uint32(xs[i]), Uint32(ys[j])), xs, ys, i, j + 1);
      }
    }
  }

  // ---------------------------------------------------------------- exactly when nothing is dropped

  /** The cells after the four partial products of two pieces. */
  function NextCells(cells: seq<int>, k: nat, u: nat, v: nat): (r: seq<int>)
    requires k + 3 < |cells| && NonNegative(cells) && u < BASE && v < BASE
    ensures |r| == |cells| && NonNegative(r)
  {
    Products(u, v);
    var c1 := AddTo(cells, k, u % 65536 * (v % 65536));
    var c2 := AddTo(c1, k + 1, Half(u) * (v % 65536));
    var c3 := AddTo(c2, k + 1, u % 65536 * Half(v));
    AddTo(c3, k + 2, Half(u) * Half(v))
  }

  lemma {:induction false} Products(u: nat, v: nat)
    requires u < BASE && v < BASE
    ensures u % 65536 * (v % 65536) >= 0 && Half(u) * (v % 65536) >= 0
    ensures u % 65536 * Half(v) >= 0 && Half(u) * Half(v) >= 0
  {
    Arithmetic.Scaled(0, u % 65536, v % 65536);
    Arithmetic.Scaled(0, Half(u), v % 65536);
    Arithmetic.Scaled(0, u % 65536, Half(v));
    Arithmetic.Scaled(0, Half(u), Half(v));
  }

  /** The guard of the lost carry: each cell stays below 2^32 as a partial product is added to it. */
  predicate PieceFits(cells: seq<int>, k: nat, u: nat, v: nat)
    requires k + 3 < |cells| && NonNegative(cells) && u < BASE && v < BASE
  {
    Products(u, v);
    var c1 := AddTo(cells, k, u % 65536 * (v % 65536));
    var c2 := AddTo(c1, k + 1, Half(u) * (v % 65536));
    var c3 := AddTo(c2, k + 1, u % 65536 * Half(v));
    && cells[k] + u % 65536 * (v % 65536) < BASE
    && c1[k + 1] + Half(u) * (v % 65536) < BASE
    && c2[k + 1] + u % 65536 * Half(v) < BASE
    && c3[k + 2] + Half(u) * Half(v) < BASE
  }

  /** No cell reaches 2^32 in the rest of the double loop. */
  predicate CellsFit(cells: seq<int>, xs: seq<int32>, ys: seq<int32>, i: nat, j: nat)
    requires |cells| == 2 * (|xs| + |ys|) && NonNegative(cells) && i <= |xs| && j <= |ys|
    decreases |xs| - i, |ys| - j
  {
    if i == |xs| then true
    else if j == |ys| then CellsFit(cells, xs, ys, i + 1, 0)
    else
      var k, u, v := 2 * i + 2 * j, Uint32(xs[i]), Uint32(ys[j]);
      PieceFits(cells, k, u, v) && CellsFit(NextCells(cells, k, u, v), xs, ys, i, j + 1)
  }

  lemma {:induction false} StepDrops(s: State, k: nat, x: nat)
    requires k + 1 < |s.cells| && NonNegative(s.cells)
    ensures var r := Accumulate(s, k, x);
      && r.cells == AddTo(s.cells, k, x) && r.dropped >= s.dropped
      && (r.dropped == s.dropped <==> s.cells[k] + x < BASE)
  {
    hide AddTo;
    var d := Dropped(s.cells, k, x);
    if d > 0 {
      AtMost(1, d, Pow16(k));
    }
  }

  lemma {:induction false} PieceDrops(s: State, k: nat, u: nat, v: nat)
    requires k + 3 < |s.cells| && NonNegative(s.cells) && u < BASE && v < BASE
    ensures var r := PieceProduct(s, k, u, v);
      && r.cells == NextCells(s.cells, k, u, v) && r.dropped >= s.dropped
      && (r.dropped == s.dropped <==> PieceFits(s.cells, k, u, v))
  {
    hide Accumulate, AddTo;
    Products(u, v);
    StepDrops(s, k, u % 65536 * (v % 65536));
    var s1 := Accumulate(s, k, u % 65536 * (v % 65536));
    StepDrops(s1, k + 1, Half(u) * (v % 65536));
    var s2 := Accumulate(s1, k + 1, Half(u) * (v % 65536));
    StepDrops(s2, k + 1, u % 65536 * Half(v));
    var s3 := Accumulate(s2, k + 1, u % 65536 * Half(v));
    StepDrops(s3, k + 2, Half(u) * Half(v));
  }

  /** What the loop drops is nothing exactly when no cell reaches 2^32. */
  lemma {:induction false} NothingDroppedExactly(s: State, xs: seq<int32>, ys: seq<int32>, i: nat, j: nat)
    requires |s.cells| == 2 * (|xs| + |ys|) && NonNegative(s.cells) && i <= |xs| && j <= |ys|
    ensures Run(s, xs, ys, i, j).dropped >= s.dropped
    ensures Run(s, xs, ys, i, j).dropped == s.dropped <==> CellsFit(s.cells, xs, ys, i, j)
    decreases |xs| - i, |ys| - j
  {
    hide PieceProduct, NextCells, PieceFits;
    if i < |xs| {
      if j == |ys| {
        NothingDroppedExactly(s, xs, ys, i + 1, 0);
      } else {
        var k, u, v := 2 * i + 2 * j, Uint32(xs[i]), Uint32(ys[j]);
        PieceDrops(s, k, u, v);
        NothingDroppedExactly(PieceProduct(s, k, u, v), xs, ys, i, j + 1);
      }
    }
  }

  // ---------------------------------------------------------------- operands that never overflow a cell

  /** No 32-bit piece has an upper half of 0xfffe or more. */
  predicate UpperHalvesLow(ws: seq<int32>) {
    forall i :: 0 <= i < |ws| ==> Half(Uint32(ws[i])) < 0xfffe
  }

  /** No 16-bit half is 0xfffe or more. */
  predicate HalvesLow(ws: seq<int32>) {
    UpperHalvesLow(ws) && forall i :: 0 <= i < |ws| ==> Uint32(ws[i]) % 65536 < 0xfffe
  }

  lemma {:induction false} LowProduct(a: nat, b: nat)
    requires a < 65536 && b < 65536 && (a < 0xfffe || b < 0xfffe)
    ensures a * b <= 65533 * 65535
  {
    if a < 0xfffe {
      AtMost(a, 65533, b);
      AtMost(b, 65535, 65533);
    } else {
      AtMost(b, 65533, a);
      AtMost(a, 65535, 65533);
    }
  }

  lemma {:induction false} PieceFitsWhenLow(cells: seq<int>, k: nat, u: nat, v: nat)
    requires k + 3 < |cells| && NonNegative(cells) && u < BASE && v < BASE
    requires cells[k] < 65536 && cells[k + 1] < 131072 && cells[k + 2] < 65536
    requires Half(u) < 0xfffe || (Half(v) < 0xfffe && v % 65536 < 0xfffe)
    ensures PieceFits(cells, k, u, v)
  {
    Products(u, v);
    ProductBound(u % 65536, v % 65536);
    ProductBound(u % 65536, Half(v));
    LowProduct(Half(u), v % 65536);
    LowProduct(Half(u), Half(v));
    var c1 := AddTo(cells, k, u % 65536 * (v % 65536));
    var c2 := AddTo(c1, k + 1, Half(u) * (v % 65536));
    var c3 := AddTo(c2, k + 1, u % 65536 * Half(v));
    hide AddTo;
    assert c1[k + 1] <= 131071 + 65535 && c1[k + 2] < 65536;
    assert c2[k + 1] < 65536 && c2[k + 2] <= 65535 + 65535;
    assert c3[k + 2] <= 65535 + 65535 + 65535;
  }

  /** When all upper halves of the one operand, or all halves of the other, are below 0xfffe, no cell reaches 2^32. */
  lemma {:induction false} LowHalvesFit(s: State, xs: seq<int32>, ys: seq<int32>, i: nat, j: nat)
    requires |s.cells| == 2 * (|xs| + |ys|) && NonNegative(s.cells) && i <= |xs| && j <= |ys|
    requires i == |xs| ==> j == 0
    requires Shape(s.cells, |ys|, i, j) && (j == 0 ==> Normal(s.cells))
    requires UpperHalvesLow(xs) || HalvesLow(ys)
    ensures CellsFit(s.cells, xs, ys, i, j)
    decreases |xs| - i, |ys| - j
  {
    hide PieceProduct, NextCells, PieceFits, Half;
    if i < |xs| {
      if j == |ys| {
        LowHalvesFit(s, xs, ys, i + 1, 0);
      } else {
        var k, u, v := 2 * i + 2 * j, Uint32(xs[i]), Uint32(ys[j]);
        PieceFitsWhenLow(s.cells, k, u, v);
        PieceShape(s, |xs|, |ys|, i, j, u, v);
        PieceDrops(s, k, u, v);
        LowHalvesFit(PieceProduct(s, k, u, v), xs, ys, i, j + 1);
      }
    }
  }
}
