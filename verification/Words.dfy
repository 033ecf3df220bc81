/** Little-endian 32-bit words in two's complement, the digits of the driver's `Integer`, and the
    16-bit cells its multiplication works on. */
module Words {
  import Arithmetic

  const BASE: int := 0x1_0000_0000
  const HALF: int := 0x8000_0000

  type int32 = x: int | -0x8000_0000 <= x < 0x8000_0000

  /** JavaScript's `x | 0` on an integer. */
  function ToInt32(x: int): int32 {
    (x + HALF) % BASE - HALF
  }

  /** JavaScript's `x >>> 0` on a 32-bit integer. */
  function Uint32(w: int32): (u: int)
    ensures 0 <= u < BASE
    ensures ToInt32(u) == w
  {
    if w < 0 then w + BASE else w
  }

  function Pow32(n: nat): (p: int)
    ensures p >= 1
  {
    if n == 0 then 1 else BASE * Pow32(n - 1)
  }

  /** The unsigned value of a word string. */
  function Magnitude(ws: seq<int32>): nat {
    if ws == [] then 0 else Uint32(ws[0]) + BASE * Magnitude(ws[1..])
  }

  /** The value of a word string that the sign, 0 or -1, continues to infinity. */
  function RawValue(ws: seq<int32>, sign: int): int {
    if sign == 0 then Magnitude(ws) else Magnitude(ws) - Pow32(|ws|)
  }

  lemma {:induction false} MagnitudeBound(ws: seq<int32>)
    ensures 0 <= Magnitude(ws) < Pow32(|ws|)
  {
    if ws != [] {
      MagnitudeBound(ws[1..]);
    }
  }

  /** A word on top weighs as much as the string below it is long. */
  lemma {:induction false} MagnitudeAppend(ws: seq<int32>, w: int32)
    ensures Magnitude(ws + [w]) == Magnitude(ws) + Uint32(w) * Pow32(|ws|)
  {
    if ws == [] {
      assert (ws + [w])[1..] == [];
      assert Uint32(w) * Pow32(0) == Uint32(w);
    } else {
      MagnitudeAppend(ws[1..], w);
      assert (ws + [w])[1..] == ws[1..] + [w];
      assert Uint32(w) * Pow32(|ws|) == BASE * (Uint32(w) * Pow32(|ws| - 1));
    }
  }

  /** A top word equal to the sign is redundant. */
  lemma {:induction false} DropSignWord(ws: seq<int32>, sign: int32)
    requires sign == 0 || sign == -1
    ensures RawValue(ws + [sign], sign) == RawValue(ws, sign)
  {
    MagnitudeAppend(ws, sign);
    assert sign == 0 ==> Uint32(sign) * Pow32(|ws|) == 0;
    assert sign == -1 ==> Uint32(sign) * Pow32(|ws|) == (BASE - 1) * Pow32(|ws|);
  }

  /** The sign of the top word is the sign of the two's complement number. */
  lemma {:induction false} TopWordDecides(ws: seq<int32>)
    requires ws != []
    ensures ws[|ws| - 1] < 0 <==> Magnitude(ws) >= HALF * Pow32(|ws| - 1)
  {
    var low, top := ws[..|ws| - 1], ws[|ws| - 1];
    assert ws == low + [top];
    MagnitudeAppend(low, top);
    MagnitudeBound(low);
    WordTimes(top, Pow32(|low|));
  }

  lemma WordTimes(w: int32, p: nat)
    ensures w >= 0 ==> 0 <= Uint32(w) * p <= (HALF - 1) * p
    ensures w < 0 ==> HALF * p <= Uint32(w) * p
  {
    if w >= 0 {
      Arithmetic.Scaled(0, Uint32(w), p);
      Arithmetic.Scaled(Uint32(w), HALF - 1, p);
    } else {
      Arithmetic.Scaled(HALF, Uint32(w), p);
    }
  }

  /** Two strings of one length denote different numbers, so the words of a number are determined. */
  lemma {:induction false} MagnitudeInjective(a: seq<int32>, b: seq<int32>)
    requires |a| == |b| && Magnitude(a) == Magnitude(b)
    ensures a == b
  {
    if a != [] {
      MagnitudeInjective(a[1..], b[1..]);
      assert a == [a[0]] + a[1..] && b == [b[0]] + b[1..];
    }
  }

  /** The words of a natural number, without leading zero words. */
  function WordsOf(n: nat): (ws: seq<int32>)
    ensures Magnitude(ws) == n
    ensures ws != [] ==> ws[|ws| - 1] != 0
    ensures n < BASE ==> |ws| <= 1
  {
    if n == 0 then [] else [ToInt32(n % BASE)] + WordsOf(n / BASE)
  }

  lemma {:induction false} WordsOfIsUnique(ws: seq<int32>)
    requires ws != [] ==> ws[|ws| - 1] != 0
    ensures WordsOf(Magnitude(ws)) == ws
  {
    if ws != [] {
      var rest := ws[1..];
      assert rest != [] ==> rest[|rest| - 1] == ws[|ws| - 1];
      WordsOfIsUnique(rest);
      assert ws == [ws[0]] + rest;
      assert Magnitude(rest) == 0 ==> WordsOf(Magnitude(rest)) == [];
      SplitWord(Uint32(ws[0]), Magnitude(rest));
    }
  }

  lemma SplitWord(low: nat, high: nat)
    requires low < BASE
    ensures (low + BASE * high) % BASE == low && (low + BASE * high) / BASE == high
  {
  }

  // ---------------------------------------------------------------- 16-bit cells

  function Pow16(n: nat): (p: int)
    ensures p >= 1
  {
    if n == 0 then 1 else 65536 * Pow16(n - 1)
  }

  /** The value of a string of cells, which need not be normalized. */
  function CellValue(cells: seq<int>): int {
    if cells == [] then 0 else cells[0] + 65536 * CellValue(cells[1..])
  }

  lemma {:induction false} CellUpdate(cells: seq<int>, k: nat, x: int)
    requires k < |cells|
    ensures CellValue(cells[k := x]) == CellValue(cells) + (x - cells[k]) * Pow16(k)
  {
    if k == 0 {
      assert cells[0 := x][1..] == cells[1..];
    } else {
      CellUpdate(cells[1..], k - 1, x);
      assert cells[k := x][1..] == cells[1..][k - 1 := x];
      assert (x - cells[k]) * Pow16(k) == 65536 * ((x - cells[k]) * Pow16(k - 1));
    }
  }

  lemma {:induction false} ZeroCells(cells: seq<int>)
    requires forall k :: 0 <= k < |cells| ==> cells[k] == 0
    ensures CellValue(cells) == 0
  {
    if cells != [] {
      ZeroCells(cells[1..]);
    }
  }

  /** `(hi << 16) | lo` on two 16-bit cells. */
  function Combine(hi: int, lo: int): (w: int32)
    requires 0 <= hi < 65536 && 0 <= lo < 65536
    ensures Uint32(w) == 65536 * hi + lo
  {
    ToInt32(65536 * hi + lo)
  }

  predicate Normal(cells: seq<int>) {
    forall k :: 0 <= k < |cells| ==> 0 <= cells[k] < 65536
  }

  /** Adjacent cells of a normalized string joined into words. */
  function Paired(cells: seq<int>): (ws: seq<int32>)
    requires |cells| % 2 == 0 && Normal(cells)
    ensures |ws| == |cells| / 2
  {
    if cells == [] then [] else [Combine(cells[1], cells[0])] + Paired(cells[2..])
  }

  lemma {:induction false} PairedValue(cells: seq<int>)
    requires |cells| % 2 == 0 && Normal(cells)
    ensures Magnitude(Paired(cells)) == CellValue(cells)
  {
    if cells != [] {
      PairedValue(cells[2..]);
      assert cells[1..][1..] == cells[2..];
    }
  }

  lemma {:induction false} PairedAt(cells: seq<int>, i: nat)
    requires |cells| % 2 == 0 && Normal(cells) && i < |cells| / 2
    ensures Paired(cells)[i] == Combine(cells[2 * i + 1], cells[2 * i])
  {
    if i > 0 {
      PairedAt(cells[2..], i - 1);
    }
  }
}
