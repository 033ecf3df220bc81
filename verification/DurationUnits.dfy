/** What each unit of the standard text format denotes, in months, days and nanoseconds. */
module DurationUnits {
  import opened Bytes
  import opened Digits
  import opened Durations
  import opened DurationText
  import opened LetterCase
  import Arithmetic

  /** A number of every unit, from years to nanoseconds. */
  datatype Amounts = Amounts(y: nat, mo: nat, w: nat, d: nat, h: nat, m: nat, s: nat, ms: nat, us: nat, ns: nat)

  ghost function Spelled(a: Amounts): string {
    Print(a.y) + "y" + (Print(a.mo) + "mo" + (Print(a.w) + "w" + (Print(a.d) + "d" + (Print(a.h) + "h"
    + (Print(a.m) + "m" + (Print(a.s) + "s" + (Print(a.ms) + "ms" + (Print(a.us) + "us" + (Print(a.ns) + "ns")))))))))
  }

  ghost function Months(a: Amounts): int {
    12 * a.y + a.mo
  }

  ghost function Days(a: Amounts): int {
    7 * a.w + a.d
  }

  ghost function Nanoseconds(a: Amounts): int {
    3_600_000_000_000 * a.h + 60_000_000_000 * a.m + 1_000_000_000 * a.s + 1_000_000 * a.ms + 1000 * a.us + a.ns
  }

  ghost function Calls(a: Amounts): seq<Call> {
    [Call(a.y, Years), Call(a.mo, Unit.Months), Call(a.w, Weeks), Call(a.d, Unit.Days), Call(a.h, Hours),
     Call(a.m, Minutes), Call(a.s, Seconds), Call(a.ms, Millis), Call(a.us, Micros), Call(a.ns, Nanos)]
  }

  lemma {:induction false} WrittenFirst(calls: seq<Call>, i: nat, symbol: string)
    requires i < |calls| && symbol == Symbol(calls[i].unit)
    ensures Written(calls[i..]) == Print(calls[i].value) + symbol + Written(calls[i + 1..])
  {
    hide Print, Symbol;
    assert calls[i..][0] == calls[i] && calls[i..][1..] == calls[i + 1..];
  }

  lemma {:induction false} SpelledIsWritten(a: Amounts)
    ensures Spelled(a) == Written(Calls(a))
  {
    hide Print, Written;
    var c := Calls(a);
    FinerSpelled(a);
    WrittenFirst(c, 0, "y");
    WrittenFirst(c, 1, "mo");
    WrittenFirst(c, 2, "w");
    WrittenFirst(c, 3, "d");
    WrittenFirst(c, 4, "h");
    assert c[0..] == c;
    hide Calls, Symbol;
  }

  lemma {:induction false} FinerSpelled(a: Amounts)
    ensures Written(Calls(a)[5..])
         == Print(a.m) + "m" + (Print(a.s) + "s" + (Print(a.ms) + "ms" + (Print(a.us) + "us" + (Print(a.ns) + "ns"))))
  {
    hide Print, Written;
    var c := Calls(a);
    WrittenFirst(c, 5, "m");
    WrittenFirst(c, 6, "s");
    WrittenFirst(c, 7, "ms");
    WrittenFirst(c, 8, "us");
    WrittenFirst(c, 9, "ns");
    assert c[10..] == [];
    EmptyText();
    assert Print(a.ns) + "ns" + "" == Print(a.ns) + "ns";
    hide Calls, Symbol;
  }

  lemma {:induction false} SumFirst(calls: seq<Call>, i: nat, f: Field)
    requires i < |calls|
    ensures Sum(f, calls[i..]) == Share(calls[i], f) + Sum(f, calls[i + 1..])
  {
    hide FieldOf, Weight;
    assert calls[i..][0] == calls[i] && calls[i..][1..] == calls[i + 1..];
  }

  /** What a call adds to a field. */
  ghost function Share(c: Call, f: Field): nat {
    if FieldOf(c.unit) == f then c.value * Weight(c.unit) else 0
  }

  lemma {:induction false} SumOfTen(c: seq<Call>, f: Field)
    requires |c| == 10
    ensures Sum(f, c) == Share(c[0], f) + Share(c[1], f) + Share(c[2], f) + Share(c[3], f) + Share(c[4], f)
                         + Share(c[5], f) + Share(c[6], f) + Share(c[7], f) + Share(c[8], f) + Share(c[9], f)
  {
    hide Sum, Share;
    SumFirst(c, 0, f);
    SumFirst(c, 1, f);
    SumFirst(c, 2, f);
    SumFirst(c, 3, f);
    SumFirst(c, 4, f);
    SumFirst(c, 5, f);
    SumFirst(c, 6, f);
    SumFirst(c, 7, f);
    SumFirst(c, 8, f);
    SumFirst(c, 9, f);
    SumOfNone(f);
    assert c[0..] == c && c[10..] == [];
  }

  lemma {:induction false} SumsAre(a: Amounts)
    ensures Sum(InMonths, Calls(a)) == Months(a) && Sum(InDays, Calls(a)) == Days(a)
    ensures Sum(InNanos, Calls(a)) == Nanoseconds(a)
  {
    hide Sum;
    SumOfTen(Calls(a), InMonths);
    SumOfTen(Calls(a), InDays);
    SumOfTen(Calls(a), InNanos);
  }

  lemma {:induction false} CallsOrdered(a: Amounts)
    ensures Ordered(0, Calls(a))
  {
    var c := Calls(a);
    OrderedFrom(c, 0);
    assert c[0..] == c;
  }

  lemma {:induction false} OrderedFrom(c: seq<Call>, k: nat)
    requires k <= |c| && forall i :: 0 <= i < |c| ==> Index(c[i].unit) == i + 1
    ensures Ordered(k, c[k..])
    decreases |c| - k
  {
    if k < |c| {
      OrderedFrom(c, k + 1);
      assert c[k..][0] == c[k] && c[k..][1..] == c[k + 1..];
    }
  }

  /** A text with every unit: it is read exactly when months and days stay within 32 bits and nanoseconds within 64
      bits, as twelve months to the year, seven days to the week, and so on; with a minus sign in front, all three are
      negated, and one more fits. */
  lemma {:induction false} UnitsDenote(a: Amounts, iso: (bool, string) -> Result<Duration>)
    ensures FromString(Spelled(a), iso)
         == if Months(a) <= 0x7fff_ffff && Days(a) <= 0x7fff_ffff && Nanoseconds(a) <= 0x7fff_ffff_ffff_ffff
            then Ok(Duration(Months(a), Days(a), Nanoseconds(a))) else Err
    ensures FromString("-" + Spelled(a), iso)
         == if Months(a) <= 0x8000_0000 && Days(a) <= 0x8000_0000 && Nanoseconds(a) <= 0x8000_0000_0000_0000
            then Ok(Duration(-Months(a), -Days(a), -Nanoseconds(a))) else Err
  {
    SpelledIsWritten(a);
    SumsAre(a);
    CallsOrdered(a);
    ScanUndoesWritten(Calls(a));
    StartsWithDigit(a);
    hide Spelled, Written, Scan, Months, Days, Nanoseconds, Calls;
    assert ("-" + Spelled(a))[1..] == Spelled(a);
    StandardSum(a, false);
    StandardSum(a, true);
  }

  lemma {:induction false} StartsWithDigit(a: Amounts)
    ensures Spelled(a) != "" && IsDigit(Spelled(a)[0])
  {
    assert Spelled(a)[0] == Print(a.y)[0];
  }

  lemma {:induction false} StandardSum(a: Amounts, negative: bool)
    requires Scan(Spelled(a)) == Calls(a) && Ordered(0, Calls(a))
    requires Sum(InMonths, Calls(a)) == Months(a) && Sum(InDays, Calls(a)) == Days(a)
    requires Sum(InNanos, Calls(a)) == Nanoseconds(a)
    ensures var more, sign := if negative then 1 else 0, if negative then -1 else 1;
      ParseStandard(negative, Spelled(a))
      == if Months(a) <= 0x7fff_ffff + more && Days(a) <= 0x7fff_ffff + more
            && Nanoseconds(a) <= 0x7fff_ffff_ffff_ffff + more
         then Ok(Duration(sign * Months(a), sign * Days(a), sign * Nanoseconds(a))) else Err
  {
    hide Spelled, Scan, Months, Days, Nanoseconds, Calls, Run, Ordered, Sum, Built;
    BuildsTheSums(negative, Calls(a));
    var r := Run(Start(negative), Calls(a));
    if r.Ok? {
      var d := Built(r.value).value;
      assert FieldValue(d, InMonths) == d.months && FieldValue(d, InDays) == d.days;
      assert FieldValue(d, InNanos) == d.nanoseconds;
      assert Sum(InMonths, Calls(a)) <= Limit(InMonths, negative) && Sum(InDays, Calls(a)) <= Limit(InDays, negative);
      assert Sum(InNanos, Calls(a)) <= Limit(InNanos, negative);
    }
  }

  // ---------------------------------------------------------------- printing

  /** A number with its unit; nothing for zero. */
  ghost function Piece(n: nat, symbol: string): string {
    if n == 0 then "" else Print(n) + symbol
  }

  /** The text of a duration: years and the months left, days, then hours, minutes and so on down to nanoseconds, each
      left out when zero; one sign in front when any field is negative. */
  lemma {:induction false} TextIs(d: Duration)
    ensures var m, n := Abs(d.months), Abs(d.nanoseconds);
      Text(d) == (if d.months < 0 || d.days < 0 || d.nanoseconds < 0 then "-" else "")
                 + ((Piece(m / 12, "y") + Piece(m % 12, "mo")) + Piece(Abs(d.days), "d") + TimeText(n))
  {
    hide Split, Written, Piece, TimeText;
    var m, n := Abs(d.months), Abs(d.nanoseconds);
    var a, b, c := Split(m, MONTH_UNITS), Split(Abs(d.days), DAY_UNITS), Split(n, NANO_UNITS);
    WrittenConcat(a + b, c);
    WrittenConcat(a, b);
    MonthsText(m);
    DaysText(Abs(d.days));
    NanosText(n);
  }

  ghost function TimeText(n: nat): string {
    Piece(n / 3_600_000_000_000, "h") + (Piece(n % 3_600_000_000_000 / 60_000_000_000, "m")
    + (Piece(n % 60_000_000_000 / 1_000_000_000, "s") + (Piece(n % 1_000_000_000 / 1_000_000, "ms")
    + (Piece(n % 1_000_000 / 1000, "us") + Piece(n % 1000, "ns")))))
  }

  /** One unit of the mixed radix. */
  lemma {:induction false} UnitText(n: nat, u: Unit, rest: seq<Unit>, symbol: string)
    requires symbol == Symbol(u)
    ensures n / Weight(u) >= 0
    ensures Written(Split(n, [u] + rest)) == Piece(n / Weight(u), symbol) + Written(Split(n % Weight(u), rest))
  {
    SmallDividend(n, Weight(u));
    SplitOnce(n, u, rest);
    hide Split, Weight, Print, Symbol;
    var q := n / Weight(u);
    WrittenConcat(Part(q, u), Split(n % Weight(u), rest));
    EmptyText();
    assert [Call(q, u)][1..] == [];
    assert Word(Call(q, u)) + "" == Word(Call(q, u));
  }

  lemma {:induction false} LastText(n: nat, u: Unit, symbol: string)
    requires symbol == Symbol(u) && Weight(u) == 1
    ensures Written(Split(n, [u])) == Piece(n, symbol)
  {
    UnitText(n, u, [], symbol);
    hide Split, Written, Weight, Symbol, Piece;
    EmptyText();
    assert [u] + [] == [u] && n / 1 == n;
    assert Piece(n, symbol) + "" == Piece(n, symbol);
  }

  lemma {:induction false} MonthsText(m: nat)
    ensures Written(Split(m, MONTH_UNITS)) == Piece(m / 12, "y") + Piece(m % 12, "mo")
  {
    assert MONTH_UNITS == [Years] + [Unit.Months];
    UnitText(m, Years, [Unit.Months], "y");
    LastText(m % 12, Unit.Months, "mo");
    hide Split, Written, Piece;
  }

  lemma {:induction false} DaysText(n: nat)
    ensures Written(Split(n, DAY_UNITS)) == Piece(n, "d")
  {
    LastText(n, Unit.Days, "d");
  }

  /** A remainder of a remainder, for a divisor that divides the other. */
  lemma {:induction false} Nested(n: nat, a: nat, b: nat)
    requires a > 0 && b > 0
    ensures a * b > 0 && n % (a * b) % b == n % b
  {
    Arithmetic.AtLeast(a, b);
    var c := a * b;
    var q, r := n / c, n % c;
    assert n == c * q + r && r == b * (r / b) + r % b;
    assert c * q == b * (a * q);
    Arithmetic.Spread(b, a * q, r / b);
    Arithmetic.Unique(b, n / b, n % b, a * q + r / b, r % b);
  }

  lemma {:induction false} NanosText(n: nat)
    ensures Written(Split(n, NANO_UNITS)) == TimeText(n)
  {
    assert NANO_UNITS == [Hours] + [Minutes, Seconds, Millis, Micros, Nanos];
    assert [Minutes] + [Seconds, Millis, Micros, Nanos] == [Minutes, Seconds, Millis, Micros, Nanos];
    assert [Seconds] + [Millis, Micros, Nanos] == [Seconds, Millis, Micros, Nanos];
    UnitText(n, Hours, [Minutes, Seconds, Millis, Micros, Nanos], "h");
    UnitText(n % 3_600_000_000_000, Minutes, [Seconds, Millis, Micros, Nanos], "m");
    Nested(n, 60, 60_000_000_000);
    Nested(n, 60, 1_000_000_000);
    UnitText(n % 60_000_000_000, Seconds, [Millis, Micros, Nanos], "s");
    MillisText(n);
    hide Split, Written, Piece, Symbol;
  }

  lemma {:induction false} MillisText(n: nat)
    ensures Written(Split(n % 1_000_000_000, [Millis, Micros, Nanos]))
         == Piece(n % 1_000_000_000 / 1_000_000, "ms") + (Piece(n % 1_000_000 / 1000, "us") + Piece(n % 1000, "ns"))
  {
    assert [Millis] + [Micros, Nanos] == [Millis, Micros, Nanos] && [Micros] + [Nanos] == [Micros, Nanos];
    UnitText(n % 1_000_000_000, Millis, [Micros, Nanos], "ms");
    Nested(n, 1000, 1_000_000);
    Nested(n, 1000, 1000);
    UnitText(n % 1_000_000, Micros, [Nanos], "us");
    LastText(n % 1000, Nanos, "ns");
    hide Split, Written, Piece, Symbol;
  }

  // ---------------------------------------------------------------- letter case

  lemma {:induction false} LowerSame(c: char, d: char)
    requires SameLetter(c, d)
    ensures Lower(c) == Lower(d) && IsDigit(c) == IsDigit(d) && (IsDigit(c) ==> c == d)
  {
  }

  lemma {:induction false} SameFrom(a: string, b: string, i: nat)
    requires SameLetters(a, b) && i <= |a|
    ensures SameLetters(a[i..], b[i..])
  {
  }

  lemma {:induction false} DigitsSame(a: string, b: string)
    requires SameLetters(a, b)
    ensures DigitRun(a) == DigitRun(b) && a[..DigitRun(a)] == b[..DigitRun(b)]
  {
    if a != "" {
      LowerSame(a[0], b[0]);
      SameFrom(a, b, 1);
      hide SameLetters, SameLetter, IsDigit, AllDigits;
      DigitsSame(a[1..], b[1..]);
      OneDigitMore(a, b);
    }
  }

  lemma {:induction false} OneDigitMore(a: string, b: string)
    requires a != "" && b != "" && IsDigit(a[0]) == IsDigit(b[0]) && (IsDigit(a[0]) ==> a[0] == b[0])
    requires DigitRun(a[1..]) == DigitRun(b[1..]) && a[1..][..DigitRun(a[1..])] == b[1..][..DigitRun(b[1..])]
    ensures DigitRun(a) == DigitRun(b) && a[..DigitRun(a)] == b[..DigitRun(b)]
  {
    var n := DigitRun(a[1..]);
    assert a[..n + 1] == [a[0]] + a[1..][..n] && b[..n + 1] == [b[0]] + b[1..][..n];
  }

  lemma {:induction false} UnitSame(a: string, b: string)
    requires SameLetters(a, b)
    ensures UnitAt(a) == UnitAt(b)
  {
    if |a| > 0 {
      LowerSame(a[0], b[0]);
    }
    if |a| > 1 {
      LowerSame(a[1], b[1]);
    }
    hide SameLetter, Lower;
  }

  /** How far the first match of a text, or the text known to hold none, reaches. */
  ghost function Reach(s: string): (n: nat)
    requires s != ""
    ensures 0 < n <= |s|
  {
    var n := DigitRun(s);
    if n == 0 then 1 else if UnitAt(s[n..]).None? then n else n + UnitAt(s[n..]).value.1
  }

  /** The match itself, if there is one. */
  ghost function Found(s: string): seq<Call>
    requires s != ""
  {
    var n := DigitRun(s);
    if n == 0 || UnitAt(s[n..]).None? then [] else [Call(Decimal(s[..n]), UnitAt(s[n..]).value.0)]
  }

  lemma {:induction false} ScanReach(s: string)
    requires s != ""
    ensures Scan(s) == Found(s) + Scan(s[Reach(s)..])
  {
    hide Scan, DigitRun, UnitAt, Decimal, AllDigits, IsDigit;
    ScanOnce(s);
    assert [] + Scan(s[Reach(s)..]) == Scan(s[Reach(s)..]);
  }

  lemma {:induction false} ReachSame(a: string, b: string)
    requires SameLetters(a, b) && a != ""
    ensures Reach(a) == Reach(b) && Found(a) == Found(b)
  {
    var n := DigitRun(a);
    DigitsSame(a, b);
    SameFrom(a, b, n);
    hide DigitRun, Decimal, AllDigits, IsDigit, SameLetters;
    UnitSame(a[n..], b[n..]);
    hide UnitAt;
  }

  lemma {:induction false} ScanSame(a: string, b: string)
    requires SameLetters(a, b)
    ensures Scan(a) == Scan(b)
    decreases |a|
  {
    if a == "" {
      assert b == "";
    } else {
      hide Scan, Reach, Found;
      assert b != "";
      hide SameLetters;
      ReachSame(a, b);
      var n := Reach(a);
      SameFrom(a, b, n);
      ScanReach(a);
      ScanReach(b);
      ScanSame(a[n..], b[n..]);
    }
  }

  /** Texts that differ only in letter case denote the same duration, or none. */
  lemma {:induction false} CaseIgnored(negative: bool, a: string, b: string)
    requires SameLetters(a, b)
    ensures ParseStandard(negative, a) == ParseStandard(negative, b)
  {
    ScanSame(a, b);
    hide Scan, SameLetters;
  }
}
