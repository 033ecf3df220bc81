/** The standard text format of durations, such as `1y2mo3d4h5m6s7ms8us9ns`
    (lib/types/duration.js, `toString`, `fromString` and `parseStandardFormat`). */
module DurationText {
  import opened Bytes
  import opened Digits
  import opened Durations
  import Arithmetic

  // ---------------------------------------------------------------- printing

  function Symbol(u: Unit): string {
    match u
    case Years => "y"
    case Months => "mo"
    case Weeks => "w"
    case Days => "d"
    case Hours => "h"
    case Minutes => "m"
    case Seconds => "s"
    case Millis => "ms"
    case Micros => "us"
    case Nanos => "ns"
  }

  function Abs(n: int): nat {
    if n < 0 then -n else n
  }

  function Part(n: nat, u: Unit): seq<Call> {
    if n == 0 then [] else [Call(n, u)]
  }

  /** The non-zero digits of a number in the mixed radix of the given units. */
  function Split(n: nat, units: seq<Unit>): seq<Call>
    decreases |units|
  {
    if units == [] then []
    else Part(n / Weight(units[0]), units[0]) + Split(n % Weight(units[0]), units[1..])
  }

  const MONTH_UNITS := [Years, Months]
  const DAY_UNITS := [Days]
  const NANO_UNITS := [Hours, Minutes, Seconds, Millis, Micros, Nanos]

  /** The calls that a duration prints as. */
  function Parts(d: Duration): seq<Call> {
    Split(Abs(d.months), MONTH_UNITS) + Split(Abs(d.days), DAY_UNITS) + Split(Abs(d.nanoseconds), NANO_UNITS)
  }

  function Word(c: Call): string {
    Print(c.value) + Symbol(c.unit)
  }

  function Written(calls: seq<Call>): string {
    if calls == [] then "" else Word(calls[0]) + Written(calls[1..])
  }

  predicate IsNegative(d: Duration) {
    d.months < 0 || d.days < 0 || d.nanoseconds < 0
  }

  function Text(d: Duration): string {
    (if IsNegative(d) then "-" else "") + Written(Parts(d))
  }

  lemma {:induction false} WrittenConcat(a: seq<Call>, b: seq<Call>)
    ensures Written(a + b) == Written(a) + Written(b)
  {
    hide Word;
    if a == [] {
      assert a + b == b;
    } else {
      WrittenConcat(a[1..], b);
      assert (a + b)[1..] == a[1..] + b;
      assert Word(a[0]) + (Written(a[1..]) + Written(b)) == (Word(a[0]) + Written(a[1..])) + Written(b);
    }
  }

  /** `append` and `append64`: print the quotient unless it is zero, keep the remainder. */
  method Append(value: string, dividend: nat, u: Unit, ghost calls: seq<Call>, ghost units: seq<Unit>)
    returns (text: string, remainder: nat, ghost done: seq<Call>)
    requires value == Written(calls)
    ensures text == Written(done)
    ensures calls + Split(dividend, [u] + units) == done + Split(remainder, units)
  {
    var q := dividend / Weight(u);
    SmallDividend(dividend, Weight(u));
    SplitOnce(dividend, u, units);
    hide Weight, Split, Written;
    done := calls + Part(q, u);
    assert calls + (Part(q, u) + Split(dividend % Weight(u), units)) == done + Split(dividend % Weight(u), units);
    WrittenPart(calls, q, u);
    if dividend == 0 || dividend < Weight(u) {
      return value, dividend, done;
    }
    hide Print, Symbol;
    text := value + Print(q) + Symbol(u);
    assert value + (Print(q) + Symbol(u)) == text;
    remainder := dividend % Weight(u);
  }

  lemma {:induction false} WrittenPart(calls: seq<Call>, q: nat, u: Unit)
    ensures Written(calls + Part(q, u)) == if q == 0 then Written(calls) else Written(calls) + Word(Call(q, u))
  {
    hide Word;
    WrittenConcat(calls, Part(q, u));
    assert Written([Call(q, u)]) == Word(Call(q, u)) + "";
  }

  lemma {:induction false} SplitOnce(n: nat, u: Unit, units: seq<Unit>)
    ensures Split(n, [u] + units) == Part(n / Weight(u), u) + Split(n % Weight(u), units)
  {
    hide Weight;
    assert ([u] + units)[1..] == units;
  }

  lemma SmallDividend(a: nat, b: nat)
    requires b >= 1
    ensures a < b ==> a / b == 0 && a % b == a
    ensures a >= b ==> a / b >= 1
    ensures a / b >= 0
  {
    assert a == b * (a / b) + a % b && b * 0 == 0;
    if a < b {
      Arithmetic.Unique(b, a / b, a % b, 0, a);
    }
  }

  /** `toString`. */
  method ToString(d: Duration) returns (value: string)
    ensures value == Text(d)
  {
    hide Written, Split;
    EmptyText();
    var body := "";
    var rest: nat;
    ghost var calls: seq<Call> := [];
    assert [Years] + [Months] == MONTH_UNITS && [Months] + [] == [Months] && [Days] + [] == DAY_UNITS;
    assert [Hours] + [Minutes, Seconds, Millis, Micros, Nanos] == NANO_UNITS && [Nanos] + [] == [Nanos];
    assert [Minutes] + [Seconds, Millis, Micros, Nanos] == [Minutes, Seconds, Millis, Micros, Nanos];
    assert [Seconds] + [Millis, Micros, Nanos] == [Seconds, Millis, Micros, Nanos];
    assert [Millis] + [Micros, Nanos] == [Millis, Micros, Nanos] && [Micros] + [Nanos] == [Micros, Nanos];
    body, rest, calls := Append(body, Abs(d.months), Years, calls, [Months]);
    body, rest, calls := Append(body, rest, Months, calls, []);
    assert calls == Split(Abs(d.months), MONTH_UNITS) by { Units(calls, Split(Abs(d.months), MONTH_UNITS)); }
    body, rest, calls := Append(body, Abs(d.days), Days, calls, []);
    ghost var dated := Split(Abs(d.months), MONTH_UNITS) + Split(Abs(d.days), DAY_UNITS);
    assert calls == dated by { Units(calls, dated); }
    assert dated + [] == dated;
    if d.nanoseconds != 0 {
      body, rest, calls := Append(body, Abs(d.nanoseconds), Hours, calls, [Minutes, Seconds, Millis, Micros, Nanos]);
      body, rest, calls := Append(body, rest, Minutes, calls, [Seconds, Millis, Micros, Nanos]);
      body, rest, calls := Append(body, rest, Seconds, calls, [Millis, Micros, Nanos]);
      body, rest, calls := Append(body, rest, Millis, calls, [Micros, Nanos]);
      body, rest, calls := Append(body, rest, Micros, calls, [Nanos]);
      body, rest, calls := Append(body, rest, Nanos, calls, []);
      Units(calls, Parts(d));
    }
    value := (if IsNegative(d) then "-" else "") + body;
  }

  lemma Units(a: seq<Call>, b: seq<Call>)
    ensures [] + b == b && a + [] == a
  {
  }

  lemma EmptyText()
    ensures Written([]) == "" && forall n: nat :: Split(n, []) == []
    ensures Split(0, NANO_UNITS) == []
  {
    SplitZero(NANO_UNITS);
  }

  lemma {:induction false} SplitZero(units: seq<Unit>)
    ensures Split(0, units) == []
  {
    if units != [] {
      SmallDividend(0, Weight(units[0]));
      hide Weight;
      SplitZero(units[1..]);
    }
  }

  // ---------------------------------------------------------------- scanning

  function Lower(c: char): char {
    if 'A' <= c <= 'Z' then (c as int + 32) as char else c
  }

  predicate Has(s: string, i: nat, c: char) {
    i < |s| && Lower(s[i]) == c
  }

  /** The alternation `y|mo|w|d|h|s|ms|us|\u00b5s|ns|m`, tried in this order, ignoring case: the unit and
      the length of its symbol. */
  function UnitAt(s: string): (r: Option<(Unit, nat)>)
    ensures r.Some? ==> 1 <= r.value.1 <= |s|
  {
    if Has(s, 0, 'y') then Some((Years, 1))
    else if Has(s, 0, 'm') && Has(s, 1, 'o') then Some((Months, 2))
    else if Has(s, 0, 'w') then Some((Weeks, 1))
    else if Has(s, 0, 'd') then Some((Days, 1))
    else if Has(s, 0, 'h') then Some((Hours, 1))
    else if Has(s, 0, 's') then Some((Seconds, 1))
    else if Has(s, 0, 'm') && Has(s, 1, 's') then Some((Millis, 2))
    else if Has(s, 0, 'u') && Has(s, 1, 's') then Some((Micros, 2))
    else if Has(s, 0, '\U{00b5}') && Has(s, 1, 's') then Some((Micros, 2))
    else if Has(s, 0, 'n') && Has(s, 1, 's') then Some((Nanos, 2))
    else if Has(s, 0, 'm') then Some((Minutes, 1))
    else None
  }

  function DigitRun(s: string): (n: nat)
    ensures n <= |s| && AllDigits(s[..n])
    ensures n < |s| ==> !IsDigit(s[n])
  {
    if s == "" || !IsDigit(s[0]) then 0
    else
      assert s[..1 + DigitRun(s[1..])] == [s[0]] + s[1..][..DigitRun(s[1..])];
      1 + DigitRun(s[1..])
  }

  /** All matches of `(\d+)(unit)` from left to right; text between matches is skipped. */
  function Scan(s: string): seq<Call>
    decreases |s|
  {
    if s == "" then []
    else
      var n := DigitRun(s);
      if n == 0 then Scan(s[1..])
      else
        var unit := UnitAt(s[n..]);
        if unit.None? then Scan(s[n..])
        else [Call(Decimal(s[..n]), unit.value.0)] + Scan(s[n + unit.value.1..])
  }

  lemma ScanEmpty()
    ensures Scan("") == []
  {
  }

  lemma {:induction false} ScanOnce(s: string)
    requires s != ""
    ensures var n := DigitRun(s);
            if n == 0 then Scan(s) == Scan(s[1..])
            else var unit := UnitAt(s[n..]);
                 if unit.None? then Scan(s) == Scan(s[n..])
                 else Scan(s) == [Call(Decimal(s[..n]), unit.value.0)] + Scan(s[n + unit.value.1..])
  {
    hide DigitRun, UnitAt, Decimal;
  }

  /** The next match at or after an index: where it ends and what it is. */
  method NextMatch(s: string, from: nat) returns (call: Option<Call>, end: nat)
    requires from <= |s|
    ensures call.None? ==> Scan(s[from..]) == []
    ensures call.Some? ==> from < end <= |s| && Scan(s[from..]) == [call.value] + Scan(s[end..])
  {
    hide DigitRun, UnitAt, Decimal, Scan;
    ScanEmpty();
    var i := from;
    while i < |s|
      invariant from <= i <= |s| && Scan(s[from..]) == Scan(s[i..])
      decreases |s| - i
    {
      var n := DigitRun(s[i..]);
      ScanOnce(s[i..]);
      if n == 0 {
        assert s[i..][1..] == s[i + 1..];
        i := i + 1;
      } else {
        assert s[i..][n..] == s[i + n..];
        var unit := UnitAt(s[i + n..]);
        if unit.None? {
          i := i + n;
        } else {
          var m := unit.value.1;
          assert s[i..][n + m..] == s[i + n + m..];
          return Some(Call(Decimal(s[i..][..n]), unit.value.0)), i + n + m;
        }
      }
    }
    assert s[i..] == "";
    return None, |s|;
  }

  // ---------------------------------------------------------------- parsing

  function ParseStandard(negative: bool, source: string): Result<Duration> {
    var s :- Run(Start(negative), Scan(source));
    Built(s)
  }

  /** `parseStandardFormat`: feed every match to a builder; a rejected unit throws. */
  method ParseStandardFormat(negative: bool, source: string) returns (r: Result<Duration>)
    ensures r == ParseStandard(negative, source)
  {
    var builder := new Builder(negative);
    hide Adding, InRange, Scan, Built;
    assert source[0..] == source;
    var at := 0;
    var call, end := NextMatch(source, at);
    while call.Some?
      invariant fresh(builder) && builder.negative == negative && InRange(builder.Current())
      invariant at <= |source|
      invariant Run(Start(negative), Scan(source)) == Run(builder.Current(), Scan(source[at..]))
      invariant call.None? ==> Scan(source[at..]) == []
      invariant call.Some? ==> at < end <= |source| && Scan(source[at..]) == [call.value] + Scan(source[end..])
      decreases |source| - at, call.Some?
    {
      assert ([call.value] + Scan(source[end..]))[1..] == Scan(source[end..]);
      var ok := builder.Add(call.value.unit, call.value.value);
      if !ok {
        return Err;
      }
      at := end;
      call, end := NextMatch(source, at);
    }
    r := builder.Build();
  }

  /** `fromString`, with the ISO 8601 formats, which start with `P`, as a parameter. */
  function FromString(input: string, iso: (bool, string) -> Result<Duration>): Result<Duration> {
    var negative := input != "" && input[0] == '-';
    var source := if negative then input[1..] else input;
    if source != "" && source[0] == 'P' then iso(negative, source) else ParseStandard(negative, source)
  }

  // ---------------------------------------------------------------- parsing undoes printing

  /** Text that a unit symbol is read in front of: nothing, or a digit. */
  predicate Separates(rest: string) {
    rest == "" || IsDigit(rest[0])
  }

  lemma {:induction false} SymbolIsRead(u: Unit, rest: string)
    requires Separates(rest)
    ensures UnitAt(Symbol(u) + rest) == Some((u, |Symbol(u)|))
    ensures !IsDigit(Symbol(u)[0])
  {
    var s := Symbol(u) + rest;
    assert forall i :: 0 <= i < |Symbol(u)| ==> s[i] == Symbol(u)[i];
    assert rest != "" ==> s[|Symbol(u)|] == rest[0];
  }

  lemma {:induction false} DigitRunOfNumber(digits: string, rest: string)
    requires AllDigits(digits) && (rest == "" || !IsDigit(rest[0]))
    ensures DigitRun(digits + rest) == |digits|
  {
    if digits == "" {
      assert digits + rest == rest;
    } else {
      assert (digits + rest)[1..] == digits[1..] + rest;
      DigitRunOfNumber(digits[1..], rest);
    }
  }

  lemma {:induction false} WrittenSeparates(calls: seq<Call>)
    ensures Separates(Written(calls))
  {
    if calls != [] {
      hide Symbol, Print;
      assert Print(calls[0].value)[0] == Written(calls)[0];
    }
  }

  /** Scanning what was written gives the calls back. */
  lemma {:induction false} ScanUndoesWritten(calls: seq<Call>)
    ensures Scan(Written(calls)) == calls
  {
    if calls != [] {
      var c, rest := calls[0], Written(calls[1..]);
      ScanUndoesWritten(calls[1..]);
      WrittenSeparates(calls[1..]);
      ScanOne(c, rest);
      hide Word, Scan;
      assert calls == [c] + calls[1..];
    }
  }

  lemma {:induction false} ScanOne(c: Call, rest: string)
    requires Separates(rest)
    ensures Scan(Word(c) + rest) == [c] + Scan(rest)
  {
    hide UnitAt, Symbol, Print;
    var digits, tail := Print(c.value), Symbol(c.unit) + rest;
    var s := digits + Symbol(c.unit) + rest;
    SymbolIsRead(c.unit, rest);
    SymbolNotEmpty(c.unit);
    assert s == digits + tail;
    assert tail[0] == Symbol(c.unit)[0];
    DigitRunOfNumber(digits, tail);
    assert s[..|digits|] == digits && s[|digits|..] == tail;
    assert s[|digits| + |Symbol(c.unit)|..] == rest;
  }

  lemma SymbolNotEmpty(u: Unit)
    ensures |Symbol(u)| >= 1
  {
  }

  /** Units listed from coarse to fine, after a given one. */
  predicate Finer(last: nat, units: seq<Unit>)
    decreases |units|
  {
    units == [] || (Index(units[0]) > last && Finer(Index(units[0]), units[1..]))
  }

  lemma {:induction false} SplitIsOrdered(n: nat, units: seq<Unit>, last: nat, rest: seq<Call>)
    requires Finer(last, units) && Ordered(Finest(last, units), rest)
    ensures Ordered(last, Split(n, units) + rest)
    decreases |units|
  {
    if units == [] {
      assert Split(n, units) + rest == rest;
    } else {
      var u := units[0];
      var q, m := n / Weight(u), n % Weight(u);
      SmallDividend(n, Weight(u));
      hide Weight, Index;
      var tail := Split(m, units[1..]) + rest;
      SplitIsOrdered(m, units[1..], Index(u), rest);
      assert Split(n, units) + rest == Part(q, u) + tail;
      if q == 0 {
        assert Part(q, u) + tail == tail;
        OrderedWeaken(last, Index(u), tail);
      } else {
        assert (Part(q, u) + tail)[1..] == tail;
      }
    }
  }

  function Finest(last: nat, units: seq<Unit>): nat {
    if units == [] then last else Index(units[|units| - 1])
  }

  lemma OrderedWeaken(a: nat, b: nat, calls: seq<Call>)
    requires a <= b && Ordered(b, calls)
    ensures Ordered(a, calls)
  {
  }

  lemma {:induction false} SumConcat(f: Field, a: seq<Call>, b: seq<Call>)
    ensures Sum(f, a + b) == Sum(f, a) + Sum(f, b)
  {
    hide FieldOf, Weight;
    if a == [] {
      assert a + b == b;
    } else {
      SumConcat(f, a[1..], b);
      assert (a + b)[1..] == a[1..] + b;
    }
  }

  lemma SumPart(f: Field, n: nat, u: Unit)
    ensures Sum(f, Part(n, u)) == if FieldOf(u) == f then n * Weight(u) else 0
  {
    hide FieldOf, Weight;
    assert n == 0 ==> n * Weight(u) == 0;
  }

  /** The parts of a number add up to it in their own field, provided the finest unit is 1. */
  lemma {:induction false} SplitAddsUp(f: Field, g: Field, n: nat, units: seq<Unit>)
    requires units != [] && Weight(units[|units| - 1]) == 1
    requires forall i :: 0 <= i < |units| ==> FieldOf(units[i]) == g
    ensures Sum(f, Split(n, units)) == if f == g then n else 0
    decreases |units|
  {
    var u := units[0];
    var w := Weight(u);
    SmallDividend(n, w);
    Fundamental(n, w);
    hide Weight, FieldOf, Sum;
    SumConcat(f, Part(n / w, u), Split(n % w, units[1..]));
    SumPart(f, n / w, u);
    if |units| > 1 {
      SplitAddsUp(f, g, n % w, units[1..]);
    } else {
      assert Split(n % w, units[1..]) == [];
      SumOfNone(f);
    }
  }

  lemma SumOfNone(f: Field)
    ensures Sum(f, []) == 0
  {
  }

  lemma Fundamental(n: nat, w: nat)
    requires w >= 1
    ensures n / w * w + n % w == n && (w == 1 ==> n % w == 0)
  {
  }

  lemma {:induction false} PartsAddUp(d: Duration, f: Field)
    ensures Sum(f, Parts(d))
      == match f case InMonths => Abs(d.months) case InDays => Abs(d.days) case InNanos => Abs(d.nanoseconds)
  {
    hide Sum, Split;
    SumConcat(f, Split(Abs(d.months), MONTH_UNITS) + Split(Abs(d.days), DAY_UNITS),
              Split(Abs(d.nanoseconds), NANO_UNITS));
    SumConcat(f, Split(Abs(d.months), MONTH_UNITS), Split(Abs(d.days), DAY_UNITS));
    SplitAddsUp(f, InMonths, Abs(d.months), MONTH_UNITS);
    SplitAddsUp(f, InDays, Abs(d.days), DAY_UNITS);
    SplitAddsUp(f, InNanos, Abs(d.nanoseconds), NANO_UNITS);
  }

  lemma {:induction false} PartsAreOrdered(d: Duration)
    ensures Ordered(0, Parts(d))
  {
    hide Split;
    var a, b, c := Split(Abs(d.months), MONTH_UNITS), Split(Abs(d.days), DAY_UNITS),
        Split(Abs(d.nanoseconds), NANO_UNITS);
    SplitIsOrdered(Abs(d.nanoseconds), NANO_UNITS, 4, []);
    assert c + [] == c;
    SplitIsOrdered(Abs(d.days), DAY_UNITS, 2, c);
    SplitIsOrdered(Abs(d.months), MONTH_UNITS, 0, b + c);
    assert a + (b + c) == a + b + c;
  }

  /** The three fields have no two opposite signs. */
  predicate SharesSign(d: Duration) {
    (d.months >= 0 && d.days >= 0 && d.nanoseconds >= 0) || (d.months <= 0 && d.days <= 0 && d.nanoseconds <= 0)
  }

  /** Printing a duration and parsing it gives the duration back exactly when its fields share a sign:
      the text has room for one sign only. */
  lemma {:induction false} TextRoundTrip(d: Duration, iso: (bool, string) -> Result<Duration>)
    requires Valid(d)
    ensures FromString(Text(d), iso) == Ok(d) <==> SharesSign(d)
  {
    hide Parts, Written, Scan, Run, Ordered, Sum;
    var calls, text := Parts(d), Text(d);
    var body, negative := Written(calls), IsNegative(d);
    WrittenSeparates(calls);
    assert negative ==> text[1..] == body;
    assert !negative ==> text == body;
    assert body != "" ==> body[0] != 'P' && body[0] != '-';
    ScanUndoesWritten(calls);
    PartsAreOrdered(d);
    PartsAddUp(d, InMonths);
    PartsAddUp(d, InDays);
    PartsAddUp(d, InNanos);
    AcceptedExactly(Start(negative), calls);
    var s := Run(Start(negative), calls).value;
    assert s.Total(InMonths) == Abs(d.months) && s.Total(InDays) == Abs(d.days);
    assert s.Total(InNanos) == Abs(d.nanoseconds);
  }

  /** One month less one day is not read back from its text. */
  lemma {:induction false} MixedSignsAreLost(iso: (bool, string) -> Result<Duration>)
    ensures FromString(Text(Duration(1, -1, 0)), iso) != Ok(Duration(1, -1, 0))
  {
    hide FromString, Text;
    TextRoundTrip(Duration(1, -1, 0), iso);
  }
}
