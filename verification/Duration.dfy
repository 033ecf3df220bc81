/** CQL durations (lib/types/duration.js): the binary form, the builder behind text parsing, and the
    standard text format. */
module Durations {
  import opened Bytes
  import opened VInt
  import opened VIntCoding

  const MAX_INT32: int := 0x7fff_ffff
  const MAX_INT64: int := 0x7fff_ffff_ffff_ffff

  datatype Duration = Duration(months: int, days: int, nanoseconds: int)

  /** What the constructor insists on: two 32-bit fields and a 64-bit one. */
  predicate Valid(d: Duration) {
    && -MAX_INT32 - 1 <= d.months <= MAX_INT32
    && -MAX_INT32 - 1 <= d.days <= MAX_INT32
    && -MAX_INT64 - 1 <= d.nanoseconds <= MAX_INT64
  }

  function New(months: int, days: int, nanoseconds: int): (r: Result<Duration>)
    ensures r.Ok? ==> Valid(r.value)
  {
    var d := Duration(months, days, nanoseconds);
    if Valid(d) then Ok(d) else Err
  }

  // ---------------------------------------------------------------- binary form

  /** Three signed vints in a row. */
  function Binary(d: Duration): seq<byte> {
    Encode(ZigZag(d.months)) + Encode(ZigZag(d.days)) + Encode(ZigZag(d.nanoseconds))
  }

  /** The module-level scratch buffers that every `toBuffer` call shares. */
  class ReusableBuffers {
    const months: array<byte>
    const days: array<byte>
    const nanoseconds: array<byte>

    constructor ()
      ensures Ready()
    {
      months := new byte[9](_ => 0);
      days := new byte[9](_ => 0);
      nanoseconds := new byte[9](_ => 0);
    }

    ghost predicate Ready() {
      && months.Length == 9 && days.Length == 9 && nanoseconds.Length == 9
      && months != days && days != nanoseconds && months != nanoseconds
    }

    /** `toBuffer`: whatever earlier calls left in the scratch buffers does not show. */
    method ToBuffer(d: Duration) returns (buffer: seq<byte>)
      requires Ready() && Valid(d)
      modifies months, days, nanoseconds
      ensures buffer == Binary(d)
    {
      hide Encode, ZigZag;
      var lengthMonths := WriteVInt(d.months, months);
      var lengthDays := WriteVInt(d.days, days);
      var lengthNanoseconds := WriteVInt(d.nanoseconds, nanoseconds);
      buffer := months[..lengthMonths];
      buffer := buffer + days[..lengthDays];
      buffer := buffer + nanoseconds[..lengthNanoseconds];
    }
  }

  function FromBinary(buffer: seq<byte>): Result<Duration> {
    var m :- ReadVIntAt(buffer, 0);
    var d :- ReadVIntAt(buffer, m.1);
    var n :- ReadVIntAt(buffer, d.1);
    New(m.0, d.0, n.0)
  }

  method FromBuffer(buffer: seq<byte>) returns (r: Result<Duration>)
    ensures r == FromBinary(buffer)
  {
    hide ReadVIntAt;
    var m := ReadVInt(buffer, 0);
    if m.Err? { return Err; }
    var d := ReadVInt(buffer, m.value.1);
    if d.Err? { return Err; }
    var n := ReadVInt(buffer, d.value.1);
    if n.Err? { return Err; }
    r := New(m.value.0, d.value.0, n.value.0);
  }

  /** Three int64 values in a row are read as a duration exactly when the first two fit 32 bits; bytes after them are
      ignored. */
  lemma {:induction false} FieldsAreRead(d: Duration, after: seq<byte>)
    requires IsInt64(d.months) && IsInt64(d.days) && IsInt64(d.nanoseconds)
    ensures FromBinary(Binary(d) + after)
      == if -0x8000_0000 <= d.months < 0x8000_0000 && -0x8000_0000 <= d.days < 0x8000_0000 then Ok(d) else Err
  {
    hide Encode, ZigZag, ReadVIntAt;
    var m, y, n := Encode(ZigZag(d.months)), Encode(ZigZag(d.days)), Encode(ZigZag(d.nanoseconds));
    var buffer := Binary(d) + after;
    assert buffer == [] + m + (y + n + after);
    VIntRoundTrip(d.months, [], y + n + after);
    assert buffer == m + y + (n + after);
    VIntRoundTrip(d.days, m, n + after);
    assert buffer == (m + y) + n + after;
    VIntRoundTrip(d.nanoseconds, m + y, after);
  }

  /** Every duration is read back from its bytes. */
  lemma {:induction false} BinaryRoundTrip(d: Duration, after: seq<byte>)
    requires Valid(d)
    ensures FromBinary(Binary(d) + after) == Ok(d)
  {
    FieldsAreRead(d, after);
    hide FromBinary, Binary;
  }

  // ---------------------------------------------------------------- the builder

  datatype Unit = Years | Months | Weeks | Days | Hours | Minutes | Seconds | Millis | Micros | Nanos

  function Index(u: Unit): (i: nat)
    ensures 1 <= i <= 10
  {
    match u
    case Years => 1
    case Months => 2
    case Weeks => 3
    case Days => 4
    case Hours => 5
    case Minutes => 6
    case Seconds => 7
    case Millis => 8
    case Micros => 9
    case Nanos => 10
  }

  /** How many months, days or nanoseconds one unit is. */
  function Weight(u: Unit): (w: nat)
    ensures w >= 1
  {
    match u
    case Years => 12
    case Months => 1
    case Weeks => 7
    case Days => 1
    case Hours => 3_600_000_000_000
    case Minutes => 60_000_000_000
    case Seconds => 1_000_000_000
    case Millis => 1_000_000
    case Micros => 1000
    case Nanos => 1
  }

  datatype Field = InMonths | InDays | InNanos

  function FieldOf(u: Unit): Field {
    if Index(u) <= 2 then InMonths else if Index(u) <= 4 then InDays else InNanos
  }

  /** The largest total a field may reach: one more when the duration is to be negated. */
  function Limit(f: Field, negative: bool): int {
    (if f == InNanos then MAX_INT64 else MAX_INT32) + (if negative then 1 else 0)
  }

  datatype State = State(negative: bool, unitIndex: nat, months: int, days: int, nanoseconds: int) {
    function Total(f: Field): int {
      match f
      case InMonths => months
      case InDays => days
      case InNanos => nanoseconds
    }

    function Plus(f: Field, x: int): State {
      match f
      case InMonths => this.(months := months + x)
      case InDays => this.(days := days + x)
      case InNanos => this.(nanoseconds := nanoseconds + x)
    }
  }

  function Start(negative: bool): State {
    State(negative, 0, 0, 0, 0)
  }

  /** What every step of the builder keeps. */
  predicate InRange(s: State) {
    && 0 <= s.months <= Limit(InMonths, s.negative)
    && 0 <= s.days <= Limit(InDays, s.negative)
    && 0 <= s.nanoseconds <= Limit(InNanos, s.negative)
  }

  /** One accepted or rejected `add`. */
  function Adding(s: State, u: Unit, n: nat): Result<State> {
    if Index(u) <= s.unitIndex then Err
    else if n * Weight(u) > Limit(FieldOf(u), s.negative) - s.Total(FieldOf(u)) then Err
    else Ok(s.(unitIndex := Index(u)).Plus(FieldOf(u), n * Weight(u)))
  }

  /** The mutable builder. */
  class Builder {
    const negative: bool
    var unitIndex: nat
    var months: int
    var days: int
    var nanoseconds: int

    constructor (negative: bool)
      ensures Current() == Start(negative) && InRange(Current())
    {
      this.negative := negative;
      unitIndex, months, days, nanoseconds := 0, 0, 0, 0;
    }

    ghost function Current(): State
      reads this
    {
      State(negative, unitIndex, months, days, nanoseconds)
    }

    /** `validateOrder`, the range check of the unit and the update; false when the source throws. */
    method Add(u: Unit, value: nat) returns (ok: bool)
      requires InRange(Current())
      modifies this
      ensures InRange(Current())
      ensures ok <==> Adding(old(Current()), u, value).Ok?
      ensures ok ==> Current() == Adding(old(Current()), u, value).value
      ensures !ok ==> Current() == old(Current()) || Current() == old(Current()).(unitIndex := Index(u))
    {
      if Index(u) == unitIndex || Index(u) <= unitIndex {
        return false;
      }
      hide Exceeds, Weight;
      unitIndex := Index(u);
      if Index(u) <= 2 {
        var room := Limit(InMonths, negative) - months;
        ExceedsExactly(u, value, room);
        if Exceeds(u, value, room) {
          return false;
        }
        months := months + value * Weight(u);
      } else if Index(u) <= 4 {
        var room := Limit(InDays, negative) - days;
        ExceedsExactly(u, value, room);
        if Exceeds(u, value, room) {
          return false;
        }
        days := days + value * Weight(u);
      } else {
        var room := Limit(InNanos, negative) - nanoseconds;
        ExceedsExactly(u, value, room);
        if Exceeds(u, value, room) {
          return false;
        }
        nanoseconds := nanoseconds + value * Weight(u);
      }
      ok := true;
    }

    method Build() returns (r: Result<Duration>)
      ensures r == Built(Current())
    {
      r := if negative then New(-months, -days, -nanoseconds) else New(months, days, nanoseconds);
    }
  }

  function Built(s: State): (r: Result<Duration>)
    ensures InRange(s) ==> r.Ok?
  {
    if s.negative then New(-s.months, -s.days, -s.nanoseconds) else New(s.months, s.days, s.nanoseconds)
  }

  /** BigInt division, toward zero. */
  function Truncated(a: int, b: int): int
    requires b > 0
  {
    if a >= 0 then a / b else -(-a / b)
  }

  /** `validateMonths` and `validateDays` compare Numbers with a fractional limit, `validateNanos`
      compares BigInts with a truncated one. */
  predicate Exceeds(u: Unit, value: nat, room: int) {
    if Index(u) <= 4 then value as real > room as real / Weight(u) as real
    else value > Truncated(room, Weight(u))
  }

  lemma ExceedsExactly(u: Unit, value: nat, room: nat)
    ensures Exceeds(u, value, room) <==> value * Weight(u) > room
    ensures value * Weight(u) >= 0
  {
    if Index(u) <= 4 {
      FractionalLimit(value, room, Weight(u));
    } else {
      TruncatedLimit(value, room, Weight(u));
    }
    NonNegative(value, Weight(u));
  }

  lemma NonNegative(a: nat, b: nat)
    ensures a * b >= 0
  {
  }

  lemma FractionalLimit(n: nat, room: int, w: nat)
    requires w == 1 || w == 7 || w == 12
    ensures n as real > room as real / w as real <==> n * w > room
  {
    assert room as real / w as real * w as real == room as real;
    assert (n * w) as real == n as real * w as real;
  }

  lemma TruncatedLimit(n: nat, room: int, w: nat)
    requires w >= 1 && room >= 0
    ensures n > Truncated(room, w) <==> n * w > room
  {
    var q := room / w;
    assert q * w <= room < (q + 1) * w by { Euclid(room, w); }
    if n > q {
      Multiples(q + 1, n, w);
    } else {
      Multiples(n, q, w);
    }
  }

  lemma Euclid(a: nat, w: nat)
    requires w >= 1
    ensures a / w * w <= a < (a / w + 1) * w
  {
  }

  lemma Multiples(a: int, b: int, w: nat)
    requires a <= b
    ensures a * w <= b * w
  {
  }

  // ---------------------------------------------------------------- sequences of calls

  datatype Call = Call(value: nat, unit: Unit)

  function Run(s: State, calls: seq<Call>): Result<State>
    decreases |calls|
  {
    if calls == [] then Ok(s)
    else
      var t :- Adding(s, calls[0].unit, calls[0].value);
      Run(t, calls[1..])
  }

  predicate Ordered(last: nat, calls: seq<Call>)
    decreases |calls|
  {
    calls == [] || (Index(calls[0].unit) > last && Ordered(Index(calls[0].unit), calls[1..]))
  }

  /** The months, days or nanoseconds that a list of calls asks for. */
  function Sum(f: Field, calls: seq<Call>): (t: nat) {
    if calls == [] then 0
    else (if FieldOf(calls[0].unit) == f then calls[0].value * Weight(calls[0].unit) else 0) + Sum(f, calls[1..])
  }

  predicate WithinLimits(s: State, calls: seq<Call>) {
    forall f: Field :: s.Total(f) + Sum(f, calls) <= Limit(f, s.negative)
  }

  /** A run is accepted exactly when the units strictly increase and no total leaves its range; then
      the builder holds the totals. */
  lemma {:induction false} AcceptedExactly(s: State, calls: seq<Call>)
    requires InRange(s)
    ensures Run(s, calls).Ok? <==> Ordered(s.unitIndex, calls) && WithinLimits(s, calls)
    ensures Run(s, calls).Ok? ==>
              && InRange(Run(s, calls).value)
              && Run(s, calls).value.negative == s.negative
              && forall f: Field :: Run(s, calls).value.Total(f) == s.Total(f) + Sum(f, calls)
    decreases |calls|
  {
    if calls == [] {
      assert s.Total(InMonths) <= Limit(InMonths, s.negative);
      assert s.Total(InDays) <= Limit(InDays, s.negative);
      assert s.Total(InNanos) <= Limit(InNanos, s.negative);
    } else {
      var c := calls[0];
      var f := FieldOf(c.unit);
      var step := Adding(s, c.unit, c.value);
      if step.Ok? {
        AddingKeepsRange(s, c.unit, c.value);
        hide Adding, Index, Weight;
        AcceptedExactly(step.value, calls[1..]);
        assert forall g: Field :: step.value.Total(g) + Sum(g, calls[1..]) == s.Total(g) + Sum(g, calls);
      } else if Index(c.unit) > s.unitIndex {
        assert s.Total(f) + Sum(f, calls) > Limit(f, s.negative);
      }
    }
  }

  /** The value of a field of a duration. */
  function FieldValue(d: Duration, f: Field): int {
    match f
    case InMonths => d.months
    case InDays => d.days
    case InNanos => d.nanoseconds
  }

  /** From a new builder: the calls are accepted exactly when their units are ordered and each sum is in range, and then
      `build` does not throw and gives the sums, negated if asked. */
  lemma {:induction false} BuildsTheSums(negative: bool, calls: seq<Call>)
    ensures var r := Run(Start(negative), calls);
      && (r.Ok? <==> Ordered(0, calls) && forall f: Field :: Sum(f, calls) <= Limit(f, negative))
      && (r.Ok? ==> Built(r.value).Ok?)
      && (r.Ok? ==> forall f: Field ::
            FieldValue(Built(r.value).value, f) == (if negative then -1 else 1) * Sum(f, calls))
  {
    var s := Start(negative);
    AcceptedExactly(s, calls);
    assert forall f: Field :: s.Total(f) == 0;
    var r := Run(s, calls);
    hide Run, Ordered;
    if r.Ok? {
      assert forall f: Field :: r.value.Total(f) == Sum(f, calls);
      assert r.value.Total(InMonths) == r.value.months && r.value.Total(InDays) == r.value.days;
      assert r.value.Total(InNanos) == r.value.nanoseconds;
    }
  }


  lemma AddingKeepsRange(s: State, u: Unit, n: nat)
    requires InRange(s) && Adding(s, u, n).Ok?
    ensures var t := Adding(s, u, n).value;
            && InRange(t) && t.negative == s.negative && t.unitIndex == Index(u)
            && forall g: Field :: t.Total(g) == s.Total(g) + (if g == FieldOf(u) then n * Weight(u) else 0)
  {
    assert n * Weight(u) >= 0;
  }
}
