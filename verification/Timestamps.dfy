/** The monotonic timestamp generator (lib/policies/timestamp-generation.js) under any sequence of clock readings. */
module Timestamps {

  const MAX_SAFE_NUMBER_DATE: int := 9007199254740
  const TWO_53: int := 9007199254740992
  const TWO_63: int := 9223372036854775808

  /** A microsecond timestamp as a Number or as a 64-bit Long. */
  datatype Timestamp = Number(value: int) | Long(value: int)

  /** Two's complement wrap-around at 64 bits. */
  function Wrap64(n: int): (r: int)
    ensures -TWO_63 <= r < TWO_63
    ensures -TWO_63 <= n < TWO_63 ==> r == n
  {
    (n + TWO_63) % (2 * TWO_63) - TWO_63
  }

  /** The timestamp of a millisecond date and a microsecond part. */
  function Microseconds(date: int, micros: int): Timestamp {
    if date < MAX_SAFE_NUMBER_DATE then Number(date * 1000 + micros)
    else Long(Wrap64(Wrap64(Wrap64(date) * 1000) + micros))
  }

  /** Below 2^53 milliseconds the timestamp is exact, and a Number stays a safe integer. */
  lemma {:induction false} MicrosecondsExact(date: int, micros: int)
    requires 0 <= date < TWO_53 && 0 <= micros < 1000
    ensures Microseconds(date, micros).value == 1000 * date + micros
    ensures Microseconds(date, micros).Number? ==> Microseconds(date, micros).value < TWO_53
    ensures Microseconds(date, micros).Number? <==> date < MAX_SAFE_NUMBER_DATE
  {
  }

  class MonotonicTimestampGenerator {
    const warningThreshold: int
    const minLogInterval: int
    var micros: int
    var lastDate: int
    var lastLogDate: int

    predicate Valid()
      reads this
    {
      -1 <= micros < 1000 && lastDate >= 0 && (micros == -1 ==> lastDate == 0)
    }

    /** The last timestamp given out, in microseconds; -1 before the first. */
    function Last(): int
      reads this
    {
      1000 * lastDate + micros
    }

    constructor (warningThreshold: int, minLogInterval: int)
      ensures Valid() && Last() == -1 && lastDate == 0 && lastLogDate == 0 && this.minLogInterval == minLogInterval
      ensures this.warningThreshold == if warningThreshold == 0 then 1000 else warningThreshold
    {
      this.warningThreshold := if warningThreshold == 0 then 1000 else warningThreshold;
      this.minLogInterval := minLogInterval;
      micros, lastDate, lastLogDate := -1, 0, 0;
    }

    /** The next timestamp is the clock's when the clock is in a later millisecond than the last one, else the last one
        plus one microsecond. */
    method Next(now: int, logNow: int) returns (r: Timestamp, warned: bool)
      requires Valid()
      modifies this
      ensures Valid() && micros >= 0 && r == Microseconds(lastDate, micros)
      ensures Last() == if now > old(lastDate) then 1000 * now else old(Last()) + 1
      ensures Last() > old(Last()) && Last() >= 1000 * now
      ensures lastDate
        == if now > old(lastDate) then now else if old(micros) == 999 then old(lastDate) + 1 else old(lastDate)
      // A warning: the timestamp is ahead of the clock by the threshold, and the last warning is an interval ago.
      ensures warned <==>
        && now <= old(lastDate) && lastDate - now >= warningThreshold
        && minLogInterval > 0 && old(lastLogDate) + minLogInterval <= logNow
      ensures lastLogDate == if warned then logNow else old(lastLogDate)
    {
      var date, drifted := now, 0;
      warned := false;
      if date > lastDate {
        micros := 0;
        lastDate := date;
        return Microseconds(lastDate, micros), false;
      }
      if date < lastDate {
        drifted := lastDate - date;
        date := lastDate;
      }
      micros := micros + 1;
      if micros == 1000 {
        micros := 0;
        if date == lastDate {
          date := date + 1;
          drifted := drifted + 1;
        }
      }
      lastDate := date;
      r := Microseconds(lastDate, micros);
      if drifted >= warningThreshold && minLogInterval > 0 && lastLogDate + minLogInterval <= logNow {
        lastLogDate := logNow;
        warned := true;
      }
    }
  }

  /** Over every run, with any readings of the clock, two warnings lie at least an interval apart. */
  method Warnings(g: MonotonicTimestampGenerator, readings: seq<(int, int)>) returns (times: seq<int>)
    requires g.Valid()
    modifies g
    ensures g.Valid()
    ensures forall i, j :: 0 <= i < j < |times| ==> times[j] - times[i] >= g.minLogInterval
  {
    times := [];
    for n := 0 to |readings|
      invariant g.Valid() && (times != [] ==> g.minLogInterval > 0)
      invariant forall i :: 0 <= i < |times| ==> times[i] <= g.lastLogDate
      invariant forall i, j :: 0 <= i < j < |times| ==> times[j] - times[i] >= g.minLogInterval
    {
      var _, warned := g.Next(readings[n].0, readings[n].1);
      if warned {
        times := times + [readings[n].1];
      }
    }
  }

  // ---------------------------------------------------------------- every run

  /** Date and microsecond part after the readings; (0, -1) before any. */
  function LastValue(readings: seq<int>): (r: (nat, int))
    ensures -1 <= r.1 < 1000 && (r.1 == -1 <==> readings == []) && (readings == [] ==> r.0 == 0)
  {
    if readings == [] then (0, -1)
    else
      var now, before := readings[|readings| - 1], LastValue(readings[..|readings| - 1]);
      if now > before.0 then (now, 0)
      else if before.1 == 999 then (before.0 + 1, 0)
      else (before.0, before.1 + 1)
  }

  function Value(readings: seq<int>): int {
    1000 * LastValue(readings).0 + LastValue(readings).1
  }

  /** Over every sequence of readings, backwards jumps and bursts included, timestamps strictly increase. */
  lemma {:induction false} StrictlyIncreasing(readings: seq<int>, i: nat, j: nat)
    requires i < j <= |readings|
    ensures Value(readings[..i]) < Value(readings[..j])
    decreases j
  {
    var r := readings[..j];
    assert r[..j - 1] == readings[..j - 1];
    if i < j - 1 {
      StrictlyIncreasing(readings, i, j - 1);
    }
  }

  /** Each timestamp is at least its reading. */
  lemma {:induction false} AtLeastTheReading(readings: seq<int>)
    requires readings != []
    ensures Value(readings) >= 1000 * readings[|readings| - 1]
  {
  }

  /** A timestamp is never ahead of all readings by more than the number of calls. */
  lemma {:induction false} NotFarAhead(readings: seq<int>, bound: nat)
    requires forall i :: 0 <= i < |readings| ==> readings[i] <= bound
    ensures Value(readings) <= 1000 * bound + |readings|
  {
    if readings != [] {
      NotFarAhead(readings[..|readings| - 1], bound);
    }
  }

  /** The largest time a Date can hold, in milliseconds. */
  const MAX_DATE: int := 8640000000000000

  /** Readings of a Date, and fewer than 3.6e17 of them. */
  ghost predicate ClockReadings(readings: seq<int>) {
    |readings| <= 360000000000000000 && forall i :: 0 <= i < |readings| ==> readings[i] <= MAX_DATE
  }

  lemma {:induction false} DateBelowTwo53(readings: seq<int>, n: nat)
    requires ClockReadings(readings) && n <= |readings|
    ensures LastValue(readings[..n]).0 < TWO_53
  {
    NotFarAhead(readings[..n], MAX_DATE);
  }

  ghost predicate Given(readings: seq<int>, i: nat, t: Timestamp)
    requires i < |readings|
  {
    && t.value == Value(readings[..i + 1]) && (t.Number? <==> LastValue(readings[..i + 1]).0 < MAX_SAFE_NUMBER_DATE)
    && (t.Number? ==> t.value < TWO_53)
  }

  lemma {:induction false} OneMore(readings: seq<int>, n: nat)
    requires n < |readings|
    ensures var now, before, after := readings[n], LastValue(readings[..n]), LastValue(readings[..n + 1]);
      after
      == if now > before.0 then (now, 0) else if before.1 == 999 then (before.0 + 1, 0) else (before.0, before.1 + 1)
  {
    assert readings[..n + 1][..n] == readings[..n];
  }

  lemma {:induction false} GivenInOrder(readings: seq<int>, i: nat, j: nat, s: Timestamp, t: Timestamp)
    requires i < j < |readings| && Given(readings, i, s) && Given(readings, j, t)
    ensures s.value < t.value && (t.Number? ==> s.Number?)
  {
    StrictlyIncreasing(readings, i + 1, j + 1);
    hide LastValue;
  }

  /** The timestamps the generator gives for clock readings strictly increase, each at least its reading; those that
      are Numbers come first and stay below 2^53. */
  method Run(readings: seq<int>) returns (stamps: seq<Timestamp>)
    requires ClockReadings(readings)
    ensures |stamps| == |readings|
    ensures forall i :: 0 <= i < |stamps| ==> Given(readings, i, stamps[i]) && stamps[i].value >= 1000 * readings[i]
    ensures forall i, j :: 0 <= i < j < |stamps| ==>
      stamps[i].value < stamps[j].value && (stamps[j].Number? ==> stamps[i].Number?)
  {
    hide LastValue, Microseconds;
    var g := new MonotonicTimestampGenerator(1000, 1000);
    stamps := [];
    NoReadings(readings);
    for n := 0 to |readings|
      invariant g.Valid() && fresh(g) && LastValue(readings[..n]) == (g.lastDate, g.micros)
      invariant |stamps| == n
      invariant forall i :: 0 <= i < n ==> Given(readings, i, stamps[i])
    {
      OneMore(readings, n);
      DateBelowTwo53(readings, n + 1);
      var stamp, _ := g.Next(readings[n], 0);
      MicrosecondsExact(g.lastDate, g.micros);
      assert Given(readings, n, stamp);
      stamps := stamps + [stamp];
    }
    forall i | 0 <= i < |stamps|
      ensures stamps[i].value >= 1000 * readings[i]
    {
      AtLeastTheReading(readings[..i + 1]);
    }
    forall i, j | 0 <= i < j < |stamps|
      ensures stamps[i].value < stamps[j].value && (stamps[j].Number? ==> stamps[i].Number?)
    {
      GivenInOrder(readings, i, j, stamps[i], stamps[j]);
    }
  }

  lemma {:induction false} NoReadings(readings: seq<int>)
    ensures LastValue(readings[..0]) == (0, -1)
  {
  }
}
