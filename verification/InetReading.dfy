/** What fromString makes of IPv6 texts that toString does not print: groups with leading zeros and in either letter
    case, a `::` that stands for any number of groups, and a dotted IPv4 address at the end. */
module InetReading {
  import opened Bytes
  import opened InetText
  import opened Inet
  import opened InetRoundTrip
  import opened InetAddresses
  import Digits

  // ---------------------------------------------------------------- hexadecimal texts

  ghost predicate IsDigitOf(c: char, d: nat) {
    d < 16 && (c == "0123456789abcdef"[d] || c == "0123456789ABCDEF"[d])
  }

  /** A hexadecimal text of a number, in either letter case and with any leading zeros. */
  ghost predicate Writes(s: string, v: nat) {
    if |s| <= 1 then |s| == 1 && IsDigitOf(s[0], v)
    else Writes(s[..|s| - 1], v / 16) && IsDigitOf(s[|s| - 1], v % 16)
  }

  ghost predicate WritesAll(texts: seq<string>, values: seq<nat>) {
    |texts| == |values| && forall i :: 0 <= i < |texts| ==> Writes(texts[i], values[i])
  }

  ghost predicate Small(values: seq<nat>) {
    forall i :: 0 <= i < |values| ==> values[i] < 65536
  }

  predicate AnyHex(s: string) {
    forall i :: 0 <= i < |s| ==> HexValue(s[i]).Some?
  }

  lemma {:induction false} DigitRead(c: char, d: nat)
    requires IsDigitOf(c, d)
    ensures HexValue(c) == Some(d)
  {
  }

  lemma {:induction false} ParseLast(s: string, c: char, d: nat, sofar: nat)
    requires AnyHex(s) && HexValue(c) == Some(d) && d < 16
    ensures ParseHex(s + [c], sofar) == 16 * ParseHex(s, sofar) + d
  {
    var all := s + [c];
    if s == "" {
      assert all == [c] && all[1..] == "";
    } else {
      assert all[0] == s[0] && all[1..] == s[1..] + [c];
      ParseLast(s[1..], c, d, 16 * sofar + HexValue(s[0]).value);
    }
  }

  lemma {:induction false} WritesRead(s: string, v: nat)
    requires Writes(s, v)
    ensures s != "" && AnyHex(s) && ParseHex(s, 0) == v
  {
    if |s| == 1 {
      DigitRead(s[0], v);
      assert s[1..] == "";
    } else {
      var n := |s| - 1;
      WritesRead(s[..n], v / 16);
      DigitRead(s[n], v % 16);
      hide Writes, ParseHex, HexValue;
      ParseLast(s[..n], s[n], v % 16, 0);
      assert s == s[..n] + [s[n]];
    }
  }

  // ---------------------------------------------------------------- reading groups

  /** The groups fit 16 bits each and what is left of the buffer. */
  ghost predicate Room(values: seq<nat>, out: seq<byte>) {
    Small(values) && (values == [] || |out| + 2 * |values| <= 16)
  }

  lemma {:induction false} OneTextRead(s: string, v: nat, rest: seq<string>, out: seq<byte>, filling: int,
                                       applied: bool)
    requires Writes(s, v)
    ensures WriteList([s] + rest, out, filling, applied)
         == if v < 65536 && |out| + 2 <= 16 then WriteList(rest, out + [v / 256, v % 256], filling, applied) else Err
  {
    WritesRead(s, v);
    hide ParseHex, Writes;
    assert ([s] + rest)[1..] == rest;
  }

  lemma {:induction false} TextsRead(texts: seq<string>, values: seq<nat>, rest: seq<string>, out: seq<byte>,
                                     filling: int, applied: bool)
    requires WritesAll(texts, values)
    ensures WriteList(texts + rest, out, filling, applied)
         == if Room(values, out) then WriteList(rest, out + GroupBytes(values), filling, applied) else Err
    decreases |texts|
  {
    hide WriteList, GroupBytes, Writes;
    if texts == [] {
      assert texts + rest == rest && GroupBytes(values) == [] && out + [] == out;
    } else {
      var v, more := values[0], values[1..];
      assert texts + rest == [texts[0]] + (texts[1..] + rest);
      OneTextRead(texts[0], v, texts[1..] + rest, out, filling, applied);
      SmallFirst(values);
      if v < 65536 && |out| + 2 <= 16 {
        var next := out + [v / 256, v % 256];
        TextsRead(texts[1..], more, rest, next, filling, applied);
        if Small(values) {
          GroupBytesFirst(values);
          assert next + GroupBytes(more) == out + ([v / 256, v % 256] + GroupBytes(more));
        }
        hide Small;
      }
    }
  }

  lemma {:induction false} SmallFirst(values: seq<nat>)
    requires values != []
    ensures Small(values) <==> values[0] < 65536 && Small(values[1..])
  {
    assert values == [values[0]] + values[1..];
  }

  /** The parts before a dotted last part, then its octets. */
  lemma {:induction false} EmbeddedIs(ps: seq<string>, dotted: string, i: nat, out: seq<byte>, filling: int,
                                      applied: bool)
    requires dotted != "" && i <= |ps|
    ensures WriteParts(ps + [dotted], i, out, filling, applied, true)
         == var r := WriteList(ps[i..], out, filling, applied);
            if r.Err? then Err else WriteOctets(Split(dotted, '.'), r.value)
    decreases |ps| - i
  {
    hide ParseHex, Split, WriteOctets;
    var parts := ps + [dotted];
    if i < |ps| {
      assert ps[i..][0] == ps[i] && ps[i..][1..] == ps[i + 1..] && parts[i] == ps[i];
      if ps[i] != "" {
        var v := ParseHex(ps[i], 0);
        if v <= 65535 && |out| + 2 <= 16 {
          EmbeddedIs(ps, dotted, i + 1, out + [v / 256, v % 256], filling, applied);
        }
      } else {
        var f := if applied then 1 else filling;
        EmbeddedIs(ps, dotted, i + 1, out + Zeros(2 * f), f, true);
      }
    }
  }

  ghost function Dotted(octets: seq<byte>): string
    requires |octets| == 4
  {
    Digits.Print(octets[0]) + "." + Digits.Print(octets[1]) + "." + Digits.Print(octets[2]) + "."
    + Digits.Print(octets[3])
  }

  ghost function OctetTexts(octets: seq<byte>): (parts: seq<string>)
    requires |octets| == 4
    ensures |parts| == 4
  {
    [Digits.Print(octets[0]), Digits.Print(octets[1]), Digits.Print(octets[2]), Digits.Print(octets[3])]
  }

  lemma {:induction false} JoinFour(a: string, b: string, c: string, d: string)
    ensures Join([a, b, c, d], '.') == a + "." + b + "." + c + "." + d
  {
    assert [a, b, c, d][1..] == [b, c, d] && [b, c, d][1..] == [c, d] && [c, d][1..] == [d];
    assert Join([c, d], '.') == c + "." + d;
    assert Join([b, c, d], '.') == b + "." + (c + "." + d);
    assert Join([a, b, c, d], '.') == a + "." + (b + "." + (c + "." + d));
  }

  lemma {:induction false} OctetTextsAre(octets: seq<byte>)
    requires |octets| == 4
    ensures Octets(OctetTexts(octets)) && Dotted(octets) == Join(OctetTexts(octets), '.')
    ensures forall i :: 0 <= i < 4 ==> '.' !in OctetTexts(octets)[i] && Digits.AllDigits(OctetTexts(octets)[i])
  {
    var parts := OctetTexts(octets);
    forall i | 0 <= i < 4
      ensures Octet(parts[i]) && '.' !in parts[i] && Digits.AllDigits(parts[i])
    {
      OctetOfByte(octets[i]);
    }
    hide Octet, Join;
    JoinFour(parts[0], parts[1], parts[2], parts[3]);
  }

  lemma {:induction false} DottedIs(octets: seq<byte>)
    requires |octets| == 4
    ensures var d := Dotted(octets);
      d != "" && MatchesIPv4(d) && ':' !in d && Split(d, '.') == OctetTexts(octets)
  {
    OctetTextsAre(octets);
    hide Dotted, OctetTexts, Octets, Join, Split, MatchesIPv4;
    var parts := OctetTexts(octets);
    IPv4Language(Dotted(octets));
    SplitUndoesJoin(parts, '.');
    DotsInside(parts, ':');
  }

  /** Four octets are written when there is room for them. */
  lemma {:induction false} OctetsRead(octets: seq<byte>, out: seq<byte>)
    requires |octets| == 4
    ensures WriteOctets(OctetTexts(octets), out) == if |out| + 4 <= 16 then Ok(out + octets) else Err
  {
    var parts := OctetTexts(octets);
    OctetsFrom(parts, octets, out);
  }

  lemma {:induction false} OctetsFrom(parts: seq<string>, octets: seq<byte>, out: seq<byte>)
    requires |parts| == |octets| > 0
    requires forall i :: 0 <= i < |parts| ==> Digits.AllDigits(parts[i]) && Digits.Decimal(parts[i]) == octets[i]
    ensures WriteOctets(parts, out) == if |out| + |parts| <= 16 then Ok(out + octets) else Err
    decreases |parts|
  {
    assert [parts[0]][1..] == [];
    assert Decimals([parts[0]])[0] == octets[0];
    var next := out + [octets[0]];
    assert next + octets[1..] == out + octets;
    if |parts| > 1 {
      OctetsFrom(parts[1..], octets[1..], next);
    } else {
      assert parts[1..] == [] && octets[1..] == [] && next + [] == next;
      assert WriteOctets([], next) == Ok(next);
    }
  }

  // ---------------------------------------------------------------- from the text to the parts

  predicate PartChars(s: string) {
    forall i :: 0 <= i < |s| ==> HexValue(s[i]).Some? || s[i] == '.'
  }

  lemma {:induction false} PartsJoinedChars(parts: seq<string>)
    requires forall i :: 0 <= i < |parts| ==> PartChars(parts[i])
    ensures IPv6Chars(Join(parts, ':')) && (|parts| >= 2 ==> ':' in Join(parts, ':'))
  {
    if |parts| > 1 {
      PartsJoinedChars(parts[1..]);
      assert IPv6Chars(parts[0]);
      assert Join(parts, ':')[|parts[0]|] == ':';
    }
  }

  /** The bytes in front of the octets of an IPv4-mapped address. */
  const MAPPED: seq<byte> := [0, 0, 0, 0, 0, 0, 0, 0, 0, 0, 255, 255]

  lemma {:induction false} MappedExactly(a: seq<byte>)
    requires |a| == 16
    ensures IPv4Mapped(a) <==> a[..12] == MAPPED
  {
    if a[..12] == MAPPED {
      assert forall i :: 0 <= i < 12 ==> a[i] == a[..12][i];
    }
  }

  /** The parts a text is split into and how they are read. */
  lemma {:induction false} ReadJoined(parts: seq<string>, stale: seq<byte>)
    requires |parts| >= 3 && |stale| == 16 && forall i :: 0 <= i < |parts| ==> PartChars(parts[i])
    ensures var embedded := MatchesIPv4(parts[|parts| - 1]);
      var out := WriteParts(parts, 0, [], 9 - |parts| - (if embedded then 1 else 0), false, embedded);
      FromText(Join(parts, ':'), stale)
      == if out.Err? || (embedded && Over(out.value, stale)[..12] != MAPPED) then Err else Ok(Over(out.value, stale))
  {
    hide WriteParts, Join, Split, MatchesIPv4, IPv6Chars, Over;
    PartsJoinedChars(parts);
    NotIPv4(Join(parts, ':'));
    forall i | 0 <= i < |parts|
      ensures ':' !in parts[i]
    {
      assert PartChars(parts[i]);
    }
    SplitUndoesJoin(parts, ':');
    hide PartChars;
    var embedded := MatchesIPv4(parts[|parts| - 1]);
    var out := WriteParts(parts, 0, [], 9 - |parts| - (if embedded then 1 else 0), false, embedded);
    if out.Ok? {
      MappedExactly(Over(out.value, stale));
    }
    hide IPv4Mapped;
  }

  // ---------------------------------------------------------------- compressed texts

  ghost function OrEmpty(texts: seq<string>): (r: seq<string>)
    ensures r != []
  {
    if texts == [] then [""] else texts
  }

  /** The zeros that the empty parts in front and in the middle stand for. */
  ghost function Gap(left: seq<string>, f: int): seq<byte> {
    if left == [] then Zeros(2 * f) + Zeros(2) else Zeros(2 * f)
  }

  lemma {:induction false} GapRead(left: seq<string>, lv: seq<nat>, rest: seq<string>, f: int)
    requires WritesAll(left, lv)
    ensures WriteList(OrEmpty(left) + ([""] + rest), [], f, false)
         == if !Room(lv, []) then Err
            else WriteList(rest, GroupBytes(lv) + Gap(left, f), if left == [] then 1 else f, true)
  {
    hide WriteList, Zeros, GroupBytes, Writes;
    if left == [] {
      assert GroupBytes(lv) == [] && Room(lv, []) by { assert lv == []; }
      ReadEmpty([""] + rest, [], f, false);
      ReadEmpty(rest, [] + Zeros(2 * f), f, true);
      assert [] + Zeros(2 * f) + Zeros(2) == [] + Gap(left, f);
    } else {
      TextsRead(left, lv, [""] + rest, [], f, false);
      if Room(lv, []) {
        assert [] + GroupBytes(lv) == GroupBytes(lv);
        ReadEmpty(rest, GroupBytes(lv), f, false);
      }
    }
  }

  /** The groups on both sides of `::`. */
  lemma {:induction false} BothSidesRead(left: seq<string>, lv: seq<nat>, right: seq<string>, rv: seq<nat>, f: int)
    requires WritesAll(left, lv) && WritesAll(right, rv)
    ensures WriteList(OrEmpty(left) + ([""] + right), [], f, false)
         == if !Room(lv, []) then Err
            else
              var out := GroupBytes(lv) + Gap(left, f);
              if Room(rv, out) then Ok(out + GroupBytes(rv)) else Err
  {
    hide WriteList, GroupBytes, WritesAll, Gap, OrEmpty;
    GapRead(left, lv, right, f);
    if Room(lv, []) {
      var out, g := GroupBytes(lv) + Gap(left, f), if left == [] then 1 else f;
      TextsRead(right, rv, [], out, g, true);
      assert right + [] == right;
      if Room(rv, out) {
        ListDone(out + GroupBytes(rv), g, true);
      }
    }
  }

  lemma {:induction false} EndRead(left: seq<string>, lv: seq<nat>, f: int)
    requires WritesAll(left, lv)
    ensures WriteList(OrEmpty(left) + ([""] + [""]), [], f, false)
         == if !Room(lv, []) then Err else Ok(GroupBytes(lv) + Gap(left, f) + Zeros(2))
  {
    hide WriteList, GroupBytes, WritesAll, Gap, OrEmpty, Zeros;
    GapRead(left, lv, [""], f);
    if Room(lv, []) {
      var out, g := GroupBytes(lv) + Gap(left, f), if left == [] then 1 else f;
      assert [""] + [] == [""];
      ReadEmpty([], out, g, true);
      ListDone(out + Zeros(2), 1, true);
    }
  }

  // ---------------------------------------------------------------- how many groups fit

  /** Left and right groups and a dotted tail, which takes the place of two groups, leave room for `::`. In front,
      `::` always stands for a group. */
  predicate Roomy(left: nat, right: nat, tail: bool) {
    var n := left + right + if tail then 2 else 0;
    n <= 7 || (n == 8 && left > 0)
  }

  ghost function TailTexts(tail: Option<seq<byte>>): seq<string>
    requires tail.Some? ==> |tail.value| == 4
  {
    if tail.Some? then [Dotted(tail.value)] else []
  }

  /** The left groups, zeros up to sixteen bytes, the right groups and the tail. */
  ghost function Expanded(lv: seq<nat>, rv: seq<nat>, tail: Option<seq<byte>>): (bytes: seq<byte>)
    requires Small(lv) && Small(rv) && (tail.Some? ==> |tail.value| == 4) && Roomy(|lv|, |rv|, tail.Some?)
    ensures |bytes| == 16
  {
    var n := |lv| + |rv| + if tail.Some? then 2 else 0;
    GroupBytes(lv) + Zeros(16 - 2 * n) + GroupBytes(rv) + if tail.Some? then tail.value else []
  }

  lemma {:induction false} GapFits(left: seq<string>, rn: nat, tail: bool, f: int)
    requires rn > 0 || tail
    requires f == 9 - ((if left == [] then 1 else |left|) + 1 + rn + (if tail then 1 else 0)) - (if tail then 1 else 0)
    ensures Roomy(|left|, rn, tail) ==> Gap(left, f) == Zeros(16 - 2 * (|left| + rn + if tail then 2 else 0))
    ensures !Roomy(|left|, rn, tail) ==> 2 * |left| + |Gap(left, f)| + 2 * rn + (if tail then 4 else 0) > 16
  {
  }

  /** What both sides and the octets come to. */
  lemma {:induction false} TailFits(left: seq<string>, lv: seq<nat>, rv: seq<nat>, octets: seq<byte>, f: int)
    requires |left| == |lv| && |octets| == 4 && Small(lv) && Small(rv)
    requires f == 9 - ((if left == [] then 1 else |left|) + 1 + |rv| + 1) - 1
    ensures var out := GroupBytes(lv) + Gap(left, f);
      if Roomy(|lv|, |rv|, true) then
        && Room(lv, []) && Room(rv, out) && |out + GroupBytes(rv)| + 4 <= 16
        && out + GroupBytes(rv) + octets == Expanded(lv, rv, Some(octets))
      else !Room(lv, []) || !Room(rv, out) || |out + GroupBytes(rv)| + 4 > 16
  {
    hide GroupBytes, Zeros, Gap, Small;
    GapFits(left, |rv|, true, f);
  }

  /** The parts of a text with `::` and a dotted tail. */
  lemma {:induction false} TailRead(left: seq<string>, lv: seq<nat>, right: seq<string>, rv: seq<nat>,
                                    octets: seq<byte>)
    requires WritesAll(left, lv) && WritesAll(right, rv) && |octets| == 4
    ensures var ps := OrEmpty(left) + ([""] + right);
      WriteParts(ps + [Dotted(octets)], 0, [], 9 - (|ps| + 1) - 1, false, true)
      == if Small(lv) && Small(rv) && Roomy(|lv|, |rv|, true) then Ok(Expanded(lv, rv, Some(octets))) else Err
  {
    hide WriteParts, WriteList, GroupBytes, Zeros, Gap, Dotted, Small, Expanded, OctetTexts, WriteOctets, Roomy, Writes;
    var ps := OrEmpty(left) + ([""] + right);
    var f := 9 - (|ps| + 1) - 1;
    DottedIs(octets);
    EmbeddedIs(ps, Dotted(octets), 0, [], f, false);
    assert ps[0..] == ps;
    BothSidesRead(left, lv, right, rv, f);
    if Small(lv) && Small(rv) {
      TailFits(left, lv, rv, octets, f);
      if Room(lv, []) && Room(rv, GroupBytes(lv) + Gap(left, f)) {
        OctetsRead(octets, GroupBytes(lv) + Gap(left, f) + GroupBytes(rv));
      }
    }
  }

  /** The parts of a text with `::` and no dotted tail. */
  lemma {:induction false} GroupsRead(left: seq<string>, lv: seq<nat>, right: seq<string>, rv: seq<nat>,
                                      stale: seq<byte>)
    requires WritesAll(left, lv) && WritesAll(right, rv) && |stale| == 16
    ensures var ps := OrEmpty(left) + ([""] + OrEmpty(right));
      var out := WriteParts(ps, 0, [], 9 - |ps|, false, false);
      if Small(lv) && Small(rv) && Roomy(|lv|, |rv|, false) then
        out.Ok? && Over(out.value, stale) == Expanded(lv, rv, None)
      else out.Err?
  {
    hide WriteParts, WriteList, GroupBytes, Zeros, Gap, Small, Expanded, Roomy, Writes, Over;
    var ps := OrEmpty(left) + ([""] + OrEmpty(right));
    var f := 9 - |ps|;
    WriteListIs(ps, 0, [], f, false);
    assert ps[0..] == ps;
    if right == [] {
      EndRead(left, lv, f);
      EndFits(left, lv, rv, f, stale);
    } else {
      BothSidesRead(left, lv, right, rv, f);
      SidesFit(left, lv, rv, f, stale);
    }
  }

  lemma {:induction false} EndFits(left: seq<string>, lv: seq<nat>, rv: seq<nat>, f: int, stale: seq<byte>)
    requires |left| == |lv| && rv == [] && |stale| == 16
    requires f == 9 - ((if left == [] then 1 else |left|) + 2)
    ensures Small(rv) && (Small(lv) && Roomy(|lv|, 0, false) <==> Room(lv, []))
    ensures Small(lv) && Roomy(|lv|, 0, false) ==>
      Over(GroupBytes(lv) + Gap(left, f) + Zeros(2), stale) == Expanded(lv, rv, None)
  {
    hide GroupBytes, Zeros;
    if Small(lv) && Roomy(|lv|, 0, false) {
      var a := GroupBytes(lv);
      assert GroupBytes(rv) == [];
      if |lv| == 8 {
        assert (a + Gap(left, f) + Zeros(2))[..16] == a;
        assert a + Zeros(0) + [] + [] == a;
      } else {
        EndGap(left, f);
        assert a + Gap(left, f) + Zeros(2) == a + Zeros(16 - 2 * |lv|);
        assert a + Zeros(16 - 2 * |lv|) + [] + [] == a + Zeros(16 - 2 * |lv|);
        var out := a + Zeros(16 - 2 * |lv|);
        assert out[..16] == out;
      }
    }
  }

  lemma {:induction false} EndGap(left: seq<string>, f: int)
    requires |left| <= 7 && f == 9 - ((if left == [] then 1 else |left|) + 2)
    ensures Gap(left, f) + Zeros(2) == Zeros(16 - 2 * |left|)
  {
  }

  lemma {:induction false} SidesFit(left: seq<string>, lv: seq<nat>, rv: seq<nat>, f: int, stale: seq<byte>)
    requires |left| == |lv| && rv != [] && |stale| == 16
    requires f == 9 - ((if left == [] then 1 else |left|) + 1 + |rv|)
    ensures var fits := Small(lv) && Small(rv) && Roomy(|lv|, |rv|, false);
      && (fits <==> Room(lv, []) && Small(lv) && Room(rv, GroupBytes(lv) + Gap(left, f)))
      && (fits ==> Over(GroupBytes(lv) + Gap(left, f) + GroupBytes(rv), stale) == Expanded(lv, rv, None))
  {
    hide GroupBytes, Zeros, Gap;
    GapFits(left, |rv|, false, f);
    if Small(lv) && Small(rv) && Roomy(|lv|, |rv|, false) {
      var out := GroupBytes(lv) + Gap(left, f) + GroupBytes(rv);
      assert out + [] == out && out[..16] == out;
    }
  }

  // ---------------------------------------------------------------- what texts are read as

  lemma {:induction false} GroupChars(texts: seq<string>, values: seq<nat>)
    requires WritesAll(texts, values)
    ensures forall i :: 0 <= i < |texts| ==> PartChars(texts[i]) && '.' !in texts[i]
  {
    forall i | 0 <= i < |texts|
      ensures PartChars(texts[i]) && '.' !in texts[i]
    {
      WritesRead(texts[i], values[i]);
      hide Writes;
      assert AnyHex(texts[i]);
    }
  }

  lemma {:induction false} DottedChars(octets: seq<byte>)
    requires |octets| == 4
    ensures PartChars(Dotted(octets))
  {
    forall k | 0 <= k < 4
      ensures PartChars(Digits.Print(octets[k]))
    {
      assert Digits.AllDigits(Digits.Print(octets[k]));
      hide Digits.Print;
    }
    hide Digits.Print;
    CharsJoined(Digits.Print(octets[0]), ".");
    CharsJoined(Digits.Print(octets[0]) + ".", Digits.Print(octets[1]));
    CharsJoined(Digits.Print(octets[0]) + "." + Digits.Print(octets[1]), ".");
    var three := Digits.Print(octets[0]) + "." + Digits.Print(octets[1]) + ".";
    CharsJoined(three, Digits.Print(octets[2]));
    CharsJoined(three + Digits.Print(octets[2]), ".");
    CharsJoined(three + Digits.Print(octets[2]) + ".", Digits.Print(octets[3]));
  }

  lemma {:induction false} CharsJoined(a: string, b: string)
    requires PartChars(a) && PartChars(b)
    ensures PartChars(a + b)
  {
  }

  /** `left::right`, or `left::right:a.b.c.d` when there is a tail. */
  ghost function CompressedText(left: seq<string>, right: seq<string>, tail: Option<seq<byte>>): string
    requires tail.Some? ==> |tail.value| == 4
  {
    Join(left, ':') + "::" + Join(right + TailTexts(tail), ':')
  }

  lemma {:induction false} CompressedParts(left: seq<string>, right: seq<string>, tail: Option<seq<byte>>)
    requires tail.Some? ==> |tail.value| == 4
    ensures CompressedText(left, right, tail)
         == Join(OrEmpty(left) + ([""] + OrEmpty(right + TailTexts(tail))), ':')
  {
    hide Join, TailTexts;
    var behind := right + TailTexts(tail);
    EmptyFirst(OrEmpty(left), OrEmpty(behind));
    EmptyJoin();
    var x, y := Join(left, ':'), Join(behind, ':');
    assert x + ":" + (":" + y) == x + "::" + y;
  }

  lemma {:induction false} UntailedRead(left: seq<string>, lv: seq<nat>, right: seq<string>, rv: seq<nat>,
                                        stale: seq<byte>)
    requires WritesAll(left, lv) && WritesAll(right, rv) && |stale| == 16
    ensures FromText(Join(OrEmpty(left) + ([""] + OrEmpty(right)), ':'), stale)
         == if Small(lv) && Small(rv) && Roomy(|lv|, |rv|, false) then Ok(Expanded(lv, rv, None)) else Err
  {
    hide FromText, Writes, Small, Roomy, Expanded, WriteParts, Over, MatchesIPv4, PartChars, Join;
    GroupChars(left, lv);
    GroupChars(right, rv);
    NoChars();
    var parts := OrEmpty(left) + ([""] + OrEmpty(right));
    assert '.' !in parts[|parts| - 1];
    NotIPv4(parts[|parts| - 1]);
    GroupsRead(left, lv, right, rv, stale);
    hide WritesAll;
    ReadJoined(parts, stale);
  }

  lemma {:induction false} TailedRead(left: seq<string>, lv: seq<nat>, right: seq<string>, rv: seq<nat>,
                                      octets: seq<byte>, stale: seq<byte>)
    requires WritesAll(left, lv) && WritesAll(right, rv) && |stale| == 16 && |octets| == 4
    ensures FromText(Join(OrEmpty(left) + ([""] + right) + [Dotted(octets)], ':'), stale)
         == if !(Small(lv) && Small(rv) && Roomy(|lv|, |rv|, true)) then Err
            else if Expanded(lv, rv, Some(octets))[..12] != MAPPED then Err
            else Ok(Expanded(lv, rv, Some(octets)))
  {
    hide FromText, Writes, Small, Roomy, Expanded, WriteParts, Over, MatchesIPv4, Dotted, PartChars, Join;
    GroupChars(left, lv);
    GroupChars(right, rv);
    NoChars();
    DottedChars(octets);
    DottedIs(octets);
    TailRead(left, lv, right, rv, octets);
    hide WritesAll;
    ReadJoined(OrEmpty(left) + ([""] + right) + [Dotted(octets)], stale);
    if Small(lv) && Small(rv) && Roomy(|lv|, |rv|, true) {
      OverFull(Expanded(lv, rv, Some(octets)), stale);
    }
  }

  /** Any text of left groups, `::`, right groups and an optional dotted tail, with groups in either letter case and
      with leading zeros: it is read exactly when every group fits 16 bits and the groups leave room, and a tail only
      in an IPv4-mapped address; and then as the left groups, zeros up to sixteen bytes, the right groups and the
      tail, whatever the allocated buffer held. */
  lemma {:induction false} CompressedRead(left: seq<string>, lv: seq<nat>, right: seq<string>, rv: seq<nat>,
                                          tail: Option<seq<byte>>, stale: seq<byte>)
    requires WritesAll(left, lv) && WritesAll(right, rv) && |stale| == 16 && (tail.Some? ==> |tail.value| == 4)
    ensures FromText(CompressedText(left, right, tail), stale)
         == if !(Small(lv) && Small(rv) && Roomy(|lv|, |rv|, tail.Some?)) then Err
            else if tail.Some? && Expanded(lv, rv, tail)[..12] != MAPPED then Err
            else Ok(Expanded(lv, rv, tail))
  {
    hide FromText, CompressedText, WritesAll, Small, Roomy, Expanded, Dotted, Join;
    CompressedParts(left, right, tail);
    if tail.None? {
      assert right + TailTexts(tail) == right;
      UntailedRead(left, lv, right, rv, stale);
    } else {
      TailedRead(left, lv, right, rv, tail.value, stale);
      assert OrEmpty(left) + ([""] + OrEmpty(right + TailTexts(tail)))
          == OrEmpty(left) + ([""] + right) + [Dotted(tail.value)];
    }
  }

  lemma {:induction false} NoChars()
    ensures PartChars("")
  {
  }

  lemma {:induction false} OverPart(out: seq<byte>, stale: seq<byte>)
    requires |out| <= 16 && |stale| == 16
    ensures Over(out, stale) == out + stale[|out|..]
  {
    if |out| == 16 {
      assert out[..16] == out && out + [] == out;
    }
  }

  lemma {:induction false} OverFull(bytes: seq<byte>, stale: seq<byte>)
    requires |bytes| == 16 && |stale| == 16
    ensures Over(bytes, stale) == bytes
  {
    assert bytes[..16] == bytes;
  }

  /** Every IPv4-mapped address: ten zeros, two bytes of ones and the octets. */
  lemma {:induction false} MappedRead(octets: seq<byte>, stale: seq<byte>)
    requires |octets| == 4 && |stale| == 16
    ensures FromText("::ffff:" + Dotted(octets), stale)
         == Ok([0, 0, 0, 0, 0, 0, 0, 0, 0, 0, 255, 255] + octets)
  {
    hide FromText, CompressedText, Expanded, Dotted, Writes;
    FourFs();
    CompressedRead([], [], ["ffff"], [65535], Some(octets), stale);
    MappedText(octets);
    MappedBytes(octets);
  }

  lemma {:induction false} FourFs()
    ensures Writes("ffff", 65535)
  {
    assert "ffff"[..3] == "fff" && "fff"[..2] == "ff" && "ff"[..1] == "f";
    assert Writes("f", 15);
    assert Writes("ff", 255);
    assert Writes("fff", 4095);
  }

  lemma {:induction false} MappedText(octets: seq<byte>)
    requires |octets| == 4
    ensures CompressedText([], ["ffff"], Some(octets)) == "::ffff:" + Dotted(octets)
  {
    hide Dotted;
    var dotted := Dotted(octets);
    assert (["ffff"] + [dotted])[1..] == [dotted];
    assert Join(["ffff"] + [dotted], ':') == "ffff" + ":" + dotted;
  }

  lemma {:induction false} MappedBytes(octets: seq<byte>)
    requires |octets| == 4
    ensures Small([]) && Small([65535]) && Roomy(0, 1, true)
    ensures Expanded([], [65535], Some(octets)) == [0, 0, 0, 0, 0, 0, 0, 0, 0, 0, 255, 255] + octets
    ensures Expanded([], [65535], Some(octets))[..12] == MAPPED
  {
    var b := GroupBytes([65535]);
    assert b[0] == 255 && b[1] == 255 by { assert b[2 * 0] == 255 && b[2 * 0 + 1] == 255; }
    assert b == [255, 255];
    hide GroupBytes;
    assert GroupBytes([]) == [];
    assert Zeros(10) == [0, 0, 0, 0, 0, 0, 0, 0, 0, 0];
  }

  /** A text of three or more groups without `::`, and an optional dotted tail: it is read exactly when every group
      fits 16 bits and there are no more than eight, and a tail only in an IPv4-mapped address. Eight groups are read
      as themselves; with fewer, the rest is what the allocated buffer held. */
  lemma {:induction false} FullRead(texts: seq<string>, values: seq<nat>, tail: Option<seq<byte>>, stale: seq<byte>)
    requires WritesAll(texts, values) && |stale| == 16 && (tail.Some? ==> |tail.value| == 4)
    requires |texts| + (if tail.Some? then 1 else 0) >= 3
    ensures FromText(Join(texts + TailTexts(tail), ':'), stale)
         == if !Small(values) || |values| + (if tail.Some? then 2 else 0) > 8 then Err
            else
              var bytes := GroupBytes(values) + if tail.Some? then tail.value else [];
              var buffer := bytes + stale[|bytes|..];
              if tail.Some? && buffer[..12] != MAPPED then Err else Ok(buffer)
  {
    hide FromText, Writes, WriteParts, WriteList, MatchesIPv4, Dotted, PartChars, Join, GroupBytes, Over;
    GroupChars(texts, values);
    var f := 9 - |texts| - (if tail.Some? then 2 else 0);
    TextsRead(texts, values, [], [], f, false);
    assert texts + [] == texts;
    if Room(values, []) {
      assert [] + GroupBytes(values) == GroupBytes(values);
      ListDone(GroupBytes(values), f, false);
    }
    if tail.None? {
      assert texts + TailTexts(tail) == texts && texts[0..] == texts;
      NotIPv4(texts[|texts| - 1]);
      ReadJoined(texts, stale);
      WriteListIs(texts, 0, [], f, false);
      if Room(values, []) {
        assert GroupBytes(values) + [] == GroupBytes(values);
        OverPart(GroupBytes(values), stale);
      }
    } else {
      FullTail(texts, values, tail.value, stale, f);
    }
  }

  lemma {:induction false} FullTail(texts: seq<string>, values: seq<nat>, octets: seq<byte>, stale: seq<byte>, f: int)
    requires WritesAll(texts, values) && |stale| == 16 && |octets| == 4 && |texts| >= 2 && f == 7 - |texts|
    requires WriteList(texts, [], f, false) == if Room(values, []) then Ok(GroupBytes(values)) else Err
    ensures FromText(Join(texts + [Dotted(octets)], ':'), stale)
         == if !Small(values) || |values| > 6 then Err
            else
              var buffer := GroupBytes(values) + octets + stale[2 * |values| + 4..];
              if buffer[..12] != MAPPED then Err else Ok(buffer)
  {
    hide FromText, Writes, WriteParts, WriteList, MatchesIPv4, Dotted, PartChars, Join, GroupBytes, Small;
    hide WriteOctets, OctetTexts, Over;
    GroupChars(texts, values);
    DottedChars(octets);
    DottedIs(octets);
    ReadJoined(texts + [Dotted(octets)], stale);
    EmbeddedIs(texts, Dotted(octets), 0, [], f, false);
    assert texts[0..] == texts;
    if Room(values, []) {
      OctetsRead(octets, GroupBytes(values));
      if |values| <= 6 {
        OverPart(GroupBytes(values) + octets, stale);
      }
    }
  }

  /** What a text without `::` is read as is determined by the text exactly when it is rejected or has all eight
      groups. */
  lemma {:induction false} DeterminedExactly(texts: seq<string>, values: seq<nat>)
    requires WritesAll(texts, values) && |texts| >= 3
    ensures (forall s: seq<byte>, t: seq<byte> :: |s| == 16 && |t| == 16 ==>
               FromText(Join(texts, ':'), s) == FromText(Join(texts, ':'), t))
       <==> !Small(values) || |values| >= 8
  {
    hide FromText, Join, Writes, GroupBytes;
    assert texts + TailTexts(None) == texts;
    forall s: seq<byte> | |s| == 16
      ensures FromText(Join(texts, ':'), s)
           == if !Small(values) || |values| > 8 then Err else Ok(GroupBytes(values) + s[2 * |values|..])
    {
      FullRead(texts, values, None, s);
      if Small(values) && |values| <= 8 {
        assert GroupBytes(values) + [] == GroupBytes(values);
      }
    }
    assert |values| == 8 ==> forall s: seq<byte> :: |s| == 16 ==> s[2 * |values|..] == [];
    if Small(values) && |values| < 8 {
      var s, t: seq<byte> := Zeros(16), seq(16, _ => 1);
      var a, b := GroupBytes(values) + s[2 * |values|..], GroupBytes(values) + t[2 * |values|..];
      assert a[15] == s[15] == 0 && b[15] == t[15] == 1;
      assert FromText(Join(texts, ':'), s) != FromText(Join(texts, ':'), t);
    }
  }

  ghost predicate TwoColons(value: string) {
    exists i, j :: 0 <= i < j < |value| && value[i] == ':' && value[j] == ':'
  }

  /** Everything else is rejected: other characters, or fewer than two colons. */
  lemma {:induction false} OthersRejected(value: string, stale: seq<byte>)
    requires |stale| == 16 && value != "" && !MatchesIPv4(value)
    requires !TwoColons(value) || exists i :: 0 <= i < |value| && value[i] !in "0123456789abcdefABCDEF:."
    ensures FromText(value, stale) == Err
  {
    hide MatchesIPv4, WriteParts;
    if |Split(value, ':')| >= 3 && IPv6Chars(value) {
      ThreeParts(value);
      var i :| 0 <= i < |value| && value[i] !in "0123456789abcdefABCDEF:.";
      AllowedChar(value[i]);
    }
  }

  lemma {:induction false} AllowedChar(c: char)
    requires HexValue(c).Some? || c == ':' || c == '.'
    ensures c in "0123456789abcdefABCDEF:."
  {
    var all := "0123456789abcdefABCDEF:.";
    if HexValue(c).Some? {
      var d := if 'A' <= c <= 'F' then HexValue(c).value + 6 else HexValue(c).value;
      assert all[d] == c;
    } else {
      assert all[22] == ':' && all[23] == '.';
    }
  }

  lemma {:induction false} ThreeParts(s: string)
    requires |Split(s, ':')| >= 3
    ensures TwoColons(s)
  {
    var i := TwoParts(s);
    var rest := s[i + 1..];
    var j := TwoParts(rest);
    assert s[i + 1 + j] == rest[j];
  }

  /** The first colon, and as many parts less one behind it. */
  lemma {:induction false} TwoParts(s: string) returns (i: nat)
    requires |Split(s, ':')| >= 2
    ensures i < |s| && s[i] == ':' && |Split(s[i + 1..], ':')| == |Split(s, ':')| - 1
  {
    if s[0] == ':' {
      i := 0;
    } else {
      var k := TwoParts(s[1..]);
      i := k + 1;
      assert s[1..][k + 1..] == s[i + 1..];
    }
  }
}
