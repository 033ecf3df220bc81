/** What fromString reads from toString's text: the address with the compressed span zeroed, for every address. So
    the round trip holds exactly when that span held only zeros. */
module InetRoundTrip {
  import opened Bytes
  import opened InetText
  import opened Inet

  // ---------------------------------------------------------------- the span

  /** No span, or a span inside the groups. */
  ghost predicate InRange(sp: Scan, n: nat) {
    (sp.longest == -1 && sp.length == 0) || (0 <= sp.longest && 1 <= sp.length && sp.longest + sp.length <= n)
  }

  lemma {:induction false} ScanInRange(z: seq<bool>, k: nat, st: Scan)
    requires k <= |z| && -1 <= st.start <= k && InRange(st, |z|)
    ensures InRange(ScanFrom(z, k, st), |z|)
    decreases |z| - k
  {
    if k < |z| {
      ScanInRange(z, k + 1, Visit(z[k], k, k + 1 == |z|, st));
    }
  }

  lemma {:induction false} SpanInRange(g: seq<nat>)
    ensures InRange(Span(g), |g|)
  {
    ScanInRange(ZeroGroups(g), 0, Scan(-1, -1, 0));
  }

  // ---------------------------------------------------------------- the text as joined parts

  ghost function HexAll(g: seq<nat>): (parts: seq<string>)
    ensures |parts| == |g| && forall i :: 0 <= i < |g| ==> parts[i] == Hex(g[i])
  {
    seq(|g|, i requires 0 <= i < |g| => Hex(g[i]))
  }

  lemma {:induction false} HexAllNext(g: seq<nat>, i: nat, j: nat)
    requires i <= j < |g|
    ensures HexAll(g[i..j + 1]) == HexAll(g[i..j]) + [Hex(g[j])]
  {
    assert g[i..j + 1] == g[i..j] + [g[j]];
  }

  lemma {:induction false} JoinNext(parts: seq<string>, x: string)
    ensures Join(parts + [x], ':') == if parts == [] then x else Join(parts, ':') + ":" + x
  {
    if parts != [] {
      JoinJoined(parts, [x], ':');
    } else {
      assert parts + [x] == [x];
    }
  }

  lemma {:induction false} JoinHexNonEmpty(g: seq<nat>)
    ensures Join(HexAll(g), ':') == "" <==> g == []
    ensures g != [] ==> var t := Join(HexAll(g), ':'); t[|t| - 1] != ':'
  {
    if g != [] {
      var n := |g| - 1;
      HexAllNext(g, 0, n);
      assert g[0..n + 1] == g;
      JoinNext(HexAll(g[0..n]), Hex(g[n]));
      HexIsHex(g[n]);
      var h, t := Hex(g[n]), Join(HexAll(g), ':');
      assert h[|h| - 1] != ':' && t[|t| - 1] == h[|h| - 1];
    }
  }

  /** The text after h groups, before, inside and behind the span. */
  ghost function Phase(g: seq<nat>, sp: Scan, h: nat): string
    requires h <= |g| && InRange(sp, |g|)
  {
    var s, e := sp.longest, sp.longest + sp.length;
    if s < 0 || h <= s then Join(HexAll(g[0..h]), ':')
    else if h <= e then Join(HexAll(g[0..s]), ':') + ":"
    else Join(HexAll(g[0..s]), ':') + ":" + ":" + Join(HexAll(g[e..h]), ':')
  }

  lemma {:induction false} BuiltIs(g: seq<nat>, sp: Scan, h: nat)
    requires h <= |g| && InRange(sp, |g|)
    ensures Built(g, sp, h) == Phase(g, sp, h)
  {
    if h == 0 {
      assert g[0..0] == [] && HexAll(g[0..0]) == [];
    } else {
      var k := h - 1;
      BuiltIs(g, sp, k);
      BuiltStep(g, sp, k);
      PhaseStep(g, sp, k);
      hide Built, Phase;
    }
  }

  lemma {:induction false} PhaseStep(g: seq<nat>, sp: Scan, k: nat)
    requires k < |g| && InRange(sp, |g|)
    ensures var sofar := Phase(g, sp, k);
      Phase(g, sp, k + 1) == if k == sp.longest then sofar + ":"
        else if k < sp.longest + sp.length && k > sp.longest then sofar
        else (if |sofar| > 0 then sofar + ":" else sofar) + Hex(g[k])
  {
    hide Join, Hex;
    var s, e := sp.longest, sp.longest + sp.length;
    if s < 0 || k < s {
      HexAllNext(g, 0, k);
      JoinNext(HexAll(g[0..k]), Hex(g[k]));
      JoinHexNonEmpty(g[0..k]);
    } else if k >= e {
      HexAllNext(g, e, k);
      JoinNext(HexAll(g[e..k]), Hex(g[k]));
      if k == e {
        assert g[e..k] == [] && HexAll(g[e..k]) == [];
      }
    }
  }

  /** The parts of the text: the groups before and behind the span, and empty parts that stand for it. */
  ghost function Parts(g: seq<nat>, sp: Scan): seq<string>
    requires InRange(sp, |g|)
  {
    var s, e := sp.longest, sp.longest + sp.length;
    if s < 0 then HexAll(g)
    else (if s == 0 then [""] else HexAll(g[0..s])) + ([""] + if e == |g| then [""] else HexAll(g[e..|g|]))
  }

  lemma {:induction false} TextIsJoined(g: seq<nat>)
    requires g != []
    ensures InRange(Span(g), |g|) && GroupsText(g) == Join(Parts(g, Span(g)), ':')
  {
    SpanInRange(g);
    var sp := Span(g);
    BuiltIs(g, sp, |g|);
    hide Span, Built;
    if sp.longest < 0 {
      assert g[0..|g|] == g;
      JoinHexNonEmpty(g);
    } else {
      JoinedSpan(g, sp);
    }
  }

  lemma {:induction false} JoinedSpan(g: seq<nat>, sp: Scan)
    requires InRange(sp, |g|) && sp.longest >= 0
    ensures var t := Phase(g, sp, |g|); t != "" && Join(Parts(g, sp), ':') == if t[|t| - 1] == ':' then t + ":" else t
  {
    var s, e := sp.longest, sp.longest + sp.length;
    hide Join, HexAll, Parts;
    var x, y := Join(HexAll(g[0..s]), ':'), Join(HexAll(g[e..|g|]), ':');
    PartsJoined(g, sp);
    JoinHexNonEmpty(g[e..|g|]);
    assert Phase(g, sp, |g|) == if e == |g| then x + ":" else x + ":" + ":" + y;
    hide Phase;
    Colons(x, y);
  }

  lemma {:induction false} Colons(x: string, y: string)
    ensures var t := x + ":" + ":" + y; t == x + ":" + (":" + y) && (y != "" ==> t[|t| - 1] == y[|y| - 1])
    ensures var u := x + ":"; u[|u| - 1] == ':' && (y == "" ==> u + ":" == x + ":" + (":" + y))
  {
  }

  lemma {:induction false} PartsJoined(g: seq<nat>, sp: Scan)
    requires InRange(sp, |g|) && sp.longest >= 0
    ensures var s, e := sp.longest, sp.longest + sp.length;
      Join(Parts(g, sp), ':') == Join(HexAll(g[0..s]), ':') + ":" + (":" + Join(HexAll(g[e..|g|]), ':'))
  {
    hide Join, HexAll;
    var s, e := sp.longest, sp.longest + sp.length;
    var before, behind := if s == 0 then [""] else HexAll(g[0..s]), if e == |g| then [""] else HexAll(g[e..|g|]);
    EmptyJoin();
    if s == 0 {
      NoHex(g[0..s]);
    }
    if e == |g| {
      NoHex(g[e..|g|]);
    }
    assert Parts(g, sp) == before + ([""] + behind);
    hide Parts;
    EmptyFirst(before, behind);
    assert Join(before, ':') == Join(HexAll(g[0..s]), ':') && Join(behind, ':') == Join(HexAll(g[e..|g|]), ':');
  }

  lemma {:induction false} HexAllFirst(g: seq<nat>, rest: seq<string>)
    requires g != []
    ensures HexAll(g) + rest == [Hex(g[0])] + (HexAll(g[1..]) + rest)
  {
    hide Hex;
  }

  lemma {:induction false} NoHex(g: seq<nat>)
    requires g == []
    ensures HexAll(g) == []
  {
  }

  lemma {:induction false} EmptyFirst(before: seq<string>, behind: seq<string>)
    requires before != [] && behind != []
    ensures Join(before + ([""] + behind), ':') == Join(before, ':') + ":" + (":" + Join(behind, ':'))
  {
    JoinJoined(before, [""] + behind, ':');
    JoinJoined([""], behind, ':');
    EmptyJoin();
    hide Join;
    var y := Join(behind, ':');
    assert "" + ":" + y == ":" + y;
  }

  lemma {:induction false} EmptyJoin()
    ensures Join([""], ':') == "" && Join([], ':') == ""
  {
  }

  // ---------------------------------------------------------------- reading the parts

  ghost function GroupBytes(g: seq<nat>): (s: seq<byte>)
    requires forall i :: 0 <= i < |g| ==> g[i] < 65536
    ensures |s| == 2 * |g|
    ensures forall i :: 0 <= i < |g| ==> s[2 * i] as int == g[i] / 256 && s[2 * i + 1] as int == g[i] % 256
  {
    if g == [] then []
    else
      var n := |g| - 1;
      GroupBytes(g[..n]) + [g[n] / 256, g[n] % 256]
  }

  lemma {:induction false} GroupBytesFirst(g: seq<nat>)
    requires g != [] && forall i :: 0 <= i < |g| ==> g[i] < 65536
    ensures GroupBytes(g) == [g[0] / 256, g[0] % 256] + GroupBytes(g[1..])
  {
    var a, b := GroupBytes(g), [g[0] / 256, g[0] % 256] + GroupBytes(g[1..]);
    forall i | 0 <= i < |a|
      ensures a[i] == b[i]
    {
      var k := i / 2;
      if k > 0 { assert g[1..][k - 1] == g[k]; }
      assert i == 2 * k || i == 2 * k + 1;
    }
  }

  /** WriteParts over a list of parts without an embedded IPv4 address. */
  ghost function WriteList(ps: seq<string>, out: seq<byte>, filling: int, applied: bool): Result<seq<byte>>
    decreases |ps|
  {
    if ps == [] then Ok(out)
    else if ps[0] != "" then
      var v := ParseHex(ps[0], 0);
      if v > 65535 || |out| + 2 > 16 then Err else WriteList(ps[1..], out + [v / 256, v % 256], filling, applied)
    else
      var f := if applied then 1 else filling;
      WriteList(ps[1..], out + Zeros(2 * f), f, true)
  }

  lemma {:induction false} WriteListIs(parts: seq<string>, i: nat, out: seq<byte>, filling: int, applied: bool)
    requires i <= |parts|
    ensures WriteParts(parts, i, out, filling, applied, false) == WriteList(parts[i..], out, filling, applied)
    decreases |parts| - i
  {
    if i < |parts| {
      assert parts[i..][0] == parts[i] && parts[i..][1..] == parts[i + 1..];
      if parts[i] != "" {
        var v := ParseHex(parts[i], 0);
        if v <= 65535 && |out| + 2 <= 16 {
          WriteListIs(parts, i + 1, out + [v / 256, v % 256], filling, applied);
        }
      } else {
        var f := if applied then 1 else filling;
        WriteListIs(parts, i + 1, out + Zeros(2 * f), f, true);
      }
    }
  }

  lemma {:induction false} ReadGroup(v: nat, rest: seq<string>, out: seq<byte>, filling: int, applied: bool)
    requires v < 65536 && |out| + 2 <= 16
    ensures WriteList([Hex(v)] + rest, out, filling, applied)
      == WriteList(rest, out + [v / 256, v % 256], filling, applied)
  {
    HexRoundTrip(v);
    hide Hex, ParseHex;
    assert ([Hex(v)] + rest)[1..] == rest;
  }

  lemma {:induction false} ReadEmpty(rest: seq<string>, out: seq<byte>, filling: int, applied: bool)
    ensures var f := if applied then 1 else filling;
      WriteList([""] + rest, out, filling, applied) == WriteList(rest, out + Zeros(2 * f), f, true)
  {
    assert ([""] + rest)[1..] == rest;
  }

  /** Groups are read back one by one. */
  lemma {:induction false} ReadGroups(g: seq<nat>, rest: seq<string>, out: seq<byte>, filling: int, applied: bool)
    requires |out| + 2 * |g| <= 16
    requires forall i :: 0 <= i < |g| ==> g[i] < 65536
    ensures WriteList(HexAll(g) + rest, out, filling, applied) == WriteList(rest, out + GroupBytes(g), filling, applied)
    decreases |g|
  {
    hide WriteList, Hex;
    if g == [] {
      NoHex(g);
      assert out + GroupBytes(g) == out && HexAll(g) + rest == rest;
    } else {
      HexAllFirst(g, rest);
      GroupBytesFirst(g);
      hide HexAll, GroupBytes;
      ReadGroup(g[0], HexAll(g[1..]) + rest, out, filling, applied);
      var next := out + [g[0] / 256, g[0] % 256];
      ReadGroups(g[1..], rest, next, filling, applied);
      assert next + GroupBytes(g[1..]) == out + ([g[0] / 256, g[0] % 256] + GroupBytes(g[1..]));
    }
  }

  /** The bytes with the span zeroed. */
  ghost function Zeroed(g: seq<nat>, sp: Scan): seq<byte>
    requires InRange(sp, |g|) && forall i :: 0 <= i < |g| ==> g[i] < 65536
  {
    var s, e := sp.longest, sp.longest + sp.length;
    if s < 0 then GroupBytes(g) else GroupBytes(g[0..s]) + (Zeros(2 * sp.length) + GroupBytes(g[e..|g|]))
  }

  lemma {:induction false} ZerosJoined(a: nat, b: nat)
    ensures Zeros(a) + Zeros(b) == Zeros(a + b)
  {
  }

  /** Reading the parts of eight groups gives the groups with the span zeroed. */
  lemma {:induction false} ReadParts(g: seq<nat>, sp: Scan)
    requires |g| == 8 && InRange(sp, 8) && forall i :: 0 <= i < |g| ==> g[i] < 65536
    ensures |Parts(g, sp)| >= 3 && WriteList(Parts(g, sp), [], 8 - |Parts(g, sp)| + 1, false) == Ok(Zeroed(g, sp))
  {
    if sp.longest < 0 {
      hide WriteList, GroupBytes;
      ReadGroups(g, [], [], 1, false);
      assert HexAll(g) + [] == HexAll(g) && [] + GroupBytes(g) == GroupBytes(g);
      ListDone(GroupBytes(g), 1, false);
    } else if sp.longest == 0 {
      ReadFromStart(g, sp);
    } else {
      ReadFromMiddle(g, sp);
    }
  }

  lemma {:induction false} ListDone(out: seq<byte>, filling: int, applied: bool)
    ensures WriteList([], out, filling, applied) == Ok(out)
  {
  }

  /** The end of the text: an empty part, or the groups behind the span. */
  lemma {:induction false} ReadBehind(g: seq<nat>, e: nat, out: seq<byte>, filling: int)
    requires |g| == 8 && e <= 8 && (forall i :: 0 <= i < |g| ==> g[i] < 65536) && |out| + 2 * (8 - e) <= 16
    ensures WriteList(Behind(g, e), out, filling, true)
      == Ok(out + if e == 8 then Zeros(2) else GroupBytes(g[e..8]))
  {
    hide WriteList, GroupBytes, Zeros, HexAll;
    if e == 8 {
      assert [""] + [] == [""];
      ReadEmpty([], out, filling, true);
      ListDone(out + Zeros(2), 1, true);
    } else {
      assert HexAll(g[e..8]) + [] == HexAll(g[e..8]);
      ReadGroups(g[e..8], [], out, filling, true);
      ListDone(out + GroupBytes(g[e..8]), filling, true);
    }
  }

  ghost function Behind(g: seq<nat>, e: nat): (ps: seq<string>)
    requires |g| == 8 && e <= 8
    ensures |ps| == if e == 8 then 1 else 8 - e
  {
    if e == 8 then [""] else HexAll(g[e..8])
  }

  lemma {:induction false} PartsForm(g: seq<nat>, sp: Scan)
    requires |g| == 8 && InRange(sp, 8) && sp.longest >= 0
    ensures var s, behind := sp.longest, Behind(g, sp.longest + sp.length);
      && Parts(g, sp) == (if s == 0 then [""] else HexAll(g[0..s])) + ([""] + behind)
      && |Parts(g, sp)| == (if s == 0 then 1 else s) + 1 + |behind|
  {
  }

  lemma {:induction false} ZeroedForm(g: seq<nat>, sp: Scan)
    requires |g| == 8 && InRange(sp, 8) && sp.longest >= 0 && forall i :: 0 <= i < |g| ==> g[i] < 65536
    ensures var s, l, e := sp.longest, sp.length, sp.longest + sp.length;
      Zeroed(g, sp) == GroupBytes(g[0..s]) + Zeros(2 * l) + if e == 8 then [] else GroupBytes(g[e..8])
    ensures sp.longest == 0 ==> GroupBytes(g[0..sp.longest]) == []
  {
    var s, l, e := sp.longest, sp.length, sp.longest + sp.length;
    assert e == 8 ==> g[e..8] == [] && GroupBytes(g[e..8]) == [];
    assert s == 0 ==> g[0..s] == [];
    var a, b, c := GroupBytes(g[0..s]), Zeros(2 * l), GroupBytes(g[e..8]);
    assert a + (b + c) == a + b + c;
  }

  lemma {:induction false} ReadFromStart(g: seq<nat>, sp: Scan)
    requires |g| == 8 && InRange(sp, 8) && sp.longest == 0 && forall i :: 0 <= i < |g| ==> g[i] < 65536
    ensures |Parts(g, sp)| >= 3 && WriteList(Parts(g, sp), [], 8 - |Parts(g, sp)| + 1, false) == Ok(Zeroed(g, sp))
  {
    hide WriteList, Parts, HexAll, GroupBytes, Zeros, Zeroed;
    var l := sp.length;
    var behind := Behind(g, l);
    PartsForm(g, sp);
    ZeroedForm(g, sp);
    var f := 8 - |Parts(g, sp)| + 1;
    ReadEmpty([""] + behind, [], f, false);
    ReadEmpty(behind, [] + Zeros(2 * f), f, true);
    ZerosJoined(2 * f, 2);
    assert [] + Zeros(2 * f) == Zeros(2 * f);
    var out := Zeros(2 * f + 2);
    ReadBehind(g, l, out, 1);
    ZerosJoined(14, 2);
    if l == 8 {
      assert [] + Zeros(16) + [] == Zeros(16);
    } else {
      assert [] + Zeros(2 * l) == Zeros(2 * l);
    }
  }

  lemma {:induction false} ReadFromMiddle(g: seq<nat>, sp: Scan)
    requires |g| == 8 && InRange(sp, 8) && sp.longest > 0 && forall i :: 0 <= i < |g| ==> g[i] < 65536
    ensures |Parts(g, sp)| >= 3 && WriteList(Parts(g, sp), [], 8 - |Parts(g, sp)| + 1, false) == Ok(Zeroed(g, sp))
  {
    hide WriteList, Parts, HexAll, GroupBytes, Zeros, Zeroed;
    var s, l, e := sp.longest, sp.length, sp.longest + sp.length;
    var before, behind := g[0..s], Behind(g, e);
    PartsForm(g, sp);
    ZeroedForm(g, sp);
    var f := 8 - |Parts(g, sp)| + 1;
    ReadGroups(before, [""] + behind, [], f, false);
    assert [] + GroupBytes(before) == GroupBytes(before);
    ReadEmpty(behind, GroupBytes(before), f, false);
    ReadBehind(g, e, GroupBytes(before) + Zeros(2 * f), f);
    ZerosJoined(2 * f, 2);
    if e == 8 {
      assert GroupBytes(before) + Zeros(2 * f) + Zeros(2) == GroupBytes(before) + (Zeros(2 * f) + Zeros(2));
      assert GroupBytes(before) + Zeros(2 * l) + [] == GroupBytes(before) + Zeros(2 * l);
    }
  }
}
