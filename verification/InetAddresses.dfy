/** IP address round trips: fromString undoes toString exactly when the compressed span held only zeros, which strictly
    growing runs of zeros ensure; the IPv4 form always round-trips. */
module InetAddresses {
  import opened Bytes
  import opened InetText
  import opened Inet
  import opened InetRoundTrip
  import Digits

  // ---------------------------------------------------------------- the characters of the text

  lemma {:induction false} JoinedChars(parts: seq<string>)
    requires forall i :: 0 <= i < |parts| ==> HexChars(parts[i])
    ensures IPv6Chars(Join(parts, ':')) && (|parts| >= 2 ==> ':' in Join(parts, ':'))
  {
    if |parts| > 1 {
      JoinedChars(parts[1..]);
      assert IPv6Chars(parts[0]);
      assert Join(parts, ':')[|parts[0]|] == ':';
    }
  }

  lemma {:induction false} PartsAreHex(g: seq<nat>, sp: Scan)
    requires |g| == 8 && InRange(sp, 8)
    ensures forall i :: 0 <= i < |Parts(g, sp)| ==> HexChars(Parts(g, sp)[i])
  {
    forall v: nat
      ensures HexChars(Hex(v))
    {
      HexIsHex(v);
    }
    hide Hex;
    assert HexChars("");
  }

  lemma {:induction false} HexHasNone(s: string)
    requires HexChars(s)
    ensures ':' !in s && '.' !in s
  {
  }

  // ---------------------------------------------------------------- reading back

  /** For every 16-byte address, and whatever the allocated buffer held: reading its text gives the address with the
      compressed span zeroed. */
  lemma {:induction false} ReadBack(a: seq<byte>, stale: seq<byte>)
    requires |a| == 16 && |stale| == 16
    ensures InRange(Span(Groups(a)), 8)
    ensures FromText(AddressText(a), stale) == Ok(Zeroed(Groups(a), Span(Groups(a))))
  {
    var g := Groups(a);
    TextIsJoined(g);
    var sp := Span(g);
    assert AddressText(a) == GroupsText(g);
    hide GroupsText, Span, Groups, AddressText, Zeroed, Parts, Join, FromText;
    ReadParts(g, sp);
    PartsAreHex(g, sp);
    ZeroedSize(g, sp);
    ReadText(Parts(g, sp), Zeroed(g, sp), stale);
  }

  /** Reading a text of three or more hexadecimal parts that fill the buffer. */
  lemma {:induction false} ReadText(parts: seq<string>, bytes: seq<byte>, stale: seq<byte>)
    requires |parts| >= 3 && (forall i :: 0 <= i < |parts| ==> HexChars(parts[i])) && |stale| == 16 && |bytes| == 16
    requires WriteList(parts, [], 8 - |parts| + 1, false) == Ok(bytes)
    ensures FromText(Join(parts, ':'), stale) == Ok(bytes)
  {
    hide WriteParts, WriteList, Join, Split, MatchesIPv4, IPv6Chars, HexChars;
    JoinedChars(parts);
    NotIPv4(Join(parts, ':'));
    SplitText(parts);
    WriteListIs(parts, 0, [], 8 - |parts| + 1, false);
    assert parts[0..] == parts;
    assert bytes[..16] == bytes;
  }

  lemma {:induction false} ZeroedSize(g: seq<nat>, sp: Scan)
    requires |g| == 8 && InRange(sp, 8) && forall i :: 0 <= i < |g| ==> g[i] < 65536
    ensures |Zeroed(g, sp)| == 16
  {
    hide GroupBytes, Zeros;
  }

  lemma {:induction false} SplitText(parts: seq<string>)
    requires parts != [] && forall i :: 0 <= i < |parts| ==> HexChars(parts[i])
    ensures Split(Join(parts, ':'), ':') == parts && !MatchesIPv4(parts[|parts| - 1])
  {
    forall i | 0 <= i < |parts|
      ensures ':' !in parts[i] && '.' !in parts[i]
    {
      HexHasNone(parts[i]);
    }
    SplitUndoesJoin(parts, ':');
    NotIPv4(parts[|parts| - 1]);
  }

  /** The compressed span holds only zero groups. */
  ghost predicate SpanIsZero(a: seq<byte>)
    requires |a| == 16
  {
    var g, sp := Groups(a), Span(Groups(a));
    forall k :: 0 <= k < 8 && sp.longest <= k < sp.longest + sp.length ==> g[k] == 0
  }

  lemma {:induction false} BytesOfGroups(a: seq<byte>, i: nat, j: nat)
    requires |a| == 16 && i <= j <= 8
    ensures GroupBytes(Groups(a)[i..j]) == a[2 * i..2 * j]
  {
    var g, r := Groups(a)[i..j], GroupBytes(Groups(a)[i..j]);
    forall n | 0 <= n < 2 * (j - i)
      ensures r[n] == a[2 * i..2 * j][n]
    {
      var k := n / 2;
      assert n == 2 * k || n == 2 * k + 1;
      assert g[k] == 256 * a[2 * (i + k)] as int + a[2 * (i + k) + 1] as int;
      PairBytes(a[2 * (i + k)], a[2 * (i + k) + 1]);
      assert r[2 * k] as int == g[k] / 256 && r[2 * k + 1] as int == g[k] % 256;
    }
  }

  lemma {:induction false} PairBytes(hi: int, lo: int)
    requires 0 <= lo < 256
    ensures (256 * hi + lo) / 256 == hi && (256 * hi + lo) % 256 == lo
  {
  }

  /** The bytes from i to j are all zero. */
  ghost predicate ZeroBytes(a: seq<byte>, i: nat, j: nat)
    requires i <= j <= |a|
  {
    a[i..j] == Zeros(j - i)
  }

  lemma {:induction false} ZeroedSame(a: seq<byte>, sp: Scan)
    requires |a| == 16 && InRange(sp, 8)
    ensures sp.longest < 0 ==> Zeroed(Groups(a), sp) == a
    ensures sp.longest >= 0 ==>
      (Zeroed(Groups(a), sp) == a <==> ZeroBytes(a, 2 * sp.longest, 2 * (sp.longest + sp.length)))
  {
    hide GroupBytes, Groups, Zeros;
    var g, s, e := Groups(a), sp.longest, sp.longest + sp.length;
    if s < 0 {
      BytesOfGroups(a, 0, 8);
      assert g[0..8] == g && a[0..16] == a;
    } else {
      BytesOfGroups(a, 0, s);
      BytesOfGroups(a, e, 8);
      var x, y, z := a[0..2 * s], a[2 * s..2 * e], a[2 * e..16];
      assert Zeroed(g, sp) == x + (Zeros(2 * sp.length) + z);
      hide Zeroed;
      assert a == x + (y + z);
      SameMiddle(x, y, Zeros(2 * sp.length), z);
    }
  }

  lemma {:induction false} SameMiddle(x: seq<byte>, y: seq<byte>, w: seq<byte>, z: seq<byte>)
    requires |y| == |w|
    ensures x + (w + z) == x + (y + z) <==> w == y
  {
    assert (x + (w + z))[|x|..|x| + |w|] == w;
    assert (x + (y + z))[|x|..|x| + |w|] == y;
  }

  /** A span of zero bytes is one of zero groups. */
  lemma {:induction false} ZeroSpanBytes(a: seq<byte>, s: nat, e: nat)
    requires |a| == 16 && s <= e <= 8
    ensures ZeroBytes(a, 2 * s, 2 * e) <==> forall k :: s <= k < e ==> Groups(a)[k] == 0
  {
    var g, m := Groups(a), a[2 * s..2 * e];
    assert forall i :: 0 <= i < |m| ==> m[i] == a[2 * s + i];
    if forall k :: s <= k < e ==> g[k] == 0 {
      forall i | 0 <= i < |m|
        ensures m[i] == 0
      {
        var k := s + i / 2;
        assert g[k] == 256 * a[2 * k] as int + a[2 * k + 1] as int;
        assert 2 * s + i == 2 * k || 2 * s + i == 2 * k + 1;
      }
      assert m == Zeros(2 * e - 2 * s);
    }
    if ZeroBytes(a, 2 * s, 2 * e) {
      forall k | s <= k < e
        ensures g[k] == 0
      {
        assert m[2 * (k - s)] == 0 && m[2 * (k - s) + 1] == 0;
      }
    }
  }

  /** fromString undoes toString exactly when the compressed span held only zeros. */
  lemma {:induction false} RoundTripExactly(a: seq<byte>, stale: seq<byte>)
    requires |a| == 16 && |stale| == 16
    ensures FromText(AddressText(a), stale) == Ok(a) <==> SpanIsZero(a)
  {
    ReadBack(a, stale);
    var sp := Span(Groups(a));
    hide FromText, AddressText, Zeroed, Span, Groups;
    ZeroedSame(a, sp);
    if sp.longest >= 0 {
      ZeroSpanBytes(a, sp.longest, sp.longest + sp.length);
    }
    hide ZeroBytes;
  }

  // ---------------------------------------------------------------- growing runs

  /** A maximal run of zero groups. */
  ghost predicate Run(z: seq<bool>, p: int, q: int) {
    && 0 <= p < q <= |z| && (forall i :: p <= i < q ==> z[i])
    && (p == 0 || !z[p - 1]) && (q == |z| || !z[q])
  }

  /** Every run is longer than the runs before it. */
  ghost predicate Growing(z: seq<bool>) {
    forall p, q, s, e :: Run(z, p, q) && Run(z, s, e) && q < s ==> q - p < e - s
  }

  /** The scan so far: the open run is the current one, the span is the longest closed run. */
  ghost predicate Clean(z: seq<bool>, k: nat, st: Scan)
    requires k <= |z|
  {
    && -1 <= st.start <= k
    && (st.start == -1 ==> k == 0 || !z[k - 1] || (k == |z| && st.longest + st.length == k))
    && (st.start >= 0 ==> st.start < k && (st.start == 0 || !z[st.start - 1]))
    && (st.start >= 0 ==> forall i :: st.start <= i < k ==> z[i])
    && ((st.longest == -1 && st.length == 0) || (Run(z, st.longest, st.longest + st.length)))
    && (st.length > 0 && k < |z| ==> st.longest + st.length < k)
    && (st.length > 0 && st.start >= 0 ==> st.longest + st.length < st.start)
    && (forall p, q :: Run(z, p, q) && q <= k && (q < k || st.start == -1) ==> q - p <= st.length)
    && (k == |z| ==> st.start == -1)
  }

  lemma {:induction false} CleanStep(z: seq<bool>, k: nat, st: Scan)
    requires k < |z| && Clean(z, k, st) && Growing(z)
    ensures Clean(z, k + 1, Visit(z[k], k, k + 1 == |z|, st))
  {
    var next := Visit(z[k], k, k + 1 == |z|, st);
    if !z[k] {
      if st.start >= 0 {
        assert Run(z, st.start, k);
        RunsEndingAt(z, k, st.start);
      }
    } else {
      var start := if st.start < 0 then k else st.start;
      if k + 1 == |z| {
        assert Run(z, start, k + 1);
        RunsEndingAt(z, k + 1, start);
      }
    }
  }

  /** Runs with one end are one run. */
  lemma {:induction false} RunsEndingAt(z: seq<bool>, q: int, s: int)
    requires Run(z, s, q)
    ensures forall p :: Run(z, p, q) ==> p == s
  {
    forall p | Run(z, p, q)
      ensures p == s
    {
      assert p < s ==> p <= s - 1 < q;
      assert s < p ==> s <= p - 1 < q;
    }
  }

  lemma {:induction false} CleanScan(z: seq<bool>, k: nat, st: Scan)
    requires k <= |z| && Clean(z, k, st) && Growing(z)
    ensures Clean(z, |z|, ScanFrom(z, k, st))
    decreases |z| - k
  {
    if k < |z| {
      CleanStep(z, k, st);
      CleanScan(z, k + 1, Visit(z[k], k, k + 1 == |z|, st));
    }
  }

  /** With growing runs the address round-trips, and the compressed span is a longest run. */
  lemma {:induction false} GrowingRunsRoundTrip(a: seq<byte>, stale: seq<byte>)
    requires |a| == 16 && |stale| == 16 && Growing(ZeroGroups(Groups(a)))
    ensures FromText(AddressText(a), stale) == Ok(a)
    ensures var z, sp := ZeroGroups(Groups(a)), Span(Groups(a));
      && (sp.length > 0 ==> Run(z, sp.longest, sp.longest + sp.length))
      && forall p, q :: Run(z, p, q) ==> q - p <= sp.length
  {
    var z, st := ZeroGroups(Groups(a)), Scan(-1, -1, 0);
    assert Clean(z, 0, st);
    CleanScan(z, 0, st);
    RoundTripExactly(a, stale);
    hide ScanFrom, FromText, AddressText;
  }

  /** 0:0:1:0:1:1:1:1 is not read back: its text leaves out the groups 3 to 5. */
  lemma {:induction false} ShorterSecondRunFails(stale: seq<byte>)
    requires |stale| == 16
    ensures var a: seq<byte> := [0, 0, 0, 0, 0, 1, 0, 0, 0, 1, 0, 1, 0, 1, 0, 1];
      FromText(AddressText(a), stale) != Ok(a) && Span(Groups(a)).longest == 3 && Span(Groups(a)).length == 3
  {
    var a: seq<byte> := [0, 0, 0, 0, 0, 1, 0, 0, 0, 1, 0, 1, 0, 1, 0, 1];
    var z := ZeroGroups(Groups(a));
    assert z == [true, true, false, true, false, false, false, false];
    assert Groups(a)[4] == 1;
    hide Groups, FromText, AddressText, ScanFrom;
    ScanOfWitness(z);
    RoundTripExactly(a, stale);
  }

  lemma {:induction false} ScanOfWitness(z: seq<bool>)
    requires z == [true, true, false, true, false, false, false, false]
    ensures ScanFrom(z, 0, Scan(-1, -1, 0)) == Scan(-1, 3, 3)
  {
    var s0, s1, s2 := Scan(-1, -1, 0), Scan(0, -1, 0), Scan(-1, 0, 2);
    var s3, s4 := Scan(3, 0, 2), Scan(-1, 3, 3);
    assert ScanFrom(z, 8, s4) == s4;
    ScanStep(z, 7, s4);
    ScanStep(z, 6, s3);
    ScanStep(z, 5, s3);
    ScanStep(z, 4, s3);
    ScanStep(z, 3, s2);
    ScanStep(z, 2, s1);
    ScanStep(z, 1, s1);
    ScanStep(z, 0, s0);
    hide ScanFrom;
  }

  lemma {:induction false} ScanStep(z: seq<bool>, k: nat, st: Scan)
    requires k < |z| && st.start <= k
    ensures ScanFrom(z, k, st) == ScanFrom(z, k + 1, Visit(z[k], k, k + 1 == |z|, st))
  {
  }

  // ---------------------------------------------------------------- IPv4

  /** The dotted form of four bytes is read back. */
  lemma {:induction false} IPv4RoundTrip(a: seq<byte>, stale: seq<byte>)
    requires |a| == 4 && |stale| == 16
    ensures FromText(AddressText(a), stale) == Ok(a)
  {
    var parts := [Digits.Print(a[0]), Digits.Print(a[1]), Digits.Print(a[2]), Digits.Print(a[3])];
    forall i | 0 <= i < 4
      ensures Octet(parts[i]) && '.' !in parts[i] && Digits.AllDigits(parts[i])
      ensures Digits.Decimal(parts[i]) == a[i] as int
    {
      OctetOfByte(a[i]);
      assert parts[i] == Digits.Print(a[i]);
    }
    hide Octet;
    IPv4Language(AddressText(a));
    SplitUndoesJoin(parts, '.');
    FourOctets(parts, a);
    assert AddressText(a) == Join(parts, '.') && AddressText(a) != "" by { assert parts[0] != ""; }
  }

  lemma {:induction false} FourOctets(parts: seq<string>, a: seq<byte>)
    requires |parts| == 4 && |a| == 4
    requires forall i :: 0 <= i < 4 ==> Digits.AllDigits(parts[i]) && Digits.Decimal(parts[i]) == a[i] as int
    ensures WriteOctets(parts, []) == Ok(a)
  {
    var p1, p2, p3 := parts[1..], parts[1..][1..], parts[1..][1..][1..];
    assert p1[0] == parts[1] && p2[0] == parts[2] && p3[0] == parts[3] && p3[1..] == [];
    forall p | p in parts
      ensures Digits.AllDigits(p) ==> Decimals([p])[0] == Digits.Decimal(p)
    {
      assert [p][1..] == [];
    }
    assert WriteOctets(parts, []) == WriteOctets(p1, [a[0]]) by { assert [] + [a[0]] == [a[0]]; }
    assert WriteOctets(p1, [a[0]]) == WriteOctets(p2, [a[0], a[1]]) by { assert [a[0]] + [a[1]] == [a[0], a[1]]; }
    assert WriteOctets(p2, [a[0], a[1]])
      == WriteOctets(p3, [a[0], a[1], a[2]]) by { assert [a[0], a[1]] + [a[2]] == [a[0], a[1], a[2]]; }
    assert [a[0], a[1], a[2]] + [a[3]] == a;
    assert WriteOctets(p3, [a[0], a[1], a[2]]) == WriteOctets([], a);
  }

  /** An IPv6 text with an embedded IPv4 address is accepted only for IPv4-mapped addresses. */
  lemma {:induction false} EmbeddedIsMapped(value: string, stale: seq<byte>)
    requires |stale| == 16 && FromText(value, stale).Ok? && |FromText(value, stale).value| == 16
    requires MatchesIPv4(Split(value, ':')[|Split(value, ':')| - 1])
    ensures IPv4Mapped(FromText(value, stale).value)
  {
    hide MatchesIPv4, Split, WriteParts;
    if MatchesIPv4(value) {
      OctetsWritten(Split(value, '.'), []);
      FourParts(value);
    }
  }

  lemma {:induction false} OctetsWritten(parts: seq<string>, out: seq<byte>)
    ensures WriteOctets(parts, out).Ok? ==> |WriteOctets(parts, out).value| == |out| + |parts|
  {
    if parts != [] {
      var v := Decimals([parts[0]])[0];
      if v <= 255 {
        OctetsWritten(parts[1..], out + [v]);
      }
    }
  }

  lemma {:induction false} FourParts(value: string)
    requires MatchesIPv4(value)
    ensures |Split(value, '.')| == 4
  {
    IPv4Language(value);
    var parts :| |parts| == 4 && Octets(parts) && value == Join(parts, '.');
    SplitUndoesJoin(parts, '.');
  }
}
