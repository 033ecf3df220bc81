/** IP addresses: toString and fromString of lib/types/inet-address.ts. */
module Inet {
  import opened Bytes
  import opened InetText
  import Digits

  // ---------------------------------------------------------------- toString

  /** The search for the longest run of zero groups: where the run now open started (-1: none is open), and the best
      span so far (start -1: none). */
  datatype Scan = Scan(start: int, longest: int, length: nat)

  /** checkLongest: only a new maximum closes the open run. */
  function Check(st: Scan, k: nat): Scan
    requires st.start <= k
  {
    if st.start >= 0 && k - st.start > st.length then Scan(-1, st.start, k - st.start) else st
  }

  /** One group of the scan. */
  function Visit(zero: bool, k: nat, last: bool, st: Scan): (r: Scan)
    requires st.start <= k
    ensures r.start <= k
  {
    if zero then
      var running := if st.start < 0 then st.(start := k) else st;
      if last then Check(running, k + 1) else running
    else Check(st, k)
  }

  /** The scan over the groups from the k-th on. */
  function ScanFrom(z: seq<bool>, k: nat, st: Scan): Scan
    requires k <= |z| && st.start <= k
    decreases |z| - k
  {
    if k == |z| then st else ScanFrom(z, k + 1, Visit(z[k], k, k + 1 == |z|, st))
  }

  function Groups(a: seq<byte>): (g: seq<nat>)
    requires |a| == 16
    ensures |g| == 8 && forall k :: 0 <= k < 8 ==> g[k] == 256 * a[2 * k] as int + a[2 * k + 1] as int && g[k] < 65536
  {
    seq(8, k requires 0 <= k < 8 => 256 * a[2 * k] as int + a[2 * k + 1] as int)
  }

  function ZeroGroups(g: seq<nat>): (z: seq<bool>)
    ensures |z| == |g| && forall k :: 0 <= k < |g| ==> (z[k] <==> g[k] == 0)
  {
    seq(|g|, k requires 0 <= k < |g| => g[k] == 0)
  }

  /** The span toString leaves out. */
  function Span(g: seq<nat>): Scan {
    ScanFrom(ZeroGroups(g), 0, Scan(-1, -1, 0))
  }

  /** The text after h groups. */
  function Built(g: seq<nat>, sp: Scan, h: nat): string
    requires h <= |g|
  {
    if h == 0 then ""
    else
      var k, sofar := h - 1, Built(g, sp, h - 1);
      if k == sp.longest then sofar + ":"
      else if k < sp.longest + sp.length && k > sp.longest then sofar
      else (if |sofar| > 0 then sofar + ":" else sofar) + Hex(g[k])
  }

  function GroupsText(g: seq<nat>): string {
    var r := Built(g, Span(g), |g|);
    if r != "" && r[|r| - 1] == ':' then r + ":" else r
  }

  function AddressText(a: seq<byte>): string
    requires |a| == 4 || |a| == 16
  {
    if |a| == 4 then Join([Digits.Print(a[0]), Digits.Print(a[1]), Digits.Print(a[2]), Digits.Print(a[3])], '.')
    else GroupsText(Groups(a))
  }

  lemma {:induction false} BuiltStart(g: seq<nat>, sp: Scan)
    ensures Built(g, sp, 0) == ""
  {
  }

  lemma {:induction false} BuiltStep(g: seq<nat>, sp: Scan, k: nat)
    requires k < |g|
    ensures var sofar := Built(g, sp, k);
      Built(g, sp, k + 1) == if k == sp.longest then sofar + ":"
        else if k < sp.longest + sp.length && k > sp.longest then sofar
        else (if |sofar| > 0 then sofar + ":" else sofar) + Hex(g[k])
  {
  }

  ghost function InBytes(k: int): int {
    if k < 0 then -1 else 2 * k
  }

  /** The loops of toString over the bytes. */
  method ToString(a: seq<byte>) returns (address: string)
    requires |a| == 4 || |a| == 16
    ensures address == AddressText(a)
  {
    if |a| == 4 {
      return Join([Digits.Print(a[0]), Digits.Print(a[1]), Digits.Print(a[2]), Digits.Print(a[3])], '.');
    }
    address := BuildText(a);
    if address != "" && address[|address| - 1] == ':' {
      address := address + ":";
    }
    hide Span, Built, Groups;
  }

  method BuildText(a: seq<byte>) returns (address: string)
    requires |a| == 16
    ensures address == Built(Groups(a), Span(Groups(a)), 8)
  {
    hide Span, Built, Hex;
    ghost var g := Groups(a);
    var longestStart, longestLength := FindLongest(a);
    ghost var sp := Span(g);
    BuiltStart(g, sp);
    address := "";
    var h := 0;
    while h < |a|
      invariant 0 <= h <= 16 && h == 2 * (h / 2) && address == Built(g, sp, h / 2)
    {
      ghost var k := h / 2;
      BuiltStep(g, sp, k);
      Positions(h, k, sp);
      assert Hex(g[k]) == Hex(256 * a[h] as int + a[h + 1] as int);
      if h == longestStart {
        address := address + ":";
      } else if h < longestStart + longestLength && h > longestStart {
      } else {
        if |address| > 0 {
          address := address + ":";
        }
        address := address + Hex(256 * a[h] as int + a[h + 1] as int);
      }
      assert address == Built(g, sp, k + 1);
      h := h + 2;
    }
  }

  lemma {:induction false} Positions(h: nat, k: nat, sp: Scan)
    requires h == 2 * k && -1 <= sp.longest && (sp.longest < 0 ==> sp.length == 0)
    ensures h == InBytes(sp.longest) <==> k == sp.longest
    ensures h < InBytes(sp.longest) + 2 * sp.length && h > InBytes(sp.longest)
      <==> k < sp.longest + sp.length && k > sp.longest
  {
  }

  method FindLongest(a: seq<byte>) returns (longestStart: int, longestLength: nat)
    requires |a| == 16
    ensures var sp := Span(Groups(a)); longestStart == InBytes(sp.longest) && longestLength == 2 * sp.length
    ensures -1 <= Span(Groups(a)).longest && (Span(Groups(a)).longest < 0 ==> Span(Groups(a)).length == 0)
  {
    ghost var z := ZeroGroups(Groups(a));
    var start := -1;
    longestStart, longestLength := -1, 0;
    ghost var st := Scan(-1, -1, 0);
    var i := 0;
    while i < |a|
      invariant i % 2 == 0 && i <= 16 && -1 <= st.start <= i / 2 && -1 <= st.longest
      invariant (st.longest < 0 ==> st.length == 0)
      invariant start == InBytes(st.start) && longestStart == InBytes(st.longest) && longestLength == 2 * st.length
      invariant ScanFrom(z, i / 2, st) == Span(Groups(a))
    {
      ghost var k := i / 2;
      ghost var next := Visit(z[k], k, k + 1 == |z|, st);
      assert z[k] <==> a[i] == 0 && a[i + 1] == 0;
      if a[i] == 0 && a[i + 1] == 0 {
        if start < 0 {
          start := i;
        }
        if i == |a| - 2 {
          start, longestStart, longestLength := CheckLongest(start, longestStart, longestLength, i + 2);
        }
      } else {
        start, longestStart, longestLength := CheckLongest(start, longestStart, longestLength, i);
      }
      st := next;
      i := i + 2;
    }
  }

  method CheckLongest(start: int, longestStart: int, longestLength: nat, i: nat) returns (s: int, ls: int, ll: nat)
    requires start <= i
    ensures if start >= 0 && i - start > longestLength then s == -1 && ls == start && ll == i - start
            else s == start && ls == longestStart && ll == longestLength
  {
    s, ls, ll := start, longestStart, longestLength;
    if start >= 0 {
      var length := i - start;
      if length > longestLength {
        ll := length;
        ls := start;
        s := -1;
      }
    }
  }

  // ---------------------------------------------------------------- fromString

  predicate IPv6Chars(s: string) {
    forall i :: 0 <= i < |s| ==> HexValue(s[i]).Some? || s[i] == ':' || s[i] == '.'
  }

  function Decimals(parts: seq<string>): seq<nat> {
    if parts == [] then []
    else [if Digits.AllDigits(parts[0]) then Digits.Decimal(parts[0]) else 0] + Decimals(parts[1..])
  }

  /** Octets written one by one; writing past the 16th byte is a range error. */
  function WriteOctets(parts: seq<string>, out: seq<byte>): Result<seq<byte>> {
    if parts == [] then Ok(out)
    else
      var v := Decimals([parts[0]])[0];
      if v > 255 || |out| >= 16 then Err else WriteOctets(parts[1..], out + [v])
  }

  function Zeros(n: int): (s: seq<byte>)
    ensures |s| == (if n < 0 then 0 else n) && forall i :: 0 <= i < |s| ==> s[i] == 0
    decreases if n < 0 then 0 else n
  {
    if n <= 0 then [] else Zeros(n - 1) + [0]
  }

  /** The bytes written for the parts from the i-th on, after `out`. Zero filling past the end of the buffer is lost,
      writing a group there is a range error. */
  function WriteParts(parts: seq<string>, i: nat, out: seq<byte>, filling: int, applied: bool,
                      embedded: bool): Result<seq<byte>>
    requires i <= |parts|
    decreases |parts| - i
  {
    if i == |parts| then Ok(out)
    else if parts[i] != "" then
      if embedded && i == |parts| - 1 then WriteOctets(Split(parts[i], '.'), out)
      else
        var v := ParseHex(parts[i], 0);
        if v > 65535 || |out| + 2 > 16 then Err
        else WriteParts(parts, i + 1, out + [v / 256, v % 256], filling, applied, embedded)
    else
      var f := if applied then 1 else filling;
      WriteParts(parts, i + 1, out + Zeros(2 * f), f, true, embedded)
  }

  /** The buffer: what was written over what the unsafe allocation left there. */
  function Over(out: seq<byte>, stale: seq<byte>): (r: seq<byte>)
    requires |stale| == 16
    ensures |r| == 16
  {
    if |out| >= 16 then out[..16] else out + stale[|out|..]
  }

  predicate IPv4Mapped(a: seq<byte>)
    requires |a| == 16
  {
    (forall i :: 0 <= i < 10 ==> a[i] == 0) && a[10] == 255 && a[11] == 255
  }

  function FromText(value: string, stale: seq<byte>): Result<seq<byte>>
    requires |stale| == 16
  {
    if value == "" then Ok([0, 0, 0, 0])
    else if MatchesIPv4(value) then WriteOctets(Split(value, '.'), [])
    else if !IPv6Chars(value) then Err
    else
      var parts := Split(value, ':');
      if |parts| < 3 then Err
      else
        var embedded := MatchesIPv4(parts[|parts| - 1]);
        var filling := 8 - |parts| + 1 - if embedded then 1 else 0;
        var out := WriteParts(parts, 0, [], filling, false, embedded);
        if out.Err? then Err
        else
          var buffer := Over(out.value, stale);
          if embedded && !IPv4Mapped(buffer) then Err else Ok(buffer)
  }

  // ---------------------------------------------------------------- fromString as it writes its buffer

  lemma {:induction false} OverNext(out: seq<byte>, x: byte, stale: seq<byte>)
    requires |stale| == 16
    ensures |out| < 16 ==> Over(out + [x], stale) == Over(out, stale)[|out| := x]
    ensures |out| >= 16 ==> Over(out + [x], stale) == Over(out, stale)
  {
    if |out| == 15 {
      assert (out + [x])[..16] == out + [x];
    } else if |out| >= 16 {
      assert (out + [x])[..16] == out[..16];
    }
  }

  /** One byte at the offset; past the end it is lost. */
  method PutByte(buffer: array<byte>, offset: nat, x: byte, ghost out: seq<byte>, ghost stale: seq<byte>)
    requires buffer.Length == 16 && |stale| == 16 && offset == |out| && buffer[..] == Over(out, stale)
    modifies buffer
    ensures buffer[..] == Over(out + [x], stale)
  {
    OverNext(out, x, stale);
    hide Over;
    if offset < buffer.Length {
      buffer[offset] := x;
    }
  }

  method FillZeros(buffer: array<byte>, offset: nat, filling: int, ghost out: seq<byte>,
                   ghost stale: seq<byte>) returns (end: nat)
    requires buffer.Length == 16 && |stale| == 16 && offset == |out| && buffer[..] == Over(out, stale)
    modifies buffer
    ensures buffer[..] == Over(out + Zeros(2 * filling), stale) && end == |out + Zeros(2 * filling)|
  {
    hide Over;
    end := offset;
    var j := 0;
    assert out + Zeros(0) == out;
    while j < filling
      invariant 0 <= j && (filling <= 0 ==> j == 0) && (filling > 0 ==> j <= filling)
      invariant buffer[..] == Over(out + Zeros(2 * j), stale) && end == |out| + 2 * j
    {
      ZerosNext(out, 2 * j);
      ZerosNext(out, 2 * j + 1);
      PutByte(buffer, end, 0, out + Zeros(2 * j), stale);
      PutByte(buffer, end + 1, 0, out + Zeros(2 * j) + [0], stale);
      end := end + 2;
      j := j + 1;
    }
    assert Zeros(2 * filling) == Zeros(2 * j);
  }

  lemma {:induction false} ZerosNext(out: seq<byte>, n: nat)
    ensures out + Zeros(n) + [0] == out + Zeros(n + 1)
  {
  }

  method PutOctets(buffer: array<byte>, parts: seq<string>, offset: nat, ghost out: seq<byte>,
                   ghost stale: seq<byte>) returns (ok: bool)
    requires buffer.Length == 16 && |stale| == 16 && offset == |out| && buffer[..] == Over(out, stale)
    modifies buffer
    ensures ok <==> WriteOctets(parts, out).Ok?
    ensures ok ==> buffer[..] == Over(WriteOctets(parts, out).value, stale)
  {
    hide Over;
    ghost var done: seq<byte> := out;
    var at := offset;
    for i := 0 to |parts|
      invariant at == |done| && buffer[..] == Over(done, stale)
      invariant WriteOctets(parts, out) == WriteOctets(parts[i..], done)
    {
      assert parts[i..][0] == parts[i] && parts[i..][1..] == parts[i + 1..];
      var v := Decimals([parts[i]])[0];
      if v > 255 || at > 15 {
        return false;
      }
      var octet: byte := v;
      PutByte(buffer, at, octet, done, stale);
      done := done + [octet];
      at := at + 1;
    }
    return true;
  }

  method FromString(value: string, stale: seq<byte>) returns (r: Result<seq<byte>>)
    requires |stale| == 16
    ensures r == FromText(value, stale)
  {
    hide Over, Split, MatchesIPv4, ParseHex, Zeros;
    if value == "" {
      return Ok([0, 0, 0, 0]);
    }
    if MatchesIPv4(value) {
      return WriteOctets(Split(value, '.'), []);
    }
    if !IPv6Chars(value) {
      return Err;
    }
    var parts := Split(value, ':');
    if |parts| < 3 {
      return Err;
    }
    var buffer := new byte[16](i requires 0 <= i < 16 => stale[i]);
    assert buffer[..] == stale;
    var filling, applied, offset := 8 - |parts| + 1, false, 0;
    var embedded := MatchesIPv4(parts[|parts| - 1]);
    if embedded {
      filling := filling - 1;
    }
    ghost var out: seq<byte> := [];
    ghost var all := WriteParts(parts, 0, out, filling, false, embedded);
    OverNothing(stale);
    var i := 0;
    while i < |parts|
      invariant i <= |parts| && offset == |out| && buffer[..] == Over(out, stale)
      invariant all == WriteParts(parts, i, out, filling, applied, embedded)
    {
      var item := parts[i];
      if item != "" {
        if embedded && i == |parts| - 1 {
          var ok := PutOctets(buffer, Split(item, '.'), offset, out, stale);
          if !ok {
            return Err;
          }
          out := WriteOctets(Split(item, '.'), out).value;
          break;
        }
        var v := ParseHex(item, 0);
        if v > 65535 || offset + 2 > 16 {
          return Err;
        }
        var hi: byte, lo: byte := v / 256, v % 256;
        PutByte(buffer, offset, hi, out, stale);
        PutByte(buffer, offset + 1, lo, out + [hi], stale);
        assert out + [hi] + [lo] == out + [hi, lo];
        out := out + [hi, lo];
        offset := offset + 2;
      } else {
        if applied {
          filling := 1;
        }
        applied := true;
        offset := FillZeros(buffer, offset, filling, out, stale);
        out := out + Zeros(2 * filling);
      }
      i := i + 1;
    }
    assert all == Ok(out);
    if embedded {
      var mapped := IsValidIPv4Mapped(buffer);
      if !mapped {
        return Err;
      }
    }
    return Ok(buffer[..]);
  }

  lemma {:induction false} OverNothing(stale: seq<byte>)
    requires |stale| == 16
    ensures Over([], stale) == stale
  {
  }

  method IsValidIPv4Mapped(buffer: array<byte>) returns (r: bool)
    requires buffer.Length == 16
    ensures r <==> IPv4Mapped(buffer[..])
  {
    for i := 0 to buffer.Length - 6
      invariant forall j :: 0 <= j < i ==> buffer[j] == 0
    {
      if buffer[i] != 0 {
        return false;
      }
    }
    return !(buffer[10] != 255 || buffer[11] != 255);
  }
}
