/** Text pieces of lib/types/inet-address.ts: splitting and joining, hexadecimal groups, and the IPv4 pattern. */
module InetText {
  import opened Bytes
  import Digits

  // ---------------------------------------------------------------- split and join

  function Split(s: string, sep: char): (parts: seq<string>)
    ensures parts != []
  {
    if s == "" then [""]
    else
      var rest := Split(s[1..], sep);
      if s[0] == sep then [""] + rest else [[s[0]] + rest[0]] + rest[1..]
  }

  function Join(parts: seq<string>, sep: char): string {
    if parts == [] then "" else if |parts| == 1 then parts[0] else parts[0] + [sep] + Join(parts[1..], sep)
  }

  lemma {:induction false} SplitPart(part: string, rest: string, sep: char)
    requires sep !in part
    ensures var more := Split(rest, sep); Split(part + rest, sep) == [part + more[0]] + more[1..]
  {
    if part == "" {
      var more := Split(rest, sep);
      assert part + rest == rest && part + more[0] == more[0] && more == [more[0]] + more[1..];
    } else {
      assert (part + rest)[0] == part[0] && (part + rest)[1..] == part[1..] + rest;
      SplitPart(part[1..], rest, sep);
      var more := Split(rest, sep);
      assert [part[0]] + (part[1..] + more[0]) == part + more[0];
    }
  }

  /** Splitting inverts joining when no part holds the separator. */
  lemma {:induction false} SplitUndoesJoin(parts: seq<string>, sep: char)
    requires parts != [] && forall i :: 0 <= i < |parts| ==> sep !in parts[i]
    ensures Split(Join(parts, sep), sep) == parts
  {
    var first := parts[0];
    if |parts| == 1 {
      assert first + "" == first;
      SplitPart(first, "", sep);
      assert parts == [first];
    } else {
      SplitUndoesJoin(parts[1..], sep);
      var rest := [sep] + Join(parts[1..], sep);
      assert rest[0] == sep && rest[1..] == Join(parts[1..], sep);
      assert Join(parts, sep) == first + rest;
      SplitPart(first, rest, sep);
      assert first + "" == first && parts == [first] + parts[1..];
    }
  }

  lemma {:induction false} JoinJoined(a: seq<string>, b: seq<string>, sep: char)
    requires a != [] && b != []
    ensures Join(a + b, sep) == Join(a, sep) + [sep] + Join(b, sep)
  {
    assert (a + b)[0] == a[0] && (a + b)[1..] == a[1..] + b;
    if |a| == 1 {
      assert a[1..] + b == b;
    } else {
      JoinJoined(a[1..], b, sep);
    }
  }

  // ---------------------------------------------------------------- hexadecimal

  function HexDigit(d: nat): char
    requires d < 16
  {
    if d < 10 then ('0' as int + d) as char else ('a' as int + (d - 10)) as char
  }

  /** A digit in either letter case; None ends the number. */
  function HexValue(c: char): Option<nat> {
    if '0' <= c <= '9' then Some(c as int - '0' as int)
    else if 'a' <= c <= 'f' then Some(c as int - 'a' as int + 10)
    else if 'A' <= c <= 'F' then Some(c as int - 'A' as int + 10)
    else None
  }

  /** Number.toString(16). */
  function Hex(n: nat): (s: string)
    ensures s != ""
  {
    if n < 16 then [HexDigit(n)] else Hex(n / 16) + [HexDigit(n % 16)]
  }

  /** parseInt(item, 16): the value of the leading digits; NaN, when there are none, is written as 0. */
  function ParseHex(s: string, sofar: nat): nat {
    if s == "" then sofar
    else
      var d := HexValue(s[0]);
      if d.None? || d.value >= 16 then sofar else ParseHex(s[1..], 16 * sofar + d.value)
  }

  predicate HexChars(s: string) {
    forall i :: 0 <= i < |s| ==> '0' <= s[i] <= '9' || 'a' <= s[i] <= 'f'
  }

  lemma {:induction false} HexIsHex(n: nat)
    ensures HexChars(Hex(n))
  {
    if n >= 16 {
      HexIsHex(n / 16);
    }
  }

  lemma {:induction false} ParseAppend(s: string, d: nat, sofar: nat)
    requires HexChars(s) && d < 16
    ensures ParseHex(s + [HexDigit(d)], sofar) == 16 * ParseHex(s, sofar) + d
  {
    var all := s + [HexDigit(d)];
    if s == "" {
      assert all == [HexDigit(d)] && all[1..] == "";
    } else {
      assert all[0] == s[0] && all[1..] == s[1..] + [HexDigit(d)];
      ParseAppend(s[1..], d, 16 * sofar + HexValue(s[0]).value);
    }
  }

  /** Parsing the hexadecimal text of a number gives the number. */
  lemma {:induction false} HexRoundTrip(n: nat)
    ensures ParseHex(Hex(n), 0) == n
  {
    if n >= 16 {
      HexRoundTrip(n / 16);
      HexIsHex(n / 16);
      ParseAppend(Hex(n / 16), n % 16, 0);
    } else {
      assert [HexDigit(n)][1..] == "";
    }
  }

  // ---------------------------------------------------------------- the IPv4 pattern

  /** 25[0-5], or an optional 2[0-4], 1 and a digit, or [1-9], and a digit. */
  predicate Octet(t: string) {
    Digits.AllDigits(t) &&
    (|| |t| == 1
     || (|t| == 2 && t[0] != '0')
     || (|t| == 3 && (t[0] == '1' || (t[0] == '2' && (t[1] < '5' || (t[1] == '5' && t[2] <= '5'))))))
  }

  predicate WordChar(c: char) {
    '0' <= c <= '9' || 'a' <= c <= 'z' || 'A' <= c <= 'Z' || c == '_'
  }

  /** A word boundary before position p of s; p > 0. */
  predicate Boundary(s: string, p: nat)
    requires 0 < p <= |s|
  {
    WordChar(s[p - 1]) != (p < |s| && WordChar(s[p]))
  }

  /** k more repetitions of an octet, an optional dot and a word boundary match exactly the rest of s. */
  predicate Repeats(s: string, p: nat, k: nat)
    requires p <= |s|
    decreases k
  {
    if k == 0 then p == |s|
    else
      || RepeatsWith(s, p, k, 1, false) || RepeatsWith(s, p, k, 2, false) || RepeatsWith(s, p, k, 3, false)
      || RepeatsWith(s, p, k, 1, true) || RepeatsWith(s, p, k, 2, true) || RepeatsWith(s, p, k, 3, true)
  }

  /** The next octet has n characters and a dot is taken or not. */
  predicate RepeatsWith(s: string, p: nat, k: nat, n: nat, dot: bool)
    requires p <= |s| && k > 0 && n > 0
    decreases k, 0
  {
    && p + n <= |s| && Octet(s[p..p + n])
    && (dot ==> p + n < |s| && s[p + n] == '.')
    && var q := if dot then p + n + 1 else p + n;
       Boundary(s, q) && Repeats(s, q, k - 1)
  }

  predicate MatchesIPv4(s: string) {
    Repeats(s, 0, 4)
  }

  // ---------------------------------------------------------------- what the pattern matches

  ghost predicate Octets(parts: seq<string>) {
    forall i :: 0 <= i < |parts| ==> Octet(parts[i])
  }

  /** More repetitions to come after the octet: the dot must have been taken. */
  lemma {:induction false} DotTaken(s: string, p: nat, k: nat, n: nat, dot: bool)
    requires p <= |s| && k > 1 && n > 0 && RepeatsWith(s, p, k, n, dot)
    ensures dot
  {
    if !dot {
      var q := p + n;
      assert s[p..q][n - 1] == s[q - 1] && WordChar(s[q - 1]);
      assert Repeats(s, q, k - 1);
      NextIsDigit(s, q, k - 1);
    }
  }

  lemma {:induction false} NextIsDigit(s: string, p: nat, k: nat)
    requires p <= |s| && k > 0 && Repeats(s, p, k)
    ensures p < |s| && Digits.IsDigit(s[p])
  {
    var n, dot := Choice(s, p, k);
    assert s[p..p + n][0] == s[p];
  }

  /** The alternative that matched. */
  lemma {:induction false} Choice(s: string, p: nat, k: nat) returns (n: nat, dot: bool)
    requires p <= |s| && k > 0 && Repeats(s, p, k)
    ensures n > 0 && RepeatsWith(s, p, k, n, dot)
  {
    hide RepeatsWith;
    if RepeatsWith(s, p, k, 1, false) { n, dot := 1, false; }
    else if RepeatsWith(s, p, k, 2, false) { n, dot := 2, false; }
    else if RepeatsWith(s, p, k, 3, false) { n, dot := 3, false; }
    else if RepeatsWith(s, p, k, 1, true) { n, dot := 1, true; }
    else if RepeatsWith(s, p, k, 2, true) { n, dot := 2, true; }
    else { n, dot := 3, true; }
  }

  /** What is matched is k octets joined by dots. */
  lemma {:induction false} MatchedParts(s: string, p: nat, k: nat) returns (parts: seq<string>)
    requires p <= |s| && k > 0 && Repeats(s, p, k)
    ensures |parts| == k && Octets(parts) && s[p..] == Join(parts, '.')
    decreases k
  {
    var n, dot := Choice(s, p, k);
    var first := s[p..p + n];
    if k == 1 {
      parts := [first];
      assert s[p..] == first;
    } else {
      DotTaken(s, p, k, n, dot);
      var rest := MatchedParts(s, p + n + 1, k - 1);
      parts := [first] + rest;
      assert parts[1..] == rest;
      assert s[p..] == first + ['.'] + s[p + n + 1..];
    }
  }

  /** k octets joined by dots are matched. */
  lemma {:induction false} PartsMatch(pre: string, parts: seq<string>)
    requires parts != [] && Octets(parts)
    ensures Repeats(pre + Join(parts, '.'), |pre|, |parts|)
    decreases |parts|
  {
    hide Join;
    var first := parts[0];
    var s := pre + Join(parts, '.');
    JoinedBehind(pre, parts);
    assert first != "";
    hide Octet;
    if |parts| == 1 {
      Placed(pre, first, "");
      LastOctet(s, |pre|, |first|);
    } else {
      var tail := Join(parts[1..], '.');
      PartsMatch(pre + first + ['.'], parts[1..]);
      NextIsDigit(s, |pre| + |first| + 1, |parts| - 1);
      Placed(pre, first, ['.'] + tail);
      OneOctet(s, |pre|, |parts|, |first|);
    }
  }

  lemma {:induction false} JoinedBehind(pre: string, parts: seq<string>)
    requires parts != []
    ensures var s, first, tail := pre + Join(parts, '.'), parts[0], Join(parts[1..], '.');
      if |parts| == 1 then s == pre + first + ""
      else s == pre + first + (['.'] + tail) && s == (pre + first + ['.']) + tail
  {
  }

  /** Where a part lies in a text. */
  lemma {:induction false} Placed(pre: string, first: string, tail: string)
    ensures var s, p, n := pre + first + tail, |pre|, |first|;
      s[p..p + n] == first && |s| == p + n + |tail| && (tail != "" ==> s[p + n] == tail[0])
  {
  }

  lemma {:induction false} LastOctet(s: string, p: nat, n: nat)
    requires n > 0 && p + n == |s| && Octet(s[p..p + n])
    ensures Repeats(s, p, 1)
  {
    assert s[p..p + n][n - 1] == s[p + n - 1];
    assert RepeatsWith(s, p, 1, n, false);
    assert 1 <= n <= 3;
  }

  lemma {:induction false} OneOctet(s: string, p: nat, k: nat, n: nat)
    requires k > 1 && n > 0 && p + n + 1 < |s| && Octet(s[p..p + n]) && s[p + n] == '.'
    requires Digits.IsDigit(s[p + n + 1]) && Repeats(s, p + n + 1, k - 1)
    ensures Repeats(s, p, k)
  {
    assert RepeatsWith(s, p, k, n, true);
    assert 1 <= n <= 3;
  }

  lemma {:induction false} DotsInside(parts: seq<string>, c: char)
    requires Octets(parts) && !Digits.IsDigit(c) && c != '.'
    ensures c !in Join(parts, '.') && (|parts| > 1 ==> '.' in Join(parts, '.'))
  {
    if |parts| > 1 {
      DotsInside(parts[1..], c);
    }
  }

  /** The pattern matches exactly four octets joined by dots. */
  lemma {:induction false} IPv4Language(s: string)
    ensures MatchesIPv4(s) <==> exists parts :: |parts| == 4 && Octets(parts) && s == Join(parts, '.')
  {
    if MatchesIPv4(s) {
      var parts := MatchedParts(s, 0, 4);
      assert s[0..] == s;
    }
    if exists parts :: |parts| == 4 && Octets(parts) && s == Join(parts, '.') {
      var parts :| |parts| == 4 && Octets(parts) && s == Join(parts, '.');
      PartsMatch("", parts);
      assert "" + s == s;
    }
  }

  /** A text with a colon, or without a dot, is not an IPv4 address. */
  lemma {:induction false} NotIPv4(s: string)
    requires ':' in s || '.' !in s
    ensures !MatchesIPv4(s)
  {
    if MatchesIPv4(s) {
      var parts := MatchedParts(s, 0, 4);
      assert s[0..] == s;
      DotsInside(parts, ':');
    }
  }

  /** The decimal text of a byte is an octet, and every octet is one. */
  lemma {:induction false} OctetOfByte(b: nat)
    requires b < 256
    ensures Octet(Digits.Print(b))
  {
    if b >= 100 {
      var t := Digits.Print(b / 10);
      assert t == Digits.Print(b / 10 / 10) + [Digits.DigitChar(b / 10 % 10)];
      assert Digits.Print(b / 10 / 10) == [Digits.DigitChar(b / 100)];
    }
  }
}
