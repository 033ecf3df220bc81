/** CQL type names: the printer getDataTypeNameByCode and the parser dataTypes.getByName of lib/types/index.js, with
    the argument splitter both nested forms rest on. */
module TypeNames {
  import opened Bytes
  import opened LetterCase
  import Digits

  /** The names in the dataTypes table. */
  datatype Code =
    | Custom | Ascii | Bigint | Blob | Boolean | Counter | Decimal | Double | Float | Int | Text | Timestamp | Uuid
    | Varchar | Varint | Timeuuid | Inet | Date | Time | Smallint | Tinyint | Duration | List | Map | Set | Udt | Tuple

  function NameOf(c: Code): string {
    match c
    case Custom => "custom"
    case Ascii => "ascii"
    case Bigint => "bigint"
    case Blob => "blob"
    case Boolean => "boolean"
    case Counter => "counter"
    case Decimal => "decimal"
    case Double => "double"
    case Float => "float"
    case Int => "int"
    case Text => "text"
    case Timestamp => "timestamp"
    case Uuid => "uuid"
    case Varchar => "varchar"
    case Varint => "varint"
    case Timeuuid => "timeuuid"
    case Inet => "inet"
    case Date => "date"
    case Time => "time"
    case Smallint => "smallint"
    case Tinyint => "tinyint"
    case Duration => "duration"
    case List => "list"
    case Map => "map"
    case Set => "set"
    case Udt => "udt"
    case Tuple => "tuple"
  }

  const CODES: seq<Code> := [Custom, Ascii, Bigint, Blob, Boolean, Counter, Decimal, Double, Float, Int, Text,
                             Timestamp, Uuid,
    Varchar, Varint, Timeuuid, Inet, Date, Time, Smallint, Tinyint, Duration, List, Map, Set, Udt, Tuple]

  /** The property lookup in the dataTypes table. */
  function CodeOf(name: string, i: nat): Option<Code>
    requires i <= |CODES|
    decreases |CODES| - i
  {
    if i == |CODES| then None else if NameOf(CODES[i]) == name then Some(CODES[i]) else CodeOf(name, i + 1)
  }

  /** Type information; the info of a user-defined type parsed from a name is its raw text. */
  datatype Type =
    | Simple(code: Code)
    | ListOf(elem: Type)
    | SetOf(elem: Type)
    | MapOf(key: Type, value: Type)
    | TupleOf(elems: seq<Type>)
    | VectorOf(elem: Type, dimension: nat)
    | UdtOf(name: string)

  // ---------------------------------------------------------------- splitTypeArgs

  /** White space as String.prototype.trim removes it. */
  predicate IsSpace(c: char) {
    var n := c as int;
    9 <= n <= 13 || n == 32 || n == 160 || n == 5760 || 8192 <= n <= 8202 || n == 8232 || n == 8233 || n == 8239
    || n == 8287 || n == 12288 || n == 65279
  }

  function TrimLeft(s: string): (r: string)
    ensures |r| <= |s| && (r != [] ==> !IsSpace(r[0]))
  {
    if s != [] && IsSpace(s[0]) then TrimLeft(s[1..]) else s
  }

  function TrimRight(s: string): (r: string)
    ensures |r| <= |s| && r <= s
  {
    if s != [] && IsSpace(s[|s| - 1]) then TrimRight(s[..|s| - 1]) else s
  }

  function Trim(s: string): (r: string)
    ensures |r| <= |s|
  {
    TrimRight(TrimLeft(s))
  }

  function Deeper(c: char, depth: int): int {
    if c == '<' then depth + 1 else if c == '>' then depth - 1 else depth
  }

  /** The pieces between the commas outside angle brackets, given the piece read so far. */
  function Pieces(current: string, rest: string, depth: int): (ps: seq<string>)
    ensures ps != [] && forall i :: 0 <= i < |ps| ==> |ps[i]| <= |current| + |rest|
    decreases |rest|
  {
    if rest == [] then [Trim(current)]
    else if rest[0] == ',' && depth == 0 then [Trim(current)] + Pieces([], rest[1..], depth)
    else Pieces(current + [rest[0]], rest[1..], Deeper(rest[0], depth))
  }

  method SplitTypeArgs(args: string) returns (result: seq<string>)
    ensures result == Pieces([], args, 0)
  {
    hide Pieces, Trim;
    result := [];
    var depth, start := 0, 0;
    assert args[0..0] == [] && args[0..] == args;
    for i := 0 to |args|
      invariant 0 <= start <= i
      invariant result + Pieces(args[start..i], args[i..], depth) == Pieces([], args, 0)
    {
      var c := args[i];
      PiecesStep(args, start, i, depth);
      if c == '<' {
        depth := depth + 1;
      } else if c == '>' {
        depth := depth - 1;
      } else if c == ',' && depth == 0 {
        result := result + [Trim(args[start..i])];
        start := i + 1;
      }
    }
    PiecesEnd(args, start, depth);
    result := result + [Trim(args[start..])];
  }

  lemma {:induction false} PiecesStep(args: string, start: nat, i: nat, depth: int)
    requires start <= i < |args|
    ensures Pieces(args[start..i], args[i..], depth)
      == if args[i] == ',' && depth == 0 then [Trim(args[start..i])] + Pieces(args[i + 1..i + 1], args[i + 1..], depth)
         else Pieces(args[start..i + 1], args[i + 1..], Deeper(args[i], depth))
  {
    hide Trim;
    var c := args[i];
    assert args[i..][0] == c && args[i..][1..] == args[i + 1..];
    assert args[start..i] + [c] == args[start..i + 1] && args[i + 1..i + 1] == [];
  }

  lemma {:induction false} PiecesEnd(args: string, start: nat, depth: int)
    requires start <= |args|
    ensures Pieces(args[start..|args|], args[|args|..], depth) == [Trim(args[start..])]
  {
    assert args[|args|..] == [] && args[start..|args|] == args[start..];
  }

  // ---------------------------------------------------------------- printer

  function Join(names: seq<string>): string {
    if names == [] then "" else if |names| == 1 then names[0] else names[0] + ", " + Join(names[1..])
  }

  function Printed(t: Type): string {
    match t
    case Simple(c) => NameOf(c)
    case ListOf(e) => "list<" + Printed(e) + ">"
    case SetOf(e) => "set<" + Printed(e) + ">"
    case MapOf(k, v) => "map<" + Join([Printed(k), Printed(v)]) + ">"
    case TupleOf(ts) => "tuple<" + Join(seq(|ts|, i requires 0 <= i < |ts| => Printed(ts[i]))) + ">"
    case VectorOf(e, n) => "vector<" + Join([Printed(e), Digits.Print(n)]) + ">"
    case UdtOf(name) => name
  }

  // ---------------------------------------------------------------- parser

  function Lower(s: string): (r: string)
    ensures |r| == |s|
  {
    if s == [] then [] else [if 'A' <= s[0] <= 'Z' then s[0] - 'A' + 'a' else s[0]] + Lower(s[1..])
  }

  lemma {:induction false} LowerSame(a: string, b: string)
    requires SameLetters(a, b)
    ensures Lower(a) == Lower(b)
  {
    if a != [] {
      assert SameLetter(a[0], b[0]);
      LowerSame(a[1..], b[1..]);
    }
  }

  predicate LineEnd(c: char) {
    c == '\n' || c == '\r' || c as int == 8232 || c as int == 8233
  }

  /** The text matched by (.+) in head<(.+)> for the whole name. */
  function Inside(name: string, head: string): (r: Option<string>)
    ensures r.Some? ==> r.value != [] && |r.value| + |head| + 2 == |name|
  {
    var n := |head|;
    if |name| > n + 2 && name[..n] == head && name[n] == '<' && name[|name| - 1] == '>'
       && forall i :: n < i < |name| - 1 ==> !LineEnd(name[i])
    then Some(name[n + 1..|name| - 1]) else None
  }

  function FirstBracket(name: string): int {
    if name == [] then -1 else if name[0] == '<' then 0
    else var i := FirstBracket(name[1..]); if i < 0 then -1 else i + 1
  }

  /** getByName; None is the TypeError for an unknown name. */
  function Parse(given: string): Option<Type>
    decreases |given|, 1, 0
  {
    var name := Lower(given);
    var compound := if FirstBracket(name) > 0 then ParseCompound(name) else None;
    if compound.Some? then compound.value
    else
      var c := CodeOf(name, 0);
      if c.Some? then Some(Simple(c.value)) else None
  }

  /** Names that differ only in letter case name the same type, or none. */
  lemma {:induction false} CaseIgnored(a: string, b: string)
    requires SameLetters(a, b)
    ensures Parse(a) == Parse(b)
  {
    LowerSame(a, b);
    hide Lower, ParseCompound, FirstBracket, CodeOf, SameLetters;
  }

  /** The compound forms in the order they are tried; None when none matches, Some(None) when a part fails. */
  function ParseCompound(name: string): Option<Option<Type>>
    decreases |name|, 0, 0
  {
    var list, set_, map_ := Inside(name, "list"), Inside(name, "set"), Inside(name, "map");
    var udt, tuple, vector := Inside(name, "udt"), Inside(name, "tuple"), Inside(name, "vector");
    if list.Some? then Some(var e := Parse(list.value); if e.Some? then Some(ListOf(e.value)) else None)
    else if set_.Some? then Some(var e := Parse(set_.value); if e.Some? then Some(SetOf(e.value)) else None)
    else if map_.Some? && |Pieces([], map_.value, 0)| == 2 then
      var ts := ParseAll(Pieces([], map_.value, 0), |map_.value| + 1);
      Some(if ts.Some? && |ts.value| == 2 then Some(MapOf(ts.value[0], ts.value[1])) else None)
    else if udt.Some? then Some(Some(UdtOf(udt.value)))
    else if tuple.Some? then
      var ts := ParseAll(Pieces([], tuple.value, 0), |tuple.value| + 1);
      Some(if ts.Some? then Some(TupleOf(ts.value)) else None)
    else if vector.Some? then
      var args := Pieces([], vector.value, 0);
      if |args| == 2 && args[1] != "" && Digits.AllDigits(args[1]) then
        Some(var e := Parse(args[0]); if e.Some? then Some(VectorOf(e.value, Digits.Decimal(args[1]))) else None)
      else None
    else None
  }

  function ParseAll(names: seq<string>, n: nat): Option<seq<Type>>
    requires forall i :: 0 <= i < |names| ==> |names[i]| < n
    decreases n, 0, |names|
  {
    if names == [] then Some([])
    else
      var first, rest := Parse(names[0]), ParseAll(names[1..], n);
      if first.Some? && rest.Some? then Some([first.value] + rest.value) else None
  }

  // ---------------------------------------------------------------- splitting what was joined

  /** Reading from a depth: the depth after, if no comma is met at depth 0 and the depth never falls below 0. */
  ghost function Balance(s: string, depth: nat): Option<nat> {
    if s == [] then Some(depth)
    else if s[0] == ',' && depth == 0 then None
    else if s[0] == '>' && depth == 0 then None
    else Balance(s[1..], Deeper(s[0], depth))
  }

  lemma {:induction false} BalanceJoined(a: string, b: string, d: nat)
    ensures Balance(a + b, d) == if Balance(a, d).Some? then Balance(b, Balance(a, d).value) else None
  {
    if a == [] {
      assert a + b == b;
    } else {
      assert (a + b)[0] == a[0] && (a + b)[1..] == a[1..] + b;
      if !(a[0] == ',' && d == 0) && !(a[0] == '>' && d == 0) {
        BalanceJoined(a[1..], b, Deeper(a[0], d));
      }
    }
  }

  lemma {:induction false} BalanceDeeper(s: string, d: nat, k: nat)
    requires Balance(s, d).Some?
    ensures Balance(s, d + k) == Some(Balance(s, d).value + k)
  {
    if s != [] {
      BalanceDeeper(s[1..], Deeper(s[0], d), k);
    }
  }

  lemma {:induction false} PiecesSkip(current: string, chunk: string, rest: string, d: nat)
    requires Balance(chunk, d).Some?
    ensures Pieces(current, chunk + rest, d) == Pieces(current + chunk, rest, Balance(chunk, d).value)
    decreases |chunk|
  {
    if chunk == [] {
      assert chunk + rest == rest && current + chunk == current;
    } else {
      var all := chunk + rest;
      assert all[0] == chunk[0] && all[1..] == chunk[1..] + rest;
      PiecesSkip(current + [chunk[0]], chunk[1..], rest, Deeper(chunk[0], d));
      assert current + [chunk[0]] + chunk[1..] == current + chunk;
    }
  }

  /** A name that stands as one argument: balanced, no comma outside brackets, no space at its ends. */
  ghost predicate OneArgument(s: string) {
    s != [] && Balance(s, 0) == Some(0) && !IsSpace(s[0]) && !IsSpace(s[|s| - 1])
  }

  lemma {:induction false} TrimOne(s: string)
    requires s != [] && !IsSpace(s[0]) && !IsSpace(s[|s| - 1])
    ensures Trim(s) == s && Trim(" " + s) == s
  {
    assert (" " + s)[0] == ' ' && (" " + s)[1..] == s;
    assert TrimLeft(" " + s) == TrimLeft(s) == s;
  }

  /** Splitting inverts joining with ", " for every non-empty list of arguments. */
  lemma {:induction false} SplitUndoesJoin(names: seq<string>, lead: string)
    requires names != [] && (forall i :: 0 <= i < |names| ==> OneArgument(names[i])) && (lead == "" || lead == " ")
    ensures Pieces(lead, Join(names), 0) == names
    decreases |names|
  {
    hide Pieces, Trim, IsSpace, Balance;
    var first := names[0];
    TrimOne(first);
    assert lead + first == if lead == "" then first else " " + first;
    if |names| == 1 {
      assert first + "" == first && names == [first] && Join(names) == first;
      PiecesSkip(lead, first, "", 0);
      PiecesDone(lead + first);
    } else {
      var tail := ", " + Join(names[1..]);
      assert Join(names) == first + tail;
      PiecesSkip(lead, first, tail, 0);
      AfterComma(lead + first, Join(names[1..]));
      SplitUndoesJoin(names[1..], " ");
      assert names == [first] + names[1..];
    }
  }

  lemma {:induction false} PiecesDone(current: string)
    ensures Pieces(current, "", 0) == [Trim(current)]
  {
  }

  lemma {:induction false} AfterComma(current: string, rest: string)
    ensures Pieces(current, ", " + rest, 0) == [Trim(current)] + Pieces(" ", rest, 0)
  {
    hide Trim;
    var more := " " + rest;
    assert ", " + rest == "," + more && ("," + more)[1..] == more && more[1..] == rest;
    assert "" + [' '] == " ";
    assert Pieces("", more, 0) == Pieces("" + [' '], rest, 0);
  }
}
