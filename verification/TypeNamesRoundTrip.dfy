/** Printing a type and parsing the name gives the type back, exactly when no tuple inside it is empty. */
module TypeNamesRoundTrip {
  import opened Bytes
  import opened TypeNames
  import Digits

  // ---------------------------------------------------------------- characters

  predicate Letters(s: string) {
    forall i :: 0 <= i < |s| ==> 'a' <= s[i] <= 'z'
  }

  /** Characters of printed names: nothing to lower, no line end. */
  predicate Clean(s: string) {
    forall i :: 0 <= i < |s| ==>
      'a' <= s[i] <= 'z' || '0' <= s[i] <= '9' || s[i] == '<' || s[i] == '>' || s[i] == ',' || s[i] == ' '
  }

  lemma {:induction false} LowerClean(s: string)
    requires Clean(s)
    ensures Lower(s) == s
  {
    if s != [] {
      LowerClean(s[1..]);
    }
  }

  lemma {:induction false} LettersBalance(s: string, d: nat)
    requires Letters(s) || Digits.AllDigits(s)
    ensures Balance(s, d) == Some(d)
  {
    if s != [] {
      assert s[0] != '<' && s[0] != '>' && s[0] != ',';
      LettersBalance(s[1..], d);
    }
  }

  lemma {:induction false} NameLetters(c: Code)
    ensures Letters(NameOf(c)) && NameOf(c) != []
  {
  }

  /** Length and first two letters tell the names apart. */
  ghost function Signature(c: Code): (nat, char, char) {
    match c
    case Custom => (6, 'c', 'u')
    case Ascii => (5, 'a', 's')
    case Bigint => (6, 'b', 'i')
    case Blob => (4, 'b', 'l')
    case Boolean => (7, 'b', 'o')
    case Counter => (7, 'c', 'o')
    case Decimal => (7, 'd', 'e')
    case Double => (6, 'd', 'o')
    case Float => (5, 'f', 'l')
    case Int => (3, 'i', 'n')
    case Text => (4, 't', 'e')
    case Timestamp => (9, 't', 'i')
    case Uuid => (4, 'u', 'u')
    case Varchar => (7, 'v', 'a')
    case Varint => (6, 'v', 'a')
    case Timeuuid => (8, 't', 'i')
    case Inet => (4, 'i', 'n')
    case Date => (4, 'd', 'a')
    case Time => (4, 't', 'i')
    case Smallint => (8, 's', 'm')
    case Tinyint => (7, 't', 'i')
    case Duration => (8, 'd', 'u')
    case List => (4, 'l', 'i')
    case Map => (3, 'm', 'a')
    case Set => (3, 's', 'e')
    case Udt => (3, 'u', 'd')
    case Tuple => (5, 't', 'u')
  }

  lemma {:induction false} SignatureIs(c: Code)
    ensures |NameOf(c)| >= 2 && Signature(c) == (|NameOf(c)|, NameOf(c)[0], NameOf(c)[1])
  {
  }

  lemma {:induction false} NameInjective(a: Code, b: Code)
    requires NameOf(a) == NameOf(b)
    ensures a == b
  {
    hide NameOf;
    SignatureIs(a);
    SignatureIs(b);
  }

  lemma {:induction false} CodeFound(c: Code, i: nat, k: nat)
    requires i <= k < |CODES| && CODES[k] == c
    ensures CodeOf(NameOf(c), i) == Some(c)
    decreases k - i
  {
    hide NameOf;
    if NameOf(CODES[i]) == NameOf(c) {
      NameInjective(CODES[i], c);
    } else {
      CodeFound(c, i + 1, k);
    }
  }

  lemma {:induction false} EveryCode(c: Code)
    ensures exists k :: 0 <= k < |CODES| && CODES[k] == c
  {
    match c
    case Custom => assert CODES[0] == c;
    case Ascii => assert CODES[1] == c;
    case Bigint => assert CODES[2] == c;
    case Blob => assert CODES[3] == c;
    case Boolean => assert CODES[4] == c;
    case Counter => assert CODES[5] == c;
    case Decimal => assert CODES[6] == c;
    case Double => assert CODES[7] == c;
    case Float => assert CODES[8] == c;
    case Int => assert CODES[9] == c;
    case Text => assert CODES[10] == c;
    case Timestamp => assert CODES[11] == c;
    case Uuid => assert CODES[12] == c;
    case Varchar => assert CODES[13] == c;
    case Varint => assert CODES[14] == c;
    case Timeuuid => assert CODES[15] == c;
    case Inet => assert CODES[16] == c;
    case Date => assert CODES[17] == c;
    case Time => assert CODES[18] == c;
    case Smallint => assert CODES[19] == c;
    case Tinyint => assert CODES[20] == c;
    case Duration => assert CODES[21] == c;
    case List => assert CODES[22] == c;
    case Map => assert CODES[23] == c;
    case Set => assert CODES[24] == c;
    case Udt => assert CODES[25] == c;
    case Tuple => assert CODES[26] == c;
  }

  lemma {:induction false} NoCodeWithBracket(name: string, i: nat)
    requires i <= |CODES| && !Letters(name)
    ensures CodeOf(name, i) == None
    decreases |CODES| - i
  {
    if i < |CODES| {
      NameLetters(CODES[i]);
      NoCodeWithBracket(name, i + 1);
    }
  }

  // ---------------------------------------------------------------- bracketed names

  function Bracketed(head: string, inner: string): string {
    head + "<" + inner + ">"
  }

  lemma {:induction false} BracketChars(head: string, inner: string)
    ensures var name := Bracketed(head, inner); var n := |head|;
      && |name| == n + |inner| + 2 && name[..n] == head && name[n] == '<' && name[|name| - 1] == '>'
      && name[n + 1..|name| - 1] == inner
      && (forall i :: 0 <= i < n ==> name[i] == head[i])
      && (forall i :: n < i < |name| - 1 ==> name[i] == inner[i - n - 1])
  {
  }

  lemma {:induction false} InsideOwn(head: string, inner: string)
    requires Clean(inner) && inner != []
    ensures Inside(Bracketed(head, inner), head) == Some(inner)
  {
    BracketChars(head, inner);
    hide Bracketed;
  }

  lemma {:induction false} InsideOther(head: string, inner: string, other: string)
    requires Letters(head) && Letters(other) && head != other
    ensures Inside(Bracketed(head, inner), other) == None
  {
    BracketChars(head, inner);
    var name := Bracketed(head, inner);
    hide Bracketed;
    if |other| < |head| {
      assert name[|other|] == head[|other|];
    } else if |head| < |other| {
      assert |other| < |name| ==> name[..|other|][|head|] == '<';
    } else {
      assert name[..|other|] == head;
    }
  }

  lemma {:induction false} BracketFound(head: string, rest: string)
    requires Letters(head)
    ensures FirstBracket(head + "<" + rest) == |head|
  {
    var name := head + "<" + rest;
    if head == [] {
      assert name[0] == '<';
    } else {
      assert name[0] == head[0] && name[1..] == head[1..] + "<" + rest;
      BracketFound(head[1..], rest);
    }
  }

  lemma {:induction false} CompoundTried(head: string, inner: string)
    requires Letters(head) && head != [] && Clean(inner)
    ensures var name := Bracketed(head, inner);
      && Lower(name) == name && FirstBracket(name) > 0 && !Letters(name)
      && Parse(name) == if ParseCompound(name).Some? then ParseCompound(name).value else None
  {
    var name := Bracketed(head, inner);
    BracketChars(head, inner);
    assert Clean(name);
    LowerClean(name);
    assert name == head + "<" + (inner + ">");
    BracketFound(head, inner + ">");
    assert name[|head|] == '<';
    NoCodeWithBracket(name, 0);
    hide Bracketed, ParseCompound, FirstBracket, Lower;
  }

  lemma {:induction false} Heads()
    ensures Letters("list") && Letters("set") && Letters("map") && Letters("udt") && Letters("tuple")
    ensures Letters("vector")
  {
  }

  lemma {:induction false} ParseList(inner: string)
    requires Clean(inner) && inner != []
    ensures Parse(Bracketed("list", inner)) == var e := Parse(inner); if e.Some? then Some(ListOf(e.value)) else None
  {
    Heads();
    CompoundTried("list", inner);
    InsideOwn("list", inner);
    hide Bracketed, Inside, Parse, Pieces, ParseAll, Lower;
  }

  lemma {:induction false} ParseSet(inner: string)
    requires Clean(inner) && inner != []
    ensures Parse(Bracketed("set", inner)) == var e := Parse(inner); if e.Some? then Some(SetOf(e.value)) else None
  {
    Heads();
    CompoundTried("set", inner);
    InsideOwn("set", inner);
    InsideOther("set", inner, "list");
    hide Bracketed, Inside, Parse, Pieces, ParseAll, Lower;
  }

  lemma {:induction false} ParseMap(names: seq<string>)
    requires |names| == 2 && OneArgument(names[0]) && OneArgument(names[1]) && Clean(names[0]) && Clean(names[1])
    ensures Parse(Bracketed("map", Join(names)))
      == var k, v := Parse(names[0]), Parse(names[1]); if k.Some? && v.Some? then Some(MapOf(k.value,
          v.value)) else None
  {
    hide Bracketed, Inside, Parse, Pieces, ParseAll, Lower, Join, Balance, IsSpace, Clean, Letters;
    var inner := Join(names);
    JoinClean(names);
    Heads();
    CompoundTried("map", inner);
    InsideOwn("map", inner);
    InsideOther("map", inner, "list");
    InsideOther("map", inner, "set");
    SplitUndoesJoin(names, "");
    TwoParsed(names, |inner| + 1);
  }

  lemma {:induction false} TwoParsed(names: seq<string>, n: nat)
    requires |names| == 2 && |names[0]| < n && |names[1]| < n
    ensures ParseAll(names, n)
      == var a, b := Parse(names[0]), Parse(names[1]); if a.Some? && b.Some? then Some([a.value, b.value]) else None
  {
    hide Parse;
    assert names[1..][0] == names[1] && names[1..][1..] == [];
    assert ParseAll(names[1..][1..], n) == Some([]);
    var a, b := Parse(names[0]), Parse(names[1]);
    if b.Some? {
      assert [b.value] + [] == [b.value];
      if a.Some? {
        assert [a.value] + [b.value] == [a.value, b.value];
      }
    }
  }

  lemma {:induction false} JoinClean(names: seq<string>)
    requires names != [] && forall i :: 0 <= i < |names| ==> Clean(names[i]) && names[i] != []
    ensures Clean(Join(names)) && Join(names) != [] && forall i :: 0 <= i < |names| ==> |names[i]| <= |Join(names)|
  {
    if |names| > 1 {
      JoinClean(names[1..]);
      forall i | 0 <= i < |names|
        ensures |names[i]| <= |Join(names)|
      {
        if i > 0 { assert names[i] == names[1..][i - 1]; }
      }
    }
  }

  lemma {:induction false} ParseTuple(names: seq<string>)
    requires names != [] && forall i :: 0 <= i < |names| ==> OneArgument(names[i]) && Clean(names[i])
    ensures forall i :: 0 <= i < |names| ==> |names[i]| < |Join(names)| + 1
    ensures Parse(Bracketed("tuple", Join(names)))
      == var ts := ParseAll(names, |Join(names)| + 1); if ts.Some? then Some(TupleOf(ts.value)) else None
  {
    hide Bracketed, Inside, Parse, Pieces, ParseAll, Lower, Join, Balance, IsSpace, Clean, Letters;
    var inner := Join(names);
    JoinClean(names);
    Heads();
    CompoundTried("tuple", inner);
    InsideOwn("tuple", inner);
    InsideOther("tuple", inner, "list");
    InsideOther("tuple", inner, "set");
    InsideOther("tuple", inner, "map");
    InsideOther("tuple", inner, "udt");
    SplitUndoesJoin(names, "");
  }

  /** The name of an empty tuple is rejected. */
  lemma {:induction false} ParseEmptyTuple()
    ensures Parse(Bracketed("tuple", "")) == None
  {
    Heads();
    CompoundTried("tuple", "");
    BracketChars("tuple", "");
    InsideOther("tuple", "", "list");
    InsideOther("tuple", "", "set");
    InsideOther("tuple", "", "map");
    InsideOther("tuple", "", "udt");
    InsideOther("tuple", "", "vector");
    assert Inside(Bracketed("tuple", ""), "tuple") == None;
    hide Bracketed, Inside, Parse, Pieces, ParseAll, Lower;
  }

  lemma {:induction false} ParseVector(names: seq<string>)
    requires |names| == 2 && OneArgument(names[0]) && OneArgument(names[1]) && Clean(names[0]) && Clean(names[1])
    requires Digits.AllDigits(names[1])
    ensures Parse(Bracketed("vector", Join(names)))
      == var e := Parse(names[0]); if e.Some? then Some(VectorOf(e.value, Digits.Decimal(names[1]))) else None
  {
    hide Bracketed, Inside, Parse, Pieces, ParseAll, Lower, Join, Balance, IsSpace, Clean, Letters;
    var inner := Join(names);
    JoinClean(names);
    Heads();
    CompoundTried("vector", inner);
    InsideOwn("vector", inner);
    InsideOther("vector", inner, "list");
    InsideOther("vector", inner, "set");
    InsideOther("vector", inner, "map");
    InsideOther("vector", inner, "udt");
    InsideOther("vector", inner, "tuple");
    SplitUndoesJoin(names, "");
  }

  // ---------------------------------------------------------------- printed names

  /** No user-defined type inside: its parsed information has no printer. */
  predicate NoUdt(t: Type) {
    match t
    case Simple(_) => true
    case ListOf(e) => NoUdt(e)
    case SetOf(e) => NoUdt(e)
    case MapOf(k, v) => NoUdt(k) && NoUdt(v)
    case TupleOf(ts) => forall i :: 0 <= i < |ts| ==> NoUdt(ts[i])
    case VectorOf(e, _) => NoUdt(e)
    case UdtOf(_) => false
  }

  predicate NoEmptyTuple(t: Type) {
    match t
    case Simple(_) => true
    case ListOf(e) => NoEmptyTuple(e)
    case SetOf(e) => NoEmptyTuple(e)
    case MapOf(k, v) => NoEmptyTuple(k) && NoEmptyTuple(v)
    case TupleOf(ts) => ts != [] && forall i :: 0 <= i < |ts| ==> NoEmptyTuple(ts[i])
    case VectorOf(e, _) => NoEmptyTuple(e)
    case UdtOf(_) => true
  }

  lemma {:induction false} BracketArgument(head: string, inner: string)
    requires Letters(head) && head != [] && Clean(inner) && Balance(inner, 1) == Some(1)
    ensures OneArgument(Bracketed(head, inner)) && Clean(Bracketed(head, inner))
  {
    var name := Bracketed(head, inner);
    BracketChars(head, inner);
    assert name == head + ("<" + (inner + ">"));
    LettersBalance(head, 0);
    BalanceJoined(head, "<" + (inner + ">"), 0);
    assert ("<" + (inner + ">"))[1..] == inner + ">";
    BalanceJoined(inner, ">", 1);
    assert Balance(">", 1) == Some(0) by { assert ">"[1..] == ""; }
    assert name[0] == head[0];
    hide Bracketed;
  }

  lemma {:induction false} JoinBalance(names: seq<string>, d: nat)
    requires d > 0 && forall i :: 0 <= i < |names| ==> Balance(names[i], 0) == Some(0)
    ensures Balance(Join(names), d) == Some(d)
  {
    if names != [] {
      BalanceDeeper(names[0], 0, d);
      if |names| > 1 {
        JoinBalance(names[1..], d);
        var tail := ", " + Join(names[1..]);
        assert Join(names) == names[0] + tail;
        BalanceJoined(names[0], tail, d);
        assert tail[0] == ',' && tail[1..] == " " + Join(names[1..]) && tail[1..][1..] == Join(names[1..]);
      }
    }
  }

  lemma {:induction false} ListArgument(head: string, names: seq<string>)
    requires Letters(head) && head != [] && forall i :: 0 <= i < |names| ==> OneArgument(names[i]) && Clean(names[i])
    ensures OneArgument(Bracketed(head, Join(names))) && Clean(Bracketed(head, Join(names)))
  {
    JoinBalance(names, 1);
    if names != [] {
      JoinClean(names);
    }
    BracketArgument(head, Join(names));
  }

  lemma {:induction false} NumberArgument(n: nat)
    ensures OneArgument(Digits.Print(n)) && Clean(Digits.Print(n))
  {
    LettersBalance(Digits.Print(n), 0);
  }

  ghost function Names(ts: seq<Type>): seq<string> {
    seq(|ts|, i requires 0 <= i < |ts| => Printed(ts[i]))
  }

  /** The name of a type as its head around its arguments. */
  lemma {:induction false} PrintedForm(t: Type)
    ensures match t
      case ListOf(e) => Printed(t) == Bracketed("list", Join([Printed(e)]))
      case SetOf(e) => Printed(t) == Bracketed("set", Join([Printed(e)]))
      case MapOf(k, v) => Printed(t) == Bracketed("map", Join([Printed(k), Printed(v)]))
      case TupleOf(ts) => Printed(t) == Bracketed("tuple", Join(Names(ts)))
      case VectorOf(e, n) => Printed(t) == Bracketed("vector", Join([Printed(e), Digits.Print(n)]))
      case _ => true
  {
    if t.TupleOf? {
      assert Names(t.elems) == seq(|t.elems|, i requires 0 <= i < |t.elems| => Printed(t.elems[i]));
    }
    hide Join;
    if t.ListOf? || t.SetOf? {
      OneJoined(Printed(t.elem));
    }
  }

  lemma {:induction false} OneJoined(s: string)
    ensures Join([s]) == s
  {
  }

  /** Every printed name stands as one argument. */
  lemma {:induction false} PrintedIsArgument(t: Type)
    requires NoUdt(t)
    ensures OneArgument(Printed(t)) && Clean(Printed(t))
    decreases t
  {
    PrintedForm(t);
    Heads();
    hide OneArgument, Clean, Letters, Join, Bracketed;
    match t
    case Simple(c) =>
      SimpleArgument(c);
    case ListOf(e) =>
      PrintedIsArgument(e);
      ListArgument("list", [Printed(e)]);
    case SetOf(e) =>
      PrintedIsArgument(e);
      ListArgument("set", [Printed(e)]);
    case MapOf(k, v) =>
      PrintedIsArgument(k);
      PrintedIsArgument(v);
      ListArgument("map", [Printed(k), Printed(v)]);
    case TupleOf(ts) =>
      forall i | 0 <= i < |ts|
        ensures OneArgument(Printed(ts[i])) && Clean(Printed(ts[i]))
      {
        PrintedIsArgument(ts[i]);
      }
      hide Printed;
      ListArgument("tuple", Names(ts));
    case VectorOf(e, n) =>
      PrintedIsArgument(e);
      NumberArgument(n);
      ListArgument("vector", [Printed(e), Digits.Print(n)]);
  }

  lemma {:induction false} SimpleArgument(c: Code)
    ensures OneArgument(NameOf(c)) && Clean(NameOf(c))
  {
    NameLetters(c);
    hide NameOf;
    LettersBalance(NameOf(c), 0);
  }

  // ---------------------------------------------------------------- the round trip

  ghost function Expected(t: Type): Option<Type> {
    if NoEmptyTuple(t) then Some(t) else None
  }

  lemma {:induction false} AllParsed(ts: seq<Type>, n: nat)
    requires forall i :: 0 <= i < |ts| ==> |Printed(ts[i])| < n && Parse(Printed(ts[i])) == Expected(ts[i])
    ensures ParseAll(Names(ts), n) == if forall i :: 0 <= i < |ts| ==> NoEmptyTuple(ts[i]) then Some(ts) else None
  {
    hide Printed, Parse, NoEmptyTuple;
    if ts != [] {
      var names := Names(ts);
      assert names[1..] == Names(ts[1..]) && names[0] == Printed(ts[0]);
      AllParsed(ts[1..], n);
      assert ts == [ts[0]] + ts[1..];
      assert (forall i :: 0 <= i < |ts| ==> NoEmptyTuple(ts[i]))
        <==> NoEmptyTuple(ts[0]) && (forall i :: 0 <= i < |ts[1..]| ==> NoEmptyTuple(ts[1..][i]));
    }
  }

  lemma {:induction false} SimpleRoundTrip(c: Code)
    ensures Parse(NameOf(c)) == Some(Simple(c))
  {
    var name := NameOf(c);
    NameLetters(c);
    EveryCode(c);
    var k :| 0 <= k < |CODES| && CODES[k] == c;
    CodeFound(c, 0, k);
    hide NameOf, CodeOf;
    LowerClean(name);
    NoBracket(name);
  }

  lemma {:induction false} NoBracket(s: string)
    requires Letters(s)
    ensures FirstBracket(s) < 0
  {
    if s != [] {
      NoBracket(s[1..]);
    }
  }

  /** Parsing the printed name gives the type back when no tuple inside is empty, and fails otherwise. */
  lemma {:induction false} RoundTrip(t: Type)
    requires NoUdt(t)
    ensures Parse(Printed(t)) == if NoEmptyTuple(t) then Some(t) else None
    decreases t
  {
    PrintedForm(t);
    match t
    case Simple(c) =>
      SimpleRoundTrip(c);
      hide NameOf, Parse;
    case ListOf(e) =>
      RoundTrip(e);
      PrintedIsArgument(e);
      hide Printed, Parse;
      OneJoined(Printed(e));
      ParseList(Printed(e));
    case SetOf(e) =>
      RoundTrip(e);
      PrintedIsArgument(e);
      hide Printed, Parse;
      OneJoined(Printed(e));
      ParseSet(Printed(e));
    case MapOf(k, v) =>
      RoundTrip(k);
      RoundTrip(v);
      PrintedIsArgument(k);
      PrintedIsArgument(v);
      hide Printed, Parse, OneArgument, Clean;
      ParseMap([Printed(k), Printed(v)]);
    case TupleOf(ts) =>
      TupleRoundTrip(t);
    case VectorOf(e, n) =>
      RoundTrip(e);
      PrintedIsArgument(e);
      NumberArgument(n);
      hide Printed, Parse, OneArgument, Clean;
      ParseVector([Printed(e), Digits.Print(n)]);
  }

  lemma {:induction false} TupleRoundTrip(t: Type)
    requires NoUdt(t) && t.TupleOf?
    ensures Parse(Printed(t)) == if NoEmptyTuple(t) then Some(t) else None
    decreases t, 0
  {
    var ts := t.elems;
    PrintedForm(t);
    if ts == [] {
      assert Join(Names(ts)) == "";
      hide Printed, Parse;
      ParseEmptyTuple();
    } else {
      forall i | 0 <= i < |ts|
        ensures Parse(Printed(ts[i])) == Expected(ts[i])
      {
        RoundTrip(ts[i]);
      }
      hide Printed, Parse;
      TupleOfParts(ts);
    }
  }

  /** A non-empty tuple whose element names parse as expected. */
  lemma {:induction false} TupleOfParts(ts: seq<Type>)
    requires ts != [] && forall i :: 0 <= i < |ts| ==> NoUdt(ts[i]) && Parse(Printed(ts[i])) == Expected(ts[i])
    ensures Parse(Bracketed("tuple", Join(Names(ts)))) == if NoEmptyTuple(TupleOf(ts)) then Some(TupleOf(ts)) else None
  {
    hide Printed, Parse, OneArgument, Clean, Join, Bracketed, NoUdt, Expected;
    var names := Names(ts);
    forall i | 0 <= i < |ts|
      ensures OneArgument(names[i]) && Clean(names[i]) && names[i] == Printed(ts[i])
    {
      PrintedIsArgument(ts[i]);
    }
    ParseTuple(names);
    forall i | 0 <= i < |ts|
      ensures |Printed(ts[i])| < |Join(names)| + 1
    {
      assert names[i] == Printed(ts[i]);
    }
    hide Names, ParseAll;
    AllParsed(ts, |Join(names)| + 1);
  }
}
