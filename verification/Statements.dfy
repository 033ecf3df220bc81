/** What a CQL statement with positional parameters means: a reader of the statement's tokens that takes one
    parameter at every marker, from left to right, and must use up both. */
module Statements {
  import opened Bytes
  import opened MapperValues

  /** Lexical elements; Quoted is a column name in double quotes, Table is keyspace.table. */
  datatype Token = Word(text: string) | Quoted(name: string) | Table(keyspace: string,
                                                                     name: string) | Marker | Comma | Open | Close

  datatype Condition<V> = Condition(column: string, op: string, value: Value<V>)

  /** col = v, col = col + v (or -), col = v + col (or -). */
  datatype Assignment<V> =
    | SetTo(column: string, value: Value<V>)
    | Behind(column: string, sign: Sign, value: Value<V>)
    | InFront(column: string, sign: Sign, value: Value<V>)

  datatype Guard<V> = Unconditional | IfExists | IfAll(conditions: seq<Condition<V>>)

  datatype Meaning<V> =
    | Select(keyspace: string, table: string, columns: seq<string>, filter: seq<Condition<V>>,
             order: seq<(string, string)>, limit: Option<Value<V>>)
    | Insert(keyspace: string, table: string, columns: seq<string>, values: seq<Value<V>>, ifNotExists: bool,
             ttl: Option<Value<V>>)
    | Update(keyspace: string, table: string, ttl: Option<Value<V>>, sets: seq<Assignment<V>>,
             filter: seq<Condition<V>>, guard: Guard<V>)
    | Delete(keyspace: string, table: string, columns: seq<string>, filter: seq<Condition<V>>, guard: Guard<V>)

  /** A part of a statement and what is left of the tokens and parameters. */
  datatype Read<T, V> = Read(part: T, tokens: seq<Token>, params: seq<Value<V>>)

  // ---------------------------------------------------------------- readers

  predicate Starts(ts: seq<Token>, t: Token) {
    ts != [] && ts[0] == t
  }

  function ReadConditions<V>(ts: seq<Token>, ps: seq<Value<V>>): Option<Read<seq<Condition<V>>, V>> {
    if |ts| >= 3 && ts[0].Quoted? && ts[1].Word? && ts[2] == Marker && ps != [] then
      var c := Condition(ts[0].name, ts[1].text, ps[0]);
      if |ts| >= 4 && ts[3] == Word("AND") then
        var rest := ReadConditions(ts[4..], ps[1..]);
        if rest.None? then None else Some(rest.value.(part := [c] + rest.value.part))
      else Some(Read([c], ts[3..], ps[1..]))
    else None
  }

  predicate IsSign(t: Token) {
    t == Word("+") || t == Word("-")
  }

  function SignOf(t: Token): Sign {
    if t == Word("+") then Plus else Minus
  }

  function ReadAssignment<V>(ts: seq<Token>, ps: seq<Value<V>>): Option<Read<Assignment<V>, V>> {
    if |ts| >= 3 && ts[0].Quoted? && ts[1] == Word("=") && ps != [] then
      var c := ts[0].name;
      if ts[2] == Marker then
        if |ts| >= 5 && IsSign(ts[3]) && ts[4] == Quoted(c) then Some(Read(InFront(c, SignOf(ts[3]), ps[0]), ts[5..],
                                                                           ps[1..]))
        else Some(Read(SetTo(c, ps[0]), ts[3..], ps[1..]))
      else if |ts| >= 5 && ts[2] == Quoted(c) && IsSign(ts[3]) && ts[4] == Marker then
        Some(Read(Behind(c, SignOf(ts[3]), ps[0]), ts[5..], ps[1..]))
      else None
    else None
  }

  function ReadAssignments<V>(ts: seq<Token>, ps: seq<Value<V>>): (r: Option<Read<seq<Assignment<V>>, V>>)
    decreases |ts|
  {
    var first := ReadAssignment(ts, ps);
    if first.None? then None
    else if Starts(first.value.tokens, Comma) then
      var rest := ReadAssignments(first.value.tokens[1..], first.value.params);
      if rest.None? then None else Some(rest.value.(part := [first.value.part] + rest.value.part))
    else Some(Read([first.value.part], first.value.tokens, first.value.params))
  }

  function ReadColumns<V>(ts: seq<Token>, ps: seq<Value<V>>): Option<Read<seq<string>, V>> {
    if ts != [] && ts[0].Quoted? then
      if |ts| >= 2 && ts[1] == Comma then
        var rest := ReadColumns(ts[2..], ps);
        if rest.None? then None else Some(rest.value.(part := [ts[0].name] + rest.value.part))
      else Some(Read([ts[0].name], ts[1..], ps))
    else None
  }

  function ReadMarkers<V>(ts: seq<Token>, ps: seq<Value<V>>): Option<Read<seq<Value<V>>, V>> {
    if ts != [] && ts[0] == Marker && ps != [] then
      if |ts| >= 2 && ts[1] == Comma then
        var rest := ReadMarkers(ts[2..], ps[1..]);
        if rest.None? then None else Some(rest.value.(part := [ps[0]] + rest.value.part))
      else Some(Read([ps[0]], ts[1..], ps[1..]))
    else None
  }

  function ReadOrder<V>(ts: seq<Token>, ps: seq<Value<V>>): Option<Read<seq<(string, string)>, V>> {
    if |ts| >= 2 && ts[0].Quoted? && ts[1].Word? then
      if |ts| >= 3 && ts[2] == Comma then
        var rest := ReadOrder(ts[3..], ps);
        if rest.None? then None else Some(rest.value.(part := [(ts[0].name, ts[1].text)] + rest.value.part))
      else Some(Read([(ts[0].name, ts[1].text)], ts[2..], ps))
    else None
  }

  /** An optional clause of one marker, such as LIMIT ? or USING TTL ?. */
  function ReadOne<V>(ts: seq<Token>, ps: seq<Value<V>>, word: string): Option<Read<Option<Value<V>>, V>> {
    if !Starts(ts, Word(word)) then Some(Read(None, ts, ps))
    else if |ts| >= 2 && ts[1] == Marker && ps != [] then Some(Read(Some(ps[0]), ts[2..], ps[1..]))
    else None
  }

  function ReadGuard<V>(ts: seq<Token>, ps: seq<Value<V>>): Option<Read<Guard<V>, V>> {
    if Starts(ts, Word("IF EXISTS")) then Some(Read(IfExists, ts[1..], ps))
    else if Starts(ts, Word("IF")) then
      var cs := ReadConditions(ts[1..], ps);
      if cs.None? then None else Some(Read(IfAll(cs.value.part), cs.value.tokens, cs.value.params))
    else Some(Read(Unconditional, ts, ps))
  }

  predicate Finished<T, V>(r: Option<Read<T, V>>) {
    r.Some? && r.value.tokens == [] && r.value.params == []
  }

  function ReadFilter<V>(ts: seq<Token>, ps: seq<Value<V>>): Option<Read<seq<Condition<V>>, V>> {
    if Starts(ts, Word("WHERE")) then ReadConditions(ts[1..], ps) else Some(Read([], ts, ps))
  }

  function ReadOrderBy<V>(ts: seq<Token>, ps: seq<Value<V>>): Option<Read<seq<(string, string)>, V>> {
    if Starts(ts, Word("ORDER BY")) then ReadOrder(ts[1..], ps) else Some(Read([], ts, ps))
  }

  function ReadProjection<V>(ts: seq<Token>, ps: seq<Value<V>>): Option<Read<seq<string>, V>> {
    if Starts(ts, Word("*")) then Some(Read([], ts[1..], ps)) else ReadColumns(ts, ps)
  }

  function ReadTable<V>(ts: seq<Token>, ps: seq<Value<V>>, word: string): Option<Read<(string, string), V>> {
    if |ts| >= 2 && ts[0] == Word(word) && ts[1].Table? then Some(Read((ts[1].keyspace, ts[1].name), ts[2..], ps))
    else None
  }

  function ReadSelect<V>(ts: seq<Token>, ps: seq<Value<V>>): Option<Meaning<V>> {
    if !Starts(ts, Word("SELECT")) then None
    else
      var cols := ReadProjection(ts[1..], ps);
      if cols.None? then None
      else
        var table := ReadTable(cols.value.tokens, cols.value.params, "FROM");
        if table.None? then None
        else
          var filter := ReadFilter(table.value.tokens, table.value.params);
          if filter.None? then None
          else
            var order := ReadOrderBy(filter.value.tokens, filter.value.params);
            if order.None? then None
            else
              var limit := ReadOne(order.value.tokens, order.value.params, "LIMIT");
              if !Finished(limit) then None
              else Some(Select(table.value.part.0, table.value.part.1, cols.value.part, filter.value.part,
                               order.value.part, limit.value.part))
  }

  function ReadInsert<V>(ts: seq<Token>, ps: seq<Value<V>>): Option<Meaning<V>> {
    var table := ReadTable(ts, ps, "INSERT INTO");
    if table.None? || !Starts(table.value.tokens, Open) then None
    else
      var cols := ReadColumns(table.value.tokens[1..], table.value.params);
      if cols.None? || |cols.value.tokens| < 3 || cols.value.tokens[..3] != [Close, Word("VALUES"), Open] then None
      else
        var vals := ReadMarkers(cols.value.tokens[3..], cols.value.params);
        if vals.None? || !Starts(vals.value.tokens, Close) || |vals.value.part| != |cols.value.part| then None
        else
          var rest := vals.value.tokens[1..];
          var ifNotExists := Starts(rest, Word("IF NOT EXISTS"));
          var ttl := ReadOne(if ifNotExists then rest[1..] else rest, vals.value.params, "USING TTL");
          if !Finished(ttl) then None
          else Some(Insert(table.value.part.0, table.value.part.1, cols.value.part, vals.value.part, ifNotExists,
                           ttl.value.part))
  }

  function ReadUpdate<V>(ts: seq<Token>, ps: seq<Value<V>>): Option<Meaning<V>> {
    var table := ReadTable(ts, ps, "UPDATE");
    if table.None? then None
    else
      var ttl := ReadOne(table.value.tokens, table.value.params, "USING TTL");
      if ttl.None? || !Starts(ttl.value.tokens, Word("SET")) then None
      else
        var sets := ReadAssignments(ttl.value.tokens[1..], ttl.value.params);
        if sets.None? || !Starts(sets.value.tokens, Word("WHERE")) then None
        else
          var filter := ReadConditions(sets.value.tokens[1..], sets.value.params);
          if filter.None? then None
          else
            var guard := ReadGuard(filter.value.tokens, filter.value.params);
            if !Finished(guard) then None
            else Some(Update(table.value.part.0, table.value.part.1, ttl.value.part, sets.value.part,
                             filter.value.part, guard.value.part))
  }

  function ReadDelete<V>(ts: seq<Token>, ps: seq<Value<V>>): Option<Meaning<V>> {
    if !Starts(ts, Word("DELETE")) then None
    else
      var cols := if |ts| >= 2 && ts[1].Quoted? then ReadColumns(ts[1..], ps) else Some(Read([], ts[1..], ps));
      if cols.None? then None
      else
        var table := ReadTable(cols.value.tokens, cols.value.params, "FROM");
        if table.None? || !Starts(table.value.tokens, Word("WHERE")) then None
        else
          var filter := ReadConditions(table.value.tokens[1..], table.value.params);
          if filter.None? then None
          else
            var guard := ReadGuard(filter.value.tokens, filter.value.params);
            if !Finished(guard) then None
            else Some(Delete(table.value.part.0, table.value.part.1, cols.value.part, filter.value.part,
                             guard.value.part))
  }

  // ---------------------------------------------------------------- how lists of clauses are spelled

  function ConditionValues<V>(cs: seq<Condition<V>>): seq<Value<V>> {
    if cs == [] then [] else [cs[0].value] + ConditionValues(cs[1..])
  }

  function SpellConditions<V>(cs: seq<Condition<V>>): seq<Token> {
    if cs == [] then []
    else
      var first := [Quoted(cs[0].column), Word(cs[0].op), Marker];
      if |cs| == 1 then first else first + [Word("AND")] + SpellConditions(cs[1..])
  }

  function AssignmentTokens<V>(a: Assignment<V>): seq<Token> {
    match a
    case SetTo(c, _) => [Quoted(c), Word("="), Marker]
    case Behind(c, s, _) => [Quoted(c), Word("="), Quoted(c), Word(SignText(s)), Marker]
    case InFront(c, s, _) => [Quoted(c), Word("="), Marker, Word(SignText(s)), Quoted(c)]
  }

  function SpellAssignments<V>(sets: seq<Assignment<V>>): seq<Token> {
    if sets == [] then []
    else if |sets| == 1 then AssignmentTokens(sets[0])
    else AssignmentTokens(sets[0]) + [Comma] + SpellAssignments(sets[1..])
  }

  function AssignmentValues<V>(sets: seq<Assignment<V>>): seq<Value<V>> {
    if sets == [] then [] else [sets[0].value] + AssignmentValues(sets[1..])
  }

  function SpellColumns(cols: seq<string>): seq<Token> {
    if cols == [] then [] else if |cols| == 1 then [Quoted(cols[0])]
    else [Quoted(cols[0]), Comma] + SpellColumns(cols[1..])
  }

  function SpellMarkers(n: nat): seq<Token> {
    if n == 0 then [] else if n == 1 then [Marker] else [Marker, Comma] + SpellMarkers(n - 1)
  }

  function SpellOrder(order: seq<(string, string)>): seq<Token> {
    if order == [] then [] else
      var first := [Quoted(order[0].0), Word(order[0].1)];
      if |order| == 1 then first else first + [Comma] + SpellOrder(order[1..])
  }

  // ---------------------------------------------------------------- reading what was spelled

  /** Conditions and their values are read back, whatever follows, as long as it does not go on with AND. */
  lemma {:induction false} ConditionsRead<V>(cs: seq<Condition<V>>, ts: seq<Token>, ps: seq<Value<V>>)
    requires cs != [] && !Starts(ts, Word("AND"))
    ensures ReadConditions(SpellConditions(cs) + ts, ConditionValues(cs) + ps) == Some(Read(cs, ts, ps))
  {
    var rest, vals := ConditionValues(cs[1..]) + ps, ConditionValues(cs) + ps;
    assert vals == [cs[0].value] + rest;
    assert cs == [cs[0]] + cs[1..];
    if |cs| == 1 {
      assert cs[1..] == [] && rest == ps && cs == [cs[0]];
      OneConditionRead(cs[0], ts, rest);
      assert SpellConditions(cs) == [Quoted(cs[0].column), Word(cs[0].op), Marker];
    } else {
      ConditionsRead(cs[1..], ts, ps);
      var more := SpellConditions(cs[1..]) + ts;
      OneConditionRead(cs[0], [Word("AND")] + more, rest);
      assert ([Word("AND")] + more)[1..] == more;
      assert SpellConditions(cs) + ts == [Quoted(cs[0].column), Word(cs[0].op), Marker] + ([Word("AND")] + more);
    }
    hide ReadConditions, SpellConditions, ConditionValues;
  }

  /** One condition is read, then the reader goes on after an AND. */
  lemma {:induction false} OneConditionRead<V>(c: Condition<V>, ts: seq<Token>, ps: seq<Value<V>>)
    ensures var r := ReadConditions([Quoted(c.column), Word(c.op), Marker] + ts, [c.value] + ps);
      if Starts(ts, Word("AND")) then
        var rest := ReadConditions(ts[1..], ps);
        r == if rest.None? then None else Some(rest.value.(part := [c] + rest.value.part))
      else r == Some(Read([c], ts, ps))
  {
    var all := [Quoted(c.column), Word(c.op), Marker] + ts;
    assert all[3..] == ts && ([c.value] + ps)[1..] == ps;
    if ts != [] {
      assert all[3] == ts[0] && all[4..] == ts[1..];
    }
  }

  lemma {:induction false} AssignmentRead<V>(a: Assignment<V>, ts: seq<Token>, ps: seq<Value<V>>)
    requires ts != [] ==> !IsSign(ts[0])
    ensures ReadAssignment(AssignmentTokens(a) + ts, [a.value] + ps) == Some(Read(a, ts, ps))
  {
    var all := AssignmentTokens(a) + ts;
    assert ([a.value] + ps)[1..] == ps;
    if a.SetTo? {
      assert all[3..] == ts;
      assert |all| >= 5 ==> all[3] == ts[0];
    } else {
      assert all[5..] == ts;
    }
  }

  lemma {:induction false} AssignmentsRead<V>(sets: seq<Assignment<V>>, ts: seq<Token>, ps: seq<Value<V>>)
    requires sets != [] && !Starts(ts, Comma) && (ts != [] ==> !IsSign(ts[0]))
    ensures ReadAssignments(SpellAssignments(sets) + ts, AssignmentValues(sets) + ps) == Some(Read(sets, ts, ps))
  {
    var rest := sets[1..];
    assert sets == [sets[0]] + rest;
    assert AssignmentValues(sets) + ps == [sets[0].value] + (AssignmentValues(rest) + ps);
    if |sets| == 1 {
      AssignmentRead(sets[0], ts, AssignmentValues(rest) + ps);
      assert rest == [] && AssignmentValues(rest) + ps == ps && sets == [sets[0]];
      assert SpellAssignments(sets) + ts == AssignmentTokens(sets[0]) + ts;
      hide ReadAssignment, AssignmentTokens;
    } else {
      var tail := [Comma] + (SpellAssignments(rest) + ts);
      assert SpellAssignments(sets) + ts == AssignmentTokens(sets[0]) + tail;
      AssignmentRead(sets[0], tail, AssignmentValues(rest) + ps);
      assert tail[1..] == SpellAssignments(rest) + ts;
      AssignmentsRead(rest, ts, ps);
    }
  }

  lemma {:induction false} ColumnsRead<V>(cols: seq<string>, ts: seq<Token>, ps: seq<Value<V>>)
    requires cols != [] && !Starts(ts, Comma)
    ensures ReadColumns(SpellColumns(cols) + ts, ps) == Some(Read(cols, ts, ps))
  {
    assert cols == [cols[0]] + cols[1..];
    if |cols| == 1 {
      var all := SpellColumns(cols) + ts;
      assert cols == [cols[0]];
      assert all[1..] == ts && (|all| >= 2 ==> all[1] == ts[0]);
    } else {
      ColumnsRead(cols[1..], ts, ps);
      assert (SpellColumns(cols) + ts)[2..] == SpellColumns(cols[1..]) + ts;
    }
  }

  lemma {:induction false} MarkersRead<V>(vals: seq<Value<V>>, ts: seq<Token>, ps: seq<Value<V>>)
    requires vals != [] && !Starts(ts, Comma)
    ensures ReadMarkers(SpellMarkers(|vals|) + ts, vals + ps) == Some(Read(vals, ts, ps))
  {
    assert vals == [vals[0]] + vals[1..];
    assert (vals + ps)[1..] == vals[1..] + ps;
    if |vals| == 1 {
      var all := SpellMarkers(1) + ts;
      assert vals == [vals[0]];
      assert all[1..] == ts && (|all| >= 2 ==> all[1] == ts[0]) && vals[1..] + ps == ps;
    } else {
      MarkersRead(vals[1..], ts, ps);
      assert (SpellMarkers(|vals|) + ts)[2..] == SpellMarkers(|vals| - 1) + ts;
    }
  }

  lemma {:induction false} OrderRead<V>(order: seq<(string, string)>, ts: seq<Token>, ps: seq<Value<V>>)
    requires order != [] && !Starts(ts, Comma)
    ensures ReadOrder(SpellOrder(order) + ts, ps) == Some(Read(order, ts, ps))
  {
    assert order == [order[0]] + order[1..] && order[0] == (order[0].0, order[0].1);
    if |order| == 1 {
      var all := SpellOrder(order) + ts;
      assert order == [order[0]];
      assert all[2..] == ts && (|all| >= 3 ==> all[2] == ts[0]);
    } else {
      OrderRead(order[1..], ts, ps);
      assert (SpellOrder(order) + ts)[3..] == SpellOrder(order[1..]) + ts;
    }
  }

  lemma {:induction false} SpellJoined<V>(a: seq<Condition<V>>, b: seq<Condition<V>>)
    requires a != [] && b != []
    ensures SpellConditions(a + b) == SpellConditions(a) + [Word("AND")] + SpellConditions(b)
  {
    assert (a + b)[0] == a[0] && (a + b)[1..] == a[1..] + b;
    if |a| == 1 {
      assert a[1..] + b == b;
    } else {
      SpellJoined(a[1..], b);
    }
  }

  lemma {:induction false} ValuesJoined<V>(a: seq<Condition<V>>, b: seq<Condition<V>>)
    ensures ConditionValues(a + b) == ConditionValues(a) + ConditionValues(b)
  {
    if a == [] {
      assert a + b == b;
    } else {
      assert (a + b)[0] == a[0] && (a + b)[1..] == a[1..] + b;
      ValuesJoined(a[1..], b);
    }
  }
}
