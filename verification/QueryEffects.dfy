/** What a statement does to rows. Operator words, ASC, DESC and signs are given their CQL meaning here, and a
    document is given its meaning without any text; the two agree for every document and every row. */
module QueryEffects {
  import opened Bytes
  import opened MapperValues
  import opened Statements
  import opened QueryText
  import opened QueryMeaning

  /** The stored value of each column. */
  type Row<V> = string -> Value<V>

  /** How stored values compare: negative, zero or positive. */
  type Comparison<!V> = (Value<V>, Value<V>) -> int

  // ---------------------------------------------------------------- what a database makes of a statement

  predicate Holds<V>(c: Condition<V>, row: Row<V>, cmp: Comparison<V>) {
    var x := row(c.column);
    if c.op == "=" then cmp(x, c.value) == 0
    else if c.op == ">" then cmp(x, c.value) > 0
    else if c.op == ">=" then cmp(x, c.value) >= 0
    else if c.op == "<" then cmp(x, c.value) < 0
    else if c.op == "<=" then cmp(x, c.value) <= 0
    else if c.op == "!=" then cmp(x, c.value) != 0
    else c.op == "IN" && c.value.Items? && exists i :: 0 <= i < |c.value.items| && cmp(x, c.value.items[i]) == 0
  }

  predicate Passes<V>(cs: seq<Condition<V>>, row: Row<V>, cmp: Comparison<V>) {
    forall i :: 0 <= i < |cs| ==> Holds(cs[i], row, cmp)
  }

  /** Whether a conditional statement goes ahead on a row that may be there. */
  predicate Allows<V>(g: Guard<V>, there: bool, row: Row<V>, cmp: Comparison<V>) {
    match g
    case Unconditional => true
    case IfExists => there
    case IfAll(cs) => Passes(cs, row, cmp)
  }

  /** How two rows compare under an ORDER BY clause. */
  function Compared<V>(order: seq<(string, string)>, a: Row<V>, b: Row<V>, cmp: Comparison<V>): int {
    if order == [] then 0
    else
      var c := cmp(a(order[0].0), b(order[0].0));
      if c == 0 then Compared(order[1..], a, b, cmp) else if order[0].1 == "DESC" then -c else c
  }

  /** What `+` and `-` do to values of a column: numbers are added, collections joined, and so on. */
  datatype Arithmetic<!V> = Arithmetic(plus: (Value<V>, Value<V>) -> Value<V>, minus: (Value<V>, Value<V>) -> Value<V>)

  function Assigned<V>(a: Assignment<V>, before: Value<V>, ops: Arithmetic<V>): Value<V> {
    match a
    case SetTo(_, v) => v
    case Behind(_, s, v) => if s == Plus then ops.plus(before, v) else ops.minus(before, v)
    case InFront(_, s, v) => if s == Plus then ops.plus(v, before) else ops.minus(v, before)
  }

  // ---------------------------------------------------------------- what a document asks for

  /** The column form of a model value. */
  function Stored<V>(f: Option<Value<V> -> Value<V>>, v: Value<V>): Value<V> {
    match f
    case Some(g) => g(v)
    case None => v
  }

  /** Whether a stored value is one that a property's value asks for. */
  predicate Satisfies<V>(x: Value<V>, v: Value<V>, f: Option<Value<V> -> Value<V>>, cmp: Comparison<V>) {
    match v
    case And(left, right) => Satisfies(x, left, f, cmp) && Satisfies(x, right, f, cmp)
    case In(items) => exists i :: 0 <= i < |items| && cmp(x, Stored(f, items[i])) == 0
    case Op(rel, arg) =>
      var c := cmp(x, Stored(f, arg));
      (match rel
       case Greater => c > 0
       case GreaterEq => c >= 0
       case Less => c < 0
       case LessEq => c <= 0
       case NotEq => c != 0)
    case _ => cmp(x, Stored(f, v)) == 0
  }

  /** The value of a document's property. */
  function ValueOf<V>(doc: Doc<V>, name: string): Value<V> {
    if name in doc.values then doc.values[name] else Undefined
  }

  /** A row has what the document says of one of its properties. */
  predicate Agrees<V>(row: Row<V>, name: string, doc: Doc<V>, m: Mapping<V>, cmp: Comparison<V>) {
    Satisfies(row(m.column(name)), ValueOf(doc, name), m.fromModel(name), cmp)
  }

  /** Columns of the table that belong to its primary key, and those that do not. */
  predicate IsKey(table: TableInfo, c: string) {
    table.Has(c) && (c in table.partitionKeys || c in table.clusteringKeys)
  }

  predicate IsOther(table: TableInfo, c: string) {
    table.Has(c) && c !in table.partitionKeys && c !in table.clusteringKeys
  }

  // ---------------------------------------------------------------- conditions

  lemma {:induction false} PassesJoined<V>(a: seq<Condition<V>>, b: seq<Condition<V>>, row: Row<V>, cmp: Comparison<V>)
    ensures Passes(a + b, row, cmp) <==> Passes(a, row, cmp) && Passes(b, row, cmp)
  {
    hide Holds;
    assert forall i :: 0 <= i < |a| ==> (a + b)[i] == a[i];
    assert forall i :: 0 <= i < |b| ==> (a + b)[|a| + i] == b[i];
  }

  lemma {:induction false} AppliedEach<V>(f: Option<Value<V> -> Value<V>>, items: seq<Value<V>>)
    ensures |ApplyEach(f, items)| == |items|
    ensures forall i :: 0 <= i < |items| ==> ApplyEach(f, items)[i] == Stored(f, items[i])
  {
    if items != [] {
      AppliedEach(f, items[1..]);
    }
  }

  /** A row passes the conditions compiled from a value exactly when its column satisfies the value. */
  lemma {:induction false} ConditionsMean<V>(column: string, v: Value<V>, f: Option<Value<V> -> Value<V>>, row: Row<V>,
                                             cmp: Comparison<V>)
    ensures Passes(Conditions(column, v, f), row, cmp) <==> Satisfies(row(column), v, f, cmp)
    decreases v
  {
    if v.And? {
      ConditionsMean(column, v.left, f, row, cmp);
      ConditionsMean(column, v.right, f, row, cmp);
      PassesJoined(Conditions(column, v.left, f), Conditions(column, v.right, f), row, cmp);
    } else {
      var c := Conditions(column, v, f)[0];
      assert Conditions(column, v, f) == [c];
      assert Passes([c], row, cmp) <==> Holds(c, row, cmp);
      if v.In? {
        AppliedEach(f, v.items);
      }
    }
  }

  lemma {:induction false} AllConditionsMean<V>(names: seq<string>, doc: Doc<V>, m: Mapping<V>, row: Row<V>,
                                                cmp: Comparison<V>)
    ensures Passes(AllConditions(PropsOf(names, doc, m)), row, cmp)
      <==> forall k :: k in names ==> Agrees(row, k, doc, m, cmp)
  {
    hide Holds, Satisfies, Conditions;
    if names != [] {
      var k := names[0];
      AllConditionsMean(names[1..], doc, m, row, cmp);
      assert PropsOf(names, doc, m)[1..] == PropsOf(names[1..], doc, m);
      var first := Conditions(m.column(k), doc.Get(k), m.fromModel(k));
      ConditionsMean(m.column(k), doc.Get(k), m.fromModel(k), row, cmp);
      PassesJoined(first, AllConditions(PropsOf(names[1..], doc, m)), row, cmp);
      assert AllConditions(PropsOf(names, doc, m)) == first + AllConditions(PropsOf(names[1..], doc, m));
      assert Agrees(row, k, doc, m, cmp) <==> Passes(first, row, cmp);
      hide Passes, Agrees, AllConditions, PropsOf;
      assert names == [k] + names[1..];
    }
  }

  lemma {:induction false} KeyConditionsMean<V>(names: seq<string>, table: TableInfo, doc: Doc<V>, m: Mapping<V>,
                                                row: Row<V>, cmp: Comparison<V>)
    ensures Passes(AllConditions(Keys(InTable(PropsOf(names, doc, m), table), table.PrimaryKey())), row, cmp)
       <==> forall k :: k in names && IsKey(table, m.column(k)) ==> Agrees(row, k, doc, m, cmp)
  {
    hide Holds, Satisfies, Conditions;
    if names != [] {
      var k, c := names[0], m.column(names[0]);
      KeyConditionsMean(names[1..], table, doc, m, row, cmp);
      var rest := Keys(InTable(PropsOf(names[1..], doc, m), table), table.PrimaryKey());
      KeysFirst(names, table, doc, m);
      hide Keys, InTable, PropsOf;
      var first := Conditions(c, doc.Get(k), m.fromModel(k));
      ConditionsMean(c, doc.Get(k), m.fromModel(k), row, cmp);
      PassesJoined(first, AllConditions(rest), row, cmp);
      var p := Prop(k, c, doc.Get(k), m.fromModel(k));
      assert ([p] + rest)[1..] == rest;
      assert AllConditions([p] + rest) == first + AllConditions(rest);
      assert [] + rest == rest;
      assert Agrees(row, k, doc, m, cmp) <==> Passes(first, row, cmp);
      hide Passes, AllConditions, Agrees, IsKey;
      assert names == [k] + names[1..];
    }
  }

  /** The first name comes first among the key properties, or among the others, when the table has its column. */
  lemma {:induction false} KeysFirst<V>(names: seq<string>, table: TableInfo, doc: Doc<V>, m: Mapping<V>)
    requires names != []
    ensures var c, pk := m.column(names[0]), table.PrimaryKey();
      var p := Prop(names[0], c, doc.Get(names[0]), m.fromModel(names[0]));
      var all, rest := InTable(PropsOf(names, doc, m), table), InTable(PropsOf(names[1..], doc, m), table);
      && Keys(all, pk) == (if IsKey(table, c) then [p] else []) + Keys(rest, pk)
      && NonKeys(all, pk) == (if IsOther(table, c) then [p] else []) + NonKeys(rest, pk)
  {
    var props := PropsOf(names, doc, m);
    assert props[1..] == PropsOf(names[1..], doc, m);
    hide PropsOf;
    var rest := InTable(props[1..], table);
    var all := InTable(props, table);
    assert all == (if table.Has(props[0].column) then [props[0]] else []) + rest;
    hide InTable;
    if table.Has(props[0].column) {
      assert all[1..] == rest;
    } else {
      assert all == rest;
    }
  }

  // ---------------------------------------------------------------- order

  /** A word in any mixture of letter cases. */
  predicate Spells(s: string, lower: string, upper: string)
    requires |lower| == |upper|
  {
    |s| == |upper| && forall i :: 0 <= i < |s| ==> s[i] == lower[i] || s[i] == upper[i]
  }

  predicate Ascending(s: string) {
    Spells(s, "asc", "ASC")
  }

  predicate Descending(s: string) {
    Spells(s, "desc", "DESC")
  }

  /** How the document wants two rows to compare: by the first property on which they differ. */
  function Wanted<V>(order: seq<(string, string)>, m: Mapping<V>, a: Row<V>, b: Row<V>, cmp: Comparison<V>): int {
    if order == [] then 0
    else
      var c := cmp(a(m.column(order[0].0)), b(m.column(order[0].0)));
      if c == 0 then Wanted(order[1..], m, a, b, cmp) else if Descending(order[0].1) then -c else c
  }

  lemma {:induction false} UpperedIs(s: string)
    ensures |Uppered(s)| == |s| && forall i :: 0 <= i < |s| ==> Uppered(s)[i] == Upper(s[i])
  {
    if s != "" {
      UpperedIs(s[1..]);
    }
  }

  lemma {:induction false} OrderingMeans(s: string)
    ensures Ordering(s) == if Ascending(s) then Some("ASC") else if Descending(s) then Some("DESC") else None
    ensures !(Ascending(s) && Descending(s))
  {
    UpperedIs(s);
    if |s| == 3 {
      assert Uppered(s) == "ASC" <==> forall i :: 0 <= i < 3 ==> Upper(s[i]) == "ASC"[i];
      assert forall i :: 0 <= i < 3 ==> (Upper(s[i]) == "ASC"[i] <==> s[i] == "asc"[i] || s[i] == "ASC"[i]);
    } else if |s| == 4 {
      assert Uppered(s) == "DESC" <==> forall i :: 0 <= i < 4 ==> Upper(s[i]) == "DESC"[i];
      assert forall i :: 0 <= i < 4 ==> (Upper(s[i]) == "DESC"[i] <==> s[i] == "desc"[i] || s[i] == "DESC"[i]);
    }
  }

  /** An order is accepted exactly when every direction is asc or desc in some letter case, and it puts
      any two rows in the order the document wants. */
  lemma {:induction false} OrderMeans<V>(order: seq<(string, string)>, m: Mapping<V>, a: Row<V>, b: Row<V>,
                                         cmp: Comparison<V>)
    ensures AdaptOrderBy(order, m).Some? <==>
      forall i :: 0 <= i < |order| ==> Ascending(order[i].1) || Descending(order[i].1)
    ensures AdaptOrderBy(order, m).Some? ==>
      Compared(AdaptOrderBy(order, m).value, a, b, cmp) == Wanted(order, m, a, b, cmp)
  {
    hide Ordering, Ascending, Descending;
    if order != [] {
      OrderingMeans(order[0].1);
      OrderMeans(order[1..], m, a, b, cmp);
      assert order == [order[0]] + order[1..];
      if AdaptOrderBy(order, m).Some? {
        var adapted := AdaptOrderBy(order, m).value;
        assert adapted[1..] == AdaptOrderBy(order[1..], m).value;
      }
    }
  }

  // ---------------------------------------------------------------- SELECT

  /** A SELECT returns exactly the rows that satisfy every operator of the document, the columns of the
      fields asked for, in the order the document wants. */
  lemma {:induction false} SelectReturns<V>(ks: string, table: string, doc: Doc<V>, info: DocInfo<V>, m: Mapping<V>,
                                            order: seq<(string, string)>, a: Row<V>, b: Row<V>, cmp: Comparison<V>)
    requires OrderColumns(info, m) == Some(order)
    ensures var props, fields := PropsOf(doc.keys, doc, m), PropsOf(info.fields, doc, m);
      var r := ReadSelect(SelectText(ks, table, props, fields, order, info.limit.Some?),
                          EvalAll(SelectGetter(props, info.limit.Some?), doc, info, m));
      && r.Some? && r.value.Select? && r.value.keyspace == ks && r.value.table == table
      && (Passes(r.value.filter, a, cmp) <==> forall k :: k in doc.keys ==> Agrees(a, k, doc, m, cmp))
      && Compared(r.value.order, a, b, cmp)
         == (if info.orderBy.Some? then Wanted(info.orderBy.value, m, a, b, cmp) else 0)
      && |r.value.columns| == |info.fields|
      && (forall i :: 0 <= i < |info.fields| ==> r.value.columns[i] == m.column(info.fields[i]))
      && r.value.limit == (if info.limit.Some? then Some(Lit(info.limit.value)) else None)
  {
    SelectMeaning(ks, table, doc, info, m, order);
    AllConditionsMean(doc.keys, doc, m, a, cmp);
    PropsRead(info.fields, doc, m);
    ColumnsOf(PropsOf(info.fields, doc, m));
    hide Agrees, Passes, SelectText, SelectGetter, EvalAll, ReadSelect, PropsOf, Columns, AllConditions;
    if info.orderBy.Some? {
      OrderMeans(info.orderBy.value, m, a, b, cmp);
    }
  }

  // ---------------------------------------------------------------- UPDATE and DELETE

  /** What the document makes of a column's value. */
  function Changed<V>(before: Value<V>, v: Value<V>, f: Option<Value<V> -> Value<V>>, ops: Arithmetic<V>): Value<V> {
    match v
    case Assign(Plus, arg, false) => ops.plus(before, Stored(f, arg))
    case Assign(Plus, arg, true) => ops.plus(Stored(f, arg), before)
    case Assign(Minus, arg, false) => ops.minus(before, Stored(f, arg))
    case Assign(Minus, arg, true) => ops.minus(Stored(f, arg), before)
    case _ => Stored(f, v)
  }

  /** The columns a statement sets and what to, one after the other. */
  function Writes<V>(sets: seq<Assignment<V>>, row: Row<V>, ops: Arithmetic<V>): seq<(string, Value<V>)> {
    if sets == [] then []
    else [(sets[0].column, Assigned(sets[0], row(sets[0].column), ops))] + Writes(sets[1..], row, ops)
  }

  /** The columns outside the key that the document names, and what it wants them to become. */
  function WantedWrites<V>(names: seq<string>, table: TableInfo, doc: Doc<V>, m: Mapping<V>, row: Row<V>,
                           ops: Arithmetic<V>): seq<(string, Value<V>)> {
    if names == [] then []
    else
      var c := m.column(names[0]);
      (if IsOther(table, c) then [(c, Changed(row(c), ValueOf(doc, names[0]), m.fromModel(names[0]), ops))] else [])
      + WantedWrites(names[1..], table, doc, m, row, ops)
  }

  lemma {:induction false} WritesMean<V>(names: seq<string>, table: TableInfo, doc: Doc<V>, m: Mapping<V>, row: Row<V>,
                                         ops: Arithmetic<V>)
    ensures var props := NonKeys(InTable(PropsOf(names, doc, m), table), table.PrimaryKey());
      Writes(AllAssignments(props), row, ops) == WantedWrites(names, table, doc, m, row, ops)
  {
    hide Assigned, Changed;
    if names != [] {
      var k, c := names[0], m.column(names[0]);
      WritesMean(names[1..], table, doc, m, row, ops);
      var rest := NonKeys(InTable(PropsOf(names[1..], doc, m), table), table.PrimaryKey());
      KeysFirst(names, table, doc, m);
      hide NonKeys, InTable, PropsOf, IsOther;
      var p := Prop(k, c, doc.Get(k), m.fromModel(k));
      OneWrite(p, row, ops);
      hide AssignmentOf;
      assert ([p] + rest)[1..] == rest && [] + rest == rest;
      var sets := AllAssignments([p] + rest);
      assert sets[1..] == AllAssignments(rest);
    }
  }

  lemma {:induction false} OneWrite<V>(p: Prop<V>, row: Row<V>, ops: Arithmetic<V>)
    ensures AssignmentOf(p).column == p.column
    ensures Assigned(AssignmentOf(p), row(p.column), ops) == Changed(row(p.column), p.value, p.fromModel, ops)
  {
  }

  /** Whether the options of a call let it go ahead on a row that may be there. */
  ghost predicate Permitted<V>(info: DocInfo<V>, m: Mapping<V>, there: bool, row: Row<V>, cmp: Comparison<V>) {
    && (info.ifExists ==> there)
    && (info.when.Some? ==> forall k :: k in info.when.value.keys ==> Agrees(row, k, info.when.value, m, cmp))
  }

  lemma {:induction false} GuardMeans<V>(info: DocInfo<V>, m: Mapping<V>, there: bool, row: Row<V>, cmp: Comparison<V>)
    requires !(info.ifExists && WhenInfo(info, m) != [])
    ensures Allows(GuardOf(WhenInfo(info, m), info.ifExists), there, row, cmp) <==> Permitted(info, m, there, row, cmp)
  {
    hide Agrees, Passes, AllConditions, PropsOf;
    if info.when.Some? {
      AllConditionsMean(info.when.value.keys, info.when.value, m, row, cmp);
      PropsRead(info.when.value.keys, info.when.value, m);
      NothingPasses(row, cmp);
    }
  }

  lemma {:induction false} NothingPasses<V>(row: Row<V>, cmp: Comparison<V>)
    ensures Passes(AllConditions<V>([]), row, cmp)
  {
  }

  /** The names a statement is about: the fields when given, else the document's keys. */
  function Names<V>(doc: Doc<V>, info: DocInfo<V>): seq<string> {
    if info.fields != [] then info.fields else doc.keys
  }

  /** An UPDATE that is well formed changes a row exactly when the document's key values are the row's and its guard
      lets it, and then sets every column to what the document makes of it. */
  lemma {:induction false} UpdateChanges<V>(ks: string, table: TableInfo, doc: Doc<V>, info: DocInfo<V>, m: Mapping<V>,
                                            there: bool, row: Row<V>, cmp: Comparison<V>, ops: Arithmetic<V>)
    requires var props, pk := InTable(PropertiesInfo(doc.keys, info.fields, doc, m), table), table.PrimaryKey();
      && NonKeys(props, pk) != [] && Keys(props, pk) != [] && NoOperators(Keys(props, pk))
      && !(info.ifExists && WhenInfo(info, m) != [])
    ensures var names := Names(doc, info);
      var props, when, pk := InTable(PropertiesInfo(doc.keys, info.fields, doc, m), table), WhenInfo(info, m),
          table.PrimaryKey();
      var r := ReadUpdate(UpdateText(ks, table.name, pk, props, when, info.ifExists, info.ttl.Some?),
                          EvalAll(UpdateGetter(pk, props, when, info.ttl.Some?), doc, info, m));
      && r.Some? && r.value.Update? && r.value.keyspace == ks && r.value.table == table.name
      && (Passes(r.value.filter, row, cmp)
          <==> forall k :: k in names && IsKey(table, m.column(k)) ==> Agrees(row, k, doc, m, cmp))
      && (Allows(r.value.guard, there, row, cmp) <==> Permitted(info, m, there, row, cmp))
      && Writes(r.value.sets, row, ops) == WantedWrites(names, table, doc, m, row, ops)
      && r.value.ttl == (if info.ttl.Some? then Some(Lit(info.ttl.value)) else None)
  {
    UpdateMeaning(ks, table, doc, info, m);
    KeyConditionsMean(Names(doc, info), table, doc, m, row, cmp);
    WritesMean(Names(doc, info), table, doc, m, row, ops);
    GuardMeans(info, m, there, row, cmp);
    hide Agrees, Passes, UpdateText, UpdateGetter, EvalAll, ReadUpdate, PropsOf, AllConditions, IsKey, Allows, GuardOf;
    hide Permitted, Writes, WantedWrites, Keys, NonKeys, InTable, NoOperators, AllAssignments;
  }

  /** A DELETE that is well formed removes from a row exactly when the document's key values are the row's and its
      guard lets it. */
  lemma {:induction false} DeleteRemoves<V>(ks: string, table: TableInfo, doc: Doc<V>, info: DocInfo<V>, m: Mapping<V>,
                                            there: bool, row: Row<V>, cmp: Comparison<V>)
    requires var props, pk := InTable(PropertiesInfo(doc.keys, info.fields, doc, m), table), table.PrimaryKey();
      && Keys(props, pk) != [] && NoOperators(Keys(props, pk)) && !(info.ifExists && WhenInfo(info, m) != [])
    ensures var names := Names(doc, info);
      var props, when, pk := InTable(PropertiesInfo(doc.keys, info.fields, doc, m), table), WhenInfo(info, m),
          table.PrimaryKey();
      var r := ReadDelete(DeleteText(ks, table.name, pk, props, when, info.ifExists, info.deleteOnlyColumns),
                          EvalAll(DeleteGetter(pk, props, when), doc, info, m));
      && r.Some? && r.value.Delete? && r.value.keyspace == ks && r.value.table == table.name
      && (Passes(r.value.filter, row, cmp)
          <==> forall k :: k in names && IsKey(table, m.column(k)) ==> Agrees(row, k, doc, m, cmp))
      && (Allows(r.value.guard, there, row, cmp) <==> Permitted(info, m, there, row, cmp))
      && (!info.deleteOnlyColumns ==> r.value.columns == [])
      && (info.deleteOnlyColumns ==>
          forall c :: c in r.value.columns <==> IsOther(table, c) && exists k :: k in names && m.column(k) == c)
  {
    DeleteMeaning(ks, table, doc, info, m);
    KeyConditionsMean(Names(doc, info), table, doc, m, row, cmp);
    OtherColumnsAre(Names(doc, info), table, doc, m);
    GuardMeans(info, m, there, row, cmp);
    hide Agrees, Passes, DeleteText, DeleteGetter, EvalAll, ReadDelete, PropsOf, AllConditions, IsKey, Allows, GuardOf;
    hide Permitted, Keys, NonKeys, InTable, NoOperators, Columns, IsOther;
  }

  lemma {:induction false} OtherColumnsAre<V>(names: seq<string>, table: TableInfo, doc: Doc<V>, m: Mapping<V>)
    ensures var cols := Columns(NonKeys(InTable(PropsOf(names, doc, m), table), table.PrimaryKey()));
      forall c :: c in cols <==> IsOther(table, c) && exists k :: k in names && m.column(k) == c
  {
    if names != [] {
      OtherColumnsAre(names[1..], table, doc, m);
      var rest := NonKeys(InTable(PropsOf(names[1..], doc, m), table), table.PrimaryKey());
      KeysFirst(names, table, doc, m);
      hide NonKeys, InTable, PropsOf, IsOther;
      var p := Prop(names[0], m.column(names[0]), doc.Get(names[0]), m.fromModel(names[0]));
      assert ([p] + rest)[1..] == rest && [] + rest == rest;
      assert Columns([p] + rest) == [p.column] + Columns(rest);
      hide Columns;
      assert names == [names[0]] + names[1..];
    }
  }

  // ---------------------------------------------------------------- the q functions

  /** What each function of q asks of a column, and makes of it. */
  lemma {:induction false} OperatorsMean<V>(column: string, v: Value<V>, w: Value<V>, f: Option<Value<V> -> Value<V>>,
                                            row: Row<V>, cmp: Comparison<V>)
    ensures var x, y := row(column), Stored(f, v);
      && (Passes(Conditions(column, Gt(v), f), row, cmp) <==> cmp(x, y) > 0)
      && (Passes(Conditions(column, Gte(v), f), row, cmp) <==> cmp(x, y) >= 0)
      && (Passes(Conditions(column, Lt(v), f), row, cmp) <==> cmp(x, y) < 0)
      && (Passes(Conditions(column, Lte(v), f), row, cmp) <==> cmp(x, y) <= 0)
      && (Passes(Conditions(column, NotEqual(v), f), row, cmp) <==> cmp(x, y) != 0)
    ensures InList(v).Ok? <==> v.Items?
    ensures v.Items? ==>
      (Passes(Conditions(column, InList(v).value, f), row, cmp)
       <==> exists i :: 0 <= i < |v.items| && cmp(row(column), Stored(f, v.items[i])) == 0)
    ensures Passes(Conditions(column, And(v, w), f), row, cmp)
       <==> Passes(Conditions(column, v, f), row, cmp) && Passes(Conditions(column, w, f), row, cmp)
  {
    hide Passes;
    ConditionsMean(column, Gt(v), f, row, cmp);
    ConditionsMean(column, Gte(v), f, row, cmp);
    ConditionsMean(column, Lt(v), f, row, cmp);
    ConditionsMean(column, Lte(v), f, row, cmp);
    ConditionsMean(column, NotEqual(v), f, row, cmp);
    PassesJoined(Conditions(column, v, f), Conditions(column, w, f), row, cmp);
    if v.Items? {
      ConditionsMean(column, InList(v).value, f, row, cmp);
    }
  }

  lemma {:induction false} AssignmentsMean<V>(name: string, column: string, v: Value<V>,
                                              f: Option<Value<V> -> Value<V>>, before: Value<V>, ops: Arithmetic<V>)
    ensures var x := Stored(f, v);
      && Assigned(AssignmentOf(Prop(name, column, Incr(v), f)), before, ops) == ops.plus(before, x)
      && Assigned(AssignmentOf(Prop(name, column, Decr(v), f)), before, ops) == ops.minus(before, x)
      && Assigned(AssignmentOf(Prop(name, column, Append(v), f)), before, ops) == ops.plus(before, x)
      && Assigned(AssignmentOf(Prop(name, column, Prepend(v), f)), before, ops) == ops.plus(x, before)
      && Assigned(AssignmentOf(Prop(name, column, Remove(v), f)), before, ops) == ops.minus(before, x)
  {
  }
}
