/** Every generated statement, run with the parameters its getter takes from the document, means what the document
    says; where it does not, exactly when it does. */
module QueryMeaning {
  import opened Bytes
  import opened MapperValues
  import opened Statements
  import opened QueryText

  // ---------------------------------------------------------------- clause by clause

  ghost function Vals<V>(props: seq<Prop<V>>): seq<Value<V>> {
    ConditionValues(AllConditions(props))
  }

  lemma {:induction false} Prefixed(word: Token, x: seq<Token>, ts: seq<Token>)
    ensures ([word] + x) + ts == [word] + (x + ts) && ([word] + (x + ts))[1..] == x + ts
  {
  }

  lemma {:induction false} FilterRead<V>(props: seq<Prop<V>>, ts: seq<Token>, ps: seq<Value<V>>)
    requires !Starts(ts, Word("AND")) && !Starts(ts, Word("WHERE"))
    ensures ReadFilter(FilterText(props) + ts, Vals(props) + ps) == Some(Read(AllConditions(props), ts, ps))
  {
    hide ReadConditions, SpellConditions, ConditionsText;
    if props == [] {
      assert [] + ts == ts && [] + ps == ps;
    } else {
      ConditionsSpelled(props);
      hide AllConditions, ConditionValues;
      ConditionsRead(AllConditions(props), ts, ps);
      Prefixed(Word("WHERE"), ConditionsText(props), ts);
    }
  }

  lemma {:induction false} OrderByRead<V>(order: seq<(string, string)>, ts: seq<Token>, ps: seq<Value<V>>)
    requires !Starts(ts, Comma) && !Starts(ts, Word("ORDER BY"))
    ensures ReadOrderBy(OrderText(order) + ts, ps) == Some(Read(order, ts, ps))
  {
    hide ReadOrder, SpellOrder;
    if order == [] {
      assert [] + ts == ts;
    } else {
      OrderRead(order, ts, ps);
      Prefixed(Word("ORDER BY"), SpellOrder(order), ts);
    }
  }

  ghost function Maybe<V>(o: Option<V>): seq<Value<V>> {
    if o.Some? then [Lit(o.value)] else []
  }

  ghost function AsValue<V>(o: Option<V>): Option<Value<V>> {
    if o.Some? then Some(Lit(o.value)) else None
  }

  lemma {:induction false} OneRead<V>(word: string, o: Option<V>, ts: seq<Token>, ps: seq<Value<V>>)
    requires !Starts(ts, Word(word))
    ensures ReadOne(OneText(word, o.Some?) + ts, Maybe(o) + ps, word) == Some(Read(AsValue(o), ts, ps))
  {
    if o.None? {
      assert OneText(word, false) + ts == ts && Maybe(o) + ps == ps;
    } else {
      assert (OneText(word, true) + ts)[2..] == ts && (Maybe(o) + ps)[1..] == ps;
    }
  }

  lemma {:induction false} ProjectionRead<V>(cols: seq<string>, ts: seq<Token>, ps: seq<Value<V>>)
    requires !Starts(ts, Comma)
    ensures ReadProjection((if cols != [] then SpellColumns(cols) else [Word("*")]) + ts, ps)
      == Some(Read(cols, ts, ps))
  {
    if cols == [] {
      assert ([Word("*")] + ts)[1..] == ts;
    } else {
      ColumnsRead(cols, ts, ps);
    }
  }

  lemma {:induction false} GuardRead<V>(when: seq<Prop<V>>, ifExists: bool)
    requires !(ifExists && when != [])
    ensures ReadGuard(GuardText(when, ifExists), Vals(when)) == Some(Read(GuardOf(when, ifExists), [], []))
  {
    if !ifExists && when != [] {
      ConditionsSpelled(when);
      ConditionsRead(AllConditions(when), [], []);
      assert SpellConditions(AllConditions(when)) + [] == SpellConditions(AllConditions(when));
      assert Vals(when) + [] == Vals(when);
      assert GuardText(when, ifExists)[1..] == ConditionsText(when);
      hide ReadConditions, SpellConditions, ConditionsText, AllConditions, ConditionValues;
    } else {
      assert when == [] && Vals(when) == [];
      var ts := GuardText(when, ifExists);
      assert ts != [] ==> ts[1..] == [];
    }
  }

  lemma {:induction false} ColumnsOf<V>(props: seq<Prop<V>>)
    ensures |Columns(props)| == |props| && |AllValues(props)| == |props|
    ensures forall i :: 0 <= i < |props| ==> Columns(props)[i] == props[i].column
  {
    if props != [] {
      ColumnsOf(props[1..]);
    }
  }

  // ---------------------------------------------------------------- SELECT

  ghost function SelectSays<V>(ks: string, table: string, doc: Doc<V>, info: DocInfo<V>, m: Mapping<V>,
                               order: seq<(string, string)>): Meaning<V> {
    Select(ks, table, Columns(PropsOf(info.fields, doc, m)), AllConditions(PropsOf(doc.keys, doc, m)), order,
           AsValue(info.limit))
  }

  lemma {:induction false} SelectMeaning<V>(ks: string, table: string, doc: Doc<V>, info: DocInfo<V>, m: Mapping<V>,
                                            order: seq<(string, string)>)
    ensures var props, fields := PropsOf(doc.keys, doc, m), PropsOf(info.fields, doc, m);
      ReadSelect(SelectText(ks, table, props, fields, order, info.limit.Some?),
                 EvalAll(SelectGetter(props, info.limit.Some?), doc, info, m))
      == Some(SelectSays(ks, table, doc, info, m, order))
  {
    var props, fields := PropsOf(doc.keys, doc, m), PropsOf(info.fields, doc, m);
    PropsRead(doc.keys, doc, m);
    SelectParams(props, doc, info, m);
    ColumnsOf(fields);
    hide ReadSelect, SelectText, EvalAll, SelectGetter, Vals, Maybe, AllConditions, PropsOf;
    SelectRead(ks, table, props, fields, order, info.limit);
  }

  lemma {:induction false} SelectParams<V>(props: seq<Prop<V>>, doc: Doc<V>, info: DocInfo<V>, m: Mapping<V>)
    requires Reads(props, doc, m)
    ensures EvalAll(SelectGetter(props, info.limit.Some?), doc, info, m) == Vals(props) + Maybe(info.limit)
  {
    GetterValues(props, false, doc, info, m);
    var tail: seq<Access> := if info.limit.Some? then [LimitField] else [];
    EvalJoined(ValueGetters(props, false), tail, doc, info, m);
    assert tail != [] ==> tail[1..] == [];
  }

  lemma {:induction false} SelectRead<V>(ks: string, table: string, props: seq<Prop<V>>, fields: seq<Prop<V>>,
                                         order: seq<(string, string)>, limit: Option<V>)
    ensures ReadSelect(SelectText(ks, table, props, fields, order, limit.Some?), Vals(props) + Maybe(limit))
      == Some(Select(ks, table, Columns(fields), AllConditions(props), order, AsValue(limit)))
  {
    hide ReadProjection, ReadFilter, ReadOrderBy, ReadOne, Vals, AllConditions, SpellColumns, SpellOrder;
    hide ConditionsText, Columns;
    ColumnsOf(fields);
    var t1 := OneText("LIMIT", limit.Some?);
    var t2 := OrderText(order) + t1;
    var t3 := FilterText(props) + t2;
    var t4 := [Word("FROM"), Table(ks, table)] + t3;
    var cols := if fields != [] then SpellColumns(Columns(fields)) else [Word("*")];
    var text := [Word("SELECT")] + (cols + t4);
    assert text == SelectText(ks, table, props, fields, order, limit.Some?);
    assert !Starts(t1, Comma) && !Starts(t2, Comma) && !Starts(t1, Word("ORDER BY")) && !Starts(t2, Word("AND"));
    assert !Starts(t2, Word("WHERE"));
    hide SelectText, OrderText, FilterText, OneText;
    var ps := Vals(props) + Maybe(limit);
    assert text[1..] == cols + t4;
    ProjectionRead(Columns(fields), t4, ps);
    assert t4[2..] == t3;
    FilterRead(props, t2, Maybe(limit));
    OrderByRead(order, t1, Maybe(limit));
    OneRead("LIMIT", limit, [], []);
    assert t1 + [] == t1 && Maybe(limit) + [] == Maybe(limit);
  }

  // ---------------------------------------------------------------- how many values a property gives

  /** Every property gives at least one condition, and one each exactly when none is an `and`. */
  lemma {:induction false} ConditionCount<V>(props: seq<Prop<V>>)
    ensures |AllConditions(props)| >= |props|
    ensures |AllConditions(props)| == |props| <==> NoAnds(props)
  {
    if props != [] {
      var p, rest := props[0], props[1..];
      ConditionCount(rest);
      assert |Conditions(p.column, p.value, p.fromModel)| == 1 <==> !p.value.And? by {
        if p.value.And? {
          assert |Conditions(p.column, p.value.left, p.fromModel)| >= 1;
          assert |Conditions(p.column, p.value.right, p.fromModel)| >= 1;
        }
      }
      assert props == [p] + rest;
      assert NoAnds(props) <==> !p.value.And? && NoAnds(rest);
    }
  }

  lemma {:induction false} ValueCount<V>(cs: seq<Condition<V>>)
    ensures |ConditionValues(cs)| == |cs|
    ensures forall i :: 0 <= i < |cs| ==> ConditionValues(cs)[i] == cs[i].value
  {
    if cs != [] {
      ValueCount(cs[1..]);
    }
  }

  /** Without `and`, the conditions are one per property, in order. */
  lemma {:induction false} ConditionEach<V>(props: seq<Prop<V>>, i: nat)
    requires NoAnds(props) && i < |props|
    ensures |AllConditions(props)| == |props|
    ensures AllConditions(props)[i] == Conditions(props[i].column, props[i].value, props[i].fromModel)[0]
  {
    ConditionCount(props);
    var rest := props[1..];
    assert NoAnds(rest);
    ConditionCount(rest);
    if i > 0 {
      ConditionEach(rest, i - 1);
    }
  }

  lemma {:induction false} PlainValues<V>(props: seq<Prop<V>>)
    requires NoOperators(props)
    ensures Vals(props) == AllValues(props)
  {
    if props != [] {
      var p := props[0];
      PlainValues(props[1..]);
      assert Conditions(p.column, p.value, p.fromModel) == [Condition(p.column, "=", Apply(p.fromModel, p.value))];
      assert AllConditions(props)[1..] == AllConditions(props[1..]);
    }
  }

  // ---------------------------------------------------------------- INSERT

  ghost function InsertSays<V>(ks: string, table: string, props: seq<Prop<V>>, info: DocInfo<V>): Meaning<V> {
    Insert(ks, table, Columns(props), AllValues(props), info.ifNotExists, AsValue(info.ttl))
  }

  /** Reading an INSERT with any parameters that reach at least to the TTL. */
  lemma {:induction false} InsertRead<V>(ks: string, table: string, props: seq<Prop<V>>, ifNotExists: bool,
                                         hasTtl: bool, ps: seq<Value<V>>)
    requires props != [] && |ps| >= |props| + (if hasTtl then 1 else 0)
    ensures var n := |props|;
      ReadInsert(InsertText(ks, table, props, ifNotExists, hasTtl), ps)
      == if |ps| > n + (if hasTtl then 1 else 0) then None
         else Some(Insert(ks, table, Columns(props), ps[..n], ifNotExists, if hasTtl then Some(ps[n]) else None))
  {
    hide ReadColumns, ReadMarkers, SpellColumns, SpellMarkers, Columns;
    var n := |props|;
    ColumnsOf(props);
    var t1 := (if ifNotExists then [Word("IF NOT EXISTS")] else []) + OneText("USING TTL", hasTtl);
    var t2 := [Close] + t1;
    var t3 := SpellMarkers(n) + t2;
    var t4 := [Close, Word("VALUES"), Open] + t3;
    var t5 := SpellColumns(Columns(props)) + t4;
    var text := [Word("INSERT INTO"), Table(ks, table), Open] + t5;
    assert text == InsertText(ks, table, props, ifNotExists, hasTtl);
    assert ps == ps[..n] + ps[n..];
    MarkersRead(ps[..n], t2, ps[n..]);
    ColumnsRead(Columns(props), t4, ps);
    InsertTail(t1, ifNotExists, hasTtl, ps[n..]);
    hide InsertText, OneText;
    assert text[2..][1..] == t5 && t4[..3] == [Close, Word("VALUES"), Open] && t4[3..] == t3 && t2[1..] == t1;
  }

  lemma {:induction false} InsertTail<V>(t1: seq<Token>, ifNotExists: bool, hasTtl: bool, ps: seq<Value<V>>)
    requires t1 == (if ifNotExists then [Word("IF NOT EXISTS")] else []) + OneText("USING TTL", hasTtl)
    requires |ps| >= if hasTtl then 1 else 0
    ensures Starts(t1, Word("IF NOT EXISTS")) == ifNotExists
    ensures var r := ReadOne(if ifNotExists then t1[1..] else t1, ps, "USING TTL");
      && r.Some? && r.value.tokens == [] && r.value.part == (if hasTtl then Some(ps[0]) else None)
      && |r.value.params| == |ps| - (if hasTtl then 1 else 0)
  {
    assert (if ifNotExists then t1[1..] else t1) == OneText("USING TTL", hasTtl);
    assert hasTtl ==> OneText("USING TTL", hasTtl)[2..] == [];
  }

  lemma {:induction false} InsertParams<V>(props: seq<Prop<V>>, doc: Doc<V>, info: DocInfo<V>, m: Mapping<V>)
    requires Reads(props, doc, m) && props != []
    ensures EvalAll(InsertGetter(props, info.ttl.Some?), doc, info, m) == Vals(props) + Maybe(info.ttl)
  {
    GetterValues(props, false, doc, info, m);
    var tail: seq<Access> := if info.ttl.Some? then [TtlField] else [];
    EvalJoined(ValueGetters(props, false), tail, doc, info, m);
    assert tail != [] ==> tail[1..] == [];
  }

  lemma {:induction false} InsertOfNothing<V>(ks: string, table: string, ifNotExists: bool, hasTtl: bool,
                                              ps: seq<Value<V>>)
    ensures ReadInsert(InsertText<V>(ks, table, [], ifNotExists, hasTtl), ps) == None
  {
    var text := InsertText<V>(ks, table, [], ifNotExists, hasTtl);
    assert text[2..][1..][0] == Close;
  }

  /** An INSERT reads as a statement exactly when it sets some column and no value is an `and`; without operators
      it sets each column to the document's value. */
  lemma {:induction false} InsertMeaning<V>(ks: string, table: TableInfo, doc: Doc<V>, info: DocInfo<V>, m: Mapping<V>)
    ensures var props := InTable(PropertiesInfo(doc.keys, info.fields, doc, m), table);
      var r := ReadInsert(InsertText(ks, table.name, props, info.ifNotExists, info.ttl.Some?),
                          EvalAll(InsertGetter(props, info.ttl.Some?), doc, info, m));
      && (r.Some? <==> props != [] && NoAnds(props))
      && (props != [] && NoOperators(props) ==> r == Some(InsertSays(ks, table.name, props, info)))
  {
    var names := if info.fields != [] then info.fields else doc.keys;
    PropsRead(names, doc, m);
    InTableReads(PropsOf(names, doc, m), doc, m, table);
    var props := InTable(PropertiesInfo(doc.keys, info.fields, doc, m), table);
    hide InsertText, InsertGetter, EvalAll, ReadInsert, InTable, PropsOf, PropertiesInfo;
    if props == [] {
      InsertOfNothing(ks, table.name, info.ifNotExists, info.ttl.Some?,
                      EvalAll(InsertGetter(props, info.ttl.Some?), doc, info, m));
    } else {
      InsertParams(props, doc, info, m);
      ConditionCount(props);
      ValueCount(AllConditions(props));
      var ps := Vals(props) + Maybe(info.ttl);
      InsertRead(ks, table.name, props, info.ifNotExists, info.ttl.Some?, ps);
      if NoOperators(props) {
        PlainValues(props);
        assert NoAnds(props);
        assert ps[..|props|] == Vals(props);
      }
    }
  }

  // ---------------------------------------------------------------- UPDATE and DELETE

  ghost function KeyConditions<V>(props: seq<Prop<V>>, vals: seq<Value<V>>): seq<Condition<V>>
    requires |vals| == |props|
  {
    if props == [] then [] else [Condition(props[0].column, "=", vals[0])] + KeyConditions(props[1..], vals[1..])
  }

  lemma {:induction false} KeysSpelled<V>(props: seq<Prop<V>>, vals: seq<Value<V>>)
    requires |vals| == |props|
    ensures var cs := KeyConditions(props, vals);
      && KeysText(props) == SpellConditions(cs) && ConditionValues(cs) == vals && |cs| == |props|
      && forall i :: 0 <= i < |cs| ==> cs[i] == Condition(props[i].column, "=", vals[i])
  {
    if props != [] {
      KeysSpelled(props[1..], vals[1..]);
      var cs := KeyConditions(props, vals);
      assert cs[1..] == KeyConditions(props[1..], vals[1..]);
    }
  }

  /** The key columns bound to the document's values are its conditions exactly when no key value is an operator. */
  lemma {:induction false} KeysMeanEquality<V>(props: seq<Prop<V>>, vals: seq<Value<V>>)
    requires |vals| == |props|
    ensures KeyConditions(props, vals) == AllConditions(props) ==> NoOperators(props)
    ensures NoOperators(props) ==> |Vals(props)| == |props| && KeyConditions(props, Vals(props)) == AllConditions(props)
  {
    KeysSpelled(props, vals);
    ConditionCount(props);
    if KeyConditions(props, vals) == AllConditions(props) {
      forall i | 0 <= i < |props|
        ensures !props[i].value.IsOperator()
      {
        ConditionEach(props, i);
      }
    }
    if NoOperators(props) {
      assert NoAnds(props);
      ValueCount(AllConditions(props));
      KeysSpelled(props, Vals(props));
      forall i | 0 <= i < |props|
        ensures KeyConditions(props, Vals(props))[i] == AllConditions(props)[i]
      {
        ConditionEach(props, i);
      }
    }
  }

  /** Reading the WHERE and IF clauses of an UPDATE or DELETE with any parameters. */
  lemma {:induction false} KeysRead<V>(keys: seq<Prop<V>>, when: seq<Prop<V>>, ifExists: bool, ps: seq<Value<V>>)
    requires keys != [] && |ps| >= |keys|
    ensures ReadConditions(KeysText(keys) + GuardText(when, ifExists), ps)
      == Some(Read(KeyConditions(keys, ps[..|keys|]), GuardText(when, ifExists), ps[|keys|..]))
  {
    var n := |keys|;
    KeysSpelled(keys, ps[..n]);
    assert ps == ps[..n] + ps[n..];
    ConditionsRead(KeyConditions(keys, ps[..n]), GuardText(when, ifExists), ps[n..]);
  }

  lemma {:induction false} NoKeysRead<V>(when: seq<Prop<V>>, ifExists: bool, ps: seq<Value<V>>)
    ensures ReadConditions(KeysText<V>([]) + GuardText(when, ifExists), ps) == None
  {
    assert KeysText<V>([]) + GuardText(when, ifExists) == GuardText(when, ifExists);
  }

  lemma {:induction false} GuardLeftover<V>(when: seq<Prop<V>>, ps: seq<Value<V>>)
    requires ps != []
    ensures !Finished(ReadGuard(GuardText(when, true), ps))
  {
  }

  /** Reading an UPDATE that sets something, with any parameters for the keys and the conditions. */
  lemma {:induction false} UpdateRead<V>(ks: string, table: string, pk: set<string>, props: seq<Prop<V>>,
                                         when: seq<Prop<V>>,
                                         ifExists: bool, ttl: Option<V>, ps: seq<Value<V>>)
    requires NonKeys(props, pk) != [] && |ps| >= |Keys(props, pk)|
    ensures var keys, sets := Keys(props, pk), AllAssignments(NonKeys(props, pk));
      var guard := ReadGuard(GuardText(when, ifExists), ps[|keys|..]);
      ReadUpdate(UpdateText(ks, table, pk, props, when, ifExists, ttl.Some?),
                 Maybe(ttl) + (AssignmentValues(sets) + ps))
      == if keys == [] || !Finished(guard) then None
         else Some(Update(ks, table, AsValue(ttl), sets, KeyConditions(keys, ps[..|keys|]), guard.value.part))
  {
    hide ReadConditions, ReadOne, ReadAssignments, ReadGuard, KeysText, AssignmentsText, SpellAssignments;
    hide AssignmentValues, Keys, NonKeys, AllAssignments;
    var keys, others := Keys(props, pk), NonKeys(props, pk);
    var sets := AllAssignments(others);
    AssignmentsSpelled(others);
    var t1 := KeysText(keys) + GuardText(when, ifExists);
    var t2 := [Word("WHERE")] + t1;
    var t3 := SpellAssignments(sets) + t2;
    var t4 := [Word("SET")] + t3;
    var t5 := OneText("USING TTL", ttl.Some?) + t4;
    var text := [Word("UPDATE"), Table(ks, table)] + t5;
    assert text == UpdateText(ks, table, pk, props, when, ifExists, ttl.Some?);
    hide UpdateText, OneText, GuardText;
    var qs := AssignmentValues(sets) + ps;
    OneRead("USING TTL", ttl, t4, qs);
    AssignmentsRead(sets, t2, ps);
    assert text[2..] == t5 && t4[1..] == t3 && t2[1..] == t1;
    if keys == [] {
      NoKeysRead(when, ifExists, ps);
    } else {
      KeysRead(keys, when, ifExists, ps);
    }
  }

  lemma {:induction false} UpdateOfNothing<V>(ks: string, table: string, pk: set<string>, props: seq<Prop<V>>,
                                              when: seq<Prop<V>>,
                                              ifExists: bool, hasTtl: bool, ps: seq<Value<V>>)
    requires NonKeys(props, pk) == []
    ensures ReadUpdate(UpdateText(ks, table, pk, props, when, ifExists, hasTtl), ps) == None
  {
    var t2 := [Word("WHERE")] + (KeysText(Keys(props, pk)) + GuardText(when, ifExists));
    var t4 := [Word("SET")] + ([] + t2);
    var text := [Word("UPDATE"), Table(ks, table)] + (OneText("USING TTL", hasTtl) + t4);
    assert text == UpdateText(ks, table, pk, props, when, ifExists, hasTtl);
    hide UpdateText, GuardText, KeysText, Keys, NonKeys;
    assert text[2..] == OneText("USING TTL", hasTtl) + t4;
    assert hasTtl ==> text[2..][2..] == t4;
    assert !hasTtl ==> text[2..] == t4;
    assert t4[1..] == t2;
    assert forall qs :: ReadAssignment<V>(t2, qs) == None;
  }

  /** What the getter takes for the WHERE and IF clauses. */
  ghost function KeyParams<V>(keys: seq<Prop<V>>, when: seq<Prop<V>>, doc: Doc<V>, info: DocInfo<V>,
                              m: Mapping<V>): seq<Value<V>> {
    EvalAll(ValueGetters(keys, false) + WhenGetter(keys, when), doc, info, m)
  }

  lemma {:induction false} KeyParamsAre<V>(keys: seq<Prop<V>>, when: seq<Prop<V>>, doc: Doc<V>, info: DocInfo<V>,
                                           m: Mapping<V>)
    requires Reads(keys, doc, m) && Reads(when, Source(true, doc, info), m) && keys != []
    ensures KeyParams(keys, when, doc, info, m) == Vals(keys) + Vals(when)
    ensures |Vals(keys)| >= |keys| && (when != [] ==> Vals(when) != [])
  {
    var k, w := ValueGetters(keys, false), ValueGetters(when, true);
    assert WhenGetter(keys, when) == w;
    hide WhenGetter, ValueGetters, EvalAll;
    EvalJoined(k, w, doc, info, m);
    GetterValues(keys, false, doc, info, m);
    GetterValues(when, true, doc, info, m);
    ConditionCount(keys);
    ConditionCount(when);
    ValueCount(AllConditions(keys));
    ValueCount(AllConditions(when));
  }

  lemma {:induction false} UpdateParams<V>(pk: set<string>, props: seq<Prop<V>>, when: seq<Prop<V>>, doc: Doc<V>,
                                           info: DocInfo<V>, m: Mapping<V>)
    requires Reads(props, doc, m) && NonKeys(props, pk) != []
    ensures var sets := AllAssignments(NonKeys(props, pk));
      EvalAll(UpdateGetter(pk, props, when, info.ttl.Some?), doc, info, m)
      == Maybe(info.ttl) + (AssignmentValues(sets) + KeyParams(Keys(props, pk), when, doc, info, m))
  {
    QueryText.KeysRead(props, doc, m, pk);
    var keys, others := Keys(props, pk), NonKeys(props, pk);
    var head: seq<Access> := if info.ttl.Some? then [TtlField] else [];
    var a, k := AssignmentGetters(others), ValueGetters(keys, false) + WhenGetter(keys, when);
    UpdateGetterForm(pk, props, when, info.ttl.Some?);
    assert head != [] ==> head[1..] == [];
    assert EvalAll(head, doc, info, m) == Maybe(info.ttl);
    hide UpdateGetter, WhenGetter, ValueGetters, AssignmentGetters, EvalAll, Keys, NonKeys;
    EvalJoined(head, a + k, doc, info, m);
    EvalJoined(a, k, doc, info, m);
    AssignmentGetterValues(others, doc, info, m);
  }

  lemma {:induction false} UpdateGetterForm<V>(pk: set<string>, props: seq<Prop<V>>, when: seq<Prop<V>>, hasTtl: bool)
    requires NonKeys(props, pk) != []
    ensures var head: seq<Access> := if hasTtl then [TtlField] else [];
      UpdateGetter(pk, props, when, hasTtl)
      == head + (AssignmentGetters(NonKeys(props, pk)) + (ValueGetters(Keys(props, pk),
                                                                       false) + WhenGetter(Keys(props, pk), when)))
  {
  }

  /** The guard and key conditions a reader finds are the document's exactly under the stated condition. */
  lemma {:induction false} KeysAndGuard<V>(keys: seq<Prop<V>>, when: seq<Prop<V>>, ifExists: bool, ps: seq<Value<V>>)
    requires ps == Vals(keys) + Vals(when) && |Vals(keys)| >= |keys| && (when != [] ==> Vals(when) != [])
    ensures var n := |keys|;
      var g := ReadGuard(GuardText(when, ifExists), ps[n..]);
      && |ps| >= n
      && ((Finished(g) && KeyConditions(keys, ps[..n]) == AllConditions(keys) && g.value.part == GuardOf(when,
          ifExists))
          <==> NoOperators(keys) && !(ifExists && when != []))
  {
    hide ReadGuard, GuardText, Vals, AllConditions, KeyConditions;
    var n := |keys|;
    KeysMeanEquality(keys, ps[..n]);
    if NoOperators(keys) {
      assert ps[..n] == Vals(keys) && ps[n..] == Vals(when);
      if ifExists && when != [] {
        GuardLeftover(when, Vals(when));
      } else {
        GuardRead(when, ifExists);
      }
    }
  }

  ghost function UpdateSays<V>(ks: string, table: TableInfo, props: seq<Prop<V>>, when: seq<Prop<V>>,
                               info: DocInfo<V>): Meaning<V> {
    var pk := table.PrimaryKey();
    Update(ks, table.name, AsValue(info.ttl), AllAssignments(NonKeys(props, pk)), AllConditions(Keys(props, pk)),
           GuardOf(when, info.ifExists))
  }

  /** The UPDATE means the document's assignments, key conditions and guard exactly when some column is set, some
      key column is bound, no key value is an operator, and there is only one kind of guard. */
  lemma {:induction false} UpdateMeaning<V>(ks: string, table: TableInfo, doc: Doc<V>, info: DocInfo<V>, m: Mapping<V>)
    ensures var props, when, pk := InTable(PropertiesInfo(doc.keys, info.fields, doc, m), table), WhenInfo(info,
          m), table.PrimaryKey();
      ReadUpdate(UpdateText(ks, table.name, pk, props, when, info.ifExists, info.ttl.Some?),
                 EvalAll(UpdateGetter(pk, props, when, info.ttl.Some?), doc, info, m)) == Some(UpdateSays(ks, table,
                     props, when, info))
      <==> NonKeys(props, pk) != [] && Keys(props,
                                            pk) != [] && NoOperators(Keys(props, pk)) && !(info.ifExists && when != [])
  {
    var props, when, pk := InTable(PropertiesInfo(doc.keys, info.fields, doc, m), table), WhenInfo(info, m),
        table.PrimaryKey();
    InfoReads(table, doc, info, m);
    hide UpdateText, UpdateGetter, EvalAll, ReadUpdate, InTable, PropsOf, PropertiesInfo, WhenInfo, Vals;
    hide KeyConditions, AllConditions;
    QueryText.KeysRead(props, doc, m, pk);
    var keys, others := Keys(props, pk), NonKeys(props, pk);
    if others == [] {
      UpdateOfNothing(ks, table.name, pk, props, when, info.ifExists, info.ttl.Some?,
                      EvalAll(UpdateGetter(pk, props, when, info.ttl.Some?), doc, info, m));
    } else {
      UpdateParams(pk, props, when, doc, info, m);
      var ps := KeyParams(keys, when, doc, info, m);
      hide Keys, NonKeys, KeyParams;
      if keys == [] {
        UpdateRead(ks, table.name, pk, props, when, info.ifExists, info.ttl, ps);
      } else {
        KeyParamsAre(keys, when, doc, info, m);
        UpdateRead(ks, table.name, pk, props, when, info.ifExists, info.ttl, ps);
        KeysAndGuard(keys, when, info.ifExists, ps);
        hide ReadGuard, Finished, GuardOf, GuardText;
      }
    }
  }

  lemma {:induction false} InfoReads<V>(table: TableInfo, doc: Doc<V>, info: DocInfo<V>, m: Mapping<V>)
    ensures Reads(InTable(PropertiesInfo(doc.keys, info.fields, doc, m), table), doc, m)
    ensures Reads(WhenInfo(info, m), Source(true, doc, info), m)
  {
    var names := if info.fields != [] then info.fields else doc.keys;
    PropsRead(names, doc, m);
    InTableReads(PropsOf(names, doc, m), doc, m, table);
    if info.when.Some? {
      PropsRead(info.when.value.keys, info.when.value, m);
    }
  }

  // ---------------------------------------------------------------- DELETE

  ghost function DeleteSays<V>(ks: string, table: TableInfo, props: seq<Prop<V>>, when: seq<Prop<V>>,
                               info: DocInfo<V>): Meaning<V> {
    var pk := table.PrimaryKey();
    Delete(ks, table.name, if info.deleteOnlyColumns then Columns(NonKeys(props, pk)) else [],
           AllConditions(Keys(props, pk)), GuardOf(when, info.ifExists))
  }

  lemma {:induction false} DeleteColumnsRead<V>(cols: seq<string>, ks: string, table: string, t: seq<Token>,
                                                ps: seq<Value<V>>)
    ensures var ts := [Word("DELETE")] + (SpellColumns(cols) + ([Word("FROM"), Table(ks, table)] + t));
      (if |ts| >= 2 && ts[1].Quoted? then ReadColumns(ts[1..], ps) else Some(Read([], ts[1..], ps)))
      == Some(Read(cols, [Word("FROM"), Table(ks, table)] + t, ps))
  {
    var from := [Word("FROM"), Table(ks, table)] + t;
    var ts := [Word("DELETE")] + (SpellColumns(cols) + from);
    assert ts[1..] == SpellColumns(cols) + from;
    if cols == [] {
      assert SpellColumns(cols) + from == from && ts[1] == from[0];
    } else {
      ColumnsRead(cols, from, ps);
      assert SpellColumns(cols) != [] && SpellColumns(cols)[0] == Quoted(cols[0]) && ts[1] == Quoted(cols[0]);
    }
  }

  lemma {:induction false} DeleteRead<V>(ks: string, table: string, pk: set<string>, props: seq<Prop<V>>,
                                         when: seq<Prop<V>>,
                                         ifExists: bool, onlyColumns: bool, ps: seq<Value<V>>)
    requires |ps| >= |Keys(props, pk)|
    ensures var keys := Keys(props, pk);
      var cols := if onlyColumns then Columns(NonKeys(props, pk)) else [];
      var guard := ReadGuard(GuardText(when, ifExists), ps[|keys|..]);
      ReadDelete(DeleteText(ks, table, pk, props, when, ifExists, onlyColumns), ps)
      == if keys == [] || !Finished(guard) then None
         else Some(Delete(ks, table, cols, KeyConditions(keys, ps[..|keys|]), guard.value.part))
  {
    hide ReadConditions, ReadGuard, KeysText, Keys, NonKeys, Columns, ReadColumns;
    var keys := Keys(props, pk);
    var cols := if onlyColumns then Columns(NonKeys(props, pk)) else [];
    var t1 := KeysText(keys) + GuardText(when, ifExists);
    var t2 := [Word("WHERE")] + t1;
    var t3 := [Word("FROM"), Table(ks, table)] + t2;
    var text := [Word("DELETE")] + (SpellColumns(cols) + t3);
    assert text == DeleteText(ks, table, pk, props, when, ifExists, onlyColumns);
    hide DeleteText, GuardText, SpellColumns;
    DeleteColumnsRead(cols, ks, table, t2, ps);
    assert t3[2..] == t2 && t2[1..] == t1;
    if keys == [] {
      NoKeysRead(when, ifExists, ps);
    } else {
      KeysRead(keys, when, ifExists, ps);
    }
  }

  /** The DELETE means the document's columns, key conditions and guard exactly when some key column is bound, no
      key value is an operator, and there is only one kind of guard. */
  lemma {:induction false} DeleteMeaning<V>(ks: string, table: TableInfo, doc: Doc<V>, info: DocInfo<V>, m: Mapping<V>)
    ensures var props, when, pk := InTable(PropertiesInfo(doc.keys, info.fields, doc, m), table), WhenInfo(info,
          m), table.PrimaryKey();
      ReadDelete(DeleteText(ks, table.name, pk, props, when, info.ifExists, info.deleteOnlyColumns),
                 EvalAll(DeleteGetter(pk, props, when), doc, info, m)) == Some(DeleteSays(ks, table, props, when, info))
      <==> Keys(props, pk) != [] && NoOperators(Keys(props, pk)) && !(info.ifExists && when != [])
  {
    var props, when, pk := InTable(PropertiesInfo(doc.keys, info.fields, doc, m), table), WhenInfo(info, m),
        table.PrimaryKey();
    InfoReads(table, doc, info, m);
    QueryText.KeysRead(props, doc, m, pk);
    var keys := Keys(props, pk);
    var ps := KeyParams(keys, when, doc, info, m);
    assert EvalAll(DeleteGetter(pk, props, when), doc, info, m) == ps;
    hide DeleteText, DeleteGetter, EvalAll, ReadDelete, InTable, PropsOf, PropertiesInfo, WhenInfo, Vals;
    hide KeyConditions, AllConditions, Keys, NonKeys, KeyParams;
    if keys == [] {
      DeleteRead(ks, table.name, pk, props, when, info.ifExists, info.deleteOnlyColumns, ps);
    } else {
      KeyParamsAre(keys, when, doc, info, m);
      DeleteRead(ks, table.name, pk, props, when, info.ifExists, info.deleteOnlyColumns, ps);
      KeysAndGuard(keys, when, info.ifExists, ps);
      hide ReadGuard, Finished, GuardOf, GuardText;
    }
  }
}
