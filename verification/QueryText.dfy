/** The statement builders and parameter getters of lib/mapping/query-generator.js. The generated getter function is
    the list of its access paths; a hole is an elided array element. */
module QueryText {
  import opened Bytes
  import opened MapperValues
  import opened Statements

  // ---------------------------------------------------------------- access paths

  datatype Step = ValueField | FirstChild | SecondChild
  datatype Call = Raw | Mapped | MappedEach
  datatype Access = Path(inWhen: bool, name: string, steps: seq<Step>, call: Call) | LimitField | TtlField | Hole

  function StepInto<V>(v: Value<V>, s: Step): Value<V> {
    match s
    case ValueField => if v.Op? || v.Assign? then v.arg else if v.In? then Items(v.items) else Undefined
    case FirstChild => if v.And? then v.left else Undefined
    case SecondChild => if v.And? then v.right else Undefined
  }

  function Walk<V>(v: Value<V>, steps: seq<Step>): Value<V> {
    if steps == [] then v else StepInto(Walk(v, steps[..|steps| - 1]), steps[|steps| - 1])
  }

  function Apply<V>(f: Option<Value<V> -> Value<V>>, v: Value<V>): Value<V> {
    if f.Some? then f.value(v) else v
  }

  function ApplyEach<V>(f: Option<Value<V> -> Value<V>>, items: seq<Value<V>>): seq<Value<V>> {
    if items == [] then [] else [Apply(f, items[0])] + ApplyEach(f, items[1..])
  }

  function Amount<V>(o: Option<V>): Value<V> {
    if o.Some? then Lit(o.value) else Undefined
  }

  /** What the getter's expression gives for the document and options it is called with. */
  function Eval<V>(a: Access, doc: Doc<V>, info: DocInfo<V>, m: Mapping<V>): Value<V> {
    match a
    case Path(inWhen, name, steps, call) =>
      var root := if !inWhen then doc.Get(name) else if info.when.Some? then info.when.value.Get(name) else Undefined;
      var v := Walk(root, steps);
      (match call
       case Raw => v
       case Mapped => Apply(m.fromModel(name), v)
       case MappedEach => if v.Items? then Items(ApplyEach(m.fromModel(name), v.items)) else Undefined)
    case LimitField => Amount(info.limit)
    case TtlField => Amount(info.ttl)
    case Hole => Undefined
  }

  function EvalAll<V>(getter: seq<Access>, doc: Doc<V>, info: DocInfo<V>, m: Mapping<V>): seq<Value<V>> {
    if getter == [] then [] else [Eval(getter[0], doc, info, m)] + EvalAll(getter[1..], doc, info, m)
  }

  lemma {:induction false} EvalJoined<V>(a: seq<Access>, b: seq<Access>, doc: Doc<V>, info: DocInfo<V>, m: Mapping<V>)
    ensures EvalAll(a + b, doc, info, m) == EvalAll(a, doc, info, m) + EvalAll(b, doc, info, m)
  {
    if a == [] {
      assert a + b == b;
    } else {
      assert (a + b)[0] == a[0] && (a + b)[1..] == a[1..] + b;
      EvalJoined(a[1..], b, doc, info, m);
    }
  }

  // ---------------------------------------------------------------- getters

  function ValueGetter<V>(inWhen: bool, name: string, steps: seq<Step>, value: Value<V>, mapped: bool): seq<Access>
    decreases value
  {
    match value
    case And(left, right) =>
      ValueGetter(inWhen, name, steps + [FirstChild], left, mapped) + ValueGetter(inWhen, name, steps + [SecondChild],
          right, mapped)
    case In(_) => [Path(inWhen, name, steps + [ValueField], if mapped then MappedEach else Raw)]
    case Op(_, _) => [Path(inWhen, name, steps + [ValueField], if mapped then Mapped else Raw)]
    case _ => [Path(inWhen, name, steps, if mapped then Mapped else Raw)]
  }

  function ValueGetters<V>(props: seq<Prop<V>>, inWhen: bool): seq<Access> {
    if props == [] then []
    else ValueGetter(inWhen, props[0].name, [], props[0].value, props[0].fromModel.Some?) + ValueGetters(props[1..],
        inWhen)
  }

  function AssignmentGetters<V>(props: seq<Prop<V>>): seq<Access> {
    if props == [] then []
    else
      var p := props[0];
      var steps := if p.value.Assign? then [ValueField] else [];
      [Path(false, p.name, steps, if p.fromModel.Some? then Mapped else Raw)] + AssignmentGetters(props[1..])
  }

  function SelectGetter<V>(props: seq<Prop<V>>, hasLimit: bool): seq<Access> {
    ValueGetters(props, false) + if hasLimit then [LimitField] else []
  }

  function InsertGetter<V>(props: seq<Prop<V>>, hasTtl: bool): seq<Access> {
    ValueGetters(props, false) + if !hasTtl then [] else if props == [] then [Hole, TtlField] else [TtlField]
  }

  /** The conditions' values; an empty list before it leaves an elided element. */
  function WhenGetter<V>(pks: seq<Prop<V>>, when: seq<Prop<V>>): seq<Access> {
    if when == [] then [] else (if pks == [] then [Hole] else []) + ValueGetters(when, true)
  }

  function UpdateGetter<V>(pk: set<string>, props: seq<Prop<V>>, when: seq<Prop<V>>, hasTtl: bool): seq<Access> {
    var pks, others := Keys(props, pk), NonKeys(props, pk);
    (if hasTtl then [TtlField] else [])
    + (if others == [] then [Hole] else AssignmentGetters(others))
    + ValueGetters(pks, false) + WhenGetter(pks, when)
  }

  function DeleteGetter<V>(pk: set<string>, props: seq<Prop<V>>, when: seq<Prop<V>>): seq<Access> {
    ValueGetters(Keys(props, pk), false) + WhenGetter(Keys(props, pk), when)
  }

  // ---------------------------------------------------------------- statement text

  function Keys<V>(props: seq<Prop<V>>, pk: set<string>): seq<Prop<V>> {
    if props == [] then [] else (if props[0].column in pk then [props[0]] else []) + Keys(props[1..], pk)
  }

  function NonKeys<V>(props: seq<Prop<V>>, pk: set<string>): seq<Prop<V>> {
    if props == [] then [] else (if props[0].column in pk then [] else [props[0]]) + NonKeys(props[1..], pk)
  }

  function Columns<V>(props: seq<Prop<V>>): seq<string> {
    if props == [] then [] else [props[0].column] + Columns(props[1..])
  }

  function Operator<V>(v: Value<V>): string {
    if v.Op? then RelationText(v.rel) else if v.In? then "IN" else "="
  }

  function ConditionText<V>(column: string, value: Value<V>): seq<Token> {
    if value.And? then ConditionText(column, value.left) + [Word("AND")] + ConditionText(column, value.right)
    else [Quoted(column), Word(Operator(value)), Marker]
  }

  function ConditionsText<V>(props: seq<Prop<V>>): seq<Token> {
    if props == [] then []
    else if |props| == 1 then ConditionText(props[0].column, props[0].value)
    else ConditionText(props[0].column, props[0].value) + [Word("AND")] + ConditionsText(props[1..])
  }

  /** Equality with a marker for each column, whatever the property's value is. */
  function KeysText<V>(props: seq<Prop<V>>): seq<Token> {
    if props == [] then []
    else
      var first := [Quoted(props[0].column), Word("="), Marker];
      if |props| == 1 then first else first + [Word("AND")] + KeysText(props[1..])
  }

  function AssignmentText<V>(p: Prop<V>): seq<Token> {
    if !p.value.Assign? then [Quoted(p.column), Word("="), Marker]
    else if p.value.inverted then [Quoted(p.column), Word("="), Marker, Word(SignText(p.value.sign)), Quoted(p.column)]
    else [Quoted(p.column), Word("="), Quoted(p.column), Word(SignText(p.value.sign)), Marker]
  }

  function AssignmentsText<V>(props: seq<Prop<V>>): seq<Token> {
    if props == [] then [] else if |props| == 1 then AssignmentText(props[0])
    else AssignmentText(props[0]) + [Comma] + AssignmentsText(props[1..])
  }

  function FilterText<V>(props: seq<Prop<V>>): seq<Token> {
    if props == [] then [] else [Word("WHERE")] + ConditionsText(props)
  }

  function OrderText(order: seq<(string, string)>): seq<Token> {
    if order == [] then [] else [Word("ORDER BY")] + SpellOrder(order)
  }

  function OneText(word: string, present: bool): seq<Token> {
    if present then [Word(word), Marker] else []
  }

  function GuardText<V>(when: seq<Prop<V>>, ifExists: bool): seq<Token> {
    if ifExists then [Word("IF EXISTS")] else if when != [] then [Word("IF")] + ConditionsText(when) else []
  }

  function SelectText<V>(ks: string, table: string, props: seq<Prop<V>>, fields: seq<Prop<V>>,
                         order: seq<(string, string)>, hasLimit: bool): seq<Token> {
    [Word("SELECT")] + ((if fields != [] then SpellColumns(Columns(fields)) else [Word("*")])
    + ([Word("FROM"), Table(ks, table)] + (FilterText(props) + (OrderText(order) + OneText("LIMIT", hasLimit)))))
  }

  function InsertText<V>(ks: string, table: string, props: seq<Prop<V>>, ifNotExists: bool, hasTtl: bool): seq<Token> {
    [Word("INSERT INTO"), Table(ks, table), Open] + (SpellColumns(Columns(props)) + ([Close, Word("VALUES"), Open]
    + (SpellMarkers(|props|) + ([Close] + ((if ifNotExists then [Word("IF NOT EXISTS")] else []) + OneText("USING TTL",
        hasTtl))))))
  }

  function UpdateText<V>(ks: string, table: string, pk: set<string>, props: seq<Prop<V>>, when: seq<Prop<V>>,
                         ifExists: bool, hasTtl: bool): seq<Token> {
    [Word("UPDATE"),
     Table(ks, table)] + (OneText("USING TTL", hasTtl) + ([Word("SET")] + (AssignmentsText(NonKeys(props, pk))
    + ([Word("WHERE")] + (KeysText(Keys(props, pk)) + GuardText(when, ifExists))))))
  }

  function DeleteText<V>(ks: string, table: string, pk: set<string>, props: seq<Prop<V>>, when: seq<Prop<V>>,
                         ifExists: bool, deleteOnlyColumns: bool): seq<Token> {
    [Word("DELETE")] + ((if deleteOnlyColumns then SpellColumns(Columns(NonKeys(props, pk))) else [])
    + ([Word("FROM"), Table(ks, table)] + ([Word("WHERE")] + (KeysText(Keys(props, pk)) + GuardText(when, ifExists)))))
  }

  // ---------------------------------------------------------------- what the document says

  /** The conditions a value puts on a column: `and` is both sides, to any depth. */
  function Conditions<V>(column: string, v: Value<V>, f: Option<Value<V> -> Value<V>>): (cs: seq<Condition<V>>)
    ensures cs != []
  {
    match v
    case And(left, right) => Conditions(column, left, f) + Conditions(column, right, f)
    case Op(rel, arg) => [Condition(column, RelationText(rel), Apply(f, arg))]
    case In(items) => [Condition(column, "IN", Items(ApplyEach(f, items)))]
    case _ => [Condition(column, "=", Apply(f, v))]
  }

  function AllConditions<V>(props: seq<Prop<V>>): seq<Condition<V>> {
    if props == [] then []
    else Conditions(props[0].column, props[0].value, props[0].fromModel) + AllConditions(props[1..])
  }

  function AssignmentOf<V>(p: Prop<V>): Assignment<V> {
    if !p.value.Assign? then SetTo(p.column, Apply(p.fromModel, p.value))
    else if p.value.inverted then InFront(p.column, p.value.sign, Apply(p.fromModel, p.value.arg))
    else Behind(p.column, p.value.sign, Apply(p.fromModel, p.value.arg))
  }

  function AllAssignments<V>(props: seq<Prop<V>>): seq<Assignment<V>> {
    if props == [] then [] else [AssignmentOf(props[0])] + AllAssignments(props[1..])
  }

  function AllValues<V>(props: seq<Prop<V>>): seq<Value<V>> {
    if props == [] then [] else [Apply(props[0].fromModel, props[0].value)] + AllValues(props[1..])
  }

  function GuardOf<V>(when: seq<Prop<V>>, ifExists: bool): Guard<V> {
    if ifExists then IfExists else if when != [] then IfAll(AllConditions(when)) else Unconditional
  }

  ghost predicate NoOperators<V>(props: seq<Prop<V>>) {
    forall i :: 0 <= i < |props| ==> !props[i].value.IsOperator()
  }

  ghost predicate NoAnds<V>(props: seq<Prop<V>>) {
    forall i :: 0 <= i < |props| ==> !props[i].value.And?
  }

  // ---------------------------------------------------------------- text and getter spell what the document says

  lemma {:induction false} ConditionSpelled<V>(column: string, v: Value<V>, f: Option<Value<V> -> Value<V>>)
    ensures ConditionText(column, v) == SpellConditions(Conditions(column, v, f))
    decreases v
  {
    if v.And? {
      ConditionSpelled(column, v.left, f);
      ConditionSpelled(column, v.right, f);
      SpellJoined(Conditions(column, v.left, f), Conditions(column, v.right, f));
    }
  }

  lemma {:induction false} ConditionsSpelled<V>(props: seq<Prop<V>>)
    ensures ConditionsText(props) == SpellConditions(AllConditions(props))
    ensures props != [] ==> AllConditions(props) != []
  {
    if props != [] {
      var p := props[0];
      ConditionSpelled(p.column, p.value, p.fromModel);
      ConditionsSpelled(props[1..]);
      var first := Conditions(p.column, p.value, p.fromModel);
      if |props| == 1 {
        assert props[1..] == [] && AllConditions(props) == first;
      } else {
        SpellJoined(first, AllConditions(props[1..]));
      }
    }
  }

  lemma {:induction false} GetterValue<V>(inWhen: bool, name: string, steps: seq<Step>, v: Value<V>, column: string,
                                          root: Value<V>, doc: Doc<V>, info: DocInfo<V>, m: Mapping<V>)
    requires Walk(root, steps) == v
    requires root == if !inWhen then doc.Get(name) else if info.when.Some? then info.when.value.Get(name) else Undefined
    ensures EvalAll(ValueGetter(inWhen, name, steps, v, m.fromModel(name).Some?), doc, info, m)
      == ConditionValues(Conditions(column, v, m.fromModel(name)))
    decreases v
  {
    var mapped := m.fromModel(name).Some?;
    if v.And? {
      var a, b := steps + [FirstChild], steps + [SecondChild];
      assert a[..|a| - 1] == steps && b[..|b| - 1] == steps;
      GetterValue(inWhen, name, a, v.left, column, root, doc, info, m);
      GetterValue(inWhen, name, b, v.right, column, root, doc, info, m);
      EvalJoined(ValueGetter(inWhen, name, a, v.left, mapped), ValueGetter(inWhen, name, b, v.right, mapped), doc, info,
                 m);
      ValuesJoined(Conditions(column, v.left, m.fromModel(name)), Conditions(column, v.right, m.fromModel(name)));
      hide Eval, Apply, ApplyEach;
    } else {
      LeafGetterValue(inWhen, name, steps, v, column, root, doc, info, m);
      hide Eval, Apply, ApplyEach, ValueGetter, Conditions;
    }
  }

  lemma {:induction false} LeafGetterValue<V>(inWhen: bool, name: string, steps: seq<Step>, v: Value<V>, column: string,
                                              root: Value<V>, doc: Doc<V>, info: DocInfo<V>, m: Mapping<V>)
    requires Walk(root, steps) == v && !v.And?
    requires root == if !inWhen then doc.Get(name) else if info.when.Some? then info.when.value.Get(name) else Undefined
    ensures EvalAll(ValueGetter(inWhen, name, steps, v, m.fromModel(name).Some?), doc, info, m)
      == ConditionValues(Conditions(column, v, m.fromModel(name)))
  {
    var mapped := m.fromModel(name).Some?;
    if v.Op? || v.In? {
      var a := steps + [ValueField];
      assert a[..|a| - 1] == steps && Walk(root, a) == StepInto(v, ValueField);
      if v.In? && !mapped {
        ApplyNone(m.fromModel(name), v.items);
      }
    }
    var g, cs := ValueGetter(inWhen, name, steps, v, mapped), Conditions(column, v, m.fromModel(name));
    assert |g| == 1 && |cs| == 1 && Eval(g[0], doc, info, m) == cs[0].value;
    hide Eval, Conditions, ValueGetter;
    assert g[1..] == [] && EvalAll(g, doc, info, m) == [Eval(g[0], doc, info, m)];
    assert cs[1..] == [] && ConditionValues(cs) == [cs[0].value];
  }

  lemma {:induction false} ApplyNone<V>(f: Option<Value<V> -> Value<V>>, items: seq<Value<V>>)
    requires f.None?
    ensures ApplyEach(f, items) == items
  {
    if items != [] {
      ApplyNone(f, items[1..]);
    }
  }

  ghost function Source<V>(inWhen: bool, doc: Doc<V>, info: DocInfo<V>): Doc<V> {
    if !inWhen then doc else if info.when.Some? then info.when.value else Doc([], map[])
  }

  lemma {:induction false} GetterValues<V>(props: seq<Prop<V>>, inWhen: bool, doc: Doc<V>, info: DocInfo<V>,
                                           m: Mapping<V>)
    requires Reads(props, Source(inWhen, doc, info), m)
    ensures EvalAll(ValueGetters(props, inWhen), doc, info, m) == ConditionValues(AllConditions(props))
  {
    if props != [] {
      var p, rest := props[0], props[1..];
      GetterValue(inWhen, p.name, [], p.value, p.column, p.value, doc, info, m);
      GetterValues(rest, inWhen, doc, info, m);
      EvalJoined(ValueGetter(inWhen, p.name, [], p.value, p.fromModel.Some?), ValueGetters(rest, inWhen), doc, info, m);
      ValuesJoined(Conditions(p.column, p.value, p.fromModel), AllConditions(rest));
    }
  }

  lemma {:induction false} AssignmentsSpelled<V>(props: seq<Prop<V>>)
    ensures AssignmentsText(props) == SpellAssignments(AllAssignments(props)) && |AllAssignments(props)| == |props|
  {
    if props != [] {
      AssignmentsSpelled(props[1..]);
      assert AllAssignments(props)[1..] == AllAssignments(props[1..]);
    }
  }

  lemma {:induction false} AssignmentGetterValues<V>(props: seq<Prop<V>>, doc: Doc<V>, info: DocInfo<V>, m: Mapping<V>)
    requires Reads(props, doc, m)
    ensures EvalAll(AssignmentGetters(props), doc, info, m) == AssignmentValues(AllAssignments(props))
  {
    if props != [] {
      var p := props[0];
      AssignmentGetterValues(props[1..], doc, info, m);
      var steps := if p.value.Assign? then [ValueField] else [];
      assert steps != [] ==> steps[..|steps| - 1] == [];
      assert Walk(p.value, steps) == if p.value.Assign? then p.value.arg else p.value;
      assert AssignmentGetters(props)[1..] == AssignmentGetters(props[1..]);
      assert AllAssignments(props)[1..] == AllAssignments(props[1..]);
    }
  }

  lemma {:induction false} KeysRead<V>(props: seq<Prop<V>>, doc: Doc<V>, m: Mapping<V>, pk: set<string>)
    requires Reads(props, doc, m)
    ensures Reads(Keys(props, pk), doc, m) && Reads(NonKeys(props, pk), doc, m)
  {
    if props != [] {
      KeysRead(props[1..], doc, m, pk);
    }
  }
}
