/** Shape keys of INSERT, UPDATE and DELETE: which statement parts they determine, and where a missing separator or a
    shared tree lets two statements meet under one key. */
module CachedMutations {
  import opened Bytes
  import opened MapperValues
  import opened Statements
  import opened QueryText
  import opened QueryMeaning
  import opened CacheKey
  import opened CachedStatements

  // ---------------------------------------------------------------- keys as element lists

  lemma {:induction false} FramedPlain(items: seq<Element>, fields: seq<string>, m1: bool, mark1: string, m2: bool,
                                       mark2: string)
    requires Plain(items) && Unreserved(fields) && mark1 in MARKS && mark2 in MARKS
    ensures Plain(Framed(items, fields, m1, mark1, m2, mark2))
  {
    PlainParts(fields, m1, mark1);
    PlainParts(fields, m2, mark2);
    var b, c, d := FieldElements(fields), MarkIf(m1, mark1), MarkIf(m2, mark2);
    PlainJoined(c, d);
    PlainJoined(b, c + d);
    PlainJoined(items, b + (c + d));
  }

  ghost function InsertElements<V>(doc: Doc<V>, info: DocInfo<V>): seq<Element> {
    Framed(BareItems(doc.keys), info.fields, info.ttl.Some?, "|t|", info.ifNotExists, "|e|")
  }

  ghost function UpdateElements<V>(doc: Doc<V>, info: DocInfo<V>): seq<Element> {
    Framed(AllItems(doc.keys, doc), info.fields, info.ttl.Some?, "|t|", info.ifExists, "|e|") + WhenItems(info)
  }

  ghost function RemoveElements<V>(doc: Doc<V>, info: DocInfo<V>): seq<Element> {
    Framed(OperatorItems(doc.keys, doc), info.fields, info.ifExists, "|e|", info.deleteOnlyColumns,
           "|dc|") + WhenItems(info)
  }

  lemma {:induction false} WhenKey<V>(info: DocInfo<V>)
    ensures WhenAtoms(info) == Flatten(WhenItems(info)) && |WhenItems(info)| == |WhenNames(info)|
    ensures Unreserved(WhenNames(info)) ==> Plain(WhenItems(info))
  {
    if info.when.Some? {
      OperatorItemsKey(info.when.value.keys, info.when.value);
    }
  }

  lemma {:induction false} InsertKeyIs<V>(doc: Doc<V>, info: DocInfo<V>)
    requires Named(doc, info)
    ensures InsertKey(doc, info) == Flatten(InsertElements(doc, info)) && Plain(InsertElements(doc, info))
  {
    BareItemsKey(doc.keys);
    PlainParts(doc.keys, true, "|f|");
    FramedKey(BareItems(doc.keys), info.fields, info.ttl.Some?, "|t|", info.ifNotExists, "|e|");
    FramedPlain(BareItems(doc.keys), info.fields, info.ttl.Some?, "|t|", info.ifNotExists, "|e|");
  }

  lemma {:induction false} UpdateKeyIs<V>(doc: Doc<V>, info: DocInfo<V>)
    requires Named(doc, info)
    ensures UpdateKey(doc, info) == Flatten(UpdateElements(doc, info)) && Plain(UpdateElements(doc, info))
  {
    AllItemsKey(doc.keys, doc);
    WhenKey(info);
    var items := AllItems(doc.keys, doc);
    assert Plain(items);
    FramedKey(items, info.fields, info.ttl.Some?, "|t|", info.ifExists, "|e|");
    FramedPlain(items, info.fields, info.ttl.Some?, "|t|", info.ifExists, "|e|");
    var framed := Framed(items, info.fields, info.ttl.Some?, "|t|", info.ifExists, "|e|");
    FlattenJoined(framed, WhenItems(info));
    PlainJoined(framed, WhenItems(info));
    hide Framed, Flatten, Plain;
  }

  lemma {:induction false} RemoveKeyIs<V>(doc: Doc<V>, info: DocInfo<V>)
    requires Named(doc, info)
    ensures RemoveKey(doc, info) == Flatten(RemoveElements(doc, info)) && Plain(RemoveElements(doc, info))
  {
    OperatorItemsKey(doc.keys, doc);
    WhenKey(info);
    var items := OperatorItems(doc.keys, doc);
    assert Plain(items);
    FramedKey(items, info.fields, info.ifExists, "|e|", info.deleteOnlyColumns, "|dc|");
    FramedPlain(items, info.fields, info.ifExists, "|e|", info.deleteOnlyColumns, "|dc|");
    var framed := Framed(items, info.fields, info.ifExists, "|e|", info.deleteOnlyColumns, "|dc|");
    FlattenJoined(framed, WhenItems(info));
    PlainJoined(framed, WhenItems(info));
    hide Framed, Flatten, Plain;
  }

  // ---------------------------------------------------------------- equal keys

  lemma {:induction false} InsertKeyShape<V>(d1: Doc<V>, i1: DocInfo<V>, d2: Doc<V>, i2: DocInfo<V>)
    requires Named(d1, i1) && Named(d2, i2) && InsertKey(d1, i1) == InsertKey(d2, i2)
    ensures d1.keys == d2.keys && i1.fields == i2.fields && i1.ttl.Some? == i2.ttl.Some?
    ensures i1.ifNotExists == i2.ifNotExists
  {
    InsertKeyIs(d1, i1);
    InsertKeyIs(d2, i2);
    FlattenUnique(InsertElements(d1, i1), InsertElements(d2, i2));
    FramedUnique(BareItems(d1.keys), i1.fields, i1.ttl.Some?, i1.ifNotExists,
                 BareItems(d2.keys), i2.fields, i2.ttl.Some?, i2.ifNotExists, "|t|", "|e|");
    BareItemsUnique(d1.keys, d2.keys);
  }

  lemma {:induction false} SplitWhen(a: seq<Element>, w: seq<Element>, b: seq<Element>, x: seq<Element>)
    requires a + w == b + x && |w| == |x|
    ensures a == b && w == x
  {
    assert a == (a + w)[..|a|] && b == (a + w)[..|a|] && w == (a + w)[|a|..] && x == (a + w)[|a|..];
  }

  /** Both conditions' documents, or empty ones. */
  ghost function WhenDoc<V>(info: DocInfo<V>): Doc<V> {
    if info.when.Some? then info.when.value else Doc([], map[])
  }

  lemma {:induction false} WhenSame<V>(i1: DocInfo<V>, i2: DocInfo<V>)
    requires i1.Valid() && i2.Valid() && WhenItems(i1) == WhenItems(i2)
    ensures WhenNames(i1) == WhenNames(i2) && SameOperators(WhenDoc(i1), WhenDoc(i2))
  {
    assert WhenItems(i1) == OperatorItems(WhenDoc(i1).keys, WhenDoc(i1));
    assert WhenItems(i2) == OperatorItems(WhenDoc(i2).keys, WhenDoc(i2));
    OperatorItemsSame(WhenDoc(i1), WhenDoc(i2));
  }

  /** Equal UPDATE keys with as many `when` keys: the same names, shapes, fields, flags and conditions. */
  lemma {:induction false} UpdateKeyShape<V>(d1: Doc<V>, i1: DocInfo<V>, d2: Doc<V>, i2: DocInfo<V>)
    requires Named(d1, i1) && Named(d2, i2) && UpdateKey(d1, i1) == UpdateKey(d2, i2)
    requires |WhenNames(i1)| == |WhenNames(i2)|
    ensures d1.keys == d2.keys && SameShapes(d1, d2) && i1.fields == i2.fields && i1.ttl.Some? == i2.ttl.Some?
    ensures i1.ifExists == i2.ifExists && WhenNames(i1) == WhenNames(i2) && SameOperators(WhenDoc(i1), WhenDoc(i2))
  {
    UpdateKeyIs(d1, i1);
    UpdateKeyIs(d2, i2);
    FlattenUnique(UpdateElements(d1, i1), UpdateElements(d2, i2));
    WhenKey(i1);
    WhenKey(i2);
    hide Flatten, UpdateKey, Plain;
    var f1 := Framed(AllItems(d1.keys, d1), i1.fields, i1.ttl.Some?, "|t|", i1.ifExists, "|e|");
    var f2 := Framed(AllItems(d2.keys, d2), i2.fields, i2.ttl.Some?, "|t|", i2.ifExists, "|e|");
    SplitWhen(f1, WhenItems(i1), f2, WhenItems(i2));
    hide Framed;
    FramedUnique(AllItems(d1.keys, d1), i1.fields, i1.ttl.Some?, i1.ifExists,
                 AllItems(d2.keys, d2), i2.fields, i2.ttl.Some?, i2.ifExists, "|t|", "|e|");
    AllItemsSame(d1, d2);
    WhenSame(i1, i2);
  }

  lemma {:induction false} RemoveKeyShape<V>(d1: Doc<V>, i1: DocInfo<V>, d2: Doc<V>, i2: DocInfo<V>)
    requires Named(d1, i1) && Named(d2, i2) && RemoveKey(d1, i1) == RemoveKey(d2, i2)
    requires |WhenNames(i1)| == |WhenNames(i2)|
    ensures d1.keys == d2.keys && SameOperators(d1, d2) && i1.fields == i2.fields && i1.ifExists == i2.ifExists
    ensures i1.deleteOnlyColumns == i2.deleteOnlyColumns && WhenNames(i1) == WhenNames(i2)
    ensures SameOperators(WhenDoc(i1), WhenDoc(i2))
  {
    RemoveKeyIs(d1, i1);
    RemoveKeyIs(d2, i2);
    FlattenUnique(RemoveElements(d1, i1), RemoveElements(d2, i2));
    WhenKey(i1);
    WhenKey(i2);
    hide Flatten, RemoveKey, Plain;
    var f1 := Framed(OperatorItems(d1.keys, d1), i1.fields, i1.ifExists, "|e|", i1.deleteOnlyColumns, "|dc|");
    var f2 := Framed(OperatorItems(d2.keys, d2), i2.fields, i2.ifExists, "|e|", i2.deleteOnlyColumns, "|dc|");
    SplitWhen(f1, WhenItems(i1), f2, WhenItems(i2));
    hide Framed;
    FramedUnique(OperatorItems(d1.keys, d1), i1.fields, i1.ifExists, i1.deleteOnlyColumns,
                 OperatorItems(d2.keys, d2), i2.fields, i2.ifExists, i2.deleteOnlyColumns, "|e|", "|dc|");
    OperatorItemsSame(d1, d2);
    WhenSame(i1, i2);
  }

  // ---------------------------------------------------------------- the statements they determine

  /** The text and the getter of a compiled statement. */
  datatype Compiled = Compiled(text: seq<Token>, getter: seq<Access>)

  function CompileInsert<V>(ks: string, table: TableInfo, doc: Doc<V>, info: DocInfo<V>, m: Mapping<V>): Compiled {
    var props := InTable(PropertiesInfo(doc.keys, info.fields, doc, m), table);
    Compiled(InsertText(ks, table.name, props, info.ifNotExists, info.ttl.Some?), InsertGetter(props, info.ttl.Some?))
  }

  function CompileUpdate<V>(ks: string, table: TableInfo, doc: Doc<V>, info: DocInfo<V>, m: Mapping<V>): Compiled {
    var props, when, pk := InTable(PropertiesInfo(doc.keys, info.fields, doc, m), table), WhenInfo(info, m),
        table.PrimaryKey();
    Compiled(UpdateText(ks, table.name, pk, props, when, info.ifExists, info.ttl.Some?),
             UpdateGetter(pk, props, when, info.ttl.Some?))
  }

  function CompileDelete<V>(ks: string, table: TableInfo, doc: Doc<V>, info: DocInfo<V>, m: Mapping<V>): Compiled {
    var props, when, pk := InTable(PropertiesInfo(doc.keys, info.fields, doc, m), table), WhenInfo(info, m),
        table.PrimaryKey();
    Compiled(DeleteText(ks, table.name, pk, props, when, info.ifExists, info.deleteOnlyColumns),
             DeleteGetter(pk, props, when))
  }

  ghost predicate NoOperatorValues<V>(doc: Doc<V>) {
    forall name :: !doc.Get(name).IsOperator()
  }

  /** Equal INSERT keys of documents without operators, on one table, give one statement and one getter. */
  lemma {:induction false} InsertKeyDetermines<V>(ks: string, table: TableInfo, d1: Doc<V>, i1: DocInfo<V>, d2: Doc<V>,
                                                  i2: DocInfo<V>, m: Mapping<V>)
    requires Named(d1, i1) && Named(d2, i2) && InsertKey(d1, i1) == InsertKey(d2, i2) && NoOperatorValues(d1)
    requires NoOperatorValues(d2)
    ensures CompileInsert(ks, table, d1, i1, m) == CompileInsert(ks, table, d2, i2, m)
  {
    InsertKeyShape(d1, i1, d2, i2);
    assert SameOperators(d1, d2);
    var names := if i1.fields != [] then i1.fields else d1.keys;
    var p, q := PropsOf(names, d1, m), PropsOf(names, d2, m);
    PropsAlike(names, d1, d2, m);
    InTableAlike(p, q, table);
    ListsAlike(InTable(p, table), InTable(q, table), false);
    hide InsertKey, PropsOf, InTable, ValueGetters, Columns, ConditionsText, KeysText;
  }

  lemma {:induction false} WhenAlike<V>(i1: DocInfo<V>, i2: DocInfo<V>, m: Mapping<V>)
    requires WhenNames(i1) == WhenNames(i2) && SameOperators(WhenDoc(i1), WhenDoc(i2))
    ensures Alike(WhenInfo(i1, m), WhenInfo(i2, m))
  {
    assert WhenInfo(i1, m) == PropsOf(WhenNames(i1), WhenDoc(i1), m);
    assert WhenInfo(i2, m) == PropsOf(WhenNames(i2), WhenDoc(i2), m);
    PropsAlike(WhenNames(i1), WhenDoc(i1), WhenDoc(i2), m);
  }

  /** The WHERE and IF clauses and their getters. */
  lemma {:induction false} KeyPartsAlike<V>(p: seq<Prop<V>>, q: seq<Prop<V>>, when1: seq<Prop<V>>, when2: seq<Prop<V>>,
                                            pk: set<string>, ifExists: bool)
    requires Alike(p, q) && Alike(when1, when2)
    ensures KeysText(Keys(p, pk)) == KeysText(Keys(q, pk)) && GuardText(when1, ifExists) == GuardText(when2, ifExists)
    ensures ValueGetters(Keys(p, pk), false) == ValueGetters(Keys(q, pk), false)
    ensures WhenGetter(Keys(p, pk), when1) == WhenGetter(Keys(q, pk), when2)
  {
    KeysAlike(p, q, pk);
    ListsAlike(Keys(p, pk), Keys(q, pk), false);
    ListsAlike(when1, when2, true);
    hide Keys, ValueGetters, ConditionsText, KeysText, Columns;
  }

  // ---------------------------------------------------------------- how many conditions a getter reads from `when`

  function Leaves(s: Shape): (n: nat)
    ensures n >= 1
  {
    if s.Both? then Leaves(s.left) + Leaves(s.right) else 1
  }

  ghost function ItemLeaves(es: seq<Element>): (n: nat)
    ensures n >= |es|
  {
    if es == [] then 0 else (if es[0].Item? then Leaves(es[0].shape) else 1) + ItemLeaves(es[1..])
  }

  lemma {:induction false} ItemLeavesJoined(a: seq<Element>, b: seq<Element>)
    ensures ItemLeaves(a + b) == ItemLeaves(a) + ItemLeaves(b)
  {
    if a == [] {
      assert a + b == b;
    } else {
      assert (a + b)[0] == a[0] && (a + b)[1..] == a[1..] + b;
      ItemLeavesJoined(a[1..], b);
    }
  }

  function ReadsWhen(getter: seq<Access>): nat {
    if getter == [] then 0 else (if getter[0].Path? && getter[0].inWhen then 1 else 0) + ReadsWhen(getter[1..])
  }

  lemma {:induction false} ReadsWhenJoined(a: seq<Access>, b: seq<Access>)
    ensures ReadsWhen(a + b) == ReadsWhen(a) + ReadsWhen(b)
  {
    if a == [] {
      assert a + b == b;
    } else {
      assert (a + b)[0] == a[0] && (a + b)[1..] == a[1..] + b;
      ReadsWhenJoined(a[1..], b);
    }
  }

  lemma {:induction false} ReadsWhenOne<V>(inWhen: bool, name: string, steps: seq<Step>, v: Value<V>, mapped: bool)
    ensures ReadsWhen(ValueGetter(inWhen, name, steps, v, mapped)) == if inWhen then Leaves(OperatorShape(v)) else 0
    decreases v
  {
    if v.And? {
      ReadsWhenOne(inWhen, name, steps + [FirstChild], v.left, mapped);
      ReadsWhenOne(inWhen, name, steps + [SecondChild], v.right, mapped);
      ReadsWhenJoined(ValueGetter(inWhen, name, steps + [FirstChild], v.left, mapped),
                      ValueGetter(inWhen, name, steps + [SecondChild], v.right, mapped));
    } else {
      var g := ValueGetter(inWhen, name, steps, v, mapped);
      assert |g| == 1 && g[0].inWhen == inWhen && g[1..] == [];
    }
  }

  lemma {:induction false} ReadsWhenAll<V>(props: seq<Prop<V>>, names: seq<string>, doc: Doc<V>, m: Mapping<V>)
    ensures ReadsWhen(ValueGetters(props, false)) == 0
    ensures props == PropsOf(names, doc, m) ==>
      ReadsWhen(ValueGetters(props, true)) == ItemLeaves(OperatorItems(names, doc))
  {
    if props != [] {
      ReadsWhenAll(props[1..], if names != [] then names[1..] else [], doc, m);
      forall inWhen: bool
        ensures ReadsWhen(ValueGetters(props, inWhen))
          == (if inWhen then Leaves(OperatorShape(props[0].value)) else 0) + ReadsWhen(ValueGetters(props[1..], inWhen))
      {
        ReadsWhenOne(inWhen, props[0].name, [], props[0].value, props[0].fromModel.Some?);
        ReadsWhenJoined(ValueGetter(inWhen, props[0].name, [], props[0].value, props[0].fromModel.Some?),
                        ValueGetters(props[1..], inWhen));
      }
      if props == PropsOf(names, doc, m) {
        assert props[1..] == PropsOf(names[1..], doc, m);
        assert OperatorItems(names, doc)[1..] == OperatorItems(names[1..], doc);
      }
    } else {
      PropsRead(names, doc, m);
      assert ValueGetters(props, true) == [] && ValueGetters(props, false) == [];
    }
  }

  lemma {:induction false} AssignmentsReadNoWhen<V>(props: seq<Prop<V>>)
    ensures ReadsWhen(AssignmentGetters(props)) == 0
  {
    if props != [] {
      AssignmentsReadNoWhen(props[1..]);
      assert AssignmentGetters(props)[1..] == AssignmentGetters(props[1..]);
    }
  }

  lemma {:induction false} KeyGetterReadsWhen<V>(keys: seq<Prop<V>>, info: DocInfo<V>, m: Mapping<V>)
    ensures ReadsWhen(ValueGetters(keys, false) + WhenGetter(keys, WhenInfo(info, m))) == ItemLeaves(WhenItems(info))
  {
    var when := WhenInfo(info, m);
    assert when == PropsOf(WhenNames(info), WhenDoc(info), m);
    assert WhenItems(info) == OperatorItems(WhenNames(info), WhenDoc(info));
    ReadsWhenAll(when, WhenNames(info), WhenDoc(info), m);
    ReadsWhenAll(keys, [], WhenDoc(info), m);
    ReadsWhenJoined(ValueGetters(keys, false), WhenGetter(keys, when));
    var hole: seq<Access> := if keys == [] then [Hole] else [];
    assert hole != [] ==> hole[1..] == [];
    ReadsWhenJoined(hole, ValueGetters(when, true));
    PropsRead(WhenNames(info), WhenDoc(info), m);
    hide PropsOf, WhenInfo, OperatorItems;
  }

  lemma {:induction false} UpdateGetterReadsWhen<V>(ks: string, table: TableInfo, doc: Doc<V>, info: DocInfo<V>,
                                                    m: Mapping<V>)
    ensures ReadsWhen(CompileUpdate(ks, table, doc, info, m).getter) == ItemLeaves(WhenItems(info))
  {
    var props, when, pk := InTable(PropertiesInfo(doc.keys, info.fields, doc, m), table), WhenInfo(info, m),
        table.PrimaryKey();
    hide InTable, PropertiesInfo, WhenInfo, UpdateText, UpdateGetter;
    UpdateGetterCount(pk, props, when, info.ttl.Some?);
    KeyGetterReadsWhen(Keys(props, pk), info, m);
  }

  lemma {:induction false} UpdateGetterCount<V>(pk: set<string>, props: seq<Prop<V>>, when: seq<Prop<V>>, hasTtl: bool)
    ensures ReadsWhen(UpdateGetter(pk, props, when, hasTtl))
      == ReadsWhen(ValueGetters(Keys(props, pk), false) + WhenGetter(Keys(props, pk), when))
  {
    hide Keys, NonKeys, WhenGetter, ValueGetters, AssignmentGetters;
    var keys, others := Keys(props, pk), NonKeys(props, pk);
    var head: seq<Access> := if hasTtl then [TtlField] else [];
    var sets := if others == [] then [Hole] else AssignmentGetters(others);
    var tail := ValueGetters(keys, false) + WhenGetter(keys, when);
    assert UpdateGetter(pk, props, when, hasTtl) == head + (sets + tail);
    hide UpdateGetter;
    assert head != [] ==> head[1..] == [];
    assert others == [] ==> sets[1..] == [];
    AssignmentsReadNoWhen(others);
    ReadsWhenJoined(head, sets + tail);
    ReadsWhenJoined(sets, tail);
  }

  /** Element lists that agree but end in more `when` items hold more conditions. */
  lemma {:induction false} MoreWhenItems(a: seq<Element>, w: seq<Element>, b: seq<Element>, x: seq<Element>)
    requires a + w == b + x && |w| < |x|
    ensures ItemLeaves(w) < ItemLeaves(x)
  {
    var n := |x| - |w|;
    assert |a| == |b| + n;
    assert w == (a + w)[|a|..] && x == (a + w)[|b|..];
    assert x == x[..n] + w;
    ItemLeavesJoined(x[..n], w);
  }

  lemma {:induction false} SameUpdate<V>(ks: string, table: TableInfo, d1: Doc<V>, i1: DocInfo<V>, d2: Doc<V>,
                                         i2: DocInfo<V>, m: Mapping<V>)
    requires Named(d1, i1) && Named(d2, i2) && UpdateKey(d1, i1) == UpdateKey(d2, i2)
    requires |WhenNames(i1)| == |WhenNames(i2)|
    ensures CompileUpdate(ks, table, d1, i1, m) == CompileUpdate(ks, table, d2, i2, m)
  {
    UpdateKeyShape(d1, i1, d2, i2);
    WhenAlike(i1, i2, m);
    hide UpdateKey, Named, WhenNames, SameOperators, SameShapes;
    var names := if i1.fields != [] then i1.fields else d1.keys;
    var pk := table.PrimaryKey();
    PropsAlike(names, d1, d2, m);
    InTableAlike(PropsOf(names, d1, m), PropsOf(names, d2, m), table);
    var p, q := InTable(PropsOf(names, d1, m), table), InTable(PropsOf(names, d2, m), table);
    hide PropsOf, InTable, WhenInfo;
    NonKeysAlike(p, q, pk);
    ChangesAlike(NonKeys(p, pk), NonKeys(q, pk));
    KeyPartsAlike(p, q, WhenInfo(i1, m), WhenInfo(i2, m), pk, i1.ifExists);
    hide Keys, NonKeys, KeysText, GuardText, ValueGetters, WhenGetter, AssignmentsText, AssignmentGetters;
  }

  lemma {:induction false} SameDelete<V>(ks: string, table: TableInfo, d1: Doc<V>, i1: DocInfo<V>, d2: Doc<V>,
                                         i2: DocInfo<V>, m: Mapping<V>)
    requires Named(d1, i1) && Named(d2, i2) && RemoveKey(d1, i1) == RemoveKey(d2, i2)
    requires |WhenNames(i1)| == |WhenNames(i2)|
    ensures CompileDelete(ks, table, d1, i1, m) == CompileDelete(ks, table, d2, i2, m)
  {
    RemoveKeyShape(d1, i1, d2, i2);
    WhenAlike(i1, i2, m);
    hide RemoveKey, Named, WhenNames, SameOperators;
    var names := if i1.fields != [] then i1.fields else d1.keys;
    var pk := table.PrimaryKey();
    PropsAlike(names, d1, d2, m);
    InTableAlike(PropsOf(names, d1, m), PropsOf(names, d2, m), table);
    var p, q := InTable(PropsOf(names, d1, m), table), InTable(PropsOf(names, d2, m), table);
    hide PropsOf, InTable, WhenInfo;
    NonKeysAlike(p, q, pk);
    ListsAlike(NonKeys(p, pk), NonKeys(q, pk), false);
    KeyPartsAlike(p, q, WhenInfo(i1, m), WhenInfo(i2, m), pk, i1.ifExists);
    hide Keys, NonKeys, KeysText, GuardText, ValueGetters, WhenGetter, Columns;
  }

  /** Equal UPDATE keys, on one table, give one statement and one getter exactly when the numbers of `when` keys are
      equal: those keys follow the others in the key without a separator. */
  lemma {:induction false} UpdateKeyDetermines<V>(ks: string, table: TableInfo, d1: Doc<V>, i1: DocInfo<V>, d2: Doc<V>,
                                                  i2: DocInfo<V>, m: Mapping<V>)
    requires Named(d1, i1) && Named(d2, i2) && UpdateKey(d1, i1) == UpdateKey(d2, i2)
    ensures CompileUpdate(ks, table, d1, i1, m) == CompileUpdate(ks, table, d2, i2, m)
      <==> |WhenNames(i1)| == |WhenNames(i2)|
  {
    if |WhenNames(i1)| == |WhenNames(i2)| {
      SameUpdate(ks, table, d1, i1, d2, i2, m);
    } else {
      UpdateKeyIs(d1, i1);
      UpdateKeyIs(d2, i2);
      FlattenUnique(UpdateElements(d1, i1), UpdateElements(d2, i2));
      WhenKey(i1);
      WhenKey(i2);
      UpdateGetterReadsWhen(ks, table, d1, i1, m);
      UpdateGetterReadsWhen(ks, table, d2, i2, m);
      hide CompileUpdate, Flatten, UpdateKey, Plain, Framed, ItemLeaves, WhenItems, ReadsWhen;
      var f1 := Framed(AllItems(d1.keys, d1), i1.fields, i1.ttl.Some?, "|t|", i1.ifExists, "|e|");
      var f2 := Framed(AllItems(d2.keys, d2), i2.fields, i2.ttl.Some?, "|t|", i2.ifExists, "|e|");
      if |WhenNames(i1)| < |WhenNames(i2)| {
        MoreWhenItems(f1, WhenItems(i1), f2, WhenItems(i2));
      } else {
        MoreWhenItems(f2, WhenItems(i2), f1, WhenItems(i1));
      }
    }
  }

  /** The same for DELETE. */
  lemma {:induction false} RemoveKeyDetermines<V>(ks: string, table: TableInfo, d1: Doc<V>, i1: DocInfo<V>, d2: Doc<V>,
                                                  i2: DocInfo<V>, m: Mapping<V>)
    requires Named(d1, i1) && Named(d2, i2) && RemoveKey(d1, i1) == RemoveKey(d2, i2)
    ensures CompileDelete(ks, table, d1, i1, m) == CompileDelete(ks, table, d2, i2, m)
      <==> |WhenNames(i1)| == |WhenNames(i2)|
  {
    if |WhenNames(i1)| == |WhenNames(i2)| {
      SameDelete(ks, table, d1, i1, d2, i2, m);
    } else {
      RemoveKeyIs(d1, i1);
      RemoveKeyIs(d2, i2);
      FlattenUnique(RemoveElements(d1, i1), RemoveElements(d2, i2));
      WhenKey(i1);
      WhenKey(i2);
      var pk := table.PrimaryKey();
      KeyGetterReadsWhen(Keys(InTable(PropertiesInfo(d1.keys, i1.fields, d1, m), table), pk), i1, m);
      KeyGetterReadsWhen(Keys(InTable(PropertiesInfo(d2.keys, i2.fields, d2, m), table), pk), i2, m);
      hide Flatten, RemoveKey, Plain, Framed, ItemLeaves, WhenItems, ReadsWhen, InTable, PropertiesInfo, DeleteText;
      hide ValueGetters, WhenGetter;
      var f1 := Framed(OperatorItems(d1.keys, d1), i1.fields, i1.ifExists, "|e|", i1.deleteOnlyColumns, "|dc|");
      var f2 := Framed(OperatorItems(d2.keys, d2), i2.fields, i2.ifExists, "|e|", i2.deleteOnlyColumns, "|dc|");
      if |WhenNames(i1)| < |WhenNames(i2)| {
        MoreWhenItems(f1, WhenItems(i1), f2, WhenItems(i2));
      } else {
        MoreWhenItems(f2, WhenItems(i2), f1, WhenItems(i1));
      }
    }
  }

  /** Such keys exist: a property to set and the same property as a condition, in otherwise equal documents, give one
      key and different statements. */
  lemma {:induction false} WhenKeysCollide(ks: string, table: TableInfo, a: string, b: string, m: Mapping<int>)
    requires a != b && !Reserved(a) && !Reserved(b)
    ensures var none := DocInfo([], None, None, None, false, false, None, false);
      var d1, d2 := Doc([a, b], map[a := Lit(0), b := Lit(0)]), Doc([a], map[a := Lit(0)]);
      var i2 := none.(when := Some(Doc([b], map[b := Lit(0)])));
      && UpdateKey(d1, none) == UpdateKey(d2, i2) && RemoveKey(d1, none) == RemoveKey(d2, i2)
      && CompileUpdate(ks, table, d1, none, m) != CompileUpdate(ks, table, d2, i2, m)
      && CompileDelete(ks, table, d1, none, m) != CompileDelete(ks, table, d2, i2, m)
  {
    var none: DocInfo<int> := DocInfo([], None, None, None, false, false, None, false);
    var d1, d2, w := Doc([a, b], map[a := Lit(0), b := Lit(0)]), Doc([a], map[a := Lit(0)]), Doc([b], map[b := Lit(0)]);
    var i2 := none.(when := Some(w));
    WhenKeysEqual(a, b);
    assert Named(d1, none) && Named(d2, i2);
    hide UpdateKey, RemoveKey, CompileUpdate, CompileDelete, Named;
    UpdateKeyDetermines(ks, table, d1, none, d2, i2, m);
    RemoveKeyDetermines(ks, table, d1, none, d2, i2, m);
  }

  lemma {:induction false} WhenKeysEqual(a: string, b: string)
    ensures var none := DocInfo([], None, None, None, false, false, None, false);
      var d1, d2 := Doc([a, b], map[a := Lit(0), b := Lit(0)]), Doc([a], map[a := Lit(0)]);
      var i2 := none.(when := Some(Doc([b], map[b := Lit(0)])));
      UpdateKey(d1, none) == UpdateKey(d2, i2) && RemoveKey(d1, none) == RemoveKey(d2, i2)
  {
    var d1, d2, w := Doc([a, b], map[a := Lit(0), b := Lit(0)]), Doc([a], map[a := Lit(0)]), Doc([b], map[b := Lit(0)]);
    assert [a, b][1..] == [b] && [b][1..] == [] && [a][1..] == [];
    assert d1.Get(a) == Lit(0) && d1.Get(b) == Lit(0) && d2.Get(a) == Lit(0) && w.Get(b) == Lit(0);
    assert NamesAndAll([], d1) == [] && NamesAndOperators([], d1) == [];
    assert NamesAndAll([], d2) == [] && NamesAndOperators([], d2) == [];
    assert NamesAndAll([b], d1) == [Str(b)] && NamesAndOperators([b], d1) == [Str(b)];
    assert NamesAndAll([a, b], d1) == [Str(a), Str(b)] && NamesAndOperators([a, b], d1) == [Str(a), Str(b)];
    assert NamesAndAll([a], d2) == [Str(a)] && NamesAndOperators([a], d2) == [Str(a)];
    assert NamesAndOperators([b], w) == [Str(b)];
  }

  /** An UPDATE compiled for one document, run on another with the same key and as many `when` keys, means what the
      other says, whenever a fresh statement for the other would. */
  lemma {:induction false} CachedUpdateMeaning<V>(ks: string, table: TableInfo, d1: Doc<V>, i1: DocInfo<V>, d2: Doc<V>,
                                                  i2: DocInfo<V>, m: Mapping<V>)
    requires Named(d1, i1) && Named(d2, i2) && UpdateKey(d1, i1) == UpdateKey(d2, i2)
    requires |WhenNames(i1)| == |WhenNames(i2)|
    ensures var cached := CompileUpdate(ks, table, d1, i1, m);
      var props, when, pk := InTable(PropertiesInfo(d2.keys, i2.fields, d2, m), table), WhenInfo(i2, m),
          table.PrimaryKey();
      ReadUpdate(cached.text, EvalAll(cached.getter, d2, i2, m)) == Some(UpdateSays(ks, table, props, when, i2))
      <==> NonKeys(props, pk) != [] && Keys(props,
                                            pk) != [] && NoOperators(Keys(props, pk)) && !(i2.ifExists && when != [])
  {
    UpdateKeyDetermines(ks, table, d1, i1, d2, i2, m);
    UpdateMeaning(ks, table, d2, i2, m);
    hide UpdateText, UpdateGetter, ReadUpdate, EvalAll, UpdateSays, InTable, PropertiesInfo, WhenInfo, Keys, NonKeys;
    hide UpdateKey, Named;
  }

  /** No property of the document is an assignment. */
  ghost predicate NoAssignments<V>(doc: Doc<V>) {
    forall i :: 0 <= i < |doc.keys| ==> !doc.Get(doc.keys[i]).Assign?
  }

  /** What a DELETE key can hold: neither a TTL nor an assignment. */
  predicate InDelete(e: Element) {
    if e.Mark? then e.text != "|t|" else !e.shape.Change?
  }

  /** What an UPDATE key can hold: no deleteOnlyColumns. */
  predicate InUpdate(e: Element) {
    e != Mark("|dc|")
  }

  ghost predicate All(es: seq<Element>, ok: Element -> bool) {
    forall i :: 0 <= i < |es| ==> ok(es[i])
  }

  lemma {:induction false} AllJoined(a: seq<Element>, b: seq<Element>, ok: Element -> bool)
    ensures All(a + b, ok) <==> All(a, ok) && All(b, ok)
  {
    assert forall i :: 0 <= i < |a| ==> (a + b)[i] == a[i];
    assert forall i :: 0 <= i < |b| ==> (a + b)[|a| + i] == b[i];
  }

  lemma {:induction false} AllFramed(items: seq<Element>, fields: seq<string>, m1: bool, mark1: string,
                                     m2: bool, mark2: string, ok: Element -> bool)
    requires ok(Mark("|f|")) && forall name :: ok(Item(name, Bare))
    ensures All(Framed(items, fields, m1, mark1, m2, mark2), ok)
      <==> All(items, ok) && (m1 ==> ok(Mark(mark1))) && (m2 ==> ok(Mark(mark2)))
  {
    var b, c, d := FieldElements(fields), MarkIf(m1, mark1), MarkIf(m2, mark2);
    AllJoined(items, b + (c + d), ok);
    AllJoined(b, c + d, ok);
    AllJoined(c, d, ok);
    assert All(b, ok);
    assert m1 ==> c[0] == Mark(mark1);
    assert m2 ==> d[0] == Mark(mark2);
  }

  lemma {:induction false} OperatorItemsInBoth<V>(names: seq<string>, doc: Doc<V>)
    ensures All(OperatorItems(names, doc), InDelete) && All(OperatorItems(names, doc), InUpdate)
  {
  }

  lemma {:induction false} AllItemsInDelete<V>(doc: Doc<V>)
    ensures All(AllItems(doc.keys, doc), InDelete) <==> NoAssignments(doc)
    ensures All(AllItems(doc.keys, doc), InUpdate)
  {
    var es := AllItems(doc.keys, doc);
    forall i | 0 <= i < |doc.keys|
      ensures InDelete(es[i]) <==> !doc.Get(doc.keys[i]).Assign?
    {
      assert es[i] == Item(doc.keys[i], AllShape(doc.Get(doc.keys[i])));
    }
  }

  lemma {:induction false} WhenItemsInBoth<V>(info: DocInfo<V>)
    ensures All(WhenItems(info), InDelete) && All(WhenItems(info), InUpdate)
  {
    if info.when.Some? {
      OperatorItemsInBoth(info.when.value.keys, info.when.value);
    }
  }

  /** An UPDATE key holds what a DELETE key cannot exactly when there is an assignment or a TTL. */
  lemma {:induction false} UpdateElementsHold<V>(doc: Doc<V>, info: DocInfo<V>)
    ensures All(UpdateElements(doc, info), InUpdate)
    ensures All(UpdateElements(doc, info), InDelete) <==> NoAssignments(doc) && info.ttl.None?
  {
    var items := AllItems(doc.keys, doc);
    var framed := Framed(items, info.fields, info.ttl.Some?, "|t|", info.ifExists, "|e|");
    AllFramed(items, info.fields, info.ttl.Some?, "|t|", info.ifExists, "|e|", InUpdate);
    AllFramed(items, info.fields, info.ttl.Some?, "|t|", info.ifExists, "|e|", InDelete);
    AllItemsInDelete(doc);
    WhenItemsInBoth(info);
    AllJoined(framed, WhenItems(info), InUpdate);
    AllJoined(framed, WhenItems(info), InDelete);
    hide Framed, All, WhenItems, NoAssignments;
  }

  /** A DELETE key holds what an UPDATE key cannot exactly when only columns are deleted. */
  lemma {:induction false} RemoveElementsHold<V>(doc: Doc<V>, info: DocInfo<V>)
    ensures All(RemoveElements(doc, info), InDelete)
    ensures All(RemoveElements(doc, info), InUpdate) <==> !info.deleteOnlyColumns
  {
    var items := OperatorItems(doc.keys, doc);
    var framed := Framed(items, info.fields, info.ifExists, "|e|", info.deleteOnlyColumns, "|dc|");
    AllFramed(items, info.fields, info.ifExists, "|e|", info.deleteOnlyColumns, "|dc|", InUpdate);
    AllFramed(items, info.fields, info.ifExists, "|e|", info.deleteOnlyColumns, "|dc|", InDelete);
    OperatorItemsInBoth(doc.keys, doc);
    WhenItemsInBoth(info);
    AllJoined(framed, WhenItems(info), InUpdate);
    AllJoined(framed, WhenItems(info), InDelete);
    hide Framed, All, WhenItems;
  }

  lemma {:induction false} SameAtoms<V>(names: seq<string>, doc: Doc<V>)
    requires forall i :: 0 <= i < |names| ==> !doc.Get(names[i]).Assign?
    ensures NamesAndAll(names, doc) == NamesAndOperators(names, doc)
  {
    if names != [] {
      SameAtoms(names[1..], doc);
    }
  }

  /** Without assignments, TTL and deleteOnlyColumns the two keys of one document coincide. */
  lemma {:induction false} KeysCoincide<V>(doc: Doc<V>, info: DocInfo<V>)
    requires NoAssignments(doc) && info.ttl.None? && !info.deleteOnlyColumns
    ensures UpdateKey(doc, info) == RemoveKey(doc, info)
  {
    SameAtoms(doc.keys, doc);
    assert [] + CacheKey.When(info.ifExists, "|e|") == CacheKey.When(info.ifExists, "|e|") + [];
    hide NamesAndAll, NamesAndOperators, FieldAtoms, WhenAtoms;
  }

  /** An UPDATE of one document and a DELETE of another have one key exactly when the first has no assignment and no
      TTL, the second does not delete columns only, and a DELETE of the first would have the key too. The statements
      differ always, so in a tree that holds both, as the batch mapper's does, each such pair is served wrongly. */
  lemma {:induction false} UpdateMeetsRemove<V>(ks: string, table: TableInfo, d1: Doc<V>, i1: DocInfo<V>,
                                                d2: Doc<V>, i2: DocInfo<V>, m: Mapping<V>)
    requires Named(d1, i1) && Named(d2, i2)
    ensures UpdateKey(d1, i1) == RemoveKey(d2, i2)
      <==> && NoAssignments(d1) && i1.ttl.None? && !i2.deleteOnlyColumns
           && RemoveKey(d1, i1.(deleteOnlyColumns := false)) == RemoveKey(d2, i2)
    ensures CompileUpdate(ks, table, d1, i1, m) != CompileDelete(ks, table, d2, i2, m)
  {
    if UpdateKey(d1, i1) == RemoveKey(d2, i2) {
      UpdateKeyIs(d1, i1);
      RemoveKeyIs(d2, i2);
      FlattenUnique(UpdateElements(d1, i1), RemoveElements(d2, i2));
      UpdateElementsHold(d1, i1);
      RemoveElementsHold(d2, i2);
    }
    hide UpdateElements, RemoveElements, Named, All, RemoveKey;
    if NoAssignments(d1) && i1.ttl.None? {
      KeysCoincide(d1, i1.(deleteOnlyColumns := false));
      assert UpdateKey(d1, i1) == UpdateKey(d1, i1.(deleteOnlyColumns := false));
    }
    FirstWords(ks, table, d1, i1, d2, i2, m);
    hide CompileUpdate, CompileDelete;
  }

  /** For one document: the two keys coincide exactly without assignments, TTL and deleteOnlyColumns. */
  lemma {:induction false} UpdateAndRemoveShareKeys<V>(doc: Doc<V>, info: DocInfo<V>)
    requires Named(doc, info)
    ensures UpdateKey(doc, info) == RemoveKey(doc, info)
      <==> NoAssignments(doc) && info.ttl.None? && !info.deleteOnlyColumns
  {
    if NoAssignments(doc) && info.ttl.None? && !info.deleteOnlyColumns {
      KeysCoincide(doc, info);
    }
    if UpdateKey(doc, info) == RemoveKey(doc, info) {
      UpdateKeyIs(doc, info);
      RemoveKeyIs(doc, info);
      FlattenUnique(UpdateElements(doc, info), RemoveElements(doc, info));
      UpdateElementsHold(doc, info);
      RemoveElementsHold(doc, info);
    }
    hide UpdateKey, RemoveKey, UpdateElements, RemoveElements, NoAssignments, All;
  }

  /** The shape that a DELETE key records. */
  ghost predicate SameRemoveShape<V>(d1: Doc<V>, i1: DocInfo<V>, d2: Doc<V>, i2: DocInfo<V>) {
    && d1.keys == d2.keys && SameOperators(d1, d2) && i1.fields == i2.fields && i1.ifExists == i2.ifExists
    && i1.deleteOnlyColumns == i2.deleteOnlyColumns
    && WhenNames(i1) == WhenNames(i2) && SameOperators(WhenDoc(i1), WhenDoc(i2))
  }

  lemma {:induction false} OperatorItemsAlike<V>(names: seq<string>, a: Doc<V>, b: Doc<V>)
    requires SameOperators(a, b)
    ensures OperatorItems(names, a) == OperatorItems(names, b)
  {
    var x, y := OperatorItems(names, a), OperatorItems(names, b);
    forall i | 0 <= i < |names|
      ensures x[i] == y[i]
    {
      assert OperatorShape(a.Get(names[i])) == OperatorShape(b.Get(names[i]));
    }
  }

  /** With as many `when` keys, DELETE keys are equal exactly when the shapes are. */
  lemma {:induction false} RemoveKeyExactly<V>(d1: Doc<V>, i1: DocInfo<V>, d2: Doc<V>, i2: DocInfo<V>)
    requires Named(d1, i1) && Named(d2, i2) && |WhenNames(i1)| == |WhenNames(i2)|
    ensures RemoveKey(d1, i1) == RemoveKey(d2, i2) <==> SameRemoveShape(d1, i1, d2, i2)
  {
    if RemoveKey(d1, i1) == RemoveKey(d2, i2) {
      RemoveKeyShape(d1, i1, d2, i2);
    }
    if SameRemoveShape(d1, i1, d2, i2) {
      RemoveKeyIs(d1, i1);
      RemoveKeyIs(d2, i2);
      OperatorItemsAlike(d1.keys, d1, d2);
      OperatorItemsAlike(WhenNames(i1), WhenDoc(i1), WhenDoc(i2));
      assert WhenItems(i1) == OperatorItems(WhenNames(i1), WhenDoc(i1));
      assert WhenItems(i2) == OperatorItems(WhenNames(i2), WhenDoc(i2));
    }
    hide RemoveKey, Flatten, Framed;
  }

  lemma {:induction false} FirstWords<V>(ks: string, table: TableInfo, d1: Doc<V>, i1: DocInfo<V>,
                                         d2: Doc<V>, i2: DocInfo<V>, m: Mapping<V>)
    ensures CompileUpdate(ks, table, d1, i1, m) != CompileDelete(ks, table, d2, i2, m)
  {
    hide AssignmentsText, KeysText, GuardText, Columns, Keys, NonKeys, InTable, PropertiesInfo, WhenInfo;
    hide UpdateGetter, DeleteGetter;
    assert CompileUpdate(ks, table, d1, i1, m).text[0] == Word("UPDATE");
    assert CompileDelete(ks, table, d2, i2, m).text[0] == Word("DELETE");
  }
}
