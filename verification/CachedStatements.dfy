/** Equal shape keys give the same statement text and the same parameter getter, so a cached statement run on another
    document of that shape means what that document says. */
module CachedStatements {
  import opened Bytes
  import opened MapperValues
  import opened Statements
  import opened QueryText
  import opened QueryMeaning
  import opened CacheKey

  // ---------------------------------------------------------------- keys as element lists

  function OperatorItems<V>(names: seq<string>, doc: Doc<V>): (es: seq<Element>)
    ensures |es| == |names|
    ensures forall i :: 0 <= i < |names| ==> es[i] == Item(names[i], OperatorShape(doc.Get(names[i])))
  {
    if names == [] then [] else [Item(names[0], OperatorShape(doc.Get(names[0])))] + OperatorItems(names[1..], doc)
  }

  function AllItems<V>(names: seq<string>, doc: Doc<V>): (es: seq<Element>)
    ensures |es| == |names| && forall i :: 0 <= i < |names| ==> es[i] == Item(names[i], AllShape(doc.Get(names[i])))
  {
    if names == [] then [] else [Item(names[0], AllShape(doc.Get(names[0])))] + AllItems(names[1..], doc)
  }

  function BareItems(names: seq<string>): (es: seq<Element>)
    ensures |es| == |names| && forall i :: 0 <= i < |names| ==> es[i] == Item(names[i], Bare)
  {
    if names == [] then [] else [Item(names[0], Bare)] + BareItems(names[1..])
  }

  function OrderNames(order: seq<(string, string)>): (names: seq<string>)
    ensures |names| == 2 * |order|
    ensures forall i :: 0 <= i < |order| ==> names[2 * i] == order[i].0 && names[2 * i + 1] == order[i].1
  {
    if order == [] then [] else [order[0].0, order[0].1] + OrderNames(order[1..])
  }

  function FieldElements(fields: seq<string>): seq<Element> {
    if fields == [] then [] else [Mark("|f|")] + BareItems(fields)
  }

  function MarkIf(present: bool, mark: string): seq<Element> {
    if present then [Mark(mark)] else []
  }

  function OrderElements(order: Option<seq<(string, string)>>): seq<Element> {
    if order.None? then [] else [Mark("|o|")] + BareItems(OrderNames(order.value))
  }

  function WhenItems<V>(info: DocInfo<V>): seq<Element> {
    if info.when.Some? then OperatorItems(info.when.value.keys, info.when.value) else []
  }

  lemma {:induction false} OperatorItemsKey<V>(names: seq<string>, doc: Doc<V>)
    ensures NamesAndOperators(names, doc) == Flatten(OperatorItems(names, doc))
  {
    if names != [] {
      OperatorItemsKey(names[1..], doc);
      OperatorKey(doc.Get(names[0]));
      assert OperatorItems(names, doc)[1..] == OperatorItems(names[1..], doc);
    }
  }

  lemma {:induction false} OperatorKey<V>(v: Value<V>)
    ensures OperatorAtoms(v) == ShapeAtoms(OperatorShape(v))
  {
    if v.And? {
      OperatorKey(v.left);
      OperatorKey(v.right);
    }
  }

  lemma {:induction false} AllItemsKey<V>(names: seq<string>, doc: Doc<V>)
    ensures NamesAndAll(names, doc) == Flatten(AllItems(names, doc))
  {
    if names != [] {
      AllItemsKey(names[1..], doc);
      OperatorKey(doc.Get(names[0]));
      assert AllItems(names, doc)[1..] == AllItems(names[1..], doc);
    }
  }

  lemma {:induction false} BareItemsKey(names: seq<string>)
    ensures Names(names) == Flatten(BareItems(names))
  {
    if names != [] {
      BareItemsKey(names[1..]);
      assert BareItems(names)[1..] == BareItems(names[1..]);
    }
  }

  lemma {:induction false} OrderKey(order: seq<(string, string)>)
    ensures OrderAtoms(order) == Names(OrderNames(order))
  {
    if order != [] {
      OrderKey(order[1..]);
      var ns := OrderNames(order);
      assert ns[1..][1..] == OrderNames(order[1..]);
      assert Names(ns) == [Str(ns[0])] + ([Str(ns[1])] + Names(ns[1..][1..]));
    }
  }

  lemma {:induction false} MarkKey(mark: string, es: seq<Element>)
    ensures Flatten([Mark(mark)] + es) == [Str(mark)] + Flatten(es) && Flatten([Mark(mark)]) == [Str(mark)]
  {
    assert ([Mark(mark)] + es)[1..] == es && [Mark(mark)][1..] == [];
  }

  lemma {:induction false} PartKeys(fields: seq<string>, present: bool, mark: string)
    ensures FieldAtoms(fields) == Flatten(FieldElements(fields))
    ensures CacheKey.When(present, mark) == Flatten(MarkIf(present, mark))
  {
    BareItemsKey(fields);
    MarkKey("|f|", BareItems(fields));
    MarkKey(mark, []);
  }

  lemma {:induction false} OrderPartKey(order: Option<seq<(string, string)>>)
    ensures (if order.Some? then [Str("|o|")] + OrderAtoms(order.value) else []) == Flatten(OrderElements(order))
  {
    if order.Some? {
      OrderKey(order.value);
      BareItemsKey(OrderNames(order.value));
      MarkKey("|o|", BareItems(OrderNames(order.value)));
    }
  }

  function SelectElements<V>(doc: Doc<V>, info: DocInfo<V>): seq<Element> {
    OperatorItems(doc.keys,
                  doc) + (FieldElements(info.fields) + (MarkIf(info.limit.Some?, "|l|") + OrderElements(info.orderBy)))
  }

  lemma {:induction false} SelectKeyIs<V>(doc: Doc<V>, info: DocInfo<V>)
    ensures SelectKey(doc, info) == Flatten(SelectElements(doc, info))
  {
    var a, b, c, d := OperatorItems(doc.keys, doc), FieldElements(info.fields), MarkIf(info.limit.Some?, "|l|"),
        OrderElements(info.orderBy);
    OperatorItemsKey(doc.keys, doc);
    PartKeys(info.fields, info.limit.Some?, "|l|");
    OrderPartKey(info.orderBy);
    FlattenJoined(a, b + (c + d));
    FlattenJoined(b, c + d);
    FlattenJoined(c, d);
  }

  /** A part of three: items, the fields, two optional marks. */
  function Framed(items: seq<Element>, fields: seq<string>, m1: bool, mark1: string, m2: bool,
                  mark2: string): seq<Element> {
    items + (FieldElements(fields) + (MarkIf(m1, mark1) + MarkIf(m2, mark2)))
  }

  lemma {:induction false} FramedKey(items: seq<Element>, fields: seq<string>, m1: bool, mark1: string, m2: bool,
                                     mark2: string)
    ensures Flatten(Framed(items, fields, m1, mark1, m2, mark2))
      == Flatten(items) + (FieldAtoms(fields) + (CacheKey.When(m1, mark1) + CacheKey.When(m2, mark2)))
  {
    var b, c, d := FieldElements(fields), MarkIf(m1, mark1), MarkIf(m2, mark2);
    PartKeys(fields, m1, mark1);
    PartKeys(fields, m2, mark2);
    FlattenJoined(items, b + (c + d));
    FlattenJoined(b, c + d);
    FlattenJoined(c, d);
  }

  // ---------------------------------------------------------------- taking element lists apart

  ghost predicate OnlyItems(es: seq<Element>) {
    forall i :: 0 <= i < |es| ==> es[i].Item?
  }

  ghost predicate MarkFirst(es: seq<Element>) {
    es != [] ==> es[0].Mark?
  }

  lemma {:induction false} ItemsThenMarks(a: seq<Element>, r: seq<Element>, b: seq<Element>, u: seq<Element>)
    requires OnlyItems(a) && OnlyItems(b) && MarkFirst(r) && MarkFirst(u) && a + r == b + u
    ensures a == b && r == u
  {
    FirstMark(a, r);
    FirstMark(b, u);
    var all := a + r;
    assert |a| == |b|;
    assert a == all[..|a|] && b == all[..|a|] && r == all[|a|..] && u == all[|a|..];
  }

  lemma {:induction false} FirstMark(a: seq<Element>, r: seq<Element>)
    requires OnlyItems(a) && MarkFirst(r)
    ensures forall i :: 0 <= i < |a| ==> (a + r)[i].Item?
    ensures |a| < |a + r| ==> (a + r)[|a|].Mark?
  {
  }

  lemma {:induction false} BareItemsUnique(a: seq<string>, b: seq<string>)
    requires BareItems(a) == BareItems(b)
    ensures a == b
  {
    forall i | 0 <= i < |a|
      ensures a[i] == b[i]
    {
      assert BareItems(a)[i] == Item(a[i], Bare) && BareItems(b)[i] == Item(b[i], Bare);
    }
  }

  /** The fields are told apart from what follows them. */
  lemma {:induction false} FieldsUnique(f: seq<string>, r: seq<Element>, g: seq<string>, u: seq<Element>)
    requires MarkFirst(r) && MarkFirst(u) && (r != [] ==> r[0] != Mark("|f|")) && (u != [] ==> u[0] != Mark("|f|"))
    requires FieldElements(f) + r == FieldElements(g) + u
    ensures f == g && r == u
  {
    FieldForm(f, r);
    FieldForm(g, u);
    hide BareItems, FieldElements;
    var all := FieldElements(f) + r;
    if f != [] && g != [] {
      ItemsThenMarks(BareItems(f), r, BareItems(g), u);
      BareItemsUnique(f, g);
    }
  }

  lemma {:induction false} FieldForm(f: seq<string>, r: seq<Element>)
    ensures var all := FieldElements(f) + r;
      if f == [] then all == r else all != [] && all[0] == Mark("|f|") && all[1..] == BareItems(f) + r
  {
    hide BareItems;
    if f != [] {
      assert FieldElements(f) + r == [Mark("|f|")] + (BareItems(f) + r);
    }
  }

  lemma {:induction false} MarkUnique(p: bool, q: bool, mark: string, r: seq<Element>, u: seq<Element>)
    requires (r != [] ==> r[0] != Mark(mark)) && (u != [] ==> u[0] != Mark(mark))
    requires MarkIf(p, mark) + r == MarkIf(q, mark) + u
    ensures p == q && r == u
  {
    var all := MarkIf(p, mark) + r;
    assert p ==> all[0] == Mark(mark) && all[1..] == r;
    assert !p ==> all == r;
    assert q ==> all[0] == Mark(mark) && all[1..] == u;
    assert !q ==> all == u;
  }

  lemma {:induction false} OrderUnique(a: Option<seq<(string, string)>>, b: Option<seq<(string, string)>>)
    requires OrderElements(a) == OrderElements(b)
    ensures a == b
  {
    if a.Some? && b.Some? {
      assert OrderElements(a)[1..] == BareItems(OrderNames(a.value));
      assert OrderElements(b)[1..] == BareItems(OrderNames(b.value));
      BareItemsUnique(OrderNames(a.value), OrderNames(b.value));
      assert |a.value| == |b.value|;
      forall i | 0 <= i < |a.value|
        ensures a.value[i] == b.value[i]
      {
        assert a.value[i] == (a.value[i].0, a.value[i].1) && b.value[i] == (b.value[i].0, b.value[i].1);
        assert OrderNames(a.value)[2 * i] == OrderNames(b.value)[2 * i];
        assert OrderNames(a.value)[2 * i + 1] == OrderNames(b.value)[2 * i + 1];
      }
      assert a.value == b.value;
    }
  }

  lemma {:induction false} FramedUnique(a: seq<Element>, f: seq<string>, p1: bool, p2: bool,
                                        b: seq<Element>, g: seq<string>, q1: bool, q2: bool,
                                        mark1: string, mark2: string)
    requires OnlyItems(a) && OnlyItems(b) && mark1 != "|f|" && mark2 != "|f|" && mark1 != mark2
    requires Framed(a, f, p1, mark1, p2, mark2) == Framed(b, g, q1, mark1, q2, mark2)
    ensures a == b && f == g && p1 == q1 && p2 == q2
  {
    var r2, u2 := MarkIf(p2, mark2), MarkIf(q2, mark2);
    var r1, u1 := MarkIf(p1, mark1) + r2, MarkIf(q1, mark1) + u2;
    ItemsThenMarks(a, FieldElements(f) + r1, b, FieldElements(g) + u1);
    FieldsUnique(f, r1, g, u1);
    MarkUnique(p1, q1, mark1, r2, u2);
    assert r2 + [] == r2 && u2 + [] == u2;
    MarkUnique(p2, q2, mark2, [], []);
  }

  // ---------------------------------------------------------------- what documents of one shape share

  /** Two documents with the same keys and the same recorded shape of every value. */
  ghost predicate SameOperators<V>(a: Doc<V>, b: Doc<V>) {
    forall name :: OperatorShape(a.Get(name)) == OperatorShape(b.Get(name))
  }

  ghost predicate SameShapes<V>(a: Doc<V>, b: Doc<V>) {
    forall name :: AllShape(a.Get(name)) == AllShape(b.Get(name))
  }

  /** Property lists that agree in everything but the values, whose operators agree. */
  ghost predicate Alike<V>(p: seq<Prop<V>>, q: seq<Prop<V>>) {
    |p| == |q| && forall i :: 0 <= i < |p| ==>
      && p[i].name == q[i].name && p[i].column == q[i].column && p[i].fromModel == q[i].fromModel
      && OperatorShape(p[i].value) == OperatorShape(q[i].value)
  }

  ghost predicate AlikeChanges<V>(p: seq<Prop<V>>, q: seq<Prop<V>>) {
    Alike(p, q) && forall i :: 0 <= i < |p| ==> AllShape(p[i].value) == AllShape(q[i].value)
  }

  lemma {:induction false} OperatorItemsSame<V>(a: Doc<V>, b: Doc<V>)
    requires a.Valid() && b.Valid() && OperatorItems(a.keys, a) == OperatorItems(b.keys, b)
    ensures a.keys == b.keys && SameOperators(a, b)
  {
    forall i | 0 <= i < |a.keys|
      ensures a.keys[i] == b.keys[i] && OperatorShape(a.Get(a.keys[i])) == OperatorShape(b.Get(b.keys[i]))
    {
      assert OperatorItems(a.keys, a)[i] == OperatorItems(b.keys, b)[i];
    }
    forall name
      ensures OperatorShape(a.Get(name)) == OperatorShape(b.Get(name))
    {
      if name in a.keys {
        var i :| 0 <= i < |a.keys| && a.keys[i] == name;
      }
    }
  }

  lemma {:induction false} AllItemsSame<V>(a: Doc<V>, b: Doc<V>)
    requires a.Valid() && b.Valid() && AllItems(a.keys, a) == AllItems(b.keys, b)
    ensures a.keys == b.keys && SameShapes(a, b)
  {
    forall i | 0 <= i < |a.keys|
      ensures a.keys[i] == b.keys[i] && AllShape(a.Get(a.keys[i])) == AllShape(b.Get(b.keys[i]))
    {
      assert AllItems(a.keys, a)[i] == AllItems(b.keys, b)[i];
    }
    forall name
      ensures AllShape(a.Get(name)) == AllShape(b.Get(name))
    {
      if name in a.keys {
        var i :| 0 <= i < |a.keys| && a.keys[i] == name;
      }
    }
  }

  lemma {:induction false} PropsAlike<V>(names: seq<string>, a: Doc<V>, b: Doc<V>, m: Mapping<V>)
    ensures SameOperators(a, b) ==> Alike(PropsOf(names, a, m), PropsOf(names, b, m))
    ensures SameShapes(a, b) ==> AlikeChanges(PropsOf(names, a, m), PropsOf(names, b, m))
  {
    PropsRead(names, a, m);
    PropsRead(names, b, m);
    var p, q := PropsOf(names, a, m), PropsOf(names, b, m);
    hide PropsOf;
    forall i | 0 <= i < |names| && (SameOperators(a, b) || SameShapes(a, b))
      ensures OperatorShape(p[i].value) == OperatorShape(q[i].value)
    {
      if SameShapes(a, b) {
        assert AllShape(a.Get(names[i])) == AllShape(b.Get(names[i]));
      }
    }
  }

  // ---------------------------------------------------------------- text and getters see only the shape

  lemma {:induction false} ConditionTextAlike<V>(column: string, v: Value<V>, w: Value<V>)
    requires OperatorShape(v) == OperatorShape(w)
    ensures ConditionText(column, v) == ConditionText(column, w)
    decreases v
  {
    if v.And? {
      ConditionTextAlike(column, v.left, w.left);
      ConditionTextAlike(column, v.right, w.right);
    }
  }

  lemma {:induction false} ValueGetterAlike<V>(inWhen: bool, name: string, steps: seq<Step>, v: Value<V>, w: Value<V>,
                                               mapped: bool)
    requires OperatorShape(v) == OperatorShape(w)
    ensures ValueGetter(inWhen, name, steps, v, mapped) == ValueGetter(inWhen, name, steps, w, mapped)
    decreases v
  {
    if v.And? {
      ValueGetterAlike(inWhen, name, steps + [FirstChild], v.left, w.left, mapped);
      ValueGetterAlike(inWhen, name, steps + [SecondChild], v.right, w.right, mapped);
    }
  }

  lemma {:induction false} ListsAlike<V>(p: seq<Prop<V>>, q: seq<Prop<V>>, inWhen: bool)
    requires Alike(p, q)
    ensures ConditionsText(p) == ConditionsText(q) && ValueGetters(p, inWhen) == ValueGetters(q, inWhen)
    ensures Columns(p) == Columns(q) && KeysText(p) == KeysText(q)
  {
    if p != [] {
      assert Alike(p[1..], q[1..]);
      ListsAlike(p[1..], q[1..], inWhen);
      ConditionTextAlike(p[0].column, p[0].value, q[0].value);
      ValueGetterAlike(inWhen, p[0].name, [], p[0].value, q[0].value, p[0].fromModel.Some?);
    }
  }

  lemma {:induction false} ChangesAlike<V>(p: seq<Prop<V>>, q: seq<Prop<V>>)
    requires AlikeChanges(p, q)
    ensures AssignmentsText(p) == AssignmentsText(q) && AssignmentGetters(p) == AssignmentGetters(q)
  {
    if p != [] {
      assert AlikeChanges(p[1..], q[1..]);
      ChangesAlike(p[1..], q[1..]);
      assert AllShape(p[0].value) == AllShape(q[0].value);
    }
  }

  lemma {:induction false} AlikeTail<V>(p: seq<Prop<V>>, q: seq<Prop<V>>)
    requires Alike(p, q) && p != []
    ensures q != [] && Alike(p[1..], q[1..]) && Alike([p[0]], [q[0]]) && p[0].column == q[0].column
    ensures AlikeChanges(p, q) ==> AlikeChanges(p[1..], q[1..]) && AlikeChanges([p[0]], [q[0]])
  {
    hide OperatorShape, AllShape;
  }

  lemma {:induction false} AlikeJoined<V>(p: seq<Prop<V>>, q: seq<Prop<V>>, a: seq<Prop<V>>, b: seq<Prop<V>>)
    requires Alike(p, q) && Alike(a, b)
    ensures Alike(p + a, q + b) && (AlikeChanges(p, q) && AlikeChanges(a, b) ==> AlikeChanges(p + a, q + b))
  {
    hide OperatorShape, AllShape;
  }

  lemma {:induction false} InTableAlike<V>(p: seq<Prop<V>>, q: seq<Prop<V>>, table: TableInfo)
    requires Alike(p, q)
    ensures Alike(InTable(p, table), InTable(q, table))
    ensures AlikeChanges(p, q) ==> AlikeChanges(InTable(p, table), InTable(q, table))
  {
    if p != [] {
      AlikeTail(p, q);
      InTableAlike(p[1..], q[1..], table);
      AlikeJoined([p[0]], [q[0]], InTable(p[1..], table), InTable(q[1..], table));
      assert [] + InTable(p[1..], table) == InTable(p[1..], table);
      assert [] + InTable(q[1..], table) == InTable(q[1..], table);
      hide Alike, AlikeChanges;
    }
  }

  lemma {:induction false} KeysAlike<V>(p: seq<Prop<V>>, q: seq<Prop<V>>, pk: set<string>)
    requires Alike(p, q)
    ensures Alike(Keys(p, pk), Keys(q, pk))
  {
    if p != [] {
      AlikeTail(p, q);
      KeysAlike(p[1..], q[1..], pk);
      AlikeJoined([p[0]], [q[0]], Keys(p[1..], pk), Keys(q[1..], pk));
      assert [] + Keys(p[1..], pk) == Keys(p[1..], pk) && [] + Keys(q[1..], pk) == Keys(q[1..], pk);
      hide Alike;
    }
  }

  lemma {:induction false} NonKeysAlike<V>(p: seq<Prop<V>>, q: seq<Prop<V>>, pk: set<string>)
    requires Alike(p, q)
    ensures Alike(NonKeys(p, pk), NonKeys(q, pk))
    ensures AlikeChanges(p, q) ==> AlikeChanges(NonKeys(p, pk), NonKeys(q, pk))
  {
    if p != [] {
      AlikeTail(p, q);
      NonKeysAlike(p[1..], q[1..], pk);
      AlikeJoined([p[0]], [q[0]], NonKeys(p[1..], pk), NonKeys(q[1..], pk));
      assert [] + NonKeys(p[1..], pk) == NonKeys(p[1..], pk) && [] + NonKeys(q[1..], pk) == NonKeys(q[1..], pk);
      hide Alike, AlikeChanges;
    }
  }

  // ---------------------------------------------------------------- keys determine statements

  ghost predicate Unreserved(names: seq<string>) {
    forall i :: 0 <= i < |names| ==> !Reserved(names[i])
  }

  ghost function WhenNames<V>(info: DocInfo<V>): seq<string> {
    if info.when.Some? then info.when.value.keys else []
  }

  /** A document and options whose property names are none of the reserved tokens. */
  ghost predicate Named<V>(doc: Doc<V>, info: DocInfo<V>) {
    && doc.Valid() && info.Valid() && Unreserved(doc.keys) && Unreserved(info.fields) && Unreserved(WhenNames(info))
    && (info.orderBy.Some? ==> Unreserved(OrderNames(info.orderBy.value)))
  }

  lemma {:induction false} PlainJoined(a: seq<Element>, b: seq<Element>)
    requires Plain(a) && Plain(b)
    ensures Plain(a + b)
  {
  }

  lemma {:induction false} PlainParts(fields: seq<string>, present: bool, mark: string)
    requires Unreserved(fields) && mark in MARKS
    ensures Plain(FieldElements(fields)) && Plain(MarkIf(present, mark)) && Plain(BareItems(fields))
  {
    assert Plain([Mark("|f|")]);
    PlainJoined([Mark("|f|")], BareItems(fields));
  }

  lemma {:induction false} SelectElementsPlain<V>(doc: Doc<V>, info: DocInfo<V>)
    requires Named(doc, info)
    ensures Plain(SelectElements(doc, info))
  {
    var a, b, c, d := OperatorItems(doc.keys, doc), FieldElements(info.fields), MarkIf(info.limit.Some?, "|l|"),
        OrderElements(info.orderBy);
    PlainParts(info.fields, info.limit.Some?, "|l|");
    if info.orderBy.Some? {
      PlainParts(OrderNames(info.orderBy.value), true, "|o|");
      PlainJoined([Mark("|o|")], BareItems(OrderNames(info.orderBy.value)));
    }
    assert Plain(a);
    PlainJoined(c, d);
    PlainJoined(b, c + d);
    PlainJoined(a, b + (c + d));
  }

  /** Equal SELECT keys: the same names, operators, fields, presence of a limit, and order. */
  lemma {:induction false} SelectKeyShape<V>(d1: Doc<V>, i1: DocInfo<V>, d2: Doc<V>, i2: DocInfo<V>)
    requires Named(d1, i1) && Named(d2, i2) && SelectKey(d1, i1) == SelectKey(d2, i2)
    ensures d1.keys == d2.keys && SameOperators(d1, d2)
    ensures i1.fields == i2.fields && i1.limit.Some? == i2.limit.Some? && i1.orderBy == i2.orderBy
  {
    SelectKeyIs(d1, i1);
    SelectKeyIs(d2, i2);
    SelectElementsPlain(d1, i1);
    SelectElementsPlain(d2, i2);
    FlattenUnique(SelectElements(d1, i1), SelectElements(d2, i2));
    hide Flatten, SelectKey, Named, Plain;
    var o1, o2 := OrderElements(i1.orderBy), OrderElements(i2.orderBy);
    var l1, l2 := MarkIf(i1.limit.Some?, "|l|") + o1, MarkIf(i2.limit.Some?, "|l|") + o2;
    ItemsThenMarks(OperatorItems(d1.keys, d1), FieldElements(i1.fields) + l1, OperatorItems(d2.keys, d2),
                   FieldElements(i2.fields) + l2);
    FieldsUnique(i1.fields, l1, i2.fields, l2);
    MarkUnique(i1.limit.Some?, i2.limit.Some?, "|l|", o1, o2);
    OrderUnique(i1.orderBy, i2.orderBy);
    OperatorItemsSame(d1, d2);
  }

  /** Equal SELECT keys, on one table, give one statement and one getter. */
  lemma {:induction false} SelectKeyDetermines<V>(ks: string, table: string, d1: Doc<V>, i1: DocInfo<V>, d2: Doc<V>,
                                                  i2: DocInfo<V>, m: Mapping<V>)
    requires Named(d1, i1) && Named(d2, i2) && SelectKey(d1, i1) == SelectKey(d2, i2)
    ensures OrderColumns(i1, m) == OrderColumns(i2, m)
    ensures OrderColumns(i1, m).Some? ==>
      SelectText(ks, table, PropsOf(d1.keys, d1, m), PropsOf(i1.fields, d1, m), OrderColumns(i1, m).value,
                 i1.limit.Some?)
      == SelectText(ks, table, PropsOf(d2.keys, d2, m), PropsOf(i2.fields, d2, m), OrderColumns(i2, m).value,
                    i2.limit.Some?)
    ensures SelectGetter(PropsOf(d1.keys, d1, m), i1.limit.Some?)
      == SelectGetter(PropsOf(d2.keys, d2, m), i2.limit.Some?)
  {
    SelectKeyShape(d1, i1, d2, i2);
    hide SelectKey, Named, PropsOf, ConditionsText, ValueGetters, SpellColumns, Columns;
    PropsAlike(d1.keys, d1, d2, m);
    PropsAlike(i1.fields, d1, d2, m);
    ListsAlike(PropsOf(d1.keys, d1, m), PropsOf(d2.keys, d2, m), false);
    ListsAlike(PropsOf(i1.fields, d1, m), PropsOf(i2.fields, d2, m), false);
  }

  /** A SELECT compiled for one document, run on another with the same key, means what the other says. */
  lemma {:induction false} CachedSelectMeaning<V>(ks: string, table: string, d1: Doc<V>, i1: DocInfo<V>, d2: Doc<V>,
                                                  i2: DocInfo<V>, m: Mapping<V>)
    requires Named(d1, i1) && Named(d2, i2) && SelectKey(d1, i1) == SelectKey(d2, i2) && OrderColumns(i1, m).Some?
    ensures OrderColumns(i2, m).Some?
    ensures ReadSelect(SelectText(ks, table, PropsOf(d1.keys, d1, m), PropsOf(i1.fields, d1, m),
                                  OrderColumns(i1, m).value, i1.limit.Some?),
                       EvalAll(SelectGetter(PropsOf(d1.keys, d1, m), i1.limit.Some?), d2, i2, m))
      == Some(SelectSays(ks, table, d2, i2, m, OrderColumns(i2, m).value))
  {
    SelectKeyDetermines(ks, table, d1, i1, d2, i2, m);
    SelectMeaning(ks, table, d2, i2, m, OrderColumns(i2, m).value);
    hide SelectText, SelectGetter, ReadSelect, EvalAll, SelectSays, PropsOf, SelectKey, Named, OrderColumns;
  }
}
