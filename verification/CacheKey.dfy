/** The shape keys under which compiled statements are cached (lib/mapping/cache.js), and why a key determines the
    statement: a key is a flattened list of elements that can be read back in one way only. */
module CacheKey {
  import opened Bytes
  import opened MapperValues

  /** What the key generators yield: strings, and one boolean after an assignment's sign. */
  datatype Atom = Str(s: string) | Flag(b: bool)

  // ---------------------------------------------------------------- the generators

  function OperatorAtoms<V>(v: Value<V>): seq<Atom> {
    match v
    case And(left, right) => [Str("AND")] + OperatorAtoms(left) + [Str("|/|")] + OperatorAtoms(right)
    case Op(rel, _) => [Str(RelationText(rel))]
    case In(_) => [Str("IN")]
    case _ => []
  }

  function AllAtoms<V>(v: Value<V>): seq<Atom> {
    if v.Assign? then [Str(SignText(v.sign)), Flag(v.inverted)] else OperatorAtoms(v)
  }

  function NamesAndOperators<V>(names: seq<string>, doc: Doc<V>): seq<Atom> {
    if names == [] then [] else [Str(names[0])] + OperatorAtoms(doc.Get(names[0])) + NamesAndOperators(names[1..], doc)
  }

  function NamesAndAll<V>(names: seq<string>, doc: Doc<V>): seq<Atom> {
    if names == [] then [] else [Str(names[0])] + AllAtoms(doc.Get(names[0])) + NamesAndAll(names[1..], doc)
  }

  function Names(names: seq<string>): seq<Atom> {
    if names == [] then [] else [Str(names[0])] + Names(names[1..])
  }

  function OrderAtoms(order: seq<(string, string)>): seq<Atom> {
    if order == [] then [] else [Str(order[0].0), Str(order[0].1)] + OrderAtoms(order[1..])
  }

  function FieldAtoms(fields: seq<string>): seq<Atom> {
    if fields == [] then [] else [Str("|f|")] + Names(fields)
  }

  function When(present: bool, mark: string): seq<Atom> {
    if present then [Str(mark)] else []
  }

  function WhenAtoms<V>(info: DocInfo<V>): seq<Atom> {
    if info.when.Some? then NamesAndOperators(info.when.value.keys, info.when.value) else []
  }

  function SelectKey<V>(doc: Doc<V>, info: DocInfo<V>): seq<Atom> {
    NamesAndOperators(doc.keys, doc)
    + (FieldAtoms(info.fields) + (When(info.limit.Some?, "|l|")
    + if info.orderBy.Some? then [Str("|o|")] + OrderAtoms(info.orderBy.value) else []))
  }

  function InsertKey<V>(doc: Doc<V>, info: DocInfo<V>): seq<Atom> {
    Names(doc.keys) + (FieldAtoms(info.fields) + (When(info.ttl.Some?, "|t|") + When(info.ifNotExists, "|e|")))
  }

  function UpdateKey<V>(doc: Doc<V>, info: DocInfo<V>): seq<Atom> {
    NamesAndAll(doc.keys, doc)
    + (FieldAtoms(info.fields) + (When(info.ttl.Some?, "|t|") + When(info.ifExists, "|e|"))) + WhenAtoms(info)
  }

  function RemoveKey<V>(doc: Doc<V>, info: DocInfo<V>): seq<Atom> {
    NamesAndOperators(doc.keys, doc)
    + (FieldAtoms(info.fields) + (When(info.ifExists, "|e|") + When(info.deleteOnlyColumns, "|dc|"))) + WhenAtoms(info)
  }

  // ---------------------------------------------------------------- shapes and elements

  /** What a key records of a value; Single(None) is IN. */
  datatype Shape = Bare | Single(rel: Option<Relation>) | Both(left: Shape, right: Shape) | Change(sign: Sign,
      inverted: bool)

  function OperatorShape<V>(v: Value<V>): Shape {
    match v
    case And(left, right) => Both(OperatorShape(left), OperatorShape(right))
    case Op(rel, _) => Single(Some(rel))
    case In(_) => Single(None)
    case _ => Bare
  }

  function AllShape<V>(v: Value<V>): Shape {
    if v.Assign? then Change(v.sign, v.inverted) else OperatorShape(v)
  }

  function ShapeAtoms(s: Shape): seq<Atom> {
    match s
    case Bare => []
    case Single(rel) => [Str(if rel.Some? then RelationText(rel.value) else "IN")]
    case Both(l, r) => [Str("AND")] + ShapeAtoms(l) + [Str("|/|")] + ShapeAtoms(r)
    case Change(sign, inverted) => [Str(SignText(sign)), Flag(inverted)]
  }

  datatype Element = Item(name: string, shape: Shape) | Mark(text: string)

  function ElementAtoms(e: Element): seq<Atom> {
    if e.Mark? then [Str(e.text)] else [Str(e.name)] + ShapeAtoms(e.shape)
  }

  function Flatten(es: seq<Element>): seq<Atom> {
    if es == [] then [] else ElementAtoms(es[0]) + Flatten(es[1..])
  }

  const OPERATORS := {"AND", "IN", ">", ">=", "<", "<=", "!=", "+", "-"}
  const MARKS := {"|f|", "|l|", "|o|", "|t|", "|e|", "|dc|"}

  /** Tokens a property may not be named like. */
  ghost predicate Reserved(name: string) {
    name in OPERATORS || name in MARKS || name == "|/|"
  }

  ghost predicate OperatorFirst(atoms: seq<Atom>) {
    atoms != [] && atoms[0].Str? && atoms[0].s in OPERATORS
  }

  ghost predicate Plain(es: seq<Element>) {
    forall i :: 0 <= i < |es| ==> if es[i].Mark? then es[i].text in MARKS else !Reserved(es[i].name)
  }

  // ---------------------------------------------------------------- reading a key back

  lemma {:induction false} ShapeStarts(s: Shape, r: seq<Atom>)
    requires !OperatorFirst(r)
    ensures s.Bare? <==> !OperatorFirst(ShapeAtoms(s) + r)
    ensures s.Bare? ==> ShapeAtoms(s) + r == r
  {
  }

  lemma {:induction false} BothForm(l: Shape, rr: Shape, r: seq<Atom>)
    ensures ShapeAtoms(Both(l, rr)) + r == [Str("AND")] + (ShapeAtoms(l) + ([Str("|/|")] + (ShapeAtoms(rr) + r)))
  {
  }

  lemma {:induction false} Chop(a: Atom, x: seq<Atom>, b: Atom, y: seq<Atom>)
    ensures [a] + x == [b] + y <==> a == b && x == y
  {
    assert ([a] + x)[0] == a && ([a] + x)[1..] == x;
    assert ([b] + y)[0] == b && ([b] + y)[1..] == y;
  }

  /** The atoms of a shape followed by anything but an operator are read in one way. */
  lemma {:induction false} ShapeUnique(s: Shape, t: Shape, r: seq<Atom>, u: seq<Atom>)
    requires ShapeAtoms(s) + r == ShapeAtoms(t) + u && !OperatorFirst(r) && !OperatorFirst(u)
    ensures s == t && r == u
    decreases s
  {
    ShapeStarts(s, r);
    ShapeStarts(t, u);
    var all := ShapeAtoms(s) + r;
    if !s.Bare? && !t.Bare? {
      assert ShapeAtoms(s)[0] == all[0] == ShapeAtoms(t)[0];
      if s.Both? {
        assert t.Both?;
        BothForm(s.left, s.right, r);
        BothForm(t.left, t.right, u);
        var x, y := [Str("|/|")] + (ShapeAtoms(s.right) + r), [Str("|/|")] + (ShapeAtoms(t.right) + u);
        Chop(Str("AND"), ShapeAtoms(s.left) + x, Str("AND"), ShapeAtoms(t.left) + y);
        ShapeUnique(s.left, t.left, x, y);
        Chop(Str("|/|"), ShapeAtoms(s.right) + r, Str("|/|"), ShapeAtoms(t.right) + u);
        ShapeUnique(s.right, t.right, r, u);
      } else if s.Change? {
        assert t.Change? && ShapeAtoms(s)[1] == all[1] == ShapeAtoms(t)[1];
        assert all[2..] == r && all[2..] == u;
      } else {
        assert t.Single? && all[1..] == r && all[1..] == u;
        assert s == t;
      }
    }
  }

  lemma {:induction false} FlattenStarts(es: seq<Element>)
    requires Plain(es)
    ensures !OperatorFirst(Flatten(es)) && (Flatten(es) == [] <==> es == [])
  {
    if es != [] {
      assert ElementAtoms(es[0])[0] == Flatten(es)[0];
    }
  }

  /** A list of elements over unreserved names is determined by its atoms. */
  lemma {:induction false} FlattenUnique(a: seq<Element>, b: seq<Element>)
    requires Plain(a) && Plain(b) && Flatten(a) == Flatten(b)
    ensures a == b
  {
    FlattenStarts(a);
    FlattenStarts(b);
    if a != [] {
      var x, y := Flatten(a[1..]), Flatten(b[1..]);
      FlattenStarts(a[1..]);
      FlattenStarts(b[1..]);
      FirstAtom(a[0], x);
      FirstAtom(b[0], y);
      if a[0].Mark? {
        assert b[0].Mark?;
      } else {
        assert b[0].Item?;
        ShapeUnique(a[0].shape, b[0].shape, x, y);
      }
      FlattenUnique(a[1..], b[1..]);
      assert a == [a[0]] + a[1..] && b == [b[0]] + b[1..];
    }
  }

  lemma {:induction false} FirstAtom(e: Element, x: seq<Atom>)
    ensures var all := ElementAtoms(e) + x;
      && all != [] && all[0] == Str(if e.Mark? then e.text else e.name)
      && all[1..] == if e.Mark? then x else ShapeAtoms(e.shape) + x
  {
    hide ShapeAtoms;
    if e.Mark? {
      assert ([Str(e.text)] + x)[1..] == x;
    } else {
      var tail := ShapeAtoms(e.shape) + x;
      assert ElementAtoms(e) + x == [Str(e.name)] + tail;
      assert ([Str(e.name)] + tail)[1..] == tail;
    }
  }

  lemma {:induction false} FlattenJoined(a: seq<Element>, b: seq<Element>)
    ensures Flatten(a + b) == Flatten(a) + Flatten(b)
  {
    if a == [] {
      assert a + b == b;
    } else {
      assert (a + b)[0] == a[0] && (a + b)[1..] == a[1..] + b;
      FlattenJoined(a[1..], b);
    }
  }
}
