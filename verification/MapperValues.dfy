/** The mapper's source language: documents whose values may be query operators and assignments (lib/mapping/q.js),
    and the property information drawn from them (lib/mapping/doc-info-adapter.js). */
module MapperValues {
  import opened Bytes

  datatype Relation = Greater | GreaterEq | Less | LessEq | NotEq
  datatype Sign = Plus | Minus

  /** A property value: undefined, an ordinary value, an array, or something built by the q functions. */
  datatype Value<V> =
    | Undefined
    | Lit(v: V)
    | Items(items: seq<Value<V>>)
    | Op(rel: Relation, arg: Value<V>)
    | In(items: seq<Value<V>>)
    | And(left: Value<V>, right: Value<V>)
    | Assign(sign: Sign, arg: Value<V>, inverted: bool)
  {
    predicate IsOperator() {
      Op? || In? || And?
    }
  }

  // ---------------------------------------------------------------- the q functions

  /** `q.in_` takes arrays only. */
  function InList<V>(v: Value<V>): Result<Value<V>> {
    if v.Items? then Ok(In(v.items)) else Err
  }

  function Gt<V>(v: Value<V>): Value<V> { Op(Greater, v) }

  function Gte<V>(v: Value<V>): Value<V> { Op(GreaterEq, v) }

  function Lt<V>(v: Value<V>): Value<V> { Op(Less, v) }

  function Lte<V>(v: Value<V>): Value<V> { Op(LessEq, v) }

  function NotEqual<V>(v: Value<V>): Value<V> { Op(NotEq, v) }

  function Incr<V>(v: Value<V>): Value<V> { Assign(Plus, v, false) }

  function Decr<V>(v: Value<V>): Value<V> { Assign(Minus, v, false) }

  function Append<V>(v: Value<V>): Value<V> { Assign(Plus, v, false) }

  function Prepend<V>(v: Value<V>): Value<V> { Assign(Plus, v, true) }

  function Remove<V>(v: Value<V>): Value<V> { Assign(Minus, v, false) }

  /** The CQL key of an operator. */
  function RelationText(r: Relation): string {
    match r
    case Greater => ">"
    case GreaterEq => ">="
    case Less => "<"
    case LessEq => "<="
    case NotEq => "!="
  }

  function SignText(s: Sign): string {
    if s.Plus? then "+" else "-"
  }

  /** A document: Object.keys in order, and the values. */
  datatype Doc<V> = Doc(keys: seq<string>, values: map<string, Value<V>>)
  {
    ghost predicate Valid() {
      forall k :: k in values <==> k in keys
    }

    function Get(name: string): Value<V> {
      if name in values then values[name] else Undefined
    }
  }

  /** The options of a mapper call; an absent docInfo is the one where everything is absent. */
  datatype DocInfo<V> = DocInfo(
    fields: seq<string>, limit: Option<V>, orderBy: Option<seq<(string, string)>>, ttl: Option<V>,
    ifNotExists: bool, ifExists: bool, when: Option<Doc<V>>, deleteOnlyColumns: bool)
  {
    ghost predicate Valid() {
      when.Some? ==> when.value.Valid()
    }
  }

  /** Column names and model-to-column functions of a model. */
  datatype Mapping<!V> = Mapping(column: string -> string, fromModel: string -> Option<Value<V> -> Value<V>>)

  datatype Prop<!V> = Prop(name: string, column: string, value: Value<V>, fromModel: Option<Value<V> -> Value<V>>)

  function PropsOf<V>(names: seq<string>, doc: Doc<V>, m: Mapping<V>): seq<Prop<V>> {
    if names == [] then []
    else [Prop(names[0], m.column(names[0]), doc.Get(names[0]), m.fromModel(names[0]))] + PropsOf(names[1..], doc, m)
  }

  /** The properties named by docInfo.fields when given, else those of the document. */
  function PropertiesInfo<V>(keys: seq<string>, fields: seq<string>, doc: Doc<V>, m: Mapping<V>): seq<Prop<V>> {
    PropsOf(if fields != [] then fields else keys, doc, m)
  }

  function WhenInfo<V>(info: DocInfo<V>, m: Mapping<V>): seq<Prop<V>> {
    if info.when.Some? then PropsOf(info.when.value.keys, info.when.value, m) else []
  }

  /** A property read off a document: name, column and function agree with the mapping, the value with the document. */
  ghost predicate Reads<V>(props: seq<Prop<V>>, doc: Doc<V>, m: Mapping<V>) {
    forall i :: 0 <= i < |props| ==>
      && props[i].column == m.column(props[i].name) && props[i].value == doc.Get(props[i].name)
      && props[i].fromModel == m.fromModel(props[i].name)
  }

  lemma {:induction false} PropsRead<V>(names: seq<string>, doc: Doc<V>, m: Mapping<V>)
    ensures Reads(PropsOf(names, doc, m), doc, m) && |PropsOf(names, doc, m)| == |names|
    ensures forall i :: 0 <= i < |names| ==> PropsOf(names, doc, m)[i].name == names[i]
  {
    if names != [] {
      PropsRead(names[1..], doc, m);
    }
  }

  /** ASC or DESC in any letter case, upper-cased; anything else is an error. */
  function Ordering(s: string): Option<string> {
    if Uppered(s) == "ASC" || Uppered(s) == "DESC" then Some(Uppered(s)) else None
  }

  function Uppered(s: string): string {
    if s == "" then "" else [Upper(s[0])] + Uppered(s[1..])
  }

  function Upper(c: char): char {
    if 'a' <= c <= 'z' then c - 'a' + 'A' else c
  }

  function AdaptOrderBy<V>(order: seq<(string, string)>, m: Mapping<V>): Option<seq<(string, string)>> {
    if order == [] then Some([])
    else
      var first, rest := Ordering(order[0].1), AdaptOrderBy(order[1..], m);
      if first.None? || rest.None? then None
      else Some([(m.column(order[0].0), first.value)] + rest.value)
  }

  /** adaptOrderBy: the order columns, or the error for a bad ordering. */
  function OrderColumns<V>(info: DocInfo<V>, m: Mapping<V>): Option<seq<(string, string)>> {
    if info.orderBy.None? then Some([]) else AdaptOrderBy(info.orderBy.value, m)
  }

  datatype ColumnType = ListColumn | CounterColumn | OtherColumn
  datatype Column = Column(name: string, isStatic: bool, kind: ColumnType)

  datatype TableInfo = TableInfo(name: string, partitionKeys: seq<string>, clusteringKeys: seq<string>,
                                 columns: seq<Column>)
  {
    predicate Has(column: string) {
      exists i :: 0 <= i < |columns| && columns[i].name == column
    }

    function PrimaryKey(): set<string> {
      (set k | k in partitionKeys) + (set k | k in clusteringKeys)
    }
  }

  /** The properties whose column the table has. */
  function InTable<V>(props: seq<Prop<V>>, table: TableInfo): seq<Prop<V>> {
    if props == [] then [] else (if table.Has(props[0].column) then [props[0]] else []) + InTable(props[1..], table)
  }

  lemma {:induction false} InTableReads<V>(props: seq<Prop<V>>, doc: Doc<V>, m: Mapping<V>, table: TableInfo)
    requires Reads(props, doc, m)
    ensures Reads(InTable(props, table), doc, m)
  {
    if props != [] {
      InTableReads(props[1..], doc, m, table);
    }
  }
}
