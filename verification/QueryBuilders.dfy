/** The builders of lib/mapping/query-generator.js as they accumulate a statement, proved to give the statements whose
    meaning is established elsewhere. */
module QueryBuilders {
  import opened Bytes
  import opened MapperValues
  import opened Statements
  import opened QueryText

  /** The text so far, the next part and the rest. */
  lemma {:induction false} Append(query: seq<Token>, part: seq<Token>, rest: seq<Token>)
    ensures (query + part) + rest == query + (part + rest)
  {
  }

  lemma {:induction false} AppendPair(query: seq<Token>, a: seq<Token>, b: seq<Token>)
    ensures query + a + b == query + (a + b) && query + [] == query
  {
  }

  method GetSelect<V>(table: string, ks: string, props: seq<Prop<V>>, fields: seq<Prop<V>>,
                      order: seq<(string, string)>, limit: Option<V>)
    returns (query: seq<Token>)
    ensures query == SelectText(ks, table, props, fields, order, limit.Some?)
  {
    hide SpellColumns, Columns, ConditionsText, SpellOrder;
    var cols := if |fields| > 0 then SpellColumns(Columns(fields)) else [Word("*")];
    ghost var r3 := OneText("LIMIT", limit.Some?);
    ghost var r2 := OrderText(order) + r3;
    ghost var r1 := FilterText(props) + r2;
    ghost var r0 := [Word("FROM"), Table(ks, table)] + r1;
    query := [Word("SELECT")];
    ghost var text := query + (cols + r0);
    assert text == SelectText(ks, table, props, fields, order, limit.Some?);
    hide SelectText;
    Append(query, cols, r0);
    query := query + cols;
    Append(query, [Word("FROM"), Table(ks, table)], r1);
    query := query + [Word("FROM"), Table(ks, table)];
    AppendPair(query, [Word("WHERE")], ConditionsText(props));
    Append(query, FilterText(props), r2);
    if |props| > 0 {
      query := query + [Word("WHERE")];
      query := query + ConditionsText(props);
    }
    assert query + r2 == text;
    AppendPair(query, [Word("ORDER BY")], SpellOrder(order));
    Append(query, OrderText(order), r3);
    if |order| > 0 {
      query := query + [Word("ORDER BY")];
      query := query + SpellOrder(order);
    }
    assert query + r3 == text;
    AppendPair(query, [], []);
    if limit.Some? {
      query := query + [Word("LIMIT"), Marker];
    }
  }

  method GetInsertQuery<V>(table: string, ks: string, props: seq<Prop<V>>, ifNotExists: bool,
                           ttl: Option<V>) returns (query: seq<Token>)
    ensures query == InsertText(ks, table, props, ifNotExists, ttl.Some?)
  {
    hide SpellColumns, Columns, SpellMarkers;
    ghost var exists_ := if ifNotExists then [Word("IF NOT EXISTS")] else [];
    ghost var r4 := exists_ + OneText("USING TTL", ttl.Some?);
    ghost var r3 := [Close] + r4;
    ghost var r2 := SpellMarkers(|props|) + r3;
    ghost var r1 := [Close, Word("VALUES"), Open] + r2;
    query := [Word("INSERT INTO"), Table(ks, table), Open];
    ghost var text := query + (SpellColumns(Columns(props)) + r1);
    assert text == InsertText(ks, table, props, ifNotExists, ttl.Some?);
    hide InsertText;
    Append(query, SpellColumns(Columns(props)), r1);
    query := query + SpellColumns(Columns(props));
    Append(query, [Close, Word("VALUES"), Open], r2);
    query := query + [Close, Word("VALUES"), Open];
    Append(query, SpellMarkers(|props|), r3);
    query := query + SpellMarkers(|props|);
    Append(query, [Close], r4);
    query := query + [Close];
    assert query + r4 == text;
    Append(query, exists_, OneText("USING TTL", ttl.Some?));
    AppendPair(query, [], []);
    if ifNotExists {
      query := query + [Word("IF NOT EXISTS")];
    }
    AppendPair(query, [], []);
    if ttl.Some? {
      query := query + [Word("USING TTL"), Marker];
    }
  }

  /** The IF clause at the end of an UPDATE or DELETE. */
  method AddGuard<V>(query: seq<Token>, when: seq<Prop<V>>, ifExists: bool) returns (r: seq<Token>)
    ensures r == query + GuardText(when, ifExists)
  {
    hide ConditionsText;
    r := query;
    if ifExists {
      r := r + [Word("IF EXISTS")];
    } else if |when| > 0 {
      r := r + ([Word("IF")] + ConditionsText(when));
    }
  }

  method GetUpdateQuery<V>(table: string, ks: string, pk: set<string>, props: seq<Prop<V>>, when: seq<Prop<V>>,
                           ifExists: bool, ttl: Option<V>)
    returns (query: seq<Token>)
    ensures query == UpdateText(ks, table, pk, props, when, ifExists, ttl.Some?)
  {
    hide AssignmentsText, KeysText, GuardText, Keys, NonKeys;
    var sets, keys := AssignmentsText(NonKeys(props, pk)), KeysText(Keys(props, pk));
    ghost var r4 := keys + GuardText(when, ifExists);
    ghost var r3 := [Word("WHERE")] + r4;
    ghost var r2 := sets + r3;
    ghost var r1 := [Word("SET")] + r2;
    query := [Word("UPDATE"), Table(ks, table)];
    ghost var text := query + (OneText("USING TTL", ttl.Some?) + r1);
    assert text == UpdateText(ks, table, pk, props, when, ifExists, ttl.Some?);
    hide UpdateText;
    Append(query, OneText("USING TTL", ttl.Some?), r1);
    AppendPair(query, [], []);
    if ttl.Some? {
      query := query + [Word("USING TTL"), Marker];
    }
    assert query + r1 == text;
    Append(query, [Word("SET")], r2);
    query := query + [Word("SET")];
    Append(query, sets, r3);
    query := query + sets;
    Append(query, [Word("WHERE")], r4);
    query := query + [Word("WHERE")];
    Append(query, keys, GuardText(when, ifExists));
    query := query + keys;
    query := AddGuard(query, when, ifExists);
  }

  method GetDeleteQuery<V>(table: string, ks: string, pk: set<string>, props: seq<Prop<V>>, when: seq<Prop<V>>,
                           ifExists: bool, deleteOnlyColumns: bool)
    returns (query: seq<Token>)
    ensures query == DeleteText(ks, table, pk, props, when, ifExists, deleteOnlyColumns)
  {
    hide SpellColumns, KeysText, GuardText, Keys, NonKeys, Columns;
    var columnsToDelete := if deleteOnlyColumns then SpellColumns(Columns(NonKeys(props, pk))) else [];
    var keys := KeysText(Keys(props, pk));
    ghost var r3 := keys + GuardText(when, ifExists);
    ghost var r2 := [Word("WHERE")] + r3;
    ghost var r1 := [Word("FROM"), Table(ks, table)] + r2;
    query := [Word("DELETE")];
    ghost var text := query + (columnsToDelete + r1);
    assert text == DeleteText(ks, table, pk, props, when, ifExists, deleteOnlyColumns);
    hide DeleteText;
    Append(query, columnsToDelete, r1);
    AppendPair(query, [], []);
    if columnsToDelete != [] {
      query := query + columnsToDelete;
    }
    assert query + r1 == text;
    Append(query, [Word("FROM"), Table(ks, table)], r2);
    query := query + [Word("FROM"), Table(ks, table)];
    Append(query, [Word("WHERE")], r3);
    query := query + [Word("WHERE")];
    Append(query, keys, GuardText(when, ifExists));
    query := query + keys;
    query := AddGuard(query, when, ifExists);
  }

  // ---------------------------------------------------------------- getUpdate and its flags

  ghost predicate HasColumn(table: TableInfo, name: string, kind: ColumnType) {
    exists i :: 0 <= i < |table.columns| && table.columns[i].name == name && table.columns[i].kind == kind
  }

  ghost predicate UniqueColumns(table: TableInfo) {
    forall i, j :: 0 <= i < j < |table.columns| ==> table.columns[i].name != table.columns[j].name
  }

  /** The entry of columnsByName. */
  method FindColumn(table: TableInfo, name: string) returns (column: Option<Column>)
    ensures column.Some? <==> table.Has(name)
    ensures column.Some? ==> column.value.name == name && column.value in table.columns
  {
    column := None;
    for i := 0 to |table.columns|
      invariant forall j :: 0 <= j < i ==> table.columns[j].name != name
    {
      if table.columns[i].name == name {
        return Some(table.columns[i]);
      }
    }
  }

  ghost predicate CounterAt<V>(table: TableInfo, p: Prop<V>) {
    HasColumn(table, p.column, CounterColumn)
  }

  ghost predicate ListChangeAt<V>(table: TableInfo, p: Prop<V>) {
    HasColumn(table, p.column, ListColumn) && p.value.Assign?
  }

  lemma {:induction false} InTableNext<V>(props: seq<Prop<V>>, i: nat, table: TableInfo)
    requires i < |props|
    ensures InTable(props[..i + 1], table)
      == InTable(props[..i], table) + if table.Has(props[i].column) then [props[i]] else []
  {
    if i == 0 {
      assert props[..1][1..] == [] && props[..0] == [];
    } else {
      assert props[..i + 1][1..] == props[1..][..i] && props[..i][1..] == props[1..][..i - 1];
      InTableNext(props[1..], i - 1, table);
    }
  }

  /** The properties of the table's columns, and the flags: a statement counts as idempotent when it changes no list
      by an assignment, touches no counter and is unconditional. */
  method GetUpdate<V>(table: TableInfo, ks: string, props: seq<Prop<V>>, info: DocInfo<V>, when: seq<Prop<V>>)
    returns (query: seq<Token>, getter: seq<Access>, isIdempotent: bool, isCounter: bool)
    requires UniqueColumns(table)
    ensures var own, pk := InTable(props, table), table.PrimaryKey();
      && query == UpdateText(ks, table.name, pk, own, when, info.ifExists, info.ttl.Some?)
      && getter == UpdateGetter(pk, own, when, info.ttl.Some?)
    ensures isCounter <==> exists i :: 0 <= i < |props| && CounterAt(table, props[i])
    ensures isIdempotent <==>
      && when == [] && !info.ifExists
      && forall i :: 0 <= i < |props| ==> !CounterAt(table, props[i]) && !ListChangeAt(table, props[i])
  {
    isIdempotent, isCounter := true, false;
    var own := [];
    for i := 0 to |props|
      invariant own == InTable(props[..i], table)
      invariant isCounter <==> exists j :: 0 <= j < i && CounterAt(table, props[j])
      invariant isIdempotent
        <==> forall j :: 0 <= j < i ==> !CounterAt(table, props[j]) && !ListChangeAt(table, props[j])
    {
      InTableNext(props, i, table);
      var column := FindColumn(table, props[i].column);
      KindIs(table, props[i], column);
      if column.Some? {
        if column.value.kind.ListColumn? && props[i].value.Assign? {
          isIdempotent := false;
        } else if column.value.kind.CounterColumn? {
          isIdempotent := false;
          isCounter := true;
        }
        own := own + [props[i]];
      }
      hide InTable, CounterAt, ListChangeAt;
    }
    assert props[..|props|] == props;
    var pk := table.PrimaryKey();
    query := GetUpdateQuery(table.name, ks, pk, own, when, info.ifExists, info.ttl);
    isIdempotent := isIdempotent && |when| == 0 && !info.ifExists;
    getter := UpdateGetter(pk, own, when, info.ttl.Some?);
  }

  lemma {:induction false} KindIs<V>(table: TableInfo, p: Prop<V>, column: Option<Column>)
    requires UniqueColumns(table) && (column.Some? <==> table.Has(p.column))
    requires column.Some? ==> column.value.name == p.column && column.value in table.columns
    ensures CounterAt(table, p) <==> column.Some? && column.value.kind == CounterColumn
    ensures ListChangeAt(table, p) <==> column.Some? && column.value.kind == ListColumn && p.value.Assign?
  {
    if column.Some? {
      var i :| 0 <= i < |table.columns| && table.columns[i] == column.value;
      assert forall j :: 0 <= j < |table.columns| && table.columns[j].name == p.column ==> j == i;
    }
  }
}
