/** Exactly when a table is accepted for a statement, said of sets of column names and not of counts. */
module TableChoice {
  import opened Bytes
  import opened MapperValues
  import opened QueryText
  import opened QueryMeaning
  import opened ObjectSelector

  /** Every property is a column of the table. */
  ghost predicate Covered<V>(table: TableInfo, props: seq<Prop<V>>) {
    forall i :: 0 <= i < |props| ==> exists c :: c in table.columns && c.name == props[i].column
  }

  lemma {:induction false} AllInExactly<V>(table: TableInfo, props: seq<Prop<V>>)
    ensures AllIn(table, props) <==> Covered(table, props)
  {
    if props != [] {
      AllInExactly(table, props[1..]);
      assert props == [props[0]] + props[1..];
      HasExactly(table, props[0].column);
    }
  }

  lemma {:induction false} HasExactly(table: TableInfo, column: string)
    ensures table.Has(column) <==> exists c :: c in table.columns && c.name == column
  {
  }

  ghost function OrderedBy(order: seq<(string, string)>): seq<string> {
    seq(|order|, i requires 0 <= i < |order| => order[i].0)
  }

  // ---------------------------------------------------------------- SELECT

  /** A SELECT may go to the table: it filters on every partition key column, on every clustering column when all keys
      must be defined, and on nothing else than key columns; the table has every field, and the order columns begin
      the clustering key. */
  ghost predicate Selectable<V>(table: TableInfo, allPKsDefined: bool, props: seq<Prop<V>>, fields: seq<Prop<V>>,
                                order: seq<(string, string)>) {
    && Elements(table.partitionKeys) <= Elements(Columns(props))
    && (allPKsDefined ==> Elements(table.clusteringKeys) <= Elements(Columns(props)))
    && Elements(Columns(props)) <= Elements(table.partitionKeys) + Elements(table.clusteringKeys)
    && Covered(table, fields)
    && OrderedBy(order) <= table.clusteringKeys
  }

  /** A key column that is counted is the column of two properties. */
  ghost predicate CountedTwice<V>(table: TableInfo, allPKsDefined: bool, props: seq<Prop<V>>) {
    || NamedTwice(Columns(props), Elements(table.partitionKeys))
    || (allPKsDefined && NamedTwice(Columns(props), Elements(table.clusteringKeys)))
  }

  /** Accepted and selectable are the same when no counted key column is named twice, and never both when one is. */
  lemma {:induction false} SelectExactly<V>(table: TableInfo, allPKsDefined: bool, props: seq<Prop<V>>,
                                            fields: seq<Prop<V>>, order: seq<(string, string)>)
    requires WellFormed(table)
    ensures !CountedTwice(table, allPKsDefined, props) ==>
      (AcceptsSelect(table, allPKsDefined, props, fields, order)
       <==> Selectable(table, allPKsDefined, props, fields, order))
    ensures CountedTwice(table, allPKsDefined, props) ==>
      !(AcceptsSelect(table, allPKsDefined, props, fields, order)
        && Selectable(table, allPKsDefined, props, fields, order))
  {
    PrimaryKeyIs(table);
    IncludedMeans(table.partitionKeys, props);
    IncludedMeans(table.clusteringKeys, props);
    AllInExactly(table, fields);
    OrderExactly(table.clusteringKeys, order);
    if AcceptsSelect(table, allPKsDefined, props, fields, order) {
      SelectFilters(table, allPKsDefined, props, fields, order);
    }
    KeysOnly(table, props);
    hide KeysAreIncluded, Distinct, NamedTwice, WellFormed, Columns, AllIn, Covered, OrderFollows;
  }

  lemma {:induction false} OrderExactly(clusteringKeys: seq<string>, order: seq<(string, string)>)
    ensures OrderFollows(clusteringKeys, order) <==> OrderedBy(order) <= clusteringKeys
  {
    if OrderedBy(order) <= clusteringKeys {
      assert forall i :: 0 <= i < |order| ==> clusteringKeys[i] == OrderedBy(order)[i];
    }
  }

  lemma {:induction false} KeysOnly<V>(table: TableInfo, props: seq<Prop<V>>)
    ensures Elements(Columns(props)) <= Elements(table.partitionKeys) + Elements(table.clusteringKeys)
       <==> forall i :: 0 <= i < |props| ==>
              props[i].column in table.partitionKeys || props[i].column in table.clusteringKeys
  {
    ColumnsOf(props);
    hide Columns;
    forall i | 0 <= i < |props|
      ensures props[i].column in Elements(Columns(props))
    {
      assert Columns(props)[i] == props[i].column;
    }
  }

  /** What getForSelect finds is the first table that is selectable; a table without metadata before it is an error. */
  lemma {:induction false} FirstSelectable<V>(tables: seq<Option<TableInfo>>, r: Selection, allPKsDefined: bool,
                                              props: seq<Prop<V>>, fields: seq<Prop<V>>, order: seq<(string, string)>)
    requires forall j :: 0 <= j < |tables| && tables[j].Some? ==>
      WellFormed(tables[j].value) && !CountedTwice(tables[j].value, allPKsDefined, props)
    requires IsSelection(tables, r, allPKsDefined, props, fields, order)
    ensures var n := if r.NoTableMatches? then |tables| else r.index;
      && n <= |tables|
      && (forall j :: 0 <= j < n ==>
            tables[j].Some? && !Selectable(tables[j].value, allPKsDefined, props, fields, order))
      && (r.Chosen? ==> n < |tables| && tables[n].Some?
                        && Selectable(tables[n].value, allPKsDefined, props, fields, order))
      && (r.TableNotFound? ==> n < |tables| && tables[n].None?)
  {
    hide AcceptsSelect, Selectable, WellFormed, CountedTwice;
    forall j | 0 <= j < |tables| && tables[j].Some?
      ensures AcceptsSelect(tables[j].value, allPKsDefined, props, fields, order)
        <==> Selectable(tables[j].value, allPKsDefined, props, fields, order)
    {
      SelectExactly(tables[j].value, allPKsDefined, props, fields, order);
    }
  }

  // ---------------------------------------------------------------- UPDATE and DELETE

  /** A property names a column of the table outside the primary key. */
  ghost predicate SetsSomething<V>(table: TableInfo, props: seq<Prop<V>>) {
    exists i :: 0 <= i < |props| && table.Has(props[i].column)
                && props[i].column !in table.partitionKeys && props[i].column !in table.clusteringKeys
  }

  /** An UPDATE may go to the table: all key columns are named, or only the partition key of a table with static
      columns; some other column is set, or the table has static columns and a clustering key that is named; the
      table has every column of the conditions. */
  ghost predicate Updatable<V>(table: TableInfo, props: seq<Prop<V>>, when: seq<Prop<V>>) {
    var named, ck := Elements(Columns(props)), Elements(table.clusteringKeys);
    && Elements(table.partitionKeys) <= named
    && (ck <= named || (ck !! named && Statics(table) != {}))
    && (SetsSomething(table, props) || (Statics(table) != {} && ck != {} && ck <= named))
    && Covered(table, when)
  }

  lemma {:induction false} SetsExactly<V>(table: TableInfo, props: seq<Prop<V>>)
    ensures SetsSomething(table, props) <==> NonKeys(InTable(props, table), table.PrimaryKey()) != []
  {
    if props != [] {
      SetsExactly(table, props[1..]);
      assert props == [props[0]] + props[1..];
      var rest := InTable(props[1..], table);
      assert ([props[0]] + rest)[1..] == rest && [] + rest == rest;
      SetsFirst(table, props);
      hide SetsSomething, InTable;
    }
  }

  lemma {:induction false} SetsFirst<V>(table: TableInfo, props: seq<Prop<V>>)
    requires props != []
    ensures SetsSomething(table, props)
       <==> SetsSomething(table, props[1..]) || (table.Has(props[0].column) && props[0].column !in table.PrimaryKey())
  {
    var rest := props[1..];
    if SetsSomething(table, props) {
      var i :| 0 <= i < |props| && table.Has(props[i].column)
               && props[i].column !in table.partitionKeys && props[i].column !in table.clusteringKeys;
      if i > 0 {
        assert rest[i - 1] == props[i];
      }
    }
    if SetsSomething(table, rest) {
      var i :| 0 <= i < |rest| && table.Has(rest[i].column)
               && rest[i].column !in table.partitionKeys && rest[i].column !in table.clusteringKeys;
      assert props[i + 1] == rest[i];
    }
  }

  /** The test that there is a column to set. */
  lemma {:induction false} EnoughColumns<V>(table: TableInfo, props: seq<Prop<V>>)
    requires WellFormed(table) && KeysAreIncluded(table.partitionKeys, props) == AllMatch
    requires KeysAreIncluded(table.clusteringKeys, props) != SomeMatch
    requires KeysAreIncluded(table.clusteringKeys, props) == NoneMatch ==> StaticColumns(table.columns) > 0
    ensures var n, hasStatic := Applicable(table, props), StaticColumns(table.columns) > 0;
      n <= |table.partitionKeys| + |table.clusteringKeys| && (!hasStatic || n <= |table.partitionKeys|)
      <==> && !SetsSomething(table, props)
           && !(hasStatic && table.clusteringKeys != [] && KeysAreIncluded(table.clusteringKeys, props) == AllMatch)
  {
    SetsExactly(table, props);
    BoundKeysAre(props, table);
    EmptyKeys(table.partitionKeys, props);
    EmptyKeys(table.clusteringKeys, props);
    hide StaticColumns, WellFormed, SetsSomething, BoundKeys, NonKeys, Keys, InTable, Applicable, Matches;
  }

  /** Accepted and updatable are the same when no key column is named twice, and never both when one is. */
  lemma {:induction false} UpdateExactly<V>(table: TableInfo, props: seq<Prop<V>>, when: seq<Prop<V>>)
    requires WellFormed(table)
    ensures !KeyTwice(props, table) ==> (AcceptsUpdate(table, props, when) <==> Updatable(table, props, when))
    ensures KeyTwice(props, table) ==> !(AcceptsUpdate(table, props, when) && Updatable(table, props, when))
  {
    PrimaryKeyIs(table);
    KeyTwiceIs(props, table);
    IncludedMeans(table.partitionKeys, props);
    IncludedMeans(table.clusteringKeys, props);
    NotNamedNotTwice(Columns(props), Elements(table.clusteringKeys));
    StaticsCounted(table.columns);
    AllInExactly(table, when);
    NoKeys(table.clusteringKeys);
    var hasStatic, clustering := StaticColumns(table.columns) > 0, KeysAreIncluded(table.clusteringKeys, props);
    if KeysAreIncluded(table.partitionKeys, props) == AllMatch && clustering != SomeMatch
       && (clustering == NoneMatch ==> hasStatic) {
      EnoughColumns(table, props);
    }
    hide StaticColumns, Columns, Distinct, NamedTwice, KeyTwice, WellFormed, Covered, AllIn, SetsSomething;
    hide KeysAreIncluded, Applicable, Elements;
  }

  lemma {:induction false} NoKeys(keys: seq<string>)
    ensures Elements(keys) == {} <==> keys == []
  {
    if keys != [] {
      assert keys[0] in Elements(keys);
    }
  }

  /** A table is accepted for a DELETE exactly when every key column is named and it has every column of the
      conditions. */
  lemma {:induction false} DeleteExactly<V>(table: TableInfo, props: seq<Prop<V>>, when: seq<Prop<V>>)
    ensures AcceptsDelete(table, props, when) <==>
      && Elements(table.partitionKeys) <= Elements(Columns(props))
      && Elements(table.clusteringKeys) <= Elements(Columns(props))
      && Covered(table, when)
  {
    AllInExactly(table, when);
    var p, c, cols := table.partitionKeys, table.clusteringKeys, Columns(props);
    hide AllIn, Covered, Columns;
    assert Elements(p + c) == Elements(p) + Elements(c);
    assert (forall i :: 0 <= i < |p + c| ==> (p + c)[i] in cols) <==> Elements(p + c) <= Elements(cols) by {
      if Elements(p + c) <= Elements(cols) {
        forall i | 0 <= i < |p + c|
          ensures (p + c)[i] in cols
        {
          assert (p + c)[i] in Elements(p + c);
        }
      }
    }
  }
}
