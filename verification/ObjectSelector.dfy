/** Choosing the tables a statement is generated for (lib/mapping/object-selector.js), and what the chosen tables
    guarantee about the generated statement. */
module ObjectSelector {
  import opened Bytes
  import opened MapperValues
  import opened Statements
  import opened QueryText
  import opened QueryMeaning

  datatype KeyMatches = AllMatch | NoneMatch | SomeMatch

  /** How many properties name one of the keys. */
  function Matches<V>(keys: seq<string>, props: seq<Prop<V>>): nat {
    if props == [] then 0 else (if props[0].column in keys then 1 else 0) + Matches(keys, props[1..])
  }

  function KeysAreIncluded<V>(keys: seq<string>, props: seq<Prop<V>>): KeyMatches {
    if keys == [] then AllMatch
    else
      var n := Matches(keys, props);
      if n == 0 then NoneMatch else if n == |keys| then AllMatch else SomeMatch
  }

  function StaticColumns(columns: seq<Column>): nat {
    if columns == [] then 0 else (if columns[0].isStatic then 1 else 0) + StaticColumns(columns[1..])
  }

  function Applicable<V>(table: TableInfo, props: seq<Prop<V>>): nat {
    if props == [] then 0 else (if table.Has(props[0].column) then 1 else 0) + Applicable(table, props[1..])
  }

  predicate AllIn<V>(table: TableInfo, props: seq<Prop<V>>) {
    props == [] || (table.Has(props[0].column) && AllIn(table, props[1..]))
  }

  predicate AcceptsUpdate<V>(table: TableInfo, props: seq<Prop<V>>, when: seq<Prop<V>>) {
    var clustering := KeysAreIncluded(table.clusteringKeys, props);
    var hasStatic := StaticColumns(table.columns) > 0;
    if KeysAreIncluded(table.partitionKeys, props) != AllMatch then false
    else if clustering == SomeMatch then false
    else if clustering == NoneMatch && !hasStatic then false
    else if Applicable(table, props) <= |table.partitionKeys| + |table.clusteringKeys|
         && (!hasStatic || Applicable(table, props) <= |table.partitionKeys|) then false
    else AllIn(table, when)
  }

  predicate AcceptsInsert<V>(table: TableInfo, props: seq<Prop<V>>) {
    var clustering := KeysAreIncluded(table.clusteringKeys, props);
    if KeysAreIncluded(table.partitionKeys, props) != AllMatch then false
    else if clustering == AllMatch then true
    else if clustering == SomeMatch then false
    else |props| == |table.partitionKeys| + StaticColumns(table.columns) && StaticColumns(table.columns) > 0
  }

  predicate AcceptsDelete<V>(table: TableInfo, props: seq<Prop<V>>, when: seq<Prop<V>>) {
    var keyNames := table.partitionKeys + table.clusteringKeys;
    (forall i :: 0 <= i < |keyNames| ==> keyNames[i] in Columns(props)) && AllIn(table, when)
  }

  /** The i-th order column is the i-th clustering column. */
  predicate OrderFollows(clusteringKeys: seq<string>, order: seq<(string, string)>) {
    |order| <= |clusteringKeys| && forall i :: 0 <= i < |order| ==> clusteringKeys[i] == order[i].0
  }

  predicate AcceptsSelect<V>(table: TableInfo, allPKsDefined: bool, props: seq<Prop<V>>, fields: seq<Prop<V>>,
                             order: seq<(string, string)>) {
    && KeysAreIncluded(table.partitionKeys, props) == AllMatch
    && (allPKsDefined ==> KeysAreIncluded(table.clusteringKeys, props) == AllMatch)
    && (|props| > |table.partitionKeys| ==>
          forall i :: 0 <= i < |props| ==>
            props[i].column in table.partitionKeys || props[i].column in table.clusteringKeys)
    && AllIn(table, fields)
    && OrderFollows(table.clusteringKeys, order)
  }

  // ---------------------------------------------------------------- the search of getForSelect

  datatype Selection = Chosen(index: nat) | TableNotFound(index: nat) | NoTableMatches

  /** No earlier table is missing or accepts. */
  ghost predicate Passed<V>(tables: seq<Option<TableInfo>>, n: nat, allPKsDefined: bool, props: seq<Prop<V>>,
                            fields: seq<Prop<V>>, order: seq<(string, string)>)
    requires n <= |tables|
  {
    forall j :: 0 <= j < n ==> tables[j].Some? && !AcceptsSelect(tables[j].value, allPKsDefined, props, fields, order)
  }

  /** The first table that accepts; a table without metadata before it is an error. */
  ghost predicate IsSelection<V>(tables: seq<Option<TableInfo>>, r: Selection, allPKsDefined: bool, props: seq<Prop<V>>,
                                 fields: seq<Prop<V>>, order: seq<(string, string)>) {
    match r
    case Chosen(k) =>
      && k < |tables| && Passed(tables, k, allPKsDefined, props, fields, order)
      && tables[k].Some? && AcceptsSelect(tables[k].value, allPKsDefined, props, fields, order)
    case TableNotFound(k) =>
      k < |tables| && Passed(tables, k, allPKsDefined, props, fields, order) && tables[k].None?
    case NoTableMatches => Passed(tables, |tables|, allPKsDefined, props, fields, order)
  }

  method GetForSelect<V>(tables: seq<Option<TableInfo>>, allPKsDefined: bool, props: seq<Prop<V>>,
                         fields: seq<Prop<V>>, order: seq<(string, string)>) returns (r: Selection)
    ensures IsSelection(tables, r, allPKsDefined, props, fields, order)
  {
    for i := 0 to |tables|
      invariant Passed(tables, i, allPKsDefined, props, fields, order)
    {
      if tables[i].None? {
        return TableNotFound(i);
      }
      if AcceptsSelect(tables[i].value, allPKsDefined, props, fields, order) {
        return Chosen(i);
      }
    }
    return NoTableMatches;
  }

  /** A `find` and a `get` of one document share a cached statement, since the key does not say whether all keys must be
      defined. They would choose the same table, or fail alike, exactly when `find` chooses none or one whose
      clustering keys are all included. */
  lemma {:induction false} FindServesGet<V>(tables: seq<Option<TableInfo>>, found: Selection, got: Selection,
                                            props: seq<Prop<V>>, fields: seq<Prop<V>>, order: seq<(string, string)>)
    requires IsSelection(tables, found, false, props, fields, order)
    requires IsSelection(tables, got, true, props, fields, order)
    ensures found == got
      <==> !found.Chosen? || KeysAreIncluded(tables[found.index].value.clusteringKeys, props) == AllMatch
  {
    forall t: TableInfo
      ensures AcceptsSelect(t, true, props, fields, order)
        <==> AcceptsSelect(t, false, props, fields, order) && KeysAreIncluded(t.clusteringKeys, props) == AllMatch
    {
    }
    hide AcceptsSelect, KeysAreIncluded;
    Comparable(tables, found, got, props, fields, order);
  }

  /** Neither search stops before the other without reason. */
  lemma {:induction false} Comparable<V>(tables: seq<Option<TableInfo>>, found: Selection, got: Selection,
                                         props: seq<Prop<V>>, fields: seq<Prop<V>>, order: seq<(string, string)>)
    requires IsSelection(tables, found, false, props, fields, order)
    requires IsSelection(tables, got, true, props, fields, order)
    requires forall t: TableInfo ::
      AcceptsSelect(t, true, props, fields, order) ==> AcceptsSelect(t, false, props, fields, order)
    ensures !found.Chosen? ==> got == found
    ensures found.Chosen? && AcceptsSelect(tables[found.index].value, true, props, fields, order) ==> got == found
    ensures got == found && found.Chosen? ==> AcceptsSelect(tables[found.index].value, true, props, fields, order)
  {
    hide AcceptsSelect;
    var n := |tables|;
    var i := if found.NoTableMatches? then n else found.index;
    var j := if got.NoTableMatches? then n else got.index;
    if i < j {
      assert tables[i].Some? && !AcceptsSelect(tables[i].value, true, props, fields, order);
    }
  }

  /** Such documents exist: on a table with key p and clustering column c, `find` by p is accepted and `get` by p not.
      */
  lemma {:induction false} FindIsNotGet()
    ensures var table := TableInfo("t", ["p"], ["c"], []);
      var props: seq<Prop<int>> := [Prop("p", "p", Lit(0), None)];
      && IsSelection([Some(table)], Chosen(0), false, props, [], [])
      && IsSelection([Some(table)], NoTableMatches, true, props, [], [])
  {
    var props: seq<Prop<int>> := [Prop("p", "p", Lit(0), None)];
    assert props[1..] == [];
    assert Matches(["p"], props) == 1 && Matches(["c"], props) == 0;
  }

  // ---------------------------------------------------------------- counting names

  ghost predicate Distinct(s: seq<string>) {
    forall i, j :: 0 <= i < j < |s| ==> s[i] != s[j]
  }

  ghost function Filtered(cols: seq<string>, keys: set<string>): seq<string> {
    if cols == [] then [] else (if cols[0] in keys then [cols[0]] else []) + Filtered(cols[1..], keys)
  }

  lemma {:induction false} FilteredIs(cols: seq<string>, keys: set<string>)
    ensures forall c :: c in Filtered(cols, keys) <==> c in cols && c in keys
    ensures |Filtered(cols, keys)| <= |cols|
    ensures |Filtered(cols, keys)| == |cols| ==> forall c :: c in cols ==> c in keys
  {
    if cols != [] {
      FilteredIs(cols[1..], keys);
      assert cols == [cols[0]] + cols[1..];
    }
  }

  /** One of the keys is the column of two properties. */
  ghost predicate NamedTwice(cols: seq<string>, keys: set<string>) {
    exists i, j :: 0 <= i < j < |cols| && cols[i] == cols[j] && cols[i] in keys
  }

  lemma {:induction false} TwiceCons(c: string, rest: seq<string>, keys: set<string>)
    ensures NamedTwice([c] + rest, keys) <==> NamedTwice(rest, keys) || (c in keys && c in rest)
  {
    var cols := [c] + rest;
    if NamedTwice(cols, keys) {
      var i, j :| 0 <= i < j < |cols| && cols[i] == cols[j] && cols[i] in keys;
      assert cols[j] == rest[j - 1];
      if i > 0 {
        assert cols[i] == rest[i - 1];
      }
    }
    if NamedTwice(rest, keys) {
      var i, j :| 0 <= i < j < |rest| && rest[i] == rest[j] && rest[i] in keys;
      assert cols[i + 1] == cols[j + 1] && cols[i + 1] in keys;
    }
    if c in keys && c in rest {
      var j :| 0 <= j < |rest| && rest[j] == c;
      assert cols[0] == cols[j + 1];
    }
  }

  lemma {:induction false} DistinctCons(c: string, rest: seq<string>)
    ensures Distinct([c] + rest) <==> Distinct(rest) && c !in rest
  {
    var s := [c] + rest;
    assert forall i :: 0 <= i < |rest| ==> s[i + 1] == rest[i];
    if Distinct(s) {
      forall j | 0 <= j < |rest|
        ensures c != rest[j]
      {
        assert s[0] != s[j + 1];
      }
      forall i, j | 0 <= i < j < |rest|
        ensures rest[i] != rest[j]
      {
        assert s[i + 1] != s[j + 1];
      }
    }
  }

  lemma {:induction false} FilteredDistinct(cols: seq<string>, keys: set<string>)
    ensures Distinct(Filtered(cols, keys)) <==> !NamedTwice(cols, keys)
  {
    if cols != [] {
      var c, rest := cols[0], cols[1..];
      FilteredDistinct(rest, keys);
      FilteredIs(rest, keys);
      assert cols == [c] + rest;
      TwiceCons(c, rest, keys);
      DistinctCons(c, Filtered(rest, keys));
      assert [] + Filtered(rest, keys) == Filtered(rest, keys);
      hide Distinct, NamedTwice;
    }
  }

  ghost function Elements(s: seq<string>): set<string> {
    set c | c in s
  }

  /** A list has as many elements as entries exactly when the entries differ. */
  lemma {:induction false} SizeExactly(s: seq<string>)
    ensures |Elements(s)| <= |s| && (|Elements(s)| == |s| <==> Distinct(s))
  {
    if s != [] {
      var c, rest := s[0], s[1..];
      SizeExactly(rest);
      assert s == [c] + rest;
      DistinctCons(c, rest);
      assert Elements(s) == {c} + Elements(rest);
      if c in rest {
        assert Elements(s) == Elements(rest);
      }
    } else {
      assert Elements(s) == {};
    }
  }

  lemma {:induction false} SubsetSize(a: set<string>, b: set<string>)
    requires a <= b
    ensures |a| <= |b| && (|a| == |b| ==> a == b)
  {
    var rest := b - a;
    assert b == a + rest && |b| == |a| + |rest|;
  }

  /** How many of the keys the columns name, against how many columns name one. */
  lemma {:induction false} CountExactly(cols: seq<string>, keys: seq<string>)
    requires Distinct(keys)
    ensures var f := Filtered(cols, Elements(keys));
      && |Elements(f)| <= |f| && (|Elements(f)| == |f| <==> !NamedTwice(cols, Elements(keys)))
      && |Elements(f)| <= |keys| && (|Elements(f)| == |keys| <==> Elements(keys) <= Elements(cols))
  {
    var f := Filtered(cols, Elements(keys));
    FilteredIs(cols, Elements(keys));
    FilteredDistinct(cols, Elements(keys));
    SizeExactly(f);
    SizeExactly(keys);
    assert Elements(f) <= Elements(keys) && Elements(f) <= Elements(cols);
    SubsetSize(Elements(f), Elements(keys));
    if Elements(keys) <= Elements(cols) {
      assert Elements(f) == Elements(keys);
    }
    hide Distinct, NamedTwice, Filtered;
  }

  lemma {:induction false} MatchesCount<V>(keys: seq<string>, props: seq<Prop<V>>)
    ensures Matches(keys, props) == |Filtered(Columns(props), Elements(keys))|
  {
    if props != [] {
      MatchesCount(keys, props[1..]);
      assert Columns(props)[1..] == Columns(props[1..]);
    }
  }

  /** The counting test is wrong exactly when the count is right although a key is named twice, or too high although
      every key is named. */
  lemma {:induction false} MiscountExactly<V>(keys: seq<string>, props: seq<Prop<V>>)
    requires Distinct(keys)
    ensures var cols, n := Columns(props), Matches(keys, props);
      var included := Elements(keys) <= Elements(cols);
      (KeysAreIncluded(keys, props) == AllMatch) != included
      <==> (n == |keys| && NamedTwice(cols, Elements(keys))) || (n > |keys| && included)
  {
    MatchesCount(keys, props);
    CountExactly(Columns(props), keys);
    hide Filtered, NamedTwice, Distinct, Matches, Columns;
    assert keys == [] ==> Elements(keys) == {};
  }

  /** What the counting test says: `all` is that every key is named provided none is named twice, and only then;
      `none` is that none is named. */
  lemma {:induction false} IncludedMeans<V>(keys: seq<string>, props: seq<Prop<V>>)
    requires Distinct(keys)
    ensures var cols, all := Columns(props), KeysAreIncluded(keys, props) == AllMatch;
      && (!NamedTwice(cols, Elements(keys)) ==> (all <==> Elements(keys) <= Elements(cols)))
      && (all && Elements(keys) <= Elements(cols) ==> !NamedTwice(cols, Elements(keys)))
      && (KeysAreIncluded(keys, props) == NoneMatch <==> keys != [] && Elements(keys) !! Elements(cols))
  {
    var f := Filtered(Columns(props), Elements(keys));
    MiscountExactly(keys, props);
    MatchesCount(keys, props);
    CountExactly(Columns(props), keys);
    FilteredIs(Columns(props), Elements(keys));
    NoneFiltered(keys, Columns(props));
    hide Filtered, NamedTwice, Distinct, Matches, Columns;
    assert keys == [] ==> Elements(keys) == {} && Elements(f) == {};
  }

  lemma {:induction false} NoneFiltered(keys: seq<string>, cols: seq<string>)
    ensures Filtered(cols, Elements(keys)) == [] <==> Elements(keys) !! Elements(cols)
  {
    var f := Filtered(cols, Elements(keys));
    FilteredIs(cols, Elements(keys));
    if f != [] {
      assert f[0] in f && f[0] in Elements(keys) && f[0] in Elements(cols);
    }
  }

  lemma {:induction false} KeysColumns<V>(props: seq<Prop<V>>, pk: set<string>)
    ensures Columns(Keys(props, pk)) == Filtered(Columns(props), pk)
    ensures |Keys(props, pk)| + |NonKeys(props, pk)| == |props|
    ensures |Columns(props)| == |props|
  {
    if props != [] {
      KeysColumns(props[1..], pk);
      assert Columns(props)[1..] == Columns(props[1..]);
      var f := Filtered(Columns(props[1..]), pk);
      assert [] + f == f;
      var k := Keys(props[1..], pk);
      assert ([props[0]] + k)[1..] == k && [] + k == k;
    }
  }

  ghost predicate WellFormed(table: TableInfo) {
    Distinct(table.partitionKeys + table.clusteringKeys)
    && forall k :: k in table.partitionKeys + table.clusteringKeys ==> table.Has(k)
  }

  ghost function TableColumns(table: TableInfo): set<string> {
    set c | c in table.columns :: c.name
  }

  lemma {:induction false} InTableColumns<V>(props: seq<Prop<V>>, table: TableInfo)
    ensures Columns(InTable(props, table)) == Filtered(Columns(props), TableColumns(table))
    ensures Applicable(table, props) == |InTable(props, table)|
  {
    if props != [] {
      InTableColumns(props[1..], table);
      assert Columns(props)[1..] == Columns(props[1..]);
      assert table.Has(props[0].column) <==> props[0].column in TableColumns(table);
      var k := InTable(props[1..], table);
      assert ([props[0]] + k)[1..] == k && [] + k == k;
      var f := Filtered(Columns(props[1..]), TableColumns(table));
      assert [] + f == f;
    }
  }

  // ---------------------------------------------------------------- what acceptance guarantees

  /** The key columns a statement on the table binds. */
  ghost function BoundKeys<V>(props: seq<Prop<V>>, table: TableInfo): seq<string> {
    Columns(Keys(InTable(props, table), table.PrimaryKey()))
  }

  /** A key column of the table is the column of two properties. */
  ghost predicate KeyTwice<V>(props: seq<Prop<V>>, table: TableInfo) {
    NamedTwice(Columns(props), table.PrimaryKey())
  }

  lemma {:induction false} DistinctParts(a: seq<string>, b: seq<string>)
    requires Distinct(a + b)
    ensures Distinct(a) && Distinct(b) && Elements(a) !! Elements(b) && Elements(a + b) == Elements(a) + Elements(b)
  {
    forall i, j | 0 <= i < j < |a|
      ensures a[i] != a[j]
    {
      assert (a + b)[i] == a[i] && (a + b)[j] == a[j];
    }
    forall i, j | 0 <= i < j < |b|
      ensures b[i] != b[j]
    {
      assert (a + b)[|a| + i] == b[i] && (a + b)[|a| + j] == b[j];
    }
    forall i, j | 0 <= i < |a| && 0 <= j < |b|
      ensures a[i] != b[j]
    {
      assert (a + b)[i] == a[i] && (a + b)[|a| + j] == b[j];
    }
  }

  lemma {:induction false} PrimaryKeyIs(table: TableInfo)
    requires WellFormed(table)
    ensures Distinct(table.partitionKeys) && Distinct(table.clusteringKeys)
    ensures table.PrimaryKey() == Elements(table.partitionKeys) + Elements(table.clusteringKeys)
    ensures Elements(table.partitionKeys) !! Elements(table.clusteringKeys)
  {
    DistinctParts(table.partitionKeys, table.clusteringKeys);
  }

  lemma {:induction false} FilteredAgain(cols: seq<string>, more: set<string>, keys: set<string>)
    requires keys <= more
    ensures Filtered(Filtered(cols, more), keys) == Filtered(cols, keys)
  {
    if cols != [] {
      var c, rest := cols[0], Filtered(cols[1..], more);
      FilteredAgain(cols[1..], more, keys);
      assert ([c] + rest)[1..] == rest && [] + rest == rest;
      var f := Filtered(rest, keys);
      assert [] + f == f;
    }
  }

  lemma {:induction false} FilteredParts(cols: seq<string>, a: set<string>, b: set<string>)
    requires a !! b
    ensures |Filtered(cols, a + b)| == |Filtered(cols, a)| + |Filtered(cols, b)|
    ensures NamedTwice(cols, a + b) <==> NamedTwice(cols, a) || NamedTwice(cols, b)
  {
    if cols != [] {
      FilteredParts(cols[1..], a, b);
    }
    if NamedTwice(cols, a + b) {
      var i, j :| 0 <= i < j < |cols| && cols[i] == cols[j] && cols[i] in a + b;
      assert cols[i] in a ==> NamedTwice(cols, a);
    }
  }

  /** The bound key columns are the key columns of the table that the properties name, once for every time. */
  lemma {:induction false} BoundKeysAre<V>(props: seq<Prop<V>>, table: TableInfo)
    requires WellFormed(table)
    ensures Distinct(BoundKeys(props, table)) <==> !KeyTwice(props, table)
    ensures Elements(BoundKeys(props, table)) == Elements(Columns(props)) * table.PrimaryKey()
    ensures |BoundKeys(props, table)| == Matches(table.partitionKeys, props) + Matches(table.clusteringKeys, props)
    ensures |Keys(InTable(props, table), table.PrimaryKey())| == |BoundKeys(props, table)|
    ensures |BoundKeys(props, table)| + |NonKeys(InTable(props, table), table.PrimaryKey())| == Applicable(table, props)
  {
    var pk, own, cols := table.PrimaryKey(), InTable(props, table), Columns(props);
    forall c | c in pk
      ensures c in TableColumns(table)
    {
      assert c in table.partitionKeys + table.clusteringKeys;
      assert table.Has(c);
    }
    PrimaryKeyIs(table);
    InTableColumns(props, table);
    KeysColumns(own, pk);
    KeysColumns(Keys(own, pk), pk);
    FilteredAgain(cols, TableColumns(table), pk);
    FilteredDistinct(cols, pk);
    FilteredIs(cols, pk);
    FilteredParts(cols, Elements(table.partitionKeys), Elements(table.clusteringKeys));
    MatchesCount(table.partitionKeys, props);
    MatchesCount(table.clusteringKeys, props);
    hide Filtered, Keys, NonKeys, InTable, Columns, Applicable, Matches, Distinct, NamedTwice, WellFormed;
  }

  /** A key column is named twice exactly when one of either kind is. */
  lemma {:induction false} KeyTwiceIs<V>(props: seq<Prop<V>>, table: TableInfo)
    requires WellFormed(table)
    ensures KeyTwice(props, table)
      <==> || NamedTwice(Columns(props), Elements(table.partitionKeys))
           || NamedTwice(Columns(props), Elements(table.clusteringKeys))
  {
    PrimaryKeyIs(table);
    FilteredParts(Columns(props), Elements(table.partitionKeys), Elements(table.clusteringKeys));
    hide Filtered, Columns, NamedTwice;
  }

  /** All key columns are bound, or for a table with static columns all partition key columns and no other. */
  ghost predicate BindsKeys<V>(props: seq<Prop<V>>, table: TableInfo) {
    || Elements(BoundKeys(props, table)) == table.PrimaryKey()
    || (StaticColumns(table.columns) > 0 && Elements(BoundKeys(props, table)) == Elements(table.partitionKeys))
  }

  /** An UPDATE on an accepted table binds the keys, once each, exactly when no key column is named twice; and it sets a
      column unless the document names just the whole primary key of a table with static columns. */
  lemma {:induction false} UpdateTable<V>(table: TableInfo, props: seq<Prop<V>>, when: seq<Prop<V>>)
    requires WellFormed(table) && AcceptsUpdate(table, props, when)
    ensures BindsKeys(props, table) <==> !KeyTwice(props, table)
    ensures Distinct(BoundKeys(props, table)) <==> !KeyTwice(props, table)
    ensures NonKeys(InTable(props, table), table.PrimaryKey()) == [] <==>
      && StaticColumns(table.columns) > 0 && table.clusteringKeys != []
      && KeysAreIncluded(table.clusteringKeys, props) == AllMatch
      && Applicable(table, props) == |table.partitionKeys| + |table.clusteringKeys|
  {
    UpdateSets(table, props, when);
    PrimaryKeyIs(table);
    BoundKeysAre(props, table);
    KeyTwiceIs(props, table);
    IncludedMeans(table.partitionKeys, props);
    IncludedMeans(table.clusteringKeys, props);
    hide BoundKeys, NonKeys, InTable, KeysAreIncluded, Applicable, StaticColumns, Columns, Distinct, NamedTwice;
    hide KeyTwice, WellFormed, Matches;
    AllOrPartition(Elements(Columns(props)), Elements(table.partitionKeys), Elements(table.clusteringKeys));
  }

  lemma {:induction false} AllOrPartition(named: set<string>, pk: set<string>, ck: set<string>)
    requires pk !! ck
    ensures named * (pk + ck) == pk + ck <==> pk <= named && ck <= named
    ensures named * (pk + ck) == pk <==> pk <= named && named !! ck
  {
    if named * (pk + ck) == pk + ck {
      assert forall c :: c in pk + ck ==> c in named * (pk + ck);
    }
    if named * (pk + ck) == pk {
      assert forall c :: c in pk ==> c in named * (pk + ck);
      assert forall c :: c in named && c in ck ==> c in named * (pk + ck);
    }
  }

  lemma {:induction false} UpdateSets<V>(table: TableInfo, props: seq<Prop<V>>, when: seq<Prop<V>>)
    requires WellFormed(table) && AcceptsUpdate(table, props, when)
    ensures NonKeys(InTable(props, table), table.PrimaryKey()) == [] <==>
      && StaticColumns(table.columns) > 0 && table.clusteringKeys != []
      && KeysAreIncluded(table.clusteringKeys, props) == AllMatch
      && Applicable(table, props) == |table.partitionKeys| + |table.clusteringKeys|
    ensures table.partitionKeys != [] ==> Keys(InTable(props, table), table.PrimaryKey()) != []
  {
    BoundKeysAre(props, table);
    EmptyKeys(table.partitionKeys, props);
    EmptyKeys(table.clusteringKeys, props);
    hide BoundKeys, NonKeys, Keys, InTable, Applicable, StaticColumns, Matches, WellFormed;
  }

  lemma {:induction false} EmptyKeys<V>(keys: seq<string>, props: seq<Prop<V>>)
    ensures keys == [] ==> Matches(keys, props) == 0
  {
    if keys == [] && props != [] {
      EmptyKeys(keys, props[1..]);
    }
  }

  /** Without static columns there is always something to set, and every key column is bound once exactly when none is
      named twice. */
  lemma {:induction false} UpdateTableWithoutStatics<V>(table: TableInfo, props: seq<Prop<V>>, when: seq<Prop<V>>)
    requires WellFormed(table) && AcceptsUpdate(table, props, when) && StaticColumns(table.columns) == 0
    ensures NonKeys(InTable(props, table), table.PrimaryKey()) != []
    ensures Elements(BoundKeys(props, table)) == table.PrimaryKey() <==> !KeyTwice(props, table)
    ensures Distinct(BoundKeys(props, table)) <==> !KeyTwice(props, table)
  {
    UpdateTable(table, props, when);
  }

  /** An UPDATE on an accepted table without static columns, with plain key values and one kind of guard, means what
      the document says. */
  lemma {:induction false} AcceptedUpdateMeaning<V>(ks: string, table: TableInfo, doc: Doc<V>, info: DocInfo<V>,
                                                    m: Mapping<V>)
    requires WellFormed(table) && StaticColumns(table.columns) == 0 && table.partitionKeys != []
    requires AcceptsUpdate(table, PropertiesInfo(doc.keys, info.fields, doc, m), WhenInfo(info, m))
    ensures var props, when := InTable(PropertiesInfo(doc.keys, info.fields, doc, m), table), WhenInfo(info, m);
      var pk := table.PrimaryKey();
      ReadUpdate(UpdateText(ks, table.name, pk, props, when, info.ifExists, info.ttl.Some?),
                 EvalAll(UpdateGetter(pk, props, when, info.ttl.Some?), doc, info, m))
        == Some(UpdateSays(ks, table, props, when, info))
      <==> NoOperators(Keys(props, pk)) && !(info.ifExists && when != [])
  {
    UpdateSets(table, PropertiesInfo(doc.keys, info.fields, doc, m), WhenInfo(info, m));
    UpdateMeaning(ks, table, doc, info, m);
    hide UpdateText, UpdateGetter, EvalAll, ReadUpdate, InTable, PropertiesInfo, WhenInfo, Keys, NonKeys, UpdateSays;
    hide StaticColumns, Applicable;
  }

  /** A DELETE on an accepted table binds every key column, once each exactly when none is named twice. */
  lemma {:induction false} DeleteTable<V>(table: TableInfo, props: seq<Prop<V>>, when: seq<Prop<V>>)
    requires WellFormed(table) && AcceptsDelete(table, props, when)
    ensures Elements(BoundKeys(props, table)) == table.PrimaryKey()
    ensures Distinct(BoundKeys(props, table)) <==> !KeyTwice(props, table)
  {
    BoundKeysAre(props, table);
    PrimaryKeyIs(table);
    var all := table.partitionKeys + table.clusteringKeys;
    forall c | c in table.PrimaryKey()
      ensures c in Columns(props)
    {
      assert c in all;
      var i :| 0 <= i < |all| && all[i] == c;
    }
    hide BoundKeys, KeyTwice, Distinct, WellFormed;
  }

  /** The positions of the static columns. */
  ghost function Statics(table: TableInfo): set<nat> {
    set i: nat | i < |table.columns| && table.columns[i].isStatic
  }

  lemma {:induction false} StaticsCounted(columns: seq<Column>)
    ensures StaticColumns(columns) == |set i: nat | i < |columns| && columns[i].isStatic|
  {
    var all := set i: nat | i < |columns| && columns[i].isStatic;
    if columns == [] {
      assert all == {};
    } else {
      var rest := columns[1..];
      StaticsCounted(rest);
      var others := set i: nat | i < |rest| && rest[i].isStatic;
      var shifted := set i: nat | i in others :: i + 1;
      Shifted(others, shifted);
      assert all == shifted + if columns[0].isStatic then {0} else {} by {
        forall i | i in all && i > 0
          ensures i in shifted
        {
          assert i - 1 in others;
        }
      }
      assert 0 !in shifted;
    }
  }

  lemma {:induction false} Shifted(a: set<nat>, b: set<nat>)
    requires b == set i: nat | i in a :: i + 1
    ensures |a| == |b|
  {
    if a != {} {
      var x :| x in a;
      var c, d := a - {x}, b - {x + 1};
      forall y | y in d
        ensures y > 0 && y - 1 in c
      {
        assert y in b;
      }
      assert d == set i: nat | i in c :: i + 1 by {
        assert forall i :: i in c ==> i + 1 in b;
        assert forall y :: y in d ==> y == (y - 1) + 1;
      }
      Shifted(c, d);
    }
  }

  /** An INSERT may go to the table: every key column is named, or the partition key of a table with static columns, no
      clustering column, and as many others as there are static columns. */
  ghost predicate Insertable<V>(table: TableInfo, props: seq<Prop<V>>) {
    && Elements(table.partitionKeys) <= Elements(Columns(props))
    && (|| Elements(table.clusteringKeys) <= Elements(Columns(props))
        || (Elements(table.clusteringKeys) !! Elements(Columns(props)) && Statics(table) != {}
            && |props| == |table.partitionKeys| + |Statics(table)|))
  }

  /** Accepted and insertable are the same when no key column is named twice, and never both when one is. */
  lemma {:induction false} InsertTable<V>(table: TableInfo, props: seq<Prop<V>>)
    requires WellFormed(table)
    ensures !KeyTwice(props, table) ==> (AcceptsInsert(table, props) <==> Insertable(table, props))
    ensures KeyTwice(props, table) ==> !(AcceptsInsert(table, props) && Insertable(table, props))
  {
    PrimaryKeyIs(table);
    KeyTwiceIs(props, table);
    IncludedMeans(table.partitionKeys, props);
    IncludedMeans(table.clusteringKeys, props);
    NotNamedNotTwice(Columns(props), Elements(table.clusteringKeys));
    StaticsCounted(table.columns);
    assert table.clusteringKeys == [] ==> Elements(table.clusteringKeys) == {};
    assert table.clusteringKeys != [] ==> table.clusteringKeys[0] in Elements(table.clusteringKeys);
    hide KeysAreIncluded, StaticColumns, Columns, Distinct, NamedTwice, KeyTwice, WellFormed;
  }

  lemma {:induction false} NotNamedNotTwice(cols: seq<string>, keys: set<string>)
    ensures keys !! Elements(cols) ==> !NamedTwice(cols, keys)
  {
  }

  /** An accepted SELECT filters on primary key columns only and orders by a prefix of the clustering columns; it
      filters on every partition key column exactly when none of them is named twice, and with all keys asked for on
      every key column exactly when none is. */
  lemma {:induction false} SelectTable<V>(table: TableInfo, allPKsDefined: bool, props: seq<Prop<V>>,
                                          fields: seq<Prop<V>>, order: seq<(string, string)>)
    requires WellFormed(table) && AcceptsSelect(table, allPKsDefined, props, fields, order)
    ensures Elements(Columns(props)) <= table.PrimaryKey()
    ensures Elements(table.partitionKeys) <= Elements(Columns(props))
      <==> !NamedTwice(Columns(props), Elements(table.partitionKeys))
    ensures allPKsDefined ==> (Elements(Columns(props)) == table.PrimaryKey() <==> !KeyTwice(props, table))
    ensures |order| <= |table.clusteringKeys| && forall i :: 0 <= i < |order| ==> order[i].0 == table.clusteringKeys[i]
  {
    PrimaryKeyIs(table);
    KeyTwiceIs(props, table);
    IncludedMeans(table.partitionKeys, props);
    IncludedMeans(table.clusteringKeys, props);
    SelectFilters(table, allPKsDefined, props, fields, order);
    hide KeysAreIncluded, Distinct, NamedTwice, KeyTwice, WellFormed, Columns;
  }

  lemma {:induction false} SelectFilters<V>(table: TableInfo, allPKsDefined: bool, props: seq<Prop<V>>,
                                            fields: seq<Prop<V>>, order: seq<(string, string)>)
    requires AcceptsSelect(table, allPKsDefined, props, fields, order)
    ensures Elements(Columns(props)) <= table.PrimaryKey()
  {
    ColumnsOf(props);
    if |props| <= |table.partitionKeys| {
      MatchesCount(table.partitionKeys, props);
      FilteredIs(Columns(props), Elements(table.partitionKeys));
      assert table.partitionKeys != [] ==> Matches(table.partitionKeys, props) == |table.partitionKeys|;
      hide Filtered, Matches;
      assert forall c :: c in Columns(props) ==> c in Elements(table.partitionKeys);
    } else {
      forall c | c in Elements(Columns(props))
        ensures c in table.PrimaryKey()
      {
        var i :| 0 <= i < |Columns(props)| && Columns(props)[i] == c;
        assert props[i].column == c;
      }
    }
  }

  // ---------------------------------------------------------------- where the guarantees end

  /** A table with static columns is accepted for a document that names its whole primary key and nothing else: the
      UPDATE would set nothing. */
  lemma {:induction false} StaticTableSetsNothing()
    ensures var table := TableInfo("t", ["p"], ["c"],
                                   [Column("p", false, OtherColumn), Column("c", false, OtherColumn),
                                    Column("s", true, OtherColumn)]);
      var props: seq<Prop<int>> := [Prop("p", "p", Lit(0), None), Prop("c", "c", Lit(0), None)];
      WellFormed(table) && AcceptsUpdate(table, props, []) && NonKeys(InTable(props, table), table.PrimaryKey()) == []
  {
    var table := TableInfo("t", ["p"], ["c"],
        [Column("p", false, OtherColumn), Column("c", false, OtherColumn), Column("s", true, OtherColumn)]);
    var p: Prop<int>, c: Prop<int> := Prop("p", "p", Lit(0), None), Prop("c", "c", Lit(0), None);
    var props, cols, pk := [p, c], table.columns, table.PrimaryKey();
    assert table.partitionKeys + table.clusteringKeys == ["p", "c"];
    assert table.Has("p") by { assert cols[0].name == "p"; }
    assert table.Has("c") by { assert cols[1].name == "c"; }
    assert "p" in pk && "c" in pk && Distinct(["p", "c"]);
    assert cols[1..][1..][0] == cols[2] && StaticColumns(cols[1..][1..]) >= 1;
    assert StaticColumns(cols[1..]) >= 1 && StaticColumns(cols) >= 1;
    assert props[1..] == [c] && [c][1..] == [];
    TwoKeyProps(table, p, c, pk);
    assert Matches(["p"], [c]) == 0 && Matches(["c"], [c]) == 1;
    assert Matches(["p"], props) == 1 && Matches(["c"], props) == 1;
    hide Applicable, InTable, NonKeys;
  }

  lemma {:induction false} TwoKeyProps(table: TableInfo, p: Prop<int>, c: Prop<int>, pk: set<string>)
    requires table.Has(p.column) && table.Has(c.column) && p.column in pk && c.column in pk
    ensures Applicable(table, [p, c]) == 2 && NonKeys(InTable([p, c], table), pk) == []
  {
    assert [p, c][1..] == [c] && [c][1..] == [];
    assert Applicable(table, [c]) == 1;
    assert InTable([c], table) == [c] + InTable([c][1..], table) == [c];
    assert InTable([p, c], table) == [p] + InTable([p, c][1..], table) == [p] + [c];
    assert [p] + [c] == [p, c];
    assert NonKeys([c], pk) == [] + NonKeys([c][1..], pk) == [];
    assert NonKeys([p, c], pk) == [] + NonKeys([p, c][1..], pk) == [];
  }

  /** The column name that UnderscoreCqlToCamelCaseMappings gives a property: a lower-case letter and an upper-case one
      are parted by an underscore, and the name is lowered. */
  function SnakeCase(s: string): string {
    if |s| >= 2 && 'a' <= s[0] <= 'z' && 'A' <= s[1] <= 'Z' then [s[0], '_', LowerChar(s[1])] + SnakeCase(s[2..])
    else if s != "" then [LowerChar(s[0])] + SnakeCase(s[1..])
    else ""
  }

  function LowerChar(c: char): char {
    if 'A' <= c <= 'Z' then c - 'A' + 'a' else c
  }

  /** A document with two spellings, aB and a_b, of one column: the count says that both a_b and c are included, and c
      is
      not. */
  lemma {:induction false} TwoSpellingsFoolTheCount()
    ensures var m: Mapping<int> := Mapping(SnakeCase, (_: string) => None);
      var doc := Doc(["aB", "a_b"], map["aB" := Lit(1), "a_b" := Lit(1)]);
      var props := PropsOf(doc.keys, doc, m);
      KeysAreIncluded(["a_b", "c"], props) == AllMatch && "c" !in Columns(props)
  {
    var m: Mapping<int> := Mapping(SnakeCase, (_: string) => None);
    var doc := Doc(["aB", "a_b"], map["aB" := Lit(1), "a_b" := Lit(1)]);
    var props := PropsOf(doc.keys, doc, m);
    TwoSpellings();
    PropsRead(doc.keys, doc, m);
    hide SnakeCase, PropsOf;
    ColumnsOf(props);
    assert props[0].column == "a_b" && props[1].column == "a_b";
    assert props[1..][0] == props[1] && props[1..][1..] == [];
    assert Matches(["a_b", "c"], props[1..]) == 1;
    assert Matches(["a_b", "c"], props) == 2;
    assert Columns(props) == ["a_b", "a_b"];
  }

  lemma {:induction false} TwoSpellings()
    ensures SnakeCase("aB") == "a_b" && SnakeCase("a_b") == "a_b"
  {
    assert "aB"[2..] == "" && SnakeCase("") == "";
    assert "a_b"[1..] == "_b" && "_b"[1..] == "b" && "b"[1..] == "";
    assert SnakeCase("b") == ['b'] + SnakeCase("");
    assert SnakeCase("_b") == ['_'] + SnakeCase("b");
    assert SnakeCase("a_b") == ['a'] + SnakeCase("_b");
  }
}
