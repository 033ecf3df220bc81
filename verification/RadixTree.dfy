/** The mapper's cache tree (lib/mapping/tree.js): nodes mutated in place by getOrCreate, proved to refine a
    finite map over every sequence of calls. */
module RadixTree {
  import opened Bytes
  import opened RadixModel

  // ---------------------------------------------------------------- the finite map getOrCreate refines

  /** What a caller can observe: the stored entries and the length counter. */
  datatype Summary<!K(==), V> = Summary(contents: map<seq<K>, V>, length: nat)

  /** The new state, the returned value (null is None) and the number of handler calls. */
  datatype Answer<!K(==), V> = Answer(after: Summary<K, V>, value: Option<V>, calls: nat)

  /** A present key is returned; an absent one is added with the handler's value. The counter misses a key filled
      in where the stored keys already fork, and the empty key is not added to an empty tree. */
  ghost function Step<K, V>(s: Summary<K, V>, key: seq<K>, v: V): Answer<K, V> {
    if key in s.contents then Answer(s, Some(s.contents[key]), 0)
    else if key == [] && s.contents == map[] then Answer(s, None, 0)
    else
      var counted := if key == [] || Fork(s.contents, key) then 0 else 1;
      Answer(Summary(s.contents[key := v], s.length + counted), Some(v), 1)
  }

  datatype Call<K, V> = Call(key: seq<K>, made: V)

  ghost function Run<K, V>(calls: seq<Call<K, V>>): Summary<K, V> {
    if calls == [] then Summary(map[], 0)
    else Step(Run(calls[..|calls| - 1]), calls[|calls| - 1].key, calls[|calls| - 1].made).after
  }

  ghost function HandlerCalls<K, V>(calls: seq<Call<K, V>>): nat {
    if calls == [] then 0
    else
      var before := calls[..|calls| - 1];
      HandlerCalls(before) + Step(Run(before), calls[|calls| - 1].key, calls[|calls| - 1].made).calls
  }

  /** Calls that filled a value in at an existing branching point. */
  ghost function Fills<K, V>(calls: seq<Call<K, V>>): nat {
    if calls == [] then 0
    else
      var before, key := calls[..|calls| - 1], calls[|calls| - 1].key;
      Fills(before) + if key !in Run(before).contents && Fork(Run(before).contents, key) then 1 else 0
  }

  ghost predicate Asked<K, V>(calls: seq<Call<K, V>>, k: seq<K>) {
    exists i :: 0 <= i < |calls| && calls[i].key == k
  }

  /** The value of the first call with the key. */
  ghost function FirstMade<K, V>(calls: seq<Call<K, V>>, k: seq<K>): V
    requires Asked(calls, k)
  {
    if calls[0].key == k then calls[0].made else FirstMade(calls[1..], k)
  }

  lemma {:induction false} AskedSnoc<K, V>(calls: seq<Call<K, V>>, k: seq<K>)
    requires calls != []
    ensures Asked(calls, k) <==> Asked(calls[..|calls| - 1], k) || calls[|calls| - 1].key == k
  {
    var before := calls[..|calls| - 1];
    if Asked(before, k) {
      var i :| 0 <= i < |before| && before[i].key == k;
      assert calls[i].key == k;
    }
    if Asked(calls, k) && calls[|calls| - 1].key != k {
      var i :| 0 <= i < |calls| && calls[i].key == k;
      assert before[i].key == k;
    }
  }

  lemma {:induction false} FirstMadeSnoc<K, V>(calls: seq<Call<K, V>>, k: seq<K>)
    requires calls != [] && Asked(calls, k)
    ensures var before := calls[..|calls| - 1];
      FirstMade(calls, k) == if Asked(before, k) then FirstMade(before, k) else calls[|calls| - 1].made
  {
    var before := calls[..|calls| - 1];
    if |calls| > 1 {
      assert before[0] == calls[0];
      if calls[0].key != k {
        AskedSnoc(calls, k);
        assert before == [before[0]] + before[1..];
        assert calls[1..][..|calls| - 2] == before[1..];
        AskedTail(before, k);
        AskedTail(calls, k);
        FirstMadeSnoc(calls[1..], k);
      }
    }
  }

  lemma {:induction false} AskedTail<K, V>(calls: seq<Call<K, V>>, k: seq<K>)
    requires calls != [] && calls[0].key != k
    ensures Asked(calls, k) <==> Asked(calls[1..], k)
  {
    if Asked(calls, k) {
      var i :| 0 <= i < |calls| && calls[i].key == k;
      assert calls[1..][i - 1].key == k;
    }
    if Asked(calls[1..], k) {
      var i :| 0 <= i < |calls[1..]| && calls[1..][i].key == k;
      assert calls[i + 1].key == k;
    }
  }

  ghost predicate KeysNonEmpty<K, V>(calls: seq<Call<K, V>>) {
    forall i :: 0 <= i < |calls| ==> calls[i].key != []
  }

  /** Over every run on non-empty keys: the stored keys are those asked for, each with the value of the first call
      that asked for it. */
  lemma {:induction false} EveryRun<K, V>(calls: seq<Call<K, V>>, k: seq<K>)
    requires KeysNonEmpty(calls)
    ensures k in Run(calls).contents <==> Asked(calls, k)
    ensures Asked(calls, k) ==> Run(calls).contents[k] == FirstMade(calls, k)
  {
    if calls != [] {
      EveryRun(calls[..|calls| - 1], k);
      AskedSnoc(calls, k);
      if Asked(calls, k) {
        FirstMadeSnoc(calls, k);
      }
      hide Asked, FirstMade;
    }
  }

  /** Over every run on non-empty keys the handler is called once per stored key, and the length counter falls
      short of the number of keys by the number of fills. */
  lemma {:induction false} EveryRunCounts<K, V>(calls: seq<Call<K, V>>)
    requires KeysNonEmpty(calls)
    ensures HandlerCalls(calls) == |Run(calls).contents|
    ensures Run(calls).length + Fills(calls) == |Run(calls).contents|
  {
    if calls != [] {
      var before, last := calls[..|calls| - 1], calls[|calls| - 1];
      EveryRunCounts(before);
      var m := Run(before).contents;
      if last.key !in m {
        assert m[last.key := last.made].Keys == m.Keys + {last.key};
        assert |m[last.key := last.made]| == |m| + 1;
      }
      hide Fork;
    }
  }

  /** The keys ab, ac and then a: three keys are stored and length says two. */
  lemma {:induction false} LengthMissesAFork()
    ensures var calls := [Call("ab", 1), Call("ac", 2), Call("a", 3)];
      Run(calls).length == 2 && |Run(calls).contents| == 3
  {
    var c1, c2, c3 := [Call("ab", 1)], [Call("ab", 1), Call("ac", 2)], [Call("ab", 1), Call("ac", 2), Call("a", 3)];
    assert c3[..2] == c2 && c2[..1] == c1 && c1[..0] == [];
    assert Run<char, int>([]) == Summary(map[], 0);
    assert Run(c1) == Summary(map["ab" := 1], 1);
    assert !Fork(Run(c1).contents, "ac");
    var m := map["ab" := 1, "ac" := 2];
    assert "ab" != "ac" && Run(c2) == Summary(m, 2);
    assert "a" < "ab" && "a" < "ac" && "ab"[1] != "ac"[1];
    assert "ab" in m && "ac" in m && Fork(m, "a");
    assert "a" !in m && Run(c3) == Summary(m["a" := 3], 2);
    assert m["a" := 3].Keys == {"ab", "ac", "a"};
  }

  // ---------------------------------------------------------------- the tree on the heap

  class Node<!K(==), V(==)> {
    var key: seq<K>
    var value: Option<V>
    var edges: seq<Node<K, V>>

    constructor (key: seq<K>, value: Option<V>, edges: seq<Node<K, V>>)
      ensures this.key == key && this.value == value && this.edges == edges
    {
      this.key := key;
      this.value := value;
      this.edges := edges;
    }
  }

  /** The fields of the nodes. */
  ghost function Fields<K, V>(nodes: set<Node<K, V>>): map<Node<K, V>, Rec<Node<K, V>, K, V>>
    reads nodes
  {
    map n | n in nodes :: Rec(n.key, n.value, n.edges)
  }

  class Tree<!K(==), V(==)> {
    const root: Node<K, V>
    var length: nat
    ghost var nodes: set<Node<K, V>>
    ghost var st: State<Node<K, V>, K, V>

    ghost predicate Valid()
      reads this, nodes
    {
      && st.root == root && st.recs == Fields(nodes) && ValidExcept(st, None)
      && length <= |st.contents|
    }

    ghost function Observed(): Summary<K, V>
      reads this
    {
      Summary(st.contents, length)
    }

    constructor ()
      ensures Valid() && fresh(nodes) && Observed() == Summary(map[], 0)
    {
      var r := new Node([], None, []);
      root := r;
      length := 0;
      nodes := {r};
      st := Empty(r);
      new;
      assert NodeOk(st, r);
    }

    /** Splits the key of a node at an index: the tail becomes a new child with the node's value and edges. */
    method CreateBranch(node: Node<K, V>, index: nat, useNewValue: bool, v: V) returns (newBranch: Node<K, V>,
                                                                                        calls: nat)
      requires node in nodes && index <= |node.key|
      modifies this`length, this`nodes, node
      ensures fresh(newBranch) && nodes == old(nodes) + {newBranch}
      ensures Fields(nodes) == old(Fields(nodes))
        [newBranch := Rec(old(node.key)[index..], old(node.value), old(node.edges))]
        [node := Rec(old(node.key)[..index], if useNewValue then Some(v) else None, [newBranch])]
      ensures node.value == if useNewValue then Some(v) else None
      ensures calls == if useNewValue then 1 else 0
      ensures length == old(length) + calls
    {
      newBranch := new Node(node.key[index..], node.value, node.edges);
      node.key := node.key[..index];
      node.edges := [newBranch];
      if useNewValue {
        node.value := Some(v);
        calls := 1;
        length := length + 1;
      } else {
        node.value := None;
        calls := 0;
      }
      nodes := nodes + {newBranch};
    }

    /** A new leaf with the rest of the key under the node. */
    method AddEdge(node: Node<K, V>, suffix: seq<K>, v: V) returns (leaf: Node<K, V>)
      requires node in nodes
      modifies this`length, this`nodes, node
      ensures fresh(leaf) && nodes == old(nodes) + {leaf}
      ensures Fields(nodes) == old(Fields(nodes))[leaf := Rec(suffix, Some(v), [])]
        [node := Rec(old(node.key), old(node.value), old(node.edges) + [leaf])]
      ensures length == old(length) + 1
    {
      leaf := new Node(suffix, Some(v), []);
      node.edges := node.edges + [leaf];
      nodes := nodes + {leaf};
      length := length + 1;
    }

    method Fill(node: Node<K, V>, v: V)
      requires node in nodes
      modifies node
      ensures Fields(nodes) == old(Fields(nodes))[node := Rec(old(node.key), Some(v), old(node.edges))]
    {
      node.value := Some(v);
    }

    /** The edge of the node that starts with the token, if any. */
    method FindEdge(node: Node<K, V>, token: K) returns (next: Option<Node<K, V>>)
      requires forall i :: 0 <= i < |node.edges| ==> node.edges[i].key != []
      ensures next.Some? ==> next.value in node.edges && next.value.key != [] && next.value.key[0] == token
      ensures next.None? ==> forall i :: 0 <= i < |node.edges| ==> node.edges[i].key[0] != token
    {
      next := None;
      for i := 0 to |node.edges|
        invariant forall j :: 0 <= j < i ==> node.edges[j].key[0] != token
      {
        if node.edges[i].key[0] == token {
          return Some(node.edges[i]);
        }
      }
    }

    /** The key stops inside the node's key: the node is split and takes the value. */
    method BranchAtEnd(node: Node<K, V>, key: seq<K>, i: nat, v: V) returns (newBranch: Node<K, V>, calls: nat)
      requires Valid() && At(st, node, key, |key|, i) && i < |node.key|
      modifies this`length, this`nodes, this`st, node
      ensures Valid() && fresh(nodes - old(nodes)) && length == old(length) + 1 && calls == 1
      ensures st.contents == old(st.contents)[key := v] && node in nodes && node.value == Some(v)
      ensures key !in old(st.contents) && key != [] && !Fork(old(st.contents), key)
    {
      hide ValidExcept, Linked, Stored, Compact, Fork, ReadyForLeaf;
      assert st.recs.Keys == nodes && st.recs[node] == Rec(node.key, node.value, node.edges);
      Added(st.contents, key, v);
      newBranch, calls := CreateBranch(node, i, true, v);
      st := FilledState(st, node, newBranch, key, i, v);
    }

    /** The key turns off inside the node's key: the node is split and keeps no value. */
    method BranchAtTurn(node: Node<K, V>, key: seq<K>, pos: nat, i: nat, v: V) returns (newBranch: Node<K, V>,
                                                                                        calls: nat)
      requires Valid() && At(st, node, key, pos, i) && i < |node.key| && pos < |key| && node.key[i] != key[pos]
      modifies this`length, this`nodes, this`st, node
      ensures st.root == root && st.recs == Fields(nodes) && fresh(nodes - old(nodes)) && length == old(length)
      ensures calls == 0
      ensures ReadyForLeaf(st, node, key, pos) && st.contents == old(st.contents)
    {
      hide ValidExcept, Linked, Stored, Compact, Fork, ReadyForLeaf;
      assert st.recs.Keys == nodes && st.recs[node] == Rec(node.key, node.value, node.edges);
      newBranch, calls := CreateBranch(node, i, false, v);
      st := SplitState(st, node, newBranch, key, pos, i);
    }

    /** The rest of the key becomes a leaf below the node. */
    method AddRest(node: Node<K, V>, key: seq<K>, pos: nat, v: V)
      requires st.root == root && st.recs == Fields(nodes) && ReadyForLeaf(st, node, key, pos)
      requires length <= |st.contents|
      modifies this`length, this`nodes, this`st, node
      ensures Valid() && st.contents == old(st.contents)[key := v] && length == old(length) + 1
      ensures key !in old(st.contents) && !Fork(old(st.contents), key) && fresh(nodes - old(nodes))
    {
      hide Linked, Stored, Compact, Fork, AddLeaf, NoEdge, ValidExcept;
      var suffix := IteratorToArray(key, pos);
      var leaf := AddEdge(node, suffix, v);
      LeafAdded(st, node, leaf, key, pos, v);
      AddLeafRecs(st, node, leaf, suffix, v);
      Added(st.contents, key, v);
      st := AddLeaf(st, node, leaf, suffix, v);
    }

    /** The key ends at the node: a value is filled in where the node only branches. */
    method FillIn(node: Node<K, V>, key: seq<K>, i: nat, v: V) returns (calls: nat)
      requires Valid() && At(st, node, key, |key|, i) && i >= |node.key|
      modifies this`st, node
      ensures Valid() && node in nodes
      ensures Answer(Observed(), node.value, calls) == Step(old(Observed()), key, v)
    {
      hide Linked, Stored, Compact, Fork, SetValue;
      AtNode(st, node, key, i, v);
      calls := 0;
      if node.value.None? && node.edges != [] {
        SetValueRecs(st, node, v);
        Added(st.contents, key, v);
        Fill(node, v);
        st := SetValue(st, node, v);
        calls := 1;
      }
    }

    /** The value stored under the key, or the handler's value added under it. */
    method GetOrCreate(key: seq<K>, v: V) returns (value: Option<V>, calls: nat)
      requires Valid()
      modifies this`length, this`nodes, this`st, nodes
      ensures Valid() && fresh(nodes - old(nodes))
      ensures Answer(Observed(), value, calls) == Step(old(Observed()), key, v)
    {
      hide Linked, Stored, Compact, Fork, Split, AddLeaf, SetValue, NoEdge;
      WalkStart(st, key);
      var node, isMatch, pos, i := root, false, 0, 1;
      var newBranch: Node?<K, V> := null;
      calls := 0;
      while true
        invariant newBranch == null && !isMatch && calls == 0
        invariant Valid() && st == old(st) && nodes == old(nodes) && length == old(length)
        invariant At(st, node, key, pos, i) && i == 1
        decreases |key| - pos
      {
        ghost var pos0 := pos;
        while i < |node.key|
          invariant newBranch == null && pos0 <= pos
          invariant Valid() && st == old(st) && nodes == old(nodes) && length == old(length)
          invariant At(st, node, key, pos, i)
        {
          if pos == |key| || node.key[i] != key[pos] {
            if pos == |key| {
              newBranch, calls := BranchAtEnd(node, key, i, v);
            } else {
              newBranch, calls := BranchAtTurn(node, key, pos, i, v);
            }
            break;
          }
          WalkNext(st, node, key, pos, i);
          pos, i := pos + 1, i + 1;
        }
        if pos == |key| {
          isMatch := true;
          break;
        }
        if newBranch != null {
          break;
        }
        EdgeKeys(st, node);
        var next := FindEdge(node, key[pos]);
        if next.None? {
          NoEdgeFound(st, nodes, node, key[pos]);
          ReadyAtNode(st, node, key, pos, i);
          break;
        }
        WalkDown(st, node, key, pos, i, next.value);
        node, pos, i := next.value, pos + 1, 1;
      }
      if !isMatch {
        AddRest(node, key, pos, v);
        return Some(v), 1;
      }
      if newBranch == null {
        calls := FillIn(node, key, i, v);
      }
      value := node.value;
    }
  }

  lemma RunStart<K, V>()
    ensures Run<K, V>([]) == Summary(map[], 0) && HandlerCalls<K, V>([]) == 0
  {
  }

  lemma RunNext<K, V>(calls: seq<Call<K, V>>, i: nat)
    requires i < |calls|
    ensures var a := Step(Run(calls[..i]), calls[i].key, calls[i].made);
      Run(calls[..i + 1]) == a.after && HandlerCalls(calls[..i + 1]) == HandlerCalls(calls[..i]) + a.calls
  {
    assert calls[..i + 1][..i] == calls[..i];
    hide Step;
  }

  /** A tree through any sequence of calls observes what the finite map does. */
  method Replay<K(==), V(==)>(calls: seq<Call<K, V>>) returns (tree: Tree<K, V>, made: nat)
    ensures tree.Valid() && tree.Observed() == Run(calls) && made == HandlerCalls(calls)
  {
    hide ValidExcept, Fields, Step, Run, HandlerCalls;
    RunStart<K, V>();
    tree := new Tree();
    made := 0;
    for i := 0 to |calls|
      invariant tree.Valid() && fresh(tree) && fresh(tree.nodes)
      invariant tree.Observed() == Run(calls[..i]) && made == HandlerCalls(calls[..i])
    {
      RunNext(calls, i);
      var value, n := tree.GetOrCreate(calls[i].key, calls[i].made);
      made := made + n;
    }
    assert calls[..|calls|] == calls;
  }

  lemma Added<K, V>(m: map<seq<K>, V>, key: seq<K>, v: V)
    ensures key !in m ==> |m[key := v]| == |m| + 1
  {
    if key !in m {
      assert m[key := v].Keys == m.Keys + {key};
      assert |m[key := v].Keys| == |m.Keys| + 1;
    }
  }

  lemma NoEdgeFound<K, V>(st: State<Node<K, V>, K, V>, nodes: set<Node<K, V>>, node: Node<K, V>, token: K)
    requires st.recs == Fields(nodes) && node in nodes && Linked(st)
    requires forall i :: 0 <= i < |node.edges| ==> node.edges[i].key != [] && node.edges[i].key[0] != token
    ensures NoEdge(st, node, token)
  {
    EdgeKeys(st, node);
    hide Linked;
  }

  /** The remaining tokens of the key, from the current one on. */
  method IteratorToArray<K>(key: seq<K>, pos: nat) returns (values: seq<K>)
    requires pos < |key|
    ensures values == key[pos..]
  {
    values := [key[pos]];
    var at := pos + 1;
    while at < |key|
      invariant pos < at <= |key|
      invariant values == key[pos..at]
    {
      values := values + [key[at]];
      at := at + 1;
    }
  }
}
