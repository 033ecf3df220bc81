/** The radix tree of lib/mapping/tree.js as a value: nodes are identifiers with a record each, a node's
    path is the concatenation of the keys from the root, and the stored values form a finite map. */
module RadixModel {
  import opened Bytes

  datatype Rec<N, K, V> = Rec(key: seq<K>, value: Option<V>, edges: seq<N>)

  /** The tree with its bookkeeping: paths, parents, the finite map and the node that holds each key. */
  datatype State<N(==), K(==), V(==)> = State(
    root: N,
    recs: map<N, Rec<N, K, V>>,
    path: map<N, seq<K>>,
    parent: map<N, N>,
    contents: map<seq<K>, V>,
    holder: map<seq<K>, N>)

  function Empty<N, K, V>(root: N): State<N, K, V> {
    State(root, map[root := Rec([], None, [])], map[root := []], map[], map[], map[])
  }

  // ---------------------------------------------------------------- invariant

  ghost predicate EdgeOk<N, K, V>(t: State<N, K, V>, n: N, e: N) {
    && n in t.path && e in t.recs && e in t.path && e != t.root
    && t.recs[e].key != [] && t.path[e] == t.path[n] + t.recs[e].key
    && e in t.parent && t.parent[e] == n
  }

  ghost predicate SameStart<N, K, V>(t: State<N, K, V>, a: N, b: N) {
    a in t.recs && b in t.recs && t.recs[a].key != [] && t.recs[b].key != [] && t.recs[a].key[0] == t.recs[b].key[0]
  }

  /** Sibling edges start with distinct tokens. */
  ghost predicate Apart<N, K, V>(t: State<N, K, V>, edges: seq<N>) {
    forall i, j :: 0 <= i < j < |edges| ==> !SameStart(t, edges[i], edges[j])
  }

  ghost predicate NodeOk<N, K, V>(t: State<N, K, V>, n: N)
    requires n in t.recs
  {
    && n in t.path
    && (forall i :: 0 <= i < |t.recs[n].edges| ==> EdgeOk(t, n, t.recs[n].edges[i]))
    && Apart(t, t.recs[n].edges)
    && (n != t.root ==> n in t.parent && t.parent[n] in t.recs && n in t.recs[t.parent[n]].edges)
  }

  /** Edges extend paths and siblings differ in their first token. */
  ghost predicate Linked<N, K, V>(t: State<N, K, V>) {
    && t.root in t.recs && t.recs[t.root].key == [] && t.root in t.path && t.path[t.root] == []
    && forall n :: n in t.recs ==> NodeOk(t, n)
  }

  /** The values at the nodes are the contents. */
  ghost predicate Stored<N, K, V>(t: State<N, K, V>) {
    && (forall n :: n in t.recs && t.recs[n].value.Some? ==>
          n in t.path && t.path[n] in t.contents && t.contents[t.path[n]] == t.recs[n].value.value)
    && (forall k :: k in t.contents ==>
          && k in t.holder && t.holder[k] in t.recs && t.holder[k] in t.path
          && t.path[t.holder[k]] == k && t.recs[t.holder[k]].value == Some(t.contents[k]))
  }

  /** Inner nodes without a value branch, except possibly one that is being rebuilt. */
  ghost predicate Compact<N, K, V>(t: State<N, K, V>, exempt: Option<N>) {
    forall n :: n in t.recs && n != t.root && Some(n) != exempt && t.recs[n].value.None? ==> |t.recs[n].edges| >= 2
  }

  ghost predicate ValidExcept<N, K, V>(t: State<N, K, V>, exempt: Option<N>) {
    Linked(t) && Stored(t) && Compact(t, exempt)
  }

  // ---------------------------------------------------------------- how paths determine nodes

  lemma EdgeFacts<N, K, V>(t: State<N, K, V>, p: N, e: N)
    requires Linked(t) && p in t.recs && e in t.recs[p].edges
    ensures EdgeOk(t, p, e) && t.path[e][|t.path[p]|] == t.recs[e].key[0]
  {
    assert NodeOk(t, p);
    var i :| 0 <= i < |t.recs[p].edges| && t.recs[p].edges[i] == e;
    assert EdgeOk(t, p, t.recs[p].edges[i]);
  }

  lemma ParentFacts<N, K, V>(t: State<N, K, V>, n: N)
    requires Linked(t) && n in t.recs && n != t.root
    ensures n in t.parent && t.parent[n] in t.recs && n in t.recs[t.parent[n]].edges && EdgeOk(t, t.parent[n], n)
  {
    assert NodeOk(t, n);
    EdgeFacts(t, t.parent[n], n);
  }

  /** Two edges of a node with the same first token are one edge. */
  lemma SameEdge<N, K, V>(t: State<N, K, V>, p: N, a: N, b: N)
    requires Linked(t) && p in t.recs && a in t.recs[p].edges && b in t.recs[p].edges && SameStart(t, a, b)
    ensures a == b
  {
    assert NodeOk(t, p);
    SameOfApart(t, t.recs[p].edges, a, b);
  }

  lemma SameOfApart<N, K, V>(t: State<N, K, V>, edges: seq<N>, a: N, b: N)
    requires Apart(t, edges) && a in edges && b in edges && SameStart(t, a, b)
    ensures a == b
  {
    var i :| 0 <= i < |edges| && edges[i] == a;
    var j :| 0 <= j < |edges| && edges[j] == b;
  }

  /** Changes that keep the keys of the edges keep them apart. */
  lemma SameKeysApart<N, K, V>(t: State<N, K, V>, u: State<N, K, V>, edges: seq<N>)
    requires Apart(t, edges)
    requires forall i :: 0 <= i < |edges| ==> edges[i] in t.recs && edges[i] in u.recs && t.recs[edges[i]].key != []
    requires forall i :: 0 <= i < |edges| ==>
      u.recs[edges[i]].key != [] && u.recs[edges[i]].key[0] == t.recs[edges[i]].key[0]
    ensures Apart(u, edges)
  {
    forall i, j | 0 <= i < j < |edges|
      ensures !SameStart(u, edges[i], edges[j])
    {
      assert !SameStart(t, edges[i], edges[j]);
    }
  }

  /** Some edge of c leads toward the path k. */
  ghost predicate Leads<N, K, V>(t: State<N, K, V>, c: N, k: seq<K>)
    requires c in t.recs
  {
    exists e :: e in t.recs[c].edges && e in t.path && t.path[e] <= k
  }

  /** A node whose path extends that of another is that node or lies behind one of its edges. */
  lemma {:induction false} Below<N, K, V>(t: State<N, K, V>, c: N, n: N)
    requires Linked(t) && c in t.recs && n in t.recs && c in t.path && n in t.path && t.path[c] <= t.path[n]
    ensures c == n || Leads(t, c, t.path[n])
    decreases |t.path[c]| + |t.path[n]|
  {
    if c != n {
      if n == t.root {
        ParentFacts(t, c);
      } else {
        ParentFacts(t, n);
        var p := t.parent[n];
        if |t.path[c]| <= |t.path[p]| {
          assert t.path[c] == t.path[n][..|t.path[c]|] && t.path[p] == t.path[n][..|t.path[p]|];
          Below(t, c, p);
          if c == p {
            assert t.path[n] <= t.path[n];
          } else {
            var e :| e in t.recs[c].edges && e in t.path && t.path[e] <= t.path[p];
            assert t.path[e] <= t.path[n];
          }
        } else {
          NoneInside(t, c, n, p);
        }
      }
    }
  }

  /** No other node's path ends inside the key of a node or where that key ends. */
  lemma {:induction false} NoneInside<N, K, V>(t: State<N, K, V>, c: N, n: N, p: N)
    requires Linked(t) && c in t.recs && n in t.recs && p in t.recs && c in t.path && n in t.recs[p].edges
    requires EdgeOk(t, p, n)
    requires t.path[c] <= t.path[n] && |t.path[c]| > |t.path[p]|
    ensures c == n
    decreases |t.path[c]| + |t.path[n]|, 0
  {
    hide Linked;
    assert t.path[p] == t.path[n][..|t.path[p]|] && t.path[c] == t.path[n][..|t.path[c]|];
    assert t.path[p] <= t.path[c];
    Below(t, p, c);
    var e :| e in t.recs[p].edges && e in t.path && t.path[e] <= t.path[c];
    EdgeFacts(t, p, e);
    EdgeFacts(t, p, n);
    assert t.path[e][|t.path[p]|] == t.path[n][|t.path[p]|];
    SameEdge(t, p, e, n);
    assert t.path[c] == t.path[n];
    NotRoot(t, p, n, c);
    ParentFacts(t, c);
    var q := t.parent[c];
    if |t.path[p]| <= |t.path[q]| {
      assert t.path[q] == t.path[n][..|t.path[q]|];
      Siblings(t, p, n, q, c);
    } else {
      assert t.path[q] == t.path[c][..|t.path[q]|];
      Siblings(t, q, c, p, n);
    }
  }

  lemma NotRoot<N, K, V>(t: State<N, K, V>, p: N, n: N, c: N)
    requires Linked(t) && EdgeOk(t, p, n) && c in t.path && t.path[c] == t.path[n]
    ensures c != t.root
  {
  }

  lemma {:induction false} Siblings<N, K, V>(t: State<N, K, V>, p: N, n: N, q: N, c: N)
    requires Linked(t) && p in t.recs && q in t.recs && p in t.path && q in t.path
    requires n in t.recs[p].edges && c in t.recs[q].edges && n in t.path && c in t.path && t.path[n] == t.path[c]
    requires t.path[p] <= t.path[q] && |t.path[q]| < |t.path[n]|
    ensures n == c
    decreases |t.path[c]| + |t.path[n]|, 0, 0
  {
    EdgeFacts(t, p, n);
    EdgeFacts(t, q, c);
    Below(t, p, q);
    if p == q {
      SameEdge(t, p, n, c);
    } else {
      var e :| e in t.recs[p].edges && e in t.path && t.path[e] <= t.path[q];
      EdgeFacts(t, p, e);
      assert t.path[q] == t.path[n][..|t.path[q]|];
      assert t.path[e][|t.path[p]|] == t.path[n][|t.path[p]|];
      SameEdge(t, p, e, n);
    }
  }

  /** A path belongs to one node. */
  lemma PathIsUnique<N, K, V>(t: State<N, K, V>, a: N, b: N)
    requires Linked(t) && a in t.recs && b in t.recs && a in t.path && b in t.path && t.path[a] == t.path[b]
    ensures a == b
  {
    Below(t, a, b);
    assert NodeOk(t, a);
  }

  /** A stored key beyond a node lies behind the edge that starts with its next token. */
  lemma KeyBehindEdge<N, K, V>(t: State<N, K, V>, c: N, k: seq<K>)
    requires Linked(t) && Stored(t) && c in t.recs && c in t.path && t.path[c] < k && k in t.contents
    ensures exists e :: e in t.recs[c].edges && EdgeOk(t, c, e) && t.path[e] <= k && t.recs[e].key[0] == k[|t.path[c]|]
  {
    Below(t, c, t.holder[k]);
    var e :| e in t.recs[c].edges && e in t.path && t.path[e] <= k;
    EdgeFacts(t, c, e);
  }

  /** The path of a node is a stored key exactly when the node has a value. */
  lemma OwnKey<N, K, V>(t: State<N, K, V>, c: N)
    requires Linked(t) && Stored(t) && c in t.recs && c in t.path
    ensures t.path[c] in t.contents <==> t.recs[c].value.Some?
  {
    if t.path[c] in t.contents {
      PathIsUnique(t, c, t.holder[t.path[c]]);
    }
  }

  // ---------------------------------------------------------------- splitting a node

  /** The tail of a node's key moves, with its value and edges, into a new node below it. */
  ghost function Split<N, K, V>(t: State<N, K, V>, node: N, branch: N, index: nat): State<N, K, V>
    requires node in t.recs && node in t.path && node in t.parent && t.parent[node] in t.path
    requires index <= |t.recs[node].key|
  {
    var r := t.recs[node];
    var head := r.key[..index];
    t.(recs := t.recs[branch := Rec(r.key[index..], r.value, r.edges)][node := Rec(head, None, [branch])],
       path := t.path[branch := t.path[node]][node := t.path[t.parent[node]] + head],
       parent := map n | n in t.parent.Keys + {branch} ::
         if n == branch then node else if n in r.edges then branch else t.parent[n],
       holder := map k | k in t.holder :: if t.holder[k] == node then branch else t.holder[k])
  }

  ghost predicate CanSplit<N, K, V>(t: State<N, K, V>, node: N, branch: N, index: nat) {
    Linked(t) && node in t.recs && node != t.root && 1 <= index < |t.recs[node].key| && branch !in t.recs
  }

  lemma {:induction false} SplitLinked<N, K, V>(t: State<N, K, V>, node: N, branch: N, index: nat)
    requires CanSplit(t, node, branch, index)
    ensures node in t.path && node in t.parent && t.parent[node] in t.path && Linked(Split(t, node, branch, index))
  {
    ParentFacts(t, node);
    var u := Split(t, node, branch, index);
    forall n | n in u.recs
      ensures NodeOk(u, n)
    {
      if n == node {
        SplitNode(t, node, branch, index);
      } else if n == branch {
        SplitBranch(t, node, branch, index);
      } else {
        SplitOther(t, node, branch, index, n);
      }
    }
  }

  lemma {:induction false} SplitNode<N, K, V>(t: State<N, K, V>, node: N, branch: N, index: nat)
    requires CanSplit(t, node, branch, index) && node in t.path && node in t.parent && t.parent[node] in t.path
    ensures var u := Split(t, node, branch, index); NodeOk(u, node)
  {
    ParentFacts(t, node);
    var u, p := Split(t, node, branch, index), t.parent[node];
    assert p != node;
    assert t.recs[node].key == t.recs[node].key[..index] + t.recs[node].key[index..];
    assert node !in t.recs[node].edges by {
      if node in t.recs[node].edges { EdgeFacts(t, node, node); }
    }
  }

  lemma {:induction false} SplitBranch<N, K, V>(t: State<N, K, V>, node: N, branch: N, index: nat)
    requires CanSplit(t, node, branch, index) && node in t.path && node in t.parent && t.parent[node] in t.path
    ensures var u := Split(t, node, branch, index); NodeOk(u, branch)
  {
    var u, edges := Split(t, node, branch, index), t.recs[node].edges;
    assert NodeOk(t, node);
    forall i | 0 <= i < |edges|
      ensures EdgeOk(u, branch, edges[i]) && u.recs[edges[i]] == t.recs[edges[i]]
    {
      EdgeFacts(t, node, edges[i]);
    }
    SameKeysApart(t, u, edges);
  }

  lemma {:induction false} SplitOther<N, K, V>(t: State<N, K, V>, node: N, branch: N, index: nat, n: N)
    requires CanSplit(t, node, branch, index) && node in t.path && node in t.parent && t.parent[node] in t.path
    requires n in t.recs && n != node
    ensures var u := Split(t, node, branch, index); NodeOk(u, n)
  {
    var u, edges := Split(t, node, branch, index), t.recs[n].edges;
    assert NodeOk(t, n);
    forall i | 0 <= i < |edges|
      ensures EdgeOk(u, n, edges[i]) && u.recs[edges[i]].key[0] == t.recs[edges[i]].key[0]
    {
      EdgeFacts(t, n, edges[i]);
      if edges[i] in t.recs[node].edges {
        EdgeFacts(t, node, edges[i]);
      }
    }
    SameKeysApart(t, u, edges);
    if n != t.root {
      ParentFacts(t, n);
      if n in t.recs[node].edges {
        EdgeFacts(t, node, n);
      }
    }
  }

  lemma {:induction false} SplitPlaces<N, K, V>(t: State<N, K, V>, node: N, branch: N, index: nat)
    requires CanSplit(t, node, branch, index)
    ensures node in t.path && node in t.parent && t.parent[node] in t.path && t.root != branch
  {
    ParentFacts(t, node);
  }

  lemma SplitRecs<N, K, V>(t: State<N, K, V>, node: N, branch: N, index: nat)
    requires node in t.recs && node in t.path && node in t.parent && t.parent[node] in t.path
    requires index <= |t.recs[node].key|
    requires branch !in t.recs
    ensures var u, r := Split(t, node, branch, index), t.recs[node];
      && u.root == t.root && u.contents == t.contents && node in u.path && u.recs.Keys == t.recs.Keys + {branch}
      && u.recs == t.recs[branch := Rec(r.key[index..], r.value, r.edges)][node := Rec(r.key[..index], None, [branch])]
      && u.recs[node] == Rec(r.key[..index], None, [branch]) && u.recs[branch] == Rec(r.key[index..], r.value, r.edges)
      && forall n :: n in t.recs && n != node ==> u.recs[n] == t.recs[n]
  {
  }

  lemma {:induction false} SplitValues<N, K, V>(t: State<N, K, V>, node: N, branch: N, index: nat, n: N)
    requires CanSplit(t, node, branch, index) && Stored(t)
    requires node in t.path && node in t.parent && t.parent[node] in t.path
    ensures var u := Split(t, node, branch, index); n in u.recs && u.recs[n].value.Some? ==>
      n in u.path && u.path[n] in u.contents && u.contents[u.path[n]] == u.recs[n].value.value
  {
    hide Linked;
    var u := Split(t, node, branch, index);
    assert u.contents == t.contents;
    if n == branch {
      assert u.path[n] == t.path[node] && u.recs[n].value == t.recs[node].value;
    } else if n != node && n in u.recs {
      assert u.recs[n] == t.recs[n] && n in t.path ==> u.path[n] == t.path[n];
    }
  }

  lemma {:induction false} SplitHolder<N, K, V>(t: State<N, K, V>, node: N, branch: N, index: nat, k: seq<K>)
    requires CanSplit(t, node, branch, index) && Stored(t) && k in t.contents
    requires node in t.path && node in t.parent && t.parent[node] in t.path
    ensures var u := Split(t, node, branch, index);
      && k in u.holder && u.holder[k] in u.recs && u.holder[k] in u.path
      && u.path[u.holder[k]] == k && u.recs[u.holder[k]].value == Some(u.contents[k])
  {
    hide Linked;
    var u, h := Split(t, node, branch, index), t.holder[k];
    assert h != branch && u.contents == t.contents;
    if h == node {
      assert u.holder[k] == branch && u.recs[branch].value == t.recs[node].value;
    } else {
      assert u.holder[k] == h && u.recs[h] == t.recs[h] && u.path[h] == t.path[h];
    }
  }

  lemma {:induction false} SplitStored<N, K, V>(t: State<N, K, V>, node: N, branch: N, index: nat)
    requires CanSplit(t, node, branch, index) && Stored(t)
    ensures node in t.path && node in t.parent && t.parent[node] in t.path && Stored(Split(t, node, branch, index))
  {
    SplitPlaces(t, node, branch, index);
    hide CanSplit, Linked;
    var u := Split(t, node, branch, index);
    assert u.contents == t.contents;
    forall n | n in u.recs && u.recs[n].value.Some?
      ensures n in u.path && u.path[n] in u.contents && u.contents[u.path[n]] == u.recs[n].value.value
    {
      SplitValues(t, node, branch, index, n);
    }
    forall k | k in u.contents
      ensures k in u.holder && u.holder[k] in u.recs && u.holder[k] in u.path
      ensures u.path[u.holder[k]] == k && u.recs[u.holder[k]].value == Some(u.contents[k])
    {
      SplitHolder(t, node, branch, index, k);
    }
    hide Split;
  }

  /** After a split only the split node itself may be a value-less node with one edge. */
  lemma {:induction false} SplitCompact<N, K, V>(t: State<N, K, V>, node: N, branch: N, index: nat)
    requires CanSplit(t, node, branch, index) && Compact(t, None)
    ensures node in t.path && node in t.parent && t.parent[node] in t.path
    ensures Compact(Split(t, node, branch, index), Some(node))
  {
    SplitPlaces(t, node, branch, index);
    hide Linked;
    var u := Split(t, node, branch, index);
    forall n | n in u.recs && n != u.root && Some(n) != Some(node) && u.recs[n].value.None?
      ensures |u.recs[n].edges| >= 2
    {
      if n == branch {
        assert t.recs[node].value.None? && u.recs[n].edges == t.recs[node].edges;
      } else {
        assert u.recs[n] == t.recs[n];
      }
    }
  }

  // ---------------------------------------------------------------- adding a leaf, setting a value

  ghost function AddLeaf<N, K, V>(t: State<N, K, V>, node: N, leaf: N, suffix: seq<K>, v: V): State<N, K, V>
    requires node in t.recs && node in t.path
  {
    var r := t.recs[node];
    t.(recs := t.recs[leaf := Rec(suffix, Some(v), [])][node := Rec(r.key, r.value, r.edges + [leaf])],
       path := t.path[leaf := t.path[node] + suffix],
       parent := t.parent[leaf := node],
       contents := t.contents[t.path[node] + suffix := v],
       holder := t.holder[t.path[node] + suffix := leaf])
  }

  /** No edge of the node starts with the token. */
  ghost predicate NoEdge<N, K, V>(t: State<N, K, V>, node: N, token: K)
    requires node in t.recs
  {
    forall i :: 0 <= i < |t.recs[node].edges| ==>
      && t.recs[node].edges[i] in t.recs && t.recs[t.recs[node].edges[i]].key != []
      && t.recs[t.recs[node].edges[i]].key[0] != token
  }

  /** A key that continues from a node with a token none of its edges starts with is not stored. */
  lemma {:induction false} AddLeafIsNew<N, K, V>(t: State<N, K, V>, node: N, suffix: seq<K>)
    requires Linked(t) && Stored(t) && node in t.recs && suffix != [] && NoEdge(t, node, suffix[0])
    ensures node in t.path && t.path[node] + suffix !in t.contents
  {
    assert NodeOk(t, node);
    var k := t.path[node] + suffix;
    if k in t.contents {
      KeyBehindEdge(t, node, k);
    }
  }

  lemma {:induction false} AddLeafStored<N, K, V>(t: State<N, K, V>, node: N, leaf: N, suffix: seq<K>, v: V)
    requires Stored(t) && node in t.recs && leaf !in t.recs && node in t.path && t.path[node] + suffix !in t.contents
    ensures Stored(AddLeaf(t, node, leaf, suffix, v))
  {
    var u, key := AddLeaf(t, node, leaf, suffix, v), t.path[node] + suffix;
    forall n | n in u.recs && u.recs[n].value.Some?
      ensures n in u.path && u.path[n] in u.contents && u.contents[u.path[n]] == u.recs[n].value.value
    {
      if n != leaf {
        assert u.recs[n].value == t.recs[n].value && u.path[n] == t.path[n];
      }
    }
    forall k | k in u.contents
      ensures k in u.holder && u.holder[k] in u.recs && u.holder[k] in u.path
      ensures u.path[u.holder[k]] == k && u.recs[u.holder[k]].value == Some(u.contents[k])
    {
      if k != key {
        var h := t.holder[k];
        assert u.holder[k] == h && h != leaf && u.recs[h].value == t.recs[h].value;
      }
    }
  }

  lemma {:induction false} AddLeafCompact<N, K, V>(t: State<N, K, V>, node: N, leaf: N, suffix: seq<K>, v: V)
    requires Compact(t, Some(node)) && node in t.recs && leaf !in t.recs && node in t.path
    requires node == t.root || t.recs[node].value.Some? || t.recs[node].edges != []
    ensures Compact(AddLeaf(t, node, leaf, suffix, v), None)
  {
    var u := AddLeaf(t, node, leaf, suffix, v);
    forall n | n in u.recs && n != u.root && u.recs[n].value.None?
      ensures |u.recs[n].edges| >= 2
    {
      if n != node {
        assert u.recs[n] == t.recs[n];
      }
    }
  }

  lemma {:induction false} AddLeafValid<N, K, V>(t: State<N, K, V>, node: N, leaf: N, suffix: seq<K>, v: V)
    requires Linked(t) && Stored(t) && Compact(t, Some(node)) && node in t.recs && leaf !in t.recs
    requires suffix != [] && NoEdge(t, node, suffix[0])
    requires node == t.root || t.recs[node].value.Some? || t.recs[node].edges != []
    ensures node in t.path && t.path[node] + suffix !in t.contents
    ensures ValidExcept(AddLeaf(t, node, leaf, suffix, v), None)
  {
    AddLeafIsNew(t, node, suffix);
    AddLeafStored(t, node, leaf, suffix, v);
    AddLeafCompact(t, node, leaf, suffix, v);
    AddLeafLinked(t, node, leaf, suffix, v);
    hide AddLeaf, Linked, Stored, Compact;
  }

  lemma {:induction false} AddLeafLinked<N, K, V>(t: State<N, K, V>, node: N, leaf: N, suffix: seq<K>, v: V)
    requires Linked(t) && node in t.recs && node in t.path && leaf !in t.recs && suffix != []
    requires NoEdge(t, node, suffix[0])
    ensures Linked(AddLeaf(t, node, leaf, suffix, v))
  {
    hide NodeOk;
    var u := AddLeaf(t, node, leaf, suffix, v);
    forall n | n in u.recs
      ensures NodeOk(u, n)
    {
      AddLeafNode(t, node, leaf, suffix, v, n);
    }
  }

  lemma AddLeafRecs<N, K, V>(t: State<N, K, V>, node: N, leaf: N, suffix: seq<K>, v: V)
    requires node in t.recs && node in t.path && leaf !in t.recs
    ensures var u, r := AddLeaf(t, node, leaf, suffix, v), t.recs[node];
      && u.root == t.root && u.contents == t.contents[t.path[node] + suffix := v] && u.recs.Keys == t.recs.Keys + {leaf}
      && u.recs == t.recs[leaf := Rec(suffix, Some(v), [])][node := Rec(r.key, r.value, r.edges + [leaf])]
      && u.recs[node] == Rec(r.key, r.value, r.edges + [leaf]) && u.recs[leaf] == Rec(suffix, Some(v), [])
      && forall n :: n in t.recs && n != node ==> u.recs[n] == t.recs[n]
  {
  }

  lemma {:induction false} AddLeafNode<N, K, V>(t: State<N, K, V>, node: N, leaf: N, suffix: seq<K>, v: V, n: N)
    requires Linked(t) && node in t.recs && node in t.path && leaf !in t.recs && suffix != []
    requires NoEdge(t, node, suffix[0])
    requires n in t.recs || n == leaf
    ensures var u := AddLeaf(t, node, leaf, suffix, v); NodeOk(u, n)
  {
    var u := AddLeaf(t, node, leaf, suffix, v);
    if n == leaf {
      assert leaf in u.recs[node].edges by { assert u.recs[node].edges[|t.recs[node].edges|] == leaf; }
    } else {
      AddLeafKeepsNode(t, node, leaf, suffix, v, n);
    }
  }

  lemma {:induction false} AddLeafKeepsEdge<N, K, V>(t: State<N, K, V>, node: N, leaf: N, suffix: seq<K>, v: V, n: N,
                                                     e: N)
    requires Linked(t) && node in t.recs && node in t.path && leaf !in t.recs && n in t.recs && e in t.recs[n].edges
    ensures var u := AddLeaf(t, node, leaf, suffix, v); EdgeOk(u, n, e) && u.recs[e].key == t.recs[e].key
  {
    EdgeFacts(t, n, e);
  }

  lemma {:induction false} AddLeafApart<N, K, V>(t: State<N, K, V>, node: N, leaf: N, suffix: seq<K>, v: V, n: N)
    requires Linked(t) && node in t.recs && node in t.path && leaf !in t.recs && suffix != []
    requires NoEdge(t, node, suffix[0])
    requires n in t.recs
    ensures var u := AddLeaf(t, node, leaf, suffix, v); Apart(u, u.recs[n].edges)
  {
    var u, edges := AddLeaf(t, node, leaf, suffix, v), t.recs[n].edges;
    assert Apart(t, edges) by { assert NodeOk(t, n); }
    forall i | 0 <= i < |edges|
      ensures EdgeOk(t, n, edges[i]) && u.recs[edges[i]].key == t.recs[edges[i]].key
    {
      EdgeFacts(t, n, edges[i]);
      AddLeafKeepsEdge(t, node, leaf, suffix, v, n, edges[i]);
    }
    hide Linked;
    SameKeysApart(t, u, edges);
  }

  lemma {:induction false} AddLeafKeepsNode<N, K, V>(t: State<N, K, V>, node: N, leaf: N, suffix: seq<K>, v: V, n: N)
    requires Linked(t) && node in t.recs && node in t.path && leaf !in t.recs && suffix != []
    requires NoEdge(t, node, suffix[0])
    requires n in t.recs
    ensures var u := AddLeaf(t, node, leaf, suffix, v); NodeOk(u, n)
  {
    var u, edges := AddLeaf(t, node, leaf, suffix, v), t.recs[n].edges;
    AddLeafApart(t, node, leaf, suffix, v, n);
    assert n in t.path by { assert NodeOk(t, n); }
    forall i | 0 <= i < |edges|
      ensures EdgeOk(u, n, edges[i])
    {
      AddLeafKeepsEdge(t, node, leaf, suffix, v, n, edges[i]);
    }
    if n != t.root {
      ParentFacts(t, n);
      assert t.recs[t.parent[n]].edges <= u.recs[t.parent[n]].edges;
    }
    assert n == node ==> EdgeOk(u, n, leaf);
    hide Linked, EdgeOk, Apart, NoEdge;
  }

  ghost function SetValue<N, K, V>(t: State<N, K, V>, node: N, v: V): State<N, K, V>
    requires node in t.recs && node in t.path
  {
    t.(recs := t.recs[node := t.recs[node].(value := Some(v))],
       contents := t.contents[t.path[node] := v],
       holder := t.holder[t.path[node] := node])
  }

  lemma SetValueRecs<N, K, V>(t: State<N, K, V>, node: N, v: V)
    requires node in t.recs && node in t.path
    ensures var u := SetValue(t, node, v);
      && u.root == t.root && u.contents == t.contents[t.path[node] := v] && u.recs.Keys == t.recs.Keys
      && u.recs == t.recs[node := t.recs[node].(value := Some(v))]
      && u.recs[node] == t.recs[node].(value := Some(v))
      && forall n :: n in t.recs && n != node ==> u.recs[n] == t.recs[n]
  {
  }

  lemma SplitFillRecs<N, K, V>(t: State<N, K, V>, node: N, branch: N, index: nat, v: V)
    requires node in t.recs && node in t.path && node in t.parent && t.parent[node] in t.path
    requires index <= |t.recs[node].key|
    requires branch !in t.recs
    ensures var s, r := Split(t, node, branch, index), t.recs[node];
      && node in s.recs && node in s.path
      && var u := SetValue(s, node, v);
         && u.root == t.root
         && u.recs
         == t.recs[branch := Rec(r.key[index..], r.value, r.edges)][node := Rec(r.key[..index], Some(v), [branch])]
  {
    var s := Split(t, node, branch, index);
    SplitRecs(t, node, branch, index);
    SetValueRecs(s, node, v);
    hide Split, SetValue;
  }

  lemma {:induction false} SetValueNode<N, K, V>(t: State<N, K, V>, node: N, v: V, n: N)
    requires Linked(t) && node in t.recs && node in t.path && n in t.recs
    ensures NodeOk(SetValue(t, node, v), n)
  {
    var u, edges := SetValue(t, node, v), t.recs[n].edges;
    assert NodeOk(t, n);
    hide Linked;
    forall i | 0 <= i < |edges|
      ensures EdgeOk(t, n, edges[i]) && EdgeOk(u, n, edges[i]) && u.recs[edges[i]].key == t.recs[edges[i]].key
    {
      assert EdgeOk(t, n, edges[i]);
    }
    SameKeysApart(t, u, edges);
    hide EdgeOk, Apart;
  }

  lemma {:induction false} SetValueLinked<N, K, V>(t: State<N, K, V>, node: N, v: V)
    requires Linked(t) && node in t.recs && node in t.path
    ensures Linked(SetValue(t, node, v))
  {
    hide NodeOk;
    forall n | n in t.recs
      ensures NodeOk(SetValue(t, node, v), n)
    {
      SetValueNode(t, node, v, n);
    }
  }

  lemma {:induction false} SetValueStored<N, K, V>(t: State<N, K, V>, node: N, v: V)
    requires Stored(t) && node in t.recs && node in t.path && t.path[node] !in t.contents
    ensures Stored(SetValue(t, node, v))
  {
    var u := SetValue(t, node, v);
    forall m | m in u.recs && u.recs[m].value.Some?
      ensures m in u.path && u.path[m] in u.contents && u.contents[u.path[m]] == u.recs[m].value.value
    {
      if m != node {
        assert u.recs[m] == t.recs[m];
      }
    }
    forall k | k in u.contents
      ensures k in u.holder && u.holder[k] in u.recs && u.holder[k] in u.path
      ensures u.path[u.holder[k]] == k && u.recs[u.holder[k]].value == Some(u.contents[k])
    {
      if k != t.path[node] {
        var h := t.holder[k];
        assert u.holder[k] == h && h != node && u.recs[h] == t.recs[h];
      }
    }
  }

  lemma {:induction false} SetValueValid<N, K, V>(t: State<N, K, V>, node: N, v: V)
    requires Linked(t) && Stored(t) && Compact(t, Some(node)) && node in t.recs && t.recs[node].value.None?
    ensures node in t.path && t.path[node] !in t.contents && ValidExcept(SetValue(t, node, v), None)
  {
    assert NodeOk(t, node);
    OwnKey(t, node);
    SetValueLinked(t, node, v);
    SetValueStored(t, node, v);
    hide Linked, Stored;
  }

  // ---------------------------------------------------------------- what an inner node says about the keys

  ghost function Deeper<N, K, V>(t: State<N, K, V>, n: N): set<N>
    requires n in t.path
  {
    set m | m in t.recs && m in t.path && |t.path[m]| > |t.path[n]|
  }

  /** Below every node other than the root there is a stored key. */
  lemma {:induction false} SubtreeHoldsKey<N, K, V>(t: State<N, K, V>, n: N) returns (k: seq<K>)
    requires ValidExcept(t, None) && n in t.recs && n != t.root && n in t.path
    ensures k in t.contents && t.path[n] <= k
    decreases |Deeper(t, n)|
  {
    if t.recs[n].value.Some? {
      k := t.path[n];
    } else {
      var e := t.recs[n].edges[0];
      EdgeFacts(t, n, e);
      assert Deeper(t, e) < Deeper(t, n) by { assert e in Deeper(t, n) && e !in Deeper(t, e); }
      SmallerSet(Deeper(t, e), Deeper(t, n));
      k := SubtreeHoldsKey(t, e);
    }
  }

  lemma SmallerSet<N>(a: set<N>, b: set<N>)
    requires a < b
    ensures |a| < |b|
  {
    var rest := b - a;
    assert b == a + rest && rest != {};
  }

  /** Two stored keys continue the key with different tokens. */
  ghost predicate Fork<K, V>(m: map<seq<K>, V>, key: seq<K>) {
    exists a, b :: a in m && b in m && key < a && key < b && a[|key|] != b[|key|]
  }

  /** A stored key behind an edge. */
  lemma {:induction false} EdgeHoldsKey<N, K, V>(t: State<N, K, V>, n: N, e: N) returns (k: seq<K>)
    requires ValidExcept(t, None) && n in t.recs && e in t.recs[n].edges
    ensures EdgeOk(t, n, e) && k in t.contents && t.path[n] < k && k[|t.path[n]|] == t.recs[e].key[0]
  {
    EdgeFacts(t, n, e);
    k := SubtreeHoldsKey(t, e);
    hide ValidExcept, Linked;
    assert t.path[e] == k[..|t.path[e]|];
  }

  /** A value-less inner node sits at a fork of the stored keys. */
  lemma {:induction false} BranchIsFork<N, K, V>(t: State<N, K, V>, n: N)
    requires ValidExcept(t, None) && n in t.recs && n != t.root && t.recs[n].value.None?
    ensures n in t.path && Fork(t.contents, t.path[n])
  {
    var edges := t.recs[n].edges;
    assert |edges| >= 2;
    assert Apart(t, edges) by { assert NodeOk(t, n); }
    var a := EdgeHoldsKey(t, n, edges[0]);
    var b := EdgeHoldsKey(t, n, edges[1]);
    hide ValidExcept, Linked, Stored, Compact, NodeOk;
    assert !SameStart(t, edges[0], edges[1]);
  }

  /** A key that ends inside the key of a node is not a fork and not stored. */
  lemma {:induction false} InsideNoFork<N, K, V>(t: State<N, K, V>, p: N, n: N, key: seq<K>)
    requires Linked(t) && Stored(t) && p in t.recs && n in t.recs[p].edges && EdgeOk(t, p, n)
    requires t.path[p] < key && key < t.path[n]
    ensures !Fork(t.contents, key) && key !in t.contents
  {
    forall a | a in t.contents && key <= a
      ensures t.path[n] <= a
    {
      KeyBehindEdge(t, p, a);
      var e :| e in t.recs[p].edges && EdgeOk(t, p, e) && t.path[e] <= a && t.recs[e].key[0] == a[|t.path[p]|];
      EdgeFacts(t, p, n);
      assert a[|t.path[p]|] == key[|t.path[p]|] == t.path[n][|t.path[p]|];
      SameEdge(t, p, e, n);
    }
    forall a | a in t.contents && key < a
      ensures a[|key|] == t.path[n][|key|]
    {
      assert t.path[n] <= a;
    }
  }

  /** A key that continues from a node with a token none of its edges starts with is not a fork. */
  lemma {:induction false} OutsideNoFork<N, K, V>(t: State<N, K, V>, node: N, key: seq<K>)
    requires Linked(t) && Stored(t) && node in t.recs && node in t.path && t.path[node] < key
    requires NoEdge(t, node, key[|t.path[node]|])
    ensures !Fork(t.contents, key) && key !in t.contents
  {
    forall a | a in t.contents && key <= a
      ensures false
    {
      KeyBehindEdge(t, node, a);
    }
  }

  /** A root without edges and value is that of an empty tree. */
  lemma {:induction false} EmptyTree<N, K, V>(t: State<N, K, V>)
    requires ValidExcept(t, None)
    ensures t.root in t.recs && (t.contents == map[] <==> t.recs[t.root].value.None? && t.recs[t.root].edges == [])
  {
    OwnKey(t, t.root);
    if t.recs[t.root].edges != [] {
      EdgeFacts(t, t.root, t.recs[t.root].edges[0]);
      var k := SubtreeHoldsKey(t, t.recs[t.root].edges[0]);
    } else if t.contents != map[] {
      var k :| k in t.contents;
      if k != [] {
        KeyBehindEdge(t, t.root, k);
      }
    }
  }

  // ---------------------------------------------------------------- the walk of getOrCreate

  /** The first pos tokens of the key lead through the first i tokens of the node's key. */
  ghost predicate At<N, K, V>(t: State<N, K, V>, node: N, key: seq<K>, pos: nat, i: nat) {
    && node in t.recs && node in t.path && pos <= |key| && pos <= |t.path[node]| && key[..pos] == t.path[node][..pos]
    && (node == t.root ==> pos == 0 && i == 1)
    && (node != t.root ==> 1 <= i <= |t.recs[node].key| && pos + |t.recs[node].key| == |t.path[node]| + i)
  }

  lemma {:induction false} WalkStart<N, K, V>(t: State<N, K, V>, key: seq<K>)
    requires Linked(t)
    ensures At(t, t.root, key, 0, 1)
  {
  }

  lemma {:induction false} WalkNext<N, K, V>(t: State<N, K, V>, node: N, key: seq<K>, pos: nat, i: nat)
    requires Linked(t) && At(t, node, key, pos, i) && pos < |key| && i < |t.recs[node].key|
    requires t.recs[node].key[i] == key[pos]
    ensures At(t, node, key, pos + 1, i + 1)
  {
    assert node != t.root;
    hide Linked;
    NodePath(t, node);
    NextToken(t.path[node], t.recs[node].key, key, pos, i);
  }

  lemma {:induction false} NodePath<N, K, V>(t: State<N, K, V>, node: N)
    requires Linked(t) && node in t.recs && node != t.root && node in t.path
    ensures |t.recs[node].key| <= |t.path[node]|
    ensures t.path[node][|t.path[node]| - |t.recs[node].key|..] == t.recs[node].key
  {
    ParentFacts(t, node);
    hide Linked;
    var above := t.path[t.parent[node]];
    assert (above + t.recs[node].key)[|above|..] == t.recs[node].key;
  }

  lemma {:induction false} NextToken<K>(path: seq<K>, own: seq<K>, key: seq<K>, pos: nat, i: nat)
    requires |own| <= |path| && path[|path| - |own|..] == own && pos + |own| == |path| + i && i < |own| && pos < |key|
    requires key[..pos] == path[..pos] && own[i] == key[pos]
    ensures pos < |path| && key[..pos + 1] == path[..pos + 1]
  {
    assert path[|path| - |own|..][i] == path[pos];
    OneMoreToken(key, path, pos);
  }

  lemma {:induction false} OneMoreToken<K>(a: seq<K>, b: seq<K>, n: nat)
    requires n < |a| && n < |b| && a[..n] == b[..n] && a[n] == b[n]
    ensures a[..n + 1] == b[..n + 1]
  {
    assert a[..n + 1] == a[..n] + [a[n]] && b[..n + 1] == b[..n] + [b[n]];
  }

  lemma {:induction false} WalkDown<N, K, V>(t: State<N, K, V>, node: N, key: seq<K>, pos: nat, i: nat, e: N)
    requires Linked(t) && At(t, node, key, pos, i) && pos < |key| && i >= |t.recs[node].key|
    requires e in t.recs[node].edges && e in t.recs && t.recs[e].key != [] && t.recs[e].key[0] == key[pos]
    ensures At(t, e, key, pos + 1, 1)
  {
    hide Linked;
    WalkEnd(t, node, key, pos, i);
    EdgeFacts(t, node, e);
    assert t.path[e][..pos] == t.path[node];
    OneMoreToken(key, t.path[e], pos);
  }

  lemma {:induction false} WalkEnd<N, K, V>(t: State<N, K, V>, node: N, key: seq<K>, pos: nat, i: nat)
    requires Linked(t) && At(t, node, key, pos, i) && i >= |t.recs[node].key|
    ensures t.path[node] == key[..pos]
  {
    assert t.path[node] == t.path[node][..pos];
  }

  lemma {:induction false} EdgeKeys<N, K, V>(t: State<N, K, V>, node: N)
    requires Linked(t) && node in t.recs
    ensures forall i :: 0 <= i < |t.recs[node].edges| ==>
      t.recs[node].edges[i] in t.recs && t.recs[t.recs[node].edges[i]].key != []
  {
    assert NodeOk(t, node);
    hide Linked;
  }

  /** A leaf for the rest of the key can be added below the node. */
  ghost predicate ReadyForLeaf<N, K, V>(t: State<N, K, V>, node: N, key: seq<K>, pos: nat) {
    && Linked(t) && Stored(t) && Compact(t, Some(node)) && node in t.recs && node in t.path
    && pos < |key| && t.path[node] == key[..pos] && NoEdge(t, node, key[pos])
    && (node == t.root || t.recs[node].value.Some? || t.recs[node].edges != [])
  }

  lemma {:induction false} ReadyAtNode<N, K, V>(t: State<N, K, V>, node: N, key: seq<K>, pos: nat, i: nat)
    requires ValidExcept(t, None) && At(t, node, key, pos, i) && pos < |key| && i >= |t.recs[node].key|
    requires NoEdge(t, node, key[pos])
    ensures ReadyForLeaf(t, node, key, pos)
  {
    WalkEnd(t, node, key, pos, i);
    hide Linked, Stored, NoEdge;
  }

  lemma {:induction false} SplitPath<N, K, V>(t: State<N, K, V>, node: N, branch: N, key: seq<K>, pos: nat, i: nat)
    requires Linked(t) && At(t, node, key, pos, i) && i < |t.recs[node].key| && branch !in t.recs
    ensures CanSplit(t, node, branch, i) && node in t.path && node in t.parent && t.parent[node] in t.path
    ensures Split(t, node, branch, i).path[node] == key[..pos]
    ensures t.path[t.parent[node]] < key[..pos] && key[..pos] < t.path[node]
    ensures t.parent[node] in t.recs && node in t.recs[t.parent[node]].edges && EdgeOk(t, t.parent[node], node)
  {
    ParentFacts(t, node);
    hide Linked;
    var p := t.path[t.parent[node]];
    assert t.path[node] == (p + t.recs[node].key[..i]) + t.recs[node].key[i..];
    assert t.path[node][..pos] == p + t.recs[node].key[..i];
  }

  lemma {:induction false} ReadyAfterSplit<N, K, V>(t: State<N, K, V>, node: N, branch: N, key: seq<K>, pos: nat,
                                                    i: nat)
    requires ValidExcept(t, None) && At(t, node, key, pos, i) && branch !in t.recs
    requires pos < |key| && i < |t.recs[node].key| && t.recs[node].key[i] != key[pos]
    ensures node in t.path && node in t.parent && t.parent[node] in t.path
    ensures ReadyForLeaf(Split(t, node, branch, i), node, key, pos) && Split(t, node, branch, i).contents == t.contents
  {
    hide Split, Linked, Stored, Compact, EdgeOk;
    SplitPath(t, node, branch, key, pos, i);
    SplitLinked(t, node, branch, i);
    SplitStored(t, node, branch, i);
    SplitCompact(t, node, branch, i);
    SplitRecs(t, node, branch, i);
  }

  lemma {:induction false} LeafAdded<N, K, V>(t: State<N, K, V>, node: N, leaf: N, key: seq<K>, pos: nat, v: V)
    requires ReadyForLeaf(t, node, key, pos) && leaf !in t.recs
    ensures key !in t.contents && !Fork(t.contents, key)
    ensures var u := AddLeaf(t, node, leaf, key[pos..], v); ValidExcept(u, None) && u.contents == t.contents[key := v]
  {
    assert key[..pos] + key[pos..] == key;
    AddLeafValid(t, node, leaf, key[pos..], v);
    OutsideNoFork(t, node, key);
    AddLeafRecs(t, node, leaf, key[pos..], v);
    hide AddLeaf, ValidExcept, Linked, Stored, Compact, Fork;
  }

  /** The key ends inside the node's key: after the split the node takes the new value. */
  lemma {:induction false} FilledAfterSplit<N, K, V>(t: State<N, K, V>, node: N, branch: N, key: seq<K>, i: nat, v: V)
    requires ValidExcept(t, None) && At(t, node, key, |key|, i) && i < |t.recs[node].key| && branch !in t.recs
    ensures key !in t.contents && !Fork(t.contents, key) && key != []
    ensures node in t.path && node in t.parent && t.parent[node] in t.path
    ensures var s := Split(t, node, branch, i); node in s.recs && node in s.path
    ensures var u := SetValue(Split(t, node, branch, i), node, v);
      ValidExcept(u, None) && u.contents == t.contents[key := v]
  {
    SplitPath(t, node, branch, key, |key|, i);
    assert key[..|key|] == key;
    InsideNoFork(t, t.parent[node], node, key);
    SplitLinked(t, node, branch, i);
    SplitStored(t, node, branch, i);
    SplitCompact(t, node, branch, i);
    SplitRecs(t, node, branch, i);
    var s := Split(t, node, branch, i);
    SetValueValid(s, node, v);
    SetValueRecs(s, node, v);
    hide Split, SetValue, ValidExcept, Linked, Stored, Compact, Fork;
  }

  /** The key ends at the node: its value is the stored one, or is filled in, or the tree is empty. */
  lemma {:induction false} AtNode<N, K, V>(t: State<N, K, V>, node: N, key: seq<K>, i: nat, v: V)
    requires ValidExcept(t, None) && At(t, node, key, |key|, i) && i >= |t.recs[node].key|
    ensures t.recs[node].value.Some? ==> key in t.contents && t.recs[node].value == Some(t.contents[key])
    ensures t.recs[node].value.None? ==> key !in t.contents
    ensures t.recs[node].value.None? && t.recs[node].edges == [] ==> key == [] && t.contents == map[]
    ensures t.recs[node].value.None? && t.recs[node].edges != [] ==>
      var u := SetValue(t, node, v);
      && ValidExcept(u, None) && u.contents == t.contents[key := v]
      && (key == [] || Fork(t.contents, key)) && !(key == [] && t.contents == map[])
  {
    WalkEnd(t, node, key, |key|, i);
    assert key[..|key|] == key;
    OwnKey(t, node);
    EmptyTree(t);
    if t.recs[node].value.None? && t.recs[node].edges != [] {
      SetValueValid(t, node, v);
      SetValueRecs(t, node, v);
      if node != t.root {
        BranchIsFork(t, node);
      }
    }
    hide SetValue, Linked, Fork;
  }

  /** The state after a split that fills the value in. */
  lemma {:induction false} FilledState<N, K, V>(t: State<N, K, V>, node: N, branch: N, key: seq<K>, i: nat, v: V)
    returns (u: State<N, K, V>)
    requires ValidExcept(t, None) && At(t, node, key, |key|, i) && i < |t.recs[node].key| && branch !in t.recs
    ensures key !in t.contents && !Fork(t.contents, key) && key != []
    ensures var r := t.recs[node];
      u.recs == t.recs[branch := Rec(r.key[i..], r.value, r.edges)][node := Rec(r.key[..i], Some(v), [branch])]
    ensures u.root == t.root && ValidExcept(u, None) && u.contents == t.contents[key := v]
  {
    hide Fork, ValidExcept, Split, SetValue;
    FilledAfterSplit(t, node, branch, key, i, v);
    SplitFillRecs(t, node, branch, i, v);
    u := SetValue(Split(t, node, branch, i), node, v);
  }

  /** The state after a split that leaves the node without a value. */
  lemma {:induction false} SplitState<N, K, V>(t: State<N, K, V>, node: N, branch: N, key: seq<K>, pos: nat, i: nat)
    returns (u: State<N, K, V>)
    requires ValidExcept(t, None) && At(t, node, key, pos, i) && branch !in t.recs
    requires pos < |key| && i < |t.recs[node].key| && t.recs[node].key[i] != key[pos]
    ensures var r := t.recs[node];
      u.recs == t.recs[branch := Rec(r.key[i..], r.value, r.edges)][node := Rec(r.key[..i], None, [branch])]
    ensures u.root == t.root && ReadyForLeaf(u, node, key, pos) && u.contents == t.contents
  {
    hide ValidExcept, ReadyForLeaf, Split;
    ReadyAfterSplit(t, node, branch, key, pos, i);
    SplitRecs(t, node, branch, i);
    u := Split(t, node, branch, i);
  }
}
