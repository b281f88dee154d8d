/** From the triangles back to the vertices of the polygons: linked lists of new positions, the weights spread over them, and the
    attributes that follow them. */
module VertexMap {
  import opened Triangles

  // ----- positions

  /** The positions before `n` whose source is `v`, in order. */
  function Positions(toOld: seq<nat>, v: nat, n: nat): (ps: seq<nat>)
    requires n <= |toOld|
    ensures |ps| <= n && forall k :: 0 <= k < |ps| ==> ps[k] < n && toOld[ps[k]] == v
  {
    if n == 0 then [] else Positions(toOld, v, n - 1) + (if toOld[n - 1] == v then [n - 1] else [])
  }

  /** Every position is in the list of its source, and of no other, once. */
  lemma {:induction false} PositionsPartition(toOld: seq<nat>, v: nat, n: nat, p: nat)
    requires n <= |toOld|
    ensures p in Positions(toOld, v, n) <==> p < n && toOld[p] == v
    ensures multiset(Positions(toOld, v, n))[p] <= 1
  {
    hide Positions;
    if n > 0 {
      PositionsPartition(toOld, v, n - 1, p);
      PositionsNext(toOld, v, n - 1);
      OneMore(Positions(toOld, v, n - 1), n - 1, p);
    } else {
      PositionsNone(toOld, v);
    }
  }

  lemma PositionsNone(toOld: seq<nat>, v: nat)
    ensures Positions(toOld, v, 0) == []
  {
  }

  lemma OneMore(ps: seq<nat>, q: nat, p: nat)
    ensures (p in ps + [q] <==> p in ps || p == q) && multiset(ps + [q])[p] == multiset(ps)[p] + (if p == q then 1 else 0) && (multiset(ps)[p] > 0 <==> p in ps)
  {
    assert multiset(ps + [q]) == multiset(ps) + multiset{q};
    assert p in multiset(ps) <==> p in ps;
  }

  lemma PositionsNext(toOld: seq<nat>, v: nat, n: nat)
    requires n < |toOld|
    ensures Positions(toOld, v, n + 1) == Positions(toOld, v, n) + (if toOld[n] == v then [n] else [])
    ensures toOld[n] != v ==> Positions(toOld, v, n + 1) == Positions(toOld, v, n)
  {
  }

  lemma {:induction false} PositionsIncrease(toOld: seq<nat>, v: nat, n: nat, j: nat, k: nat)
    requires n <= |toOld| && j < k < |Positions(toOld, v, n)|
    ensures Positions(toOld, v, n)[j] < Positions(toOld, v, n)[k]
  {
    if k < |Positions(toOld, v, n - 1)| { PositionsIncrease(toOld, v, n - 1, j, k); }
  }

  // ----- linked lists

  class NewVertex {
    var index: int
    var next: NewVertex?

    constructor ()
      ensures index == -1 && next == null
    {
      index, next := -1, null;
    }
  }

  /** The nodes of a list, in order. */
  ghost predicate Chain(nodes: seq<NewVertex>)
    reads nodes
  {
    && nodes != [] && Different(nodes) && nodes[|nodes| - 1].next == null
    && forall k :: 0 <= k < |nodes| - 1 ==> nodes[k].next == nodes[k + 1]
  }

  ghost predicate Different(nodes: seq<NewVertex>) {
    forall j, k :: 0 <= j < k < |nodes| ==> nodes[j] != nodes[k]
  }

  ghost function Indices(nodes: seq<NewVertex>): (ixs: seq<int>)
    reads nodes
    ensures |ixs| == |nodes| && forall k :: 0 <= k < |nodes| ==> ixs[k] == nodes[k].index
  {
    seq(|nodes|, k requires 0 <= k < |nodes| reads nodes => nodes[k].index)
  }

  /** A single node with index -1 is the empty list. */
  predicate Holds(ixs: seq<int>, held: seq<nat>) {
    if held == [] then ixs == [-1] else ixs == held
  }

  lemma HoldsOne(ixs: seq<int>, held: seq<nat>)
    requires Holds(ixs, held) && ixs != []
    ensures (ixs[0] < 0 <==> ixs[0] == -1) && (ixs[0] == -1 <==> held == []) && (held == [] ==> |ixs| == 1)
    ensures |ixs| == 1 && held != [] ==> held == [ixs[0]]
  {
  }

  lemma HoldsNew(held: seq<nat>, i: nat)
    ensures held == [] ==> Holds([i], held + [i])
    ensures |held| == 1 ==> Holds([held[0], i], held + [i])
  {
  }

  lemma HoldsTail(ixs: seq<int>, held: seq<nat>)
    requires Holds(ixs, held) && |ixs| > 1
    ensures held != [] && ixs[0] == held[0] && Holds(ixs[1..], held[1..])
  {
  }

  lemma HoldsCons(x: int, ixs: seq<int>, held: seq<nat>, i: nat)
    requires held != [] && x == held[0] && Holds(ixs, held[1..] + [i])
    ensures Holds([x] + ixs, held + [i])
  {
    assert [held[0]] + (held[1..] + [i]) == held + [i];
  }

  lemma NotEmpty(nodes: seq<NewVertex>)
    requires Chain(nodes)
    ensures nodes != []
  {
  }

  lemma ChainTail(nodes: seq<NewVertex>)
    requires Chain(nodes)
    ensures nodes[0].next == null <==> |nodes| == 1
    ensures nodes[0].next != null ==> Chain(nodes[1..]) && nodes[0].next == nodes[1] && nodes[0] !in nodes[1..]
  {
    assert |nodes| > 1 ==> nodes[0].next == nodes[0 + 1];
  }

  lemma ChainCons(vtx: NewVertex, rest: seq<NewVertex>)
    requires Chain(rest) && vtx.next == rest[0] && vtx !in rest
    ensures Chain([vtx] + rest)
  {
    var nodes := [vtx] + rest;
    forall j, k | 0 <= j < k < |nodes| ensures nodes[j] != nodes[k] {
      if j == 0 { assert nodes[k] == rest[k - 1]; }
    }
  }

  /** `add`: the index goes to the end of the list. */
  method Add(vtx: NewVertex, index: nat, ghost nodes: seq<NewVertex>, ghost held: seq<nat>) returns (ghost after: seq<NewVertex>)
    requires Chain(nodes) && nodes[0] == vtx && Holds(Indices(nodes), held)
    modifies nodes
    ensures Chain(after) && after != [] && after[0] == vtx && Holds(Indices(after), held + [index])
    ensures after == nodes || (|after| == |nodes| + 1 && after[..|nodes|] == nodes && fresh(after[|nodes|]))
    decreases |nodes|
  {
    hide Chain, Holds, Indices;
    ChainTail(nodes);
    NotEmpty(nodes);
    HoldsOne(Indices(nodes), held);
    IndicesSplit(nodes);
    if vtx.index == -1 {
      assert nodes == [vtx];
      vtx.index := index;
      after := nodes;
      OneNode(vtx, nodes);
      IndicesSplit(nodes);
      HoldsNew(held, index);
    } else if vtx.next != null {
      ghost var tail, before := nodes[1..], Indices(nodes);
      HoldsTail(before, held);
      ghost var rest := Add(vtx.next, index, tail, held[1..]);
      ChainCons(vtx, rest);
      after := [vtx] + rest;
      IndicesSplit(after);
      assert after[1..] == rest && nodes == [vtx] + tail;
      HoldsCons(before[0], Indices(rest), held, index);
    } else {
      assert nodes == [vtx];
      AddNext(vtx, index);
      after := [vtx, vtx.next];
      HoldsNew(held, index);
    }
  }

  /** A new node behind the last one. */
  method AddNext(vtx: NewVertex, index: nat)
    requires vtx.next == null && vtx.index >= 0
    modifies vtx
    ensures vtx.next != null && fresh(vtx.next) && Chain([vtx, vtx.next]) && Indices([vtx, vtx.next]) == [old(vtx.index), index as int]
  {
    var n := new NewVertex();
    n.index := index;
    vtx.next := n;
  }

  lemma IndicesSplit(nodes: seq<NewVertex>)
    requires nodes != []
    ensures Indices(nodes) == [nodes[0].index] + Indices(nodes[1..]) && |Indices(nodes)| == |nodes|
    ensures |nodes| == 1 ==> Indices(nodes) == [nodes[0].index]
  {
  }

  lemma OneNode(vtx: NewVertex, nodes: seq<NewVertex>)
    requires nodes == [vtx] && vtx.next == null
    ensures Chain(nodes)
  {
  }

  // ----- the map from old to new vertices

  ghost function AllNodes(chains: seq<seq<NewVertex>>): set<NewVertex> {
    set v, k | 0 <= v < |chains| && 0 <= k < |chains[v]| :: chains[v][k]
  }

  /** One list for every old vertex, without nodes in common. */
  ghost predicate Lists(heads: seq<NewVertex>, chains: seq<seq<NewVertex>>)
    reads AllNodes(chains)
  {
    && |heads| == |chains| && (forall v :: 0 <= v < |chains| ==> IsList(heads, chains, v))
    && forall u, v :: 0 <= u < v < |chains| ==> Apart(chains[u], chains[v])
  }

  ghost predicate IsList(heads: seq<NewVertex>, chains: seq<seq<NewVertex>>, v: nat)
    requires v < |heads| == |chains|
    reads chains[v]
  {
    Chain(chains[v]) && chains[v][0] == heads[v]
  }

  ghost predicate Apart(a: seq<NewVertex>, b: seq<NewVertex>) {
    forall j, k :: 0 <= j < |a| && 0 <= k < |b| ==> a[j] != b[k]
  }

  /** The lists hold the positions before `n` that come from their vertices. */
  ghost predicate Mapped(heads: seq<NewVertex>, chains: seq<seq<NewVertex>>, toOld: seq<nat>, n: nat)
    requires n <= |toOld|
    reads AllNodes(chains)
  {
    Lists(heads, chains) && forall v :: 0 <= v < |chains| ==> MappedAt(chains, toOld, n, v)
  }

  ghost predicate MappedAt(chains: seq<seq<NewVertex>>, toOld: seq<nat>, n: nat, v: nat)
    requires n <= |toOld| && v < |chains|
    reads chains[v]
  {
    Holds(Indices(chains[v]), Positions(toOld, v, n))
  }

  /** One more position goes to the list of its source. */
  method Enter(heads: seq<NewVertex>, i: nat, ghost chains: seq<seq<NewVertex>>, ghost toOld: seq<nat>, v: nat) returns (ghost after: seq<seq<NewVertex>>)
    requires i < |toOld| && Mapped(heads, chains, toOld, i) && v < |heads| && toOld[i] == v
    modifies AllNodes(chains)
    ensures Mapped(heads, after, toOld, i + 1) && fresh(AllNodes(after) - AllNodes(chains))
  {
    hide Chain, Positions, Holds, Indices;
    assert IsList(heads, chains, v) && MappedAt(chains, toOld, i, v);
    forall k | 0 <= k < |chains[v]| ensures chains[v][k] in AllNodes(chains) {}
    PositionsNext(toOld, v, i);
    ghost var list := Add(heads[v], i, chains[v], Positions(toOld, v, i));
    after := chains[v := list];
    ghost var n := i + 1;
    forall u | 0 <= u < |after| ensures IsList(heads, after, u) ensures MappedAt(after, toOld, n, u) {
      if u != v {
        assert old(IsList(heads, chains, u) && MappedAt(chains, toOld, i, u));
        assert u < v ==> Apart(chains[u], chains[v]);
        assert v < u ==> Apart(chains[v], chains[u]);
        assert forall k :: 0 <= k < |chains[u]| ==> chains[u][k] !in chains[v];
        assert after[u] == chains[u];
        assert unchanged(chains[u]);
        PositionsNext(toOld, u, i);
      }
    }
    forall u, w | 0 <= u < w < |after| ensures Apart(after[u], after[w]) {
      assert Apart(chains[u], chains[w]);
    }
    assert forall x :: x in AllNodes(after) - AllNodes(chains) ==> x in list && x !in chains[v];
  }

  /** The part of `buildGeometryVertexData` that fills `to_new_vertices`. */
  method BuildInverse(toOld: seq<nat>, count: nat) returns (heads: seq<NewVertex>, ghost chains: seq<seq<NewVertex>>)
    requires forall i :: 0 <= i < |toOld| ==> toOld[i] < count
    ensures |heads| == count && Mapped(heads, chains, toOld, |toOld|) && fresh(AllNodes(chains))
  {
    hide Mapped;
    heads, chains := [], [];
    NoLists(toOld);
    for v := 0 to count
      invariant |heads| == v && Mapped(heads, chains, toOld, 0) && fresh(AllNodes(chains))
    {
      var n := new NewVertex();
      OneList(heads, chains, toOld, n);
      heads, chains := heads + [n], chains + [[n]];
    }
    for i := 0 to |toOld|
      invariant |heads| == count && Mapped(heads, chains, toOld, i) && fresh(AllNodes(chains))
    {
      chains := Enter(heads, i, chains, toOld, toOld[i]);
    }
  }

  lemma NoLists(toOld: seq<nat>)
    ensures Mapped([], [], toOld, 0)
  {
  }

  lemma OneList(heads: seq<NewVertex>, chains: seq<seq<NewVertex>>, toOld: seq<nat>, n: NewVertex)
    requires Mapped(heads, chains, toOld, 0) && n !in AllNodes(chains) && n.index == -1 && n.next == null
    ensures Mapped(heads + [n], chains + [[n]], toOld, 0)
    ensures AllNodes(chains + [[n]]) == AllNodes(chains) + {n}
  {
    var heads', chains' := heads + [n], chains + [[n]];
    forall v | 0 <= v < |chains'| ensures IsList(heads', chains', v) && MappedAt(chains', toOld, 0, v) {
      if v < |chains| {
        assert IsList(heads, chains, v) && MappedAt(chains, toOld, 0, v);
      } else {
        OneNode(n, [n]);
        assert Indices([n]) == [-1];
      }
    }
    forall u, v | 0 <= u < v < |chains'| ensures Apart(chains'[u], chains'[v]) {
      if v < |chains| { assert Apart(chains[u], chains[v]); }
    }
    forall x ensures x in AllNodes(chains') <==> x in AllNodes(chains) + {n} {
      if x in AllNodes(chains) { var v, k :| 0 <= v < |chains| && 0 <= k < |chains[v]| && x == chains[v][k]; assert chains'[v][k] == x; }
      assert chains'[|chains|][0] == n;
    }
  }

  // ----- the vertices of a geometry

  lemma CodedCorners(i: nat)
    ensures DecodeIndex(CodeIndex(i, i % 3 == 2)) == i && (CodeIndex(i, i % 3 == 2) < 0 <==> i % 3 == 2)
  {
    Coded(i, i % 3 == 2);
  }

  /** `buildGeometryVertexData` */
  method BuildGeometryVertexData<T>(vertices: seq<T>, originalIndices: seq<int>, triangulationEnabled: bool)
    returns (newVertices: seq<T>, indices: seq<int>, toOldVertices: seq<nat>, toOldIndices: seq<nat>, heads: seq<NewVertex>, ghost chains: seq<seq<NewVertex>>)
    requires forall i :: 0 <= i < |originalIndices| ==> DecodeIndex(originalIndices[i]) < |vertices|
    ensures |toOldVertices| == |toOldIndices| == |indices| && |heads| == |vertices| && Mapped(heads, chains, toOldVertices, |toOldVertices|)
    ensures forall k :: 0 <= k < |toOldIndices| ==> toOldIndices[k] < |originalIndices| && toOldVertices[k] == DecodeIndex(originalIndices[toOldIndices[k]])
    ensures forall k :: 0 <= k < |indices| ==> DecodeIndex(indices[k]) < |newVertices| && newVertices[DecodeIndex(indices[k])] == vertices[toOldVertices[k]]
    ensures triangulationEnabled ==> toOldIndices == Pushed(originalIndices, |originalIndices|) && forall k :: 0 <= k < |indices| ==> indices[k] == CodeIndex(k, k % 3 == 2)
    ensures !triangulationEnabled ==> indices == originalIndices && newVertices == vertices && forall k :: 0 <= k < |toOldIndices| ==> toOldIndices[k] == k
  {
    hide Mapped;
    if triangulationEnabled {
      var toOld;
      toOld, toOldIndices := Triangulate(originalIndices);
      newVertices, indices, toOldVertices := [], [], [];
      for i := 0 to |toOld|
        invariant |newVertices| == |indices| == |toOldVertices| == i
        invariant forall k :: 0 <= k < i ==> toOldVertices[k] == toOld[k] < |vertices| && newVertices[k] == vertices[toOldVertices[k]] && indices[k] == CodeIndex(k, k % 3 == 2)
      {
        newVertices := newVertices + [vertices[toOld[i]]];
        indices := indices + [CodeIndex(i, i % 3 == 2)];
        toOldVertices := toOldVertices + [toOld[i]];
      }
      forall k | 0 <= k < |indices| ensures DecodeIndex(indices[k]) == k { CodedCorners(k); }
    } else {
      newVertices, indices, toOldVertices, toOldIndices := vertices, originalIndices, [], [];
      for i := 0 to |originalIndices|
        invariant |toOldVertices| == |toOldIndices| == i
        invariant forall k :: 0 <= k < i ==> toOldVertices[k] == DecodeIndex(originalIndices[k]) && toOldIndices[k] == k
      {
        toOldVertices := toOldVertices + [DecodeIndex(originalIndices[i])];
        toOldIndices := toOldIndices + [i];
      }
    }
    heads, chains := BuildInverse(toOldVertices, |vertices|);
  }

  // ----- skin weights

  /** What the first `n` old vertices of a cluster become. */
  function Expanded(toOld: seq<nat>, olds: seq<nat>, n: nat): (ps: seq<nat>)
    requires n <= |olds|
  {
    if n == 0 then [] else Expanded(toOld, olds, n - 1) + Positions(toOld, olds[n - 1], |toOld|)
  }

  function Copies(w: real, n: nat): (s: seq<real>)
    ensures |s| == n
  {
    seq(n, _ => w)
  }

  function Spread(toOld: seq<nat>, olds: seq<nat>, ws: seq<real>, n: nat): (s: seq<real>)
    requires n <= |olds| == |ws|
    ensures |s| == |Expanded(toOld, olds, n)|
  {
    if n == 0 then [] else Spread(toOld, olds, ws, n - 1) + Copies(ws[n - 1], |Positions(toOld, olds[n - 1], |toOld|)|)
  }

  /** A new vertex has the weight of its own source vertex. */
  lemma {:induction false} OwnWeight(toOld: seq<nat>, olds: seq<nat>, ws: seq<real>, n: nat, k: nat) returns (i: nat)
    requires n <= |olds| == |ws| && k < |Expanded(toOld, olds, n)|
    ensures i < n && Expanded(toOld, olds, n)[k] < |toOld| && toOld[Expanded(toOld, olds, n)[k]] == olds[i] && Spread(toOld, olds, ws, n)[k] == ws[i]
  {
    var m := |Expanded(toOld, olds, n - 1)|;
    if k < m { i := OwnWeight(toOld, olds, ws, n - 1, k); } else { i := n - 1; }
  }

  /** Every new vertex whose source is in the cluster is in the expanded cluster, and if the cluster names no vertex twice, neither
      does the expanded one. */
  lemma {:induction false} AllExpanded(toOld: seq<nat>, olds: seq<nat>, n: nat, p: nat)
    requires n <= |olds|
    ensures p in Expanded(toOld, olds, n) <==> p < |toOld| && toOld[p] in olds[..n]
    ensures Distinct(olds, n) ==> multiset(Expanded(toOld, olds, n))[p] <= 1
  {
    hide Positions;
    if n > 0 {
      var before, more := Expanded(toOld, olds, n - 1), Positions(toOld, olds[n - 1], |toOld|);
      AllExpanded(toOld, olds, n - 1, p);
      PositionsPartition(toOld, olds[n - 1], |toOld|, p);
      assert olds[..n] == olds[..n - 1] + [olds[n - 1]];
      assert Expanded(toOld, olds, n) == before + more;
      assert multiset(before + more) == multiset(before) + multiset(more);
      assert p in multiset(before) <==> p in before;
      assert p in multiset(more) <==> p in more;
    }
  }

  ghost predicate Distinct(olds: seq<nat>, n: nat) {
    n <= |olds| && forall i, j :: 0 <= i < j < n ==> olds[i] != olds[j]
  }

  /** The expansion loop of `ClusterImpl::postprocess`; it gives up when there is not one weight for every vertex. */
  method ExpandCluster(heads: seq<NewVertex>, olds: seq<nat>, ws: seq<real>, ghost chains: seq<seq<NewVertex>>, ghost toOld: seq<nat>)
    returns (ok: bool, indices: seq<int>, weights: seq<real>)
    requires Mapped(heads, chains, toOld, |toOld|) && forall i :: 0 <= i < |olds| ==> olds[i] < |heads|
    ensures ok == (|olds| == |ws|)
    ensures ok ==> indices == Expanded(toOld, olds, |olds|) && weights == Spread(toOld, olds, ws, |olds|)
  {
    hide Mapped, Chain, Positions;
    indices, weights := [], [];
    if |olds| != |ws| { return false, indices, weights; }
    for i := 0 to |olds|
      invariant unchanged(AllNodes(chains)) && Mapped(heads, chains, toOld, |toOld|) && indices == Expanded(toOld, olds, i) && weights == Spread(toOld, olds, ws, i)
    {
      var oldIdx, w := olds[i], ws[i];
      ListAt(heads, chains, toOld, oldIdx);
      indices, weights := Walk(heads[oldIdx], w, indices, weights, chains[oldIdx], Positions(toOld, oldIdx, |toOld|));
    }
    ok := true;
  }

  lemma ListAt(heads: seq<NewVertex>, chains: seq<seq<NewVertex>>, toOld: seq<nat>, v: nat)
    requires Mapped(heads, chains, toOld, |toOld|) && v < |heads|
    ensures v < |chains| && Chain(chains[v]) && chains[v] != [] && chains[v][0] == heads[v] && Holds(Indices(chains[v]), Positions(toOld, v, |toOld|))
  {
    hide Chain, Positions;
    assert IsList(heads, chains, v) && MappedAt(chains, toOld, |toOld|, v);
    NotEmpty(chains[v]);
  }

  /** The inner loop: along one list. */
  method Walk(head: NewVertex, w: real, indices: seq<int>, weights: seq<real>, ghost nodes: seq<NewVertex>, ghost held: seq<nat>)
    returns (indices': seq<int>, weights': seq<real>)
    requires Chain(nodes) && nodes[0] == head && Holds(Indices(nodes), held)
    ensures indices' == indices + held && weights' == weights + Copies(w, |held|)
  {
    indices', weights' := indices, weights;
    if head.index == -1 {
      assert Indices(nodes)[0] == -1;
      return;
    }
    var n: NewVertex? := head;
    ghost var k := 0;
    while n != null
      invariant 0 <= k <= |nodes| && n == (if k < |nodes| then nodes[k] else null)
      invariant |held| == |nodes| && indices' == indices + held[..k] && weights' == weights + Copies(w, k)
      decreases |nodes| - k
    {
      assert Indices(nodes)[k] == held[k];
      indices' := indices' + [n.index];
      weights' := weights' + [w];
      n := n.next;
      k := k + 1;
    }
  }

  // ----- attributes

  datatype VertexDataMapping = ByPolygonVertex | ByVertex

  /** What is there, or a default. */
  function Pick<T>(data: seq<T>, i: int, zero: T): T {
    if 0 <= i < |data| then data[i] else zero
  }

  /** `splat`: one attribute for every corner. */
  method Splat<T>(mapping: VertexDataMapping, data: seq<T>, indices: seq<int>, originalIndices: seq<int>, zero: T) returns (out: seq<T>)
    requires data != [] && (mapping.ByVertex? ==> indices == [])
    ensures mapping.ByPolygonVertex? && indices == [] ==> out == data
    ensures mapping.ByPolygonVertex? && indices != [] ==> |out| == |indices| && forall i :: 0 <= i < |out| ==> out[i] == Pick(data, indices[i], zero)
    ensures mapping.ByVertex? ==> |out| == |originalIndices| && forall i :: 0 <= i < |out| ==> out[i] == Pick(data, DecodeIndex(originalIndices[i]), zero)
  {
    out := [];
    if mapping.ByPolygonVertex? {
      if indices == [] { return data; }
      for i := 0 to |indices|
        invariant |out| == i && forall k :: 0 <= k < i ==> out[k] == Pick(data, indices[k], zero)
      {
        var index := indices[i];
        out := out + [if index < |data| && index >= 0 then data[index] else zero];
      }
    } else {
      for i := 0 to |originalIndices|
        invariant |out| == i && forall k :: 0 <= k < i ==> out[k] == Pick(data, DecodeIndex(originalIndices[k]), zero)
      {
        var idx := DecodeIndex(originalIndices[i]);
        out := out + [if idx < |data| && idx >= 0 then data[idx] else zero];
      }
    }
  }

  /** `remap`: from the corners to the new vertices. */
  method Remap<T>(before: seq<T>, places: seq<nat>, zero: T) returns (out: seq<T>)
    ensures out == [] <==> before == [] || places == []
    ensures before != [] ==> |out| == |places| && forall i :: 0 <= i < |out| ==> out[i] == Pick(before, places[i], zero)
  {
    out := [];
    if before == [] { return; }
    for i := 0 to |places|
      invariant |out| == i && forall k :: 0 <= k < i ==> out[k] == Pick(before, places[k], zero)
    {
      out := out + [if places[i] < |before| then before[places[i]] else zero];
    }
  }

  /** Both together: every new vertex has the attribute of its own source vertex, or of its own source corner. */
  method NewAttributes<T>(mapping: VertexDataMapping, data: seq<T>, indices: seq<int>, originalIndices: seq<int>, toOldVertices: seq<nat>, toOldIndices: seq<nat>, zero: T)
    returns (out: seq<T>)
    requires data != [] && (mapping.ByVertex? ==> indices == []) && |toOldVertices| == |toOldIndices| && originalIndices != []
    requires forall k :: 0 <= k < |toOldIndices| ==> toOldIndices[k] < |originalIndices| && toOldVertices[k] == DecodeIndex(originalIndices[toOldIndices[k]])
    requires indices != [] ==> |indices| == |originalIndices|
    ensures |out| == |toOldIndices|
    ensures forall k :: 0 <= k < |out| ==>
      out[k] == if mapping.ByVertex? then Pick(data, toOldVertices[k], zero)
                else if indices != [] then Pick(data, indices[toOldIndices[k]], zero) else Pick(data, toOldIndices[k], zero)
  {
    var splat := Splat(mapping, data, indices, originalIndices, zero);
    out := Remap(splat, toOldIndices, zero);
  }
}
