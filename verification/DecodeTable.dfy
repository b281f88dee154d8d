/** The inflater's two-level decoding table: a 1024-entry look-up on the next ten bits, and a binary tree for
    longer codes.  It is proved to decode exactly the canonical code of its code sizes. */
module DecodeTable {
  import opened Bits
  import opened Canonical

  const FAST_BITS := 10
  const FAST_SIZE := 1024
  const TREE_SIZE := 576
  const MAX_SYMBOLS := 288

  /** The array slot of child `b` of the tree node whose (negative) number is `node`. */
  function Slot(node: int, b: bool): int {
    -node - 1 + (if b then 1 else 0)
  }

  // ----- what a finished table means

  /** Following `path` from `node` ends at the leaf for `s`, and not before. */
  ghost predicate Leads(tree: seq<int>, node: int, path: Bits, s: nat)
    decreases |path|
  {
    if path == [] then node == s
    else node < 0 && 0 <= Slot(node, path[0]) < |tree| && Leads(tree, tree[Slot(node, path[0])], path[1..], s)
  }

  /** Whatever path is followed from `node`, at depth `d`, it stays in the array and ends by depth 15 at a number below `size`. */
  ghost predicate Safe(tree: seq<int>, node: int, d: nat, size: nat)
    decreases 15 - d
  {
    if node >= 0 then node < size
    else d < 15 && -node < |tree| && Safe(tree, tree[Slot(node, false)], d + 1, size) && Safe(tree, tree[Slot(node, true)], d + 1, size)
  }

  /** A look-up entry is empty, a node of the tree, or the size and symbol of a code that the index starts with. */
  ghost predicate Entry(lens: seq<nat>, tree: seq<int>, k: nat, e: int) {
    if e < 0 then Safe(tree, e, FAST_BITS, |lens|)
    else e > 0 ==> IsShort(lens, e % 512) && e == lens[e % 512] * 512 + e % 512 && CodeBits(lens, e % 512) <= Lsb(k, FAST_BITS)
  }

  ghost predicate IsShort(lens: seq<nat>, s: nat) {
    Used(lens, s) && lens[s] <= FAST_BITS
  }

  ghost predicate IsLong(lens: seq<nat>, s: nat) {
    s < |lens| && lens[s] > FAST_BITS
  }

  /** The table decodes the canonical code of `lens`. */
  ghost predicate Decodes(lens: seq<nat>, lookUp: seq<int>, tree: seq<int>) {
    && |lookUp| == FAST_SIZE && |tree| == TREE_SIZE && 0 < |lens| <= MAX_SYMBOLS && Fits(lens)
    && (forall k :: 0 <= k < FAST_SIZE ==> Entry(lens, tree, k, lookUp[k]))
    && (forall s: nat, k :: IsShort(lens, s) && 0 <= k < FAST_SIZE && CodeBits(lens, s) <= Lsb(k, FAST_BITS) ==> lookUp[k] == lens[s] * 512 + s)
    && (forall s: nat :: IsLong(lens, s) ==> LongOk(lens, lookUp, tree, s))
  }

  ghost predicate LongOk(lens: seq<nat>, lookUp: seq<int>, tree: seq<int>, s: nat)
    requires IsLong(lens, s) && |lookUp| == FAST_SIZE
  {
    Root(lens, s) < FAST_SIZE && Leads(tree, lookUp[Root(lens, s)], CodeBits(lens, s)[FAST_BITS..], s)
  }

  ghost function Root(lens: seq<nat>, s: nat): nat
    requires IsLong(lens, s)
  {
    Val(CodeBits(lens, s)[..FAST_BITS])
  }

  // ----- the table under construction

  /** `nodes` numbers the inner tree nodes made so far; a node is named by the code bits that lead to it. */
  type Nodes = map<Bits, nat>

  /** The number the program gives to node `k`. */
  function Id(k: nat): int {
    -1 - 2 * k
  }

  /** The array slot of child `b` of node `k`. */
  function Child(k: nat, b: bool): (j: nat)
    ensures j == Slot(Id(k), b)
  {
    2 * k + (if b then 1 else 0)
  }

  ghost predicate Numbered(nodes: Nodes) {
    && (forall p :: p in nodes ==> 10 <= |p| <= 14 && nodes[p] < |nodes|)
    && (forall p, q :: p in nodes && q in nodes && nodes[p] == nodes[q] ==> p == q)
  }

  /** Every node hangs where its name says. */
  ghost predicate Linked(lookUp: seq<int>, tree: seq<int>, nodes: Nodes)
    requires |lookUp| == FAST_SIZE
  {
    && (forall p :: p in nodes && |p| == 10 ==> Val(p) < FAST_SIZE && lookUp[Val(p)] == Id(nodes[p]))
    && (forall p :: p in nodes && |p| > 10 ==> Hangs(tree, nodes, p, Id(nodes[p])))
  }

  ghost predicate Hangs(tree: seq<int>, nodes: Nodes, p: Bits, e: int)
    requires |p| > 0
  {
    Init(p) in nodes && Child(nodes[Init(p)], Last(p)) < |tree| && tree[Child(nodes[Init(p)], Last(p))] == e
  }

  function Init(p: Bits): (q: Bits)
    requires p != []
  {
    p[..|p| - 1]
  }

  function Last(p: Bits): bool
    requires p != []
  {
    p[|p| - 1]
  }

  /** Every node is a proper prefix of the code of some long symbol up to `n`. */
  ghost predicate Needed(lens: seq<nat>, n: nat, nodes: Nodes) {
    forall p :: p in nodes ==> NeededBy(lens, n, p)
  }

  ghost predicate NeededBy(lens: seq<nat>, n: nat, p: Bits) {
    exists s: nat :: s < n && IsLong(lens, s) && p < CodeBits(lens, s)
  }

  ghost predicate Filled(lens: seq<nat>, n: nat, lookUp: seq<int>, tree: seq<int>, nodes: Nodes)
    requires |lookUp| == FAST_SIZE
  {
    && (forall s: nat, k :: s < n && IsShort(lens, s) && 0 <= k < FAST_SIZE && CodeBits(lens, s) <= Lsb(k, FAST_BITS) ==> lookUp[k] == lens[s] * 512 + s)
    && (forall s: nat :: s < n && IsLong(lens, s) ==> Hangs(tree, nodes, CodeBits(lens, s), s))
  }

  /** Whatever is not 0 is there for a reason. */
  ghost predicate LookUpJustified(lens: seq<nat>, n: nat, lookUp: seq<int>, nodes: Nodes)
    requires |lookUp| == FAST_SIZE
  {
    forall k :: 0 <= k < FAST_SIZE && lookUp[k] != 0 ==> RootEntry(nodes, k, lookUp[k]) || ShortEntry(lens, n, k, lookUp[k])
  }

  ghost predicate RootEntry(nodes: Nodes, k: nat, e: int) {
    Lsb(k, 10) in nodes && Id(nodes[Lsb(k, 10)]) == e
  }

  ghost predicate ShortEntry(lens: seq<nat>, n: nat, k: nat, e: int) {
    e > 0 && e % 512 < n && IsShort(lens, e % 512) && e == lens[e % 512] * 512 + e % 512 && CodeBits(lens, e % 512) <= Lsb(k, FAST_BITS)
  }

  ghost predicate TreeJustified(lens: seq<nat>, n: nat, tree: seq<int>, nodes: Nodes) {
    && |tree| == TREE_SIZE
    && (forall p, b :: p in nodes && Child(nodes[p], b) < TREE_SIZE && tree[Child(nodes[p], b)] != 0 ==> ChildOf(lens, n, nodes, p + [b], tree[Child(nodes[p], b)]))
    && (forall j :: 2 * |nodes| <= j < TREE_SIZE ==> tree[j] == 0)
  }

  ghost predicate ChildOf(lens: seq<nat>, n: nat, nodes: Nodes, q: Bits, e: int) {
    if e < 0 then q in nodes && Id(nodes[q]) == e
    else e < n && IsLong(lens, e) && CodeBits(lens, e) == q
  }

  ghost predicate Building(lens: seq<nat>, n: nat, lookUp: seq<int>, tree: seq<int>, nodes: Nodes) {
    && 0 < |lens| <= MAX_SYMBOLS && n <= |lens| && Fits(lens) && |lookUp| == FAST_SIZE && |tree| == TREE_SIZE
    && Numbered(nodes) && 2 * |nodes| <= TREE_SIZE
    && Linked(lookUp, tree, nodes)
    && Filled(lens, n, lookUp, tree, nodes)
    && LookUpJustified(lens, n, lookUp, nodes)
    && TreeJustified(lens, n, tree, nodes)
  }

  // ----- the tree never outgrows its array

  ghost predicate NameIn(p: Bits, d: nat, lo: nat, hi: nat) {
    exists v: nat :: lo <= v < hi && p == Msb(v, d)
  }

  lemma {:induction false} FewNames(names: set<Bits>, d: nat, lo: nat, hi: nat)
    requires lo <= hi
    requires forall p :: p in names ==> NameIn(p, d, lo, hi)
    ensures |names| <= hi - lo
    decreases hi - lo
  {
    if lo == hi {
      assert forall p :: !NameIn(p, d, lo, hi);
      assert names == {};
    } else {
      var rest := names - {Msb(hi - 1, d)};
      forall p | p in rest ensures NameIn(p, d, lo, hi - 1) {
        assert NameIn(p, d, lo, hi);
        var v: nat :| lo <= v < hi && p == Msb(v, d);
        assert v != hi - 1;
      }
      FewNames(rest, d, lo, hi - 1);
      CardUnion(names, rest, Msb(hi - 1, d));
    }
  }

  lemma CardUnion(s: set<Bits>, t: set<Bits>, x: Bits)
    requires t == s - {x}
    ensures |s| <= |t| + 1
  {
    if x in s { assert s == t + {x}; } else { assert s == t; }
  }

  lemma NamesAt(lens: seq<nat>, names: set<Bits>, d: nat)
    requires Complete(lens) && 10 <= d < 15
    requires forall p :: p in names ==> |p| == d && NeededBy(lens, |lens|, p)
    ensures |names| <= Inner(lens, d)
  {
    hide First, Count, Pow2, CodeBits, Msb;
    BuildableFits(lens);
    RangeFits(lens, d);
    var lo := First(lens, d) + Count(lens, d);
    forall p | p in names ensures NameIn(p, d, lo, Pow2(d)) {
      assert NeededBy(lens, |lens|, p);
      var s: nat :| s < |lens| && IsLong(lens, s) && p < CodeBits(lens, s);
      var v := PrefixInRange(lens, s, p);
    }
    FewNames(names, d, lo, Pow2(d));
  }

  lemma {:induction false} NamesBelow(lens: seq<nat>, names: set<Bits>, d: nat)
    requires Complete(lens) && 10 <= d <= 15
    requires forall p :: p in names ==> d <= |p| <= 14 && NeededBy(lens, |lens|, p)
    ensures |names| <= InnerFrom(lens, d)
    decreases 15 - d
  {
    hide Inner, Complete, NeededBy;
    if d < 15 {
      var here := set p | p in names && |p| == d;
      NamesBelow(lens, names - here, d + 1);
      NamesAt(lens, here, d);
      assert names == here + (names - here);
    } else {
      assert names == {};
    }
  }

  lemma {:induction false} NamesOnPath(c: Bits, names: set<Bits>, d: nat)
    requires forall p :: p in names ==> d <= |p| <= 14 && p <= c
    requires d <= 15
    ensures |names| <= 15 - d
    decreases 15 - d
  {
    if d == 15 {
      assert names == {};
    } else {
      var rest := if d <= |c| then names - {c[..d]} else names;
      assert forall p :: p in names && |p| == d ==> d <= |c| && p == c[..d];
      NamesOnPath(c, rest, d + 1);
      if d <= |c| { CardUnion(names, rest, c[..d]); }
    }
  }

  /** A buildable code of at most 288 symbols never needs more than 288 inner nodes. */
  lemma NodesBounded(lens: seq<nat>, nodes: Nodes)
    requires Buildable(lens) && 0 < |lens| <= MAX_SYMBOLS && Needed(lens, |lens|, nodes)
    requires forall p :: p in nodes ==> 10 <= |p| <= 14
    ensures |nodes| <= MAX_SYMBOLS
  {
    assert |nodes.Keys| == |nodes|;
    if First(lens, 16) == 65536 {
      NamesBelow(lens, nodes.Keys, 10);
      InnerTotal(lens, 10);
      BuildableFits(lens);
      RangeFits(lens, 10);
    } else if nodes.Keys != {} {
      var q :| q in nodes;
      assert NeededBy(lens, |lens|, q);
      var s: nat :| s < |lens| && IsLong(lens, s) && q < CodeBits(lens, s);
      LongerPositive(lens, s, 0);
      forall p | p in nodes ensures p <= CodeBits(lens, s) {
        assert NeededBy(lens, |lens|, p);
      }
      NamesOnPath(CodeBits(lens, s), nodes.Keys, 10);
    }
  }

  // ----- adding one symbol

  lemma AddNumber(nodes: Nodes, q: Bits)
    requires Numbered(nodes) && q !in nodes && 10 <= |q| <= 14
    ensures Numbered(nodes[q := |nodes|]) && |nodes[q := |nodes|]| == |nodes| + 1
  {
    var after := nodes[q := |nodes|];
    assert after.Keys == nodes.Keys + {q};
    assert |after| == |after.Keys| && |nodes| == |nodes.Keys|;
  }

  /** A node of the tree is not below a finished code. */
  lemma NodeNotCode(lens: seq<nat>, n: nat, p: Bits, s: nat)
    requires Fits(lens) && NeededBy(lens, n, p) && Used(lens, s)
    ensures !(CodeBits(lens, s) <= p)
  {
    if CodeBits(lens, s) <= p {
      var t: nat :| t < n && IsLong(lens, t) && p < CodeBits(lens, t);
      PrefixFree(lens, s, t);
    }
  }

  lemma LsbRoot(p: Bits)
    requires |p| == 10
    ensures Val(p) < FAST_SIZE && Lsb(Val(p), 10) == p
  {
    LsbVal(p);
    Pow2Values();
  }

  /** The look-up entry of a long code: empty, or the code's own first node. */
  lemma RootState(lens: seq<nat>, n: nat, lookUp: seq<int>, tree: seq<int>, nodes: Nodes, s: nat)
    requires Building(lens, n, lookUp, tree, nodes) && IsLong(lens, s) && n <= s
    ensures Root(lens, s) < FAST_SIZE
    ensures lookUp[Root(lens, s)] == 0 <==> CodeBits(lens, s)[..10] !in nodes
    ensures lookUp[Root(lens, s)] != 0 ==> lookUp[Root(lens, s)] == Id(nodes[CodeBits(lens, s)[..10]])
  {
    hide CodeBits, Filled, TreeJustified, Val, Lsb;
    var c, k := CodeBits(lens, s), Root(lens, s);
    LsbRoot(c[..10]);
    if lookUp[k] != 0 && !RootEntry(nodes, k, lookUp[k]) {
      var t := lookUp[k] % 512;
      assert ShortEntry(lens, n, k, lookUp[k]);
      assert CodeBits(lens, t) <= c[..10];
      PrefixFree(lens, t, s);
    }
  }

  /** The slot for bit `d` of a long code: empty, or the code's own next node. */
  lemma ChildState(lens: seq<nat>, n: nat, lookUp: seq<int>, tree: seq<int>, nodes: Nodes, s: nat, d: nat)
    requires Building(lens, n, lookUp, tree, nodes) && IsLong(lens, s) && n <= s && 10 <= d < lens[s]
    requires CodeBits(lens, s)[..d] in nodes
    ensures Child(nodes[CodeBits(lens, s)[..d]], CodeBits(lens, s)[d]) < TREE_SIZE
    ensures var e := tree[Child(nodes[CodeBits(lens, s)[..d]], CodeBits(lens, s)[d])];
            if e == 0 then CodeBits(lens, s)[..d + 1] !in nodes else CodeBits(lens, s)[..d + 1] in nodes && Id(nodes[CodeBits(lens, s)[..d + 1]]) == e
  {
    hide CodeBits, Filled, LookUpJustified, Linked, Val, Fits;
    var c := CodeBits(lens, s);
    var p, q := c[..d], c[..d + 1];
    assert Child(nodes[p], c[d]) < TREE_SIZE;
    hide Numbered;
    var e := tree[Child(nodes[p], c[d])];
    assert q == p + [c[d]];
    assert q in nodes ==> Id(nodes[q]) == e by { ChildLinked(lookUp, tree, nodes, p, c[d]); }
    if e != 0 {
      assert ChildOf(lens, n, nodes, q, e);
      if e > 0 { PrefixFree(lens, e, s); }
    }
  }

  lemma ChildLinked(lookUp: seq<int>, tree: seq<int>, nodes: Nodes, p: Bits, b: bool)
    requires |lookUp| == FAST_SIZE && Linked(lookUp, tree, nodes) && |p| >= 10
    ensures p + [b] in nodes ==> p in nodes && Child(nodes[p], b) < |tree| && tree[Child(nodes[p], b)] == Id(nodes[p + [b]])
  {
    hide Id, Val;
    var q := p + [b];
    assert q in nodes ==> Hangs(tree, nodes, q, Id(nodes[q]));
    assert Init(q) == p && Last(q) == b;
  }

  ghost predicate Extends(after: Nodes, nodes: Nodes) {
    forall p :: p in nodes ==> p in after && after[p] == nodes[p]
  }

  /** Writing the slot of `q` leaves everything else hanging. */
  lemma HangsKept(tree: seq<int>, nodes: Nodes, after: Nodes, p: Bits, e: int, q: Bits, v: int)
    requires Numbered(nodes) && Extends(after, nodes) && p != [] && q != [] && p != q && Hangs(tree, nodes, p, e)
    requires Init(q) in nodes && Child(nodes[Init(q)], Last(q)) < |tree|
    ensures Hangs(tree[Child(nodes[Init(q)], Last(q)) := v], after, p, e)
  {
    assert p == Init(p) + [Last(p)] && q == Init(q) + [Last(q)];
  }

  lemma HangsSet(tree: seq<int>, nodes: Nodes, after: Nodes, q: Bits, v: int)
    requires Extends(after, nodes) && q != [] && Init(q) in nodes && Child(nodes[Init(q)], Last(q)) < |tree|
    ensures Hangs(tree[Child(nodes[Init(q)], Last(q)) := v], after, q, v)
  {
  }

  /** Making the first node of a long code. */
  lemma AddRoot(lens: seq<nat>, n: nat, lookUp: seq<int>, tree: seq<int>, nodes: Nodes, q: Bits)
    requires Building(lens, n, lookUp, tree, nodes) && 2 * (|nodes| + 1) <= TREE_SIZE
    requires |q| == 10 && q !in nodes && Val(q) < FAST_SIZE && lookUp[Val(q)] == 0
    ensures Building(lens, n, lookUp[Val(q) := Id(|nodes|)], tree, nodes[q := |nodes|])
  {
    hide CodeBits, Val, Lsb, Fits, Id, Linked, Filled, LookUpJustified, TreeJustified, Numbered;
    AddNumber(nodes, q);
    AddRootLinked(lookUp, tree, nodes, q);
    AddRootJustified(lens, n, lookUp, nodes, q);
    AddRootFilled(lens, n, lookUp, tree, nodes, q);
    AddNodeTree(lens, n, tree, nodes, q);
  }

  lemma AddRootLinked(lookUp: seq<int>, tree: seq<int>, nodes: Nodes, q: Bits)
    requires |lookUp| == FAST_SIZE && Linked(lookUp, tree, nodes) && q !in nodes && |q| == 10 && Val(q) < FAST_SIZE
    ensures Linked(lookUp[Val(q) := Id(|nodes|)], tree, nodes[q := |nodes|])
  {
    hide Val, Lsb, Id;
    var after := nodes[q := |nodes|];
    forall p | p in nodes && |p| == 10 ensures Val(p) != Val(q) {
      LsbRoot(p);
      LsbRoot(q);
    }
    forall p | p in after && |p| > 10 ensures Hangs(tree, after, p, Id(after[p])) {
      assert Hangs(tree, nodes, p, Id(nodes[p]));
    }
  }

  lemma AddRootJustified(lens: seq<nat>, n: nat, lookUp: seq<int>, nodes: Nodes, q: Bits)
    requires |lookUp| == FAST_SIZE && LookUpJustified(lens, n, lookUp, nodes) && q !in nodes && |q| == 10 && Val(q) < FAST_SIZE
    ensures LookUpJustified(lens, n, lookUp[Val(q) := Id(|nodes|)], nodes[q := |nodes|])
  {
    hide Val, Lsb, Id, ShortEntry;
    LsbRoot(q);
    var after, lookUp' := nodes[q := |nodes|], lookUp[Val(q) := Id(|nodes|)];
    assert RootEntry(after, Val(q), lookUp'[Val(q)]);
    forall k | 0 <= k < FAST_SIZE && k != Val(q) && lookUp[k] != 0
      ensures RootEntry(after, k, lookUp[k]) || ShortEntry(lens, n, k, lookUp[k])
    {
      assert RootEntry(nodes, k, lookUp[k]) ==> RootEntry(after, k, lookUp[k]);
    }
  }

  lemma AddRootFilled(lens: seq<nat>, n: nat, lookUp: seq<int>, tree: seq<int>, nodes: Nodes, q: Bits)
    requires |lookUp| == FAST_SIZE && Filled(lens, n, lookUp, tree, nodes) && q !in nodes && |q| == 10 && Val(q) < FAST_SIZE
    requires lookUp[Val(q)] == 0
    ensures Filled(lens, n, lookUp[Val(q) := Id(|nodes|)], tree, nodes[q := |nodes|])
  {
    hide Val, Lsb, Id, CodeBits;
    var after := nodes[q := |nodes|];
    forall s: nat | s < n && IsLong(lens, s) ensures Hangs(tree, after, CodeBits(lens, s), s) {
      assert Hangs(tree, nodes, CodeBits(lens, s), s);
    }
  }

  lemma AddNodeTree(lens: seq<nat>, n: nat, tree: seq<int>, nodes: Nodes, q: Bits)
    requires Numbered(nodes) && TreeJustified(lens, n, tree, nodes) && q !in nodes && |nodes[q := |nodes|]| == |nodes| + 1
    ensures TreeJustified(lens, n, tree, nodes[q := |nodes|])
  {
    hide CodeBits, Id, IsLong;
    var after := nodes[q := |nodes|];
    forall p, b | p in after && Child(after[p], b) < TREE_SIZE && tree[Child(after[p], b)] != 0
      ensures ChildOf(lens, n, after, p + [b], tree[Child(after[p], b)])
    {
      assert p in nodes && ChildOf(lens, n, nodes, p + [b], tree[Child(nodes[p], b)]);
    }
  }

  /** Making a further node of a long code, of which `q` is a proper prefix. */
  lemma AddChild(lens: seq<nat>, n: nat, lookUp: seq<int>, tree: seq<int>, nodes: Nodes, q: Bits)
    requires Building(lens, n, lookUp, tree, nodes) && 2 * (|nodes| + 1) <= TREE_SIZE && NeededBy(lens, n + 1, q)
    requires 10 < |q| <= 14 && q !in nodes && Init(q) in nodes && Child(nodes[Init(q)], Last(q)) < TREE_SIZE
    ensures Building(lens, n, lookUp, tree[Child(nodes[Init(q)], Last(q)) := Id(|nodes|)], nodes[q := |nodes|])
  {
    hide CodeBits, Val, Lsb, Fits, Id, Linked, Filled, LookUpJustified, TreeJustified, Numbered;
    AddNumber(nodes, q);
    AddChildLinked(lookUp, tree, nodes, q);
    AddChildFilled(lens, n, lookUp, tree, nodes, q);
    AddChildTree(lens, n, tree, nodes, q);
    AddChildJustified(lens, n, lookUp, nodes, q);
  }

  lemma AddChildLinked(lookUp: seq<int>, tree: seq<int>, nodes: Nodes, q: Bits)
    requires |lookUp| == FAST_SIZE && Linked(lookUp, tree, nodes) && Numbered(nodes) && q !in nodes && |q| > 10
    requires Init(q) in nodes && Child(nodes[Init(q)], Last(q)) < |tree|
    ensures Linked(lookUp, tree[Child(nodes[Init(q)], Last(q)) := Id(|nodes|)], nodes[q := |nodes|])
  {
    hide Id, Val, Init, Last, Numbered, Hangs;
    var after := nodes[q := |nodes|];
    var j := Child(nodes[Init(q)], Last(q));
    var tree' := tree[j := Id(|nodes|)];
    HangsSet(tree, nodes, after, q, Id(|nodes|));
    forall p | p in after && |p| > 10 ensures Hangs(tree', after, p, Id(after[p])) {
      if p != q { HangsKept(tree, nodes, after, p, Id(nodes[p]), q, Id(|nodes|)); }
    }
  }

  lemma AddChildFilled(lens: seq<nat>, n: nat, lookUp: seq<int>, tree: seq<int>, nodes: Nodes, q: Bits)
    requires |lookUp| == FAST_SIZE && Fits(lens) && Filled(lens, n, lookUp, tree, nodes) && Numbered(nodes) && NeededBy(lens, n + 1, q)
    requires |q| > 10 && q !in nodes && Init(q) in nodes && Child(nodes[Init(q)], Last(q)) < |tree|
    ensures Filled(lens, n, lookUp, tree[Child(nodes[Init(q)], Last(q)) := Id(|nodes|)], nodes[q := |nodes|])
  {
    hide Id, CodeBits, Init, Last, Numbered, Hangs;
    var after := nodes[q := |nodes|];
    forall s: nat | s < n && IsLong(lens, s)
      ensures Hangs(tree[Child(nodes[Init(q)], Last(q)) := Id(|nodes|)], after, CodeBits(lens, s), s)
    {
      NodeNotCode(lens, n + 1, q, s);
      HangsKept(tree, nodes, after, CodeBits(lens, s), s, q, Id(|nodes|));
    }
  }

  lemma AddChildTree(lens: seq<nat>, n: nat, tree: seq<int>, nodes: Nodes, q: Bits)
    requires Numbered(nodes) && TreeJustified(lens, n, tree, nodes) && |nodes[q := |nodes|]| == |nodes| + 1
    requires q != [] && q !in nodes && Init(q) in nodes && Child(nodes[Init(q)], Last(q)) < |tree|
    ensures TreeJustified(lens, n, tree[Child(nodes[Init(q)], Last(q)) := Id(|nodes|)], nodes[q := |nodes|])
  {
    var after := nodes[q := |nodes|];
    var j := Child(nodes[Init(q)], Last(q));
    var tree' := tree[j := Id(|nodes|)];
    AddNodeTree(lens, n, tree, nodes, q);
    hide CodeBits, IsLong;
    forall p, b | p in after && Child(after[p], b) < TREE_SIZE && tree'[Child(after[p], b)] != 0
      ensures ChildOf(lens, n, after, p + [b], tree'[Child(after[p], b)])
    {
      if Child(after[p], b) == j {
        assert p == Init(q) && b == Last(q);
        assert p + [b] == q;
      }
    }
  }

  lemma AddChildJustified(lens: seq<nat>, n: nat, lookUp: seq<int>, nodes: Nodes, q: Bits)
    requires |lookUp| == FAST_SIZE && LookUpJustified(lens, n, lookUp, nodes) && q !in nodes
    ensures LookUpJustified(lens, n, lookUp, nodes[q := |nodes|])
  {
    hide Lsb, Id, ShortEntry;
    forall k | 0 <= k < FAST_SIZE && lookUp[k] != 0
      ensures RootEntry(nodes[q := |nodes|], k, lookUp[k]) || ShortEntry(lens, n, k, lookUp[k])
    {
      assert RootEntry(nodes, k, lookUp[k]) ==> RootEntry(nodes[q := |nodes|], k, lookUp[k]);
    }
  }

  /** Writing the leaf of a long code. */
  lemma AddLeaf(lens: seq<nat>, n: nat, lookUp: seq<int>, tree: seq<int>, nodes: Nodes)
    requires Building(lens, n, lookUp, tree, nodes) && Needed(lens, n + 1, nodes) && IsLong(lens, n)
    requires Init(CodeBits(lens, n)) in nodes && Child(nodes[Init(CodeBits(lens, n))], Last(CodeBits(lens, n))) < TREE_SIZE
    ensures Building(lens, n + 1, lookUp, tree[Child(nodes[Init(CodeBits(lens, n))], Last(CodeBits(lens, n))) := n], nodes)
  {
    hide CodeBits, Val, Lsb, Fits, Id, Linked, TreeJustified, Numbered, Filled, NeededBy, Hangs, Init, Last;
    var c := CodeBits(lens, n);
    var tree' := tree[Child(nodes[Init(c)], Last(c)) := n];
    assert c !in nodes by { if c in nodes { NodeNotCode(lens, n + 1, c, n); } }
    AddLeafLinked(lookUp, tree, nodes, c, n);
    AddLeafFilled(lens, n, lookUp, tree, nodes);
    AddLeafTree(lens, n, tree, nodes);
    assert LookUpJustified(lens, n + 1, lookUp, nodes);
  }

  lemma AddLeafLinked(lookUp: seq<int>, tree: seq<int>, nodes: Nodes, c: Bits, v: int)
    requires |lookUp| == FAST_SIZE && Linked(lookUp, tree, nodes) && Numbered(nodes) && c !in nodes && c != []
    requires Init(c) in nodes && Child(nodes[Init(c)], Last(c)) < |tree|
    ensures Linked(lookUp, tree[Child(nodes[Init(c)], Last(c)) := v], nodes)
  {
    hide Id, Val, Init, Last, Numbered, Hangs;
    forall p | p in nodes && |p| > 10 ensures Hangs(tree[Child(nodes[Init(c)], Last(c)) := v], nodes, p, Id(nodes[p])) {
      HangsKept(tree, nodes, nodes, p, Id(nodes[p]), c, v);
    }
  }

  lemma AddLeafFilled(lens: seq<nat>, n: nat, lookUp: seq<int>, tree: seq<int>, nodes: Nodes)
    requires |lookUp| == FAST_SIZE && Fits(lens) && Filled(lens, n, lookUp, tree, nodes) && Numbered(nodes) && IsLong(lens, n)
    requires Init(CodeBits(lens, n)) in nodes && Child(nodes[Init(CodeBits(lens, n))], Last(CodeBits(lens, n))) < |tree|
    ensures Filled(lens, n + 1, lookUp, tree[Child(nodes[Init(CodeBits(lens, n))], Last(CodeBits(lens, n))) := n], nodes)
  {
    hide Id, CodeBits, Init, Last, Numbered, Hangs, Fits, Lsb;
    var c := CodeBits(lens, n);
    HangsSet(tree, nodes, nodes, c, n);
    forall s: nat | s < n && IsLong(lens, s) ensures Hangs(tree[Child(nodes[Init(c)], Last(c)) := n], nodes, CodeBits(lens, s), s) {
      if CodeBits(lens, s) == c { PrefixFree(lens, s, n); }
      HangsKept(tree, nodes, nodes, CodeBits(lens, s), s, c, n);
    }
  }

  lemma AddLeafTree(lens: seq<nat>, n: nat, tree: seq<int>, nodes: Nodes)
    requires Numbered(nodes) && TreeJustified(lens, n, tree, nodes) && IsLong(lens, n)
    requires Init(CodeBits(lens, n)) in nodes && Child(nodes[Init(CodeBits(lens, n))], Last(CodeBits(lens, n))) < |tree|
    ensures TreeJustified(lens, n + 1, tree[Child(nodes[Init(CodeBits(lens, n))], Last(CodeBits(lens, n))) := n], nodes)
  {
    var c := CodeBits(lens, n);
    var j := Child(nodes[Init(c)], Last(c));
    var tree' := tree[j := n];
    hide CodeBits;
    forall p, b | p in nodes && Child(nodes[p], b) < TREE_SIZE && tree'[Child(nodes[p], b)] != 0
      ensures ChildOf(lens, n + 1, nodes, p + [b], tree'[Child(nodes[p], b)])
    {
      if Child(nodes[p], b) == j {
        assert p == Init(c) && b == Last(c);
        assert p + [b] == c;
      }
    }
  }

  /** Writing the look-up entries of a short code. */
  lemma AddShort(lens: seq<nat>, n: nat, lookUp: seq<int>, lookUp': seq<int>, tree: seq<int>, nodes: Nodes)
    requires Building(lens, n, lookUp, tree, nodes) && Needed(lens, n, nodes) && IsShort(lens, n) && |lookUp'| == FAST_SIZE
    requires forall k :: 0 <= k < FAST_SIZE ==> lookUp'[k] == if CodeBits(lens, n) <= Lsb(k, 10) then lens[n] * 512 + n else lookUp[k]
    ensures Building(lens, n + 1, lookUp', tree, nodes)
  {
    hide CodeBits, Lsb, Fits, Numbered, NeededBy, TreeJustified, Linked, Filled, LookUpJustified, RootEntry, ShortEntry;
    forall k | 0 <= k < FAST_SIZE && CodeBits(lens, n) <= Lsb(k, 10)
      ensures !RootEntry(nodes, k, lookUp[k]) && !ShortEntry(lens, n, k, lookUp[k])
    {
      AddShortFree(lens, n, nodes, k, lookUp[k]);
    }
    AddShortLinked(lens, n, lookUp, lookUp', tree, nodes);
    AddShortFilled(lens, n, lookUp, lookUp', tree, nodes);
    AddShortJustified(lens, n, lookUp, lookUp', nodes);
    TreeStep(lens, n, tree, nodes);
  }

  lemma AddShortFree(lens: seq<nat>, n: nat, nodes: Nodes, k: nat, e: int)
    requires Fits(lens) && Needed(lens, n, nodes) && IsShort(lens, n) && CodeBits(lens, n) <= Lsb(k, 10)
    ensures !RootEntry(nodes, k, e) && !ShortEntry(lens, n, k, e)
  {
    hide CodeBits, Lsb, Fits, NeededBy;
    if Lsb(k, 10) in nodes { NodeNotCode(lens, n, Lsb(k, 10), n); }
    if ShortEntry(lens, n, k, e) { StartsUnique(lens, e % 512, n, Lsb(k, 10)); }
  }

  lemma AddShortJustified(lens: seq<nat>, n: nat, lookUp: seq<int>, lookUp': seq<int>, nodes: Nodes)
    requires |lookUp| == |lookUp'| == FAST_SIZE && LookUpJustified(lens, n, lookUp, nodes) && IsShort(lens, n) && n < MAX_SYMBOLS
    requires forall k :: 0 <= k < FAST_SIZE ==> lookUp'[k] == if CodeBits(lens, n) <= Lsb(k, 10) then lens[n] * 512 + n else lookUp[k]
    ensures LookUpJustified(lens, n + 1, lookUp', nodes)
  {
    hide CodeBits, Lsb;
    forall k | 0 <= k < FAST_SIZE && lookUp'[k] != 0
      ensures RootEntry(nodes, k, lookUp'[k]) || ShortEntry(lens, n + 1, k, lookUp'[k])
    {
      assert lookUp[k] != 0 ==> RootEntry(nodes, k, lookUp[k]) || ShortEntry(lens, n, k, lookUp[k]);
    }
  }

  lemma TreeStep(lens: seq<nat>, n: nat, tree: seq<int>, nodes: Nodes)
    requires TreeJustified(lens, n, tree, nodes)
    ensures TreeJustified(lens, n + 1, tree, nodes)
  {
    hide CodeBits, IsLong;
    assert forall q, e :: ChildOf(lens, n, nodes, q, e) ==> ChildOf(lens, n + 1, nodes, q, e);
  }

  lemma AddShortLinked(lens: seq<nat>, n: nat, lookUp: seq<int>, lookUp': seq<int>, tree: seq<int>, nodes: Nodes)
    requires |lookUp| == |lookUp'| == FAST_SIZE && Linked(lookUp, tree, nodes)
    requires forall k :: 0 <= k < FAST_SIZE && lookUp[k] != lookUp'[k] ==> !RootEntry(nodes, k, lookUp[k])
    ensures Linked(lookUp', tree, nodes)
  {
    hide Val, Lsb, Id, Hangs;
    forall p | p in nodes && |p| == 10 ensures lookUp'[Val(p)] == Id(nodes[p]) {
      LsbRoot(p);
      assert RootEntry(nodes, Val(p), lookUp[Val(p)]);
    }
  }

  lemma AddShortFilled(lens: seq<nat>, n: nat, lookUp: seq<int>, lookUp': seq<int>, tree: seq<int>, nodes: Nodes)
    requires |lookUp| == |lookUp'| == FAST_SIZE && Fits(lens) && Filled(lens, n, lookUp, tree, nodes) && IsShort(lens, n)
    requires forall k :: 0 <= k < FAST_SIZE ==> lookUp'[k] == if CodeBits(lens, n) <= Lsb(k, 10) then lens[n] * 512 + n else lookUp[k]
    ensures Filled(lens, n + 1, lookUp', tree, nodes)
  {
    hide CodeBits, Lsb, Hangs, Fits;
    forall s: nat, k | s < n + 1 && IsShort(lens, s) && 0 <= k < FAST_SIZE && CodeBits(lens, s) <= Lsb(k, FAST_BITS)
      ensures lookUp'[k] == lens[s] * 512 + s
    {
      if CodeBits(lens, n) <= Lsb(k, 10) { StartsUnique(lens, s, n, Lsb(k, 10)); }
    }
  }

  /** There is room for one more node of the code being added. */
  lemma RoomForNode(lens: seq<nat>, n: nat, nodes: Nodes, q: Bits)
    requires Buildable(lens) && 0 < |lens| <= MAX_SYMBOLS && n < |lens| && Numbered(nodes) && Needed(lens, n + 1, nodes)
    requires IsLong(lens, n) && 10 <= |q| <= 14 && q < CodeBits(lens, n) && q !in nodes
    ensures 2 * (|nodes| + 1) <= TREE_SIZE && |nodes[q := |nodes|]| == |nodes| + 1
    ensures Needed(lens, n + 1, nodes[q := |nodes|])
  {
    hide CodeBits, Buildable, IsLong;
    var after := nodes[q := |nodes|];
    AddNumber(nodes, q);
    assert NeededBy(lens, n + 1, q);
    forall p | p in after ensures NeededBy(lens, |lens|, p) && NeededBy(lens, n + 1, p) {
      assert NeededBy(lens, n + 1, p);
    }
    NodesBounded(lens, after);
  }

  lemma NeededMore(lens: seq<nat>, n: nat, nodes: Nodes)
    requires Needed(lens, n, nodes)
    ensures Needed(lens, n + 1, nodes)
  {
    hide CodeBits, IsLong;
    forall p | p in nodes ensures NeededBy(lens, n + 1, p) { assert NeededBy(lens, n, p); }
  }

  // ----- the finished table

  lemma {:induction false} PrefixNodes(lookUp: seq<int>, tree: seq<int>, nodes: Nodes, p: Bits, k: nat)
    requires |lookUp| == FAST_SIZE && Linked(lookUp, tree, nodes) && p in nodes && 10 <= k <= |p|
    ensures p[..k] in nodes
  {
    hide Id, Val;
    if k == |p| {
      assert p[..k] == p;
    } else {
      assert Hangs(tree, nodes, p, Id(nodes[p]));
      PrefixNodes(lookUp, tree, nodes, Init(p), k);
      assert Init(p)[..k] == p[..k];
    }
  }

  lemma {:induction false} LeadsFrom(lens: seq<nat>, lookUp: seq<int>, tree: seq<int>, nodes: Nodes, s: nat, d: nat)
    requires |lookUp| == FAST_SIZE && Linked(lookUp, tree, nodes) && IsLong(lens, s) && 10 <= d < lens[s]
    requires Hangs(tree, nodes, CodeBits(lens, s), s)
    ensures CodeBits(lens, s)[..d] in nodes
    ensures Leads(tree, Id(nodes[CodeBits(lens, s)[..d]]), CodeBits(lens, s)[d..], s)
    decreases lens[s] - d
  {
    hide CodeBits, Val;
    var c := CodeBits(lens, s);
    PrefixNodes(lookUp, tree, nodes, Init(c), d);
    assert Init(c)[..d] == c[..d];
    var p, q := c[..d], c[..d + 1];
    assert Init(q) == p && Last(q) == c[d] && c[d..][0] == c[d] && c[d..][1..] == c[d + 1..];
    if d + 1 < lens[s] {
      LeadsFrom(lens, lookUp, tree, nodes, s, d + 1);
      assert Hangs(tree, nodes, q, Id(nodes[q]));
    } else {
      assert q == c;
    }
  }

  lemma {:induction false} SafeNode(lens: seq<nat>, tree: seq<int>, nodes: Nodes, p: Bits)
    requires 0 < |lens| && Numbered(nodes) && 2 * |nodes| <= TREE_SIZE && TreeJustified(lens, |lens|, tree, nodes) && p in nodes
    ensures Safe(tree, Id(nodes[p]), |p|, |lens|)
    decreases 15 - |p|
  {
    hide CodeBits;
    forall b ensures Safe(tree, tree[Child(nodes[p], b)], |p| + 1, |lens|) {
      var e := tree[Child(nodes[p], b)];
      assert e != 0 ==> ChildOf(lens, |lens|, nodes, p + [b], e);
      if e < 0 { SafeNode(lens, tree, nodes, p + [b]); }
    }
    assert Safe(tree, tree[Child(nodes[p], false)], |p| + 1, |lens|) && Safe(tree, tree[Child(nodes[p], true)], |p| + 1, |lens|);
  }

  /** A table that has taken in every symbol decodes its code. */
  lemma Finished(lens: seq<nat>, lookUp: seq<int>, tree: seq<int>, nodes: Nodes)
    requires Building(lens, |lens|, lookUp, tree, nodes)
    ensures Decodes(lens, lookUp, tree)
  {
    hide CodeBits, Fits, Val, Lsb, Safe, Leads, TreeJustified, Numbered, Linked, Hangs;
    forall k | 0 <= k < FAST_SIZE ensures Entry(lens, tree, k, lookUp[k]) {
      assert lookUp[k] != 0 ==> RootEntry(nodes, k, lookUp[k]) || ShortEntry(lens, |lens|, k, lookUp[k]);
      if lookUp[k] < 0 { SafeNode(lens, tree, nodes, Lsb(k, 10)); }
    }
    forall s: nat | IsLong(lens, s) ensures LongOk(lens, lookUp, tree, s) {
      FinishedLong(lens, lookUp, tree, nodes, s);
    }
  }

  lemma FinishedLong(lens: seq<nat>, lookUp: seq<int>, tree: seq<int>, nodes: Nodes, s: nat)
    requires |lookUp| == FAST_SIZE && Linked(lookUp, tree, nodes) && IsLong(lens, s) && Hangs(tree, nodes, CodeBits(lens, s), s)
    ensures LongOk(lens, lookUp, tree, s)
  {
    hide CodeBits, Val, Leads, Id;
    LsbRoot(CodeBits(lens, s)[..10]);
    LeadsFrom(lens, lookUp, tree, nodes, s, 10);
  }
}
