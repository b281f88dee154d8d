/** `tdefl_calculate_minimum_redundancy`: Huffman code lengths for sorted weights, computed in the array of the weights itself
    (the method of Moffat and Katajainen).

    Inner nodes of the tree are numbered in the order in which they are made, and both inner nodes and leaves are used up in
    order.  So one sequence is the whole shape of the tree: `taken[q]` is how many of the first `q` picks were inner nodes.
    Picks `2 * k` and `2 * k + 1` are the children of node `k`. */
module MinRedundancy {
  import opened Bits
  import opened Canonical
  import opened RadixSort

  ghost predicate Sorted(s: seq<nat>) {
    forall i, j :: 0 <= i <= j < |s| ==> s[i] <= s[j]
  }

  ghost function Keys(a: array<SymFreq>): (k: seq<nat>)
    reads a
    ensures |k| == a.Length && forall i :: 0 <= i < a.Length ==> k[i] == a[i].key
  {
    seq(a.Length, i requires 0 <= i < a.Length reads a => a[i].key)
  }

  /** Only the first `n` keys are changed. */
  twostate predicate OnlyKeys(a: array<SymFreq>, n: nat)
    requires n <= a.Length
    reads a
  {
    (forall i :: 0 <= i < a.Length ==> a[i].sym == old(a[i].sym)) && (forall i :: n <= i < a.Length ==> a[i].key == old(a[i].key))
  }

  // ----- shapes

  /** `q` picks for a tree of `n` leaves; an inner node is picked only after it has been made. */
  ghost predicate Shaped(taken: seq<nat>, n: nat, q: nat) {
    && |taken| == q + 1 && taken[0] == 0 && q - taken[q] <= n
    && (forall p :: 0 <= p < q ==> taken[p] <= taken[p + 1] <= taken[p] + 1 && taken[p + 1] <= p / 2)
  }

  /** The inner nodes, and the leaves, among the children of the first `k` nodes. */
  ghost function Kids(taken: seq<nat>, k: nat): nat
    requires 2 * k < |taken|
  {
    taken[2 * k]
  }

  ghost function Tips(taken: seq<nat>, k: nat): int
    requires 2 * k < |taken|
  {
    2 * k - taken[2 * k]
  }

  ghost predicate ParentOf(taken: seq<nat>, i: nat, p: nat) {
    2 * p + 2 < |taken| && Kids(taken, p) <= i < Kids(taken, p + 1)
  }

  // ----- making the inner nodes

  /** The weight of pick `p`. */
  ghost predicate IsPick(w: seq<nat>, inner: seq<nat>, taken: seq<nat>, p: nat, v: nat) {
    p + 1 < |taken| &&
    if taken[p + 1] > taken[p] then taken[p] < |inner| && v == inner[taken[p]]
    else 0 <= p - taken[p] < |w| && v == w[p - taken[p]]
  }

  /** Each node joins two picks, and each pick was the smallest weight left. */
  ghost predicate Greedy(w: seq<nat>, inner: seq<nat>, picks: seq<nat>, taken: seq<nat>, q: nat) {
    && Shaped(taken, |w|, q) && |inner| == q / 2 && |picks| == q && Sorted(w) && Sorted(inner) && Sorted(picks)
    && (forall p :: 0 <= p < q ==> IsPick(w, inner, taken, p, picks[p]))
    && (forall j :: 0 <= j < q / 2 ==> inner[j] == picks[2 * j] + picks[2 * j + 1])
    && (q > 0 ==> LeastLeft(w, inner, taken[q], q - taken[q], picks[q - 1]))
  }

  /** What is left are the inner nodes from `root` and the leaves from `leaf`. */
  ghost predicate LeastLeft(w: seq<nat>, inner: seq<nat>, root: nat, leaf: int, v: nat) {
    (forall i :: root <= i < |inner| ==> v <= inner[i]) && (forall i :: leaf <= i < |w| && 0 <= i ==> v <= w[i])
  }

  lemma PickMore(w: seq<nat>, inner: seq<nat>, picks: seq<nat>, taken: seq<nat>, q: nat, v: nat, root: nat)
    requires Greedy(w, inner, picks, taken, q) && taken[q] <= root <= taken[q] + 1 && root <= q / 2 && q + 1 - root <= |w|
    requires v == if root > taken[q] then inner[taken[q]] else w[q - taken[q]]
    requires LeastLeft(w, inner, root, q + 1 - root, v)
    requires q % 2 == 0
    ensures Greedy(w, inner, picks + [v], taken + [root], q + 1)
  {
    hide IsPick, Sorted, Shaped, LeastLeft;
    ShapedMore(taken, |w|, q, root);
    LaterPicks(w, inner, picks, taken, q, v, root);
    PicksGrow(w, inner, picks, taken, q, v, root);
    SortedMore(picks, v);
  }

  lemma ShapedMore(taken: seq<nat>, n: nat, q: nat, root: nat)
    requires Shaped(taken, n, q) && taken[q] <= root <= taken[q] + 1 && root <= q / 2 && q + 1 - root <= n
    ensures |taken| == q + 1 && Shaped(taken + [root], n, q + 1)
  {
  }

  lemma SortedMore(s: seq<nat>, v: nat)
    requires Sorted(s) && (s != [] ==> s[|s| - 1] <= v)
    ensures Sorted(s + [v])
  {
  }

  /** The new pick was left when the last one was made. */
  lemma PicksGrow(w: seq<nat>, inner: seq<nat>, picks: seq<nat>, taken: seq<nat>, q: nat, v: nat, root: nat)
    requires Shaped(taken, |w|, q) && |picks| == q && (q > 0 ==> LeastLeft(w, inner, taken[q], q - taken[q], picks[q - 1]))
    requires taken[q] <= root <= taken[q] + 1 && if root > taken[q] then taken[q] < |inner| && v == inner[taken[q]] else 0 <= q - taken[q] < |w| && v == w[q - taken[q]]
    ensures picks != [] ==> picks[|picks| - 1] <= v
  {
  }

  lemma LaterPicks(w: seq<nat>, inner: seq<nat>, picks: seq<nat>, taken: seq<nat>, q: nat, v: nat, root: nat)
    requires |taken| == q + 1 && |picks| == q && forall p :: 0 <= p < q ==> IsPick(w, inner, taken, p, picks[p])
    requires taken[q] <= root <= taken[q] + 1 && (if root > taken[q] then taken[q] < |inner| && v == inner[taken[q]] else 0 <= q - taken[q] < |w| && v == w[q - taken[q]])
    ensures forall p :: 0 <= p < q + 1 ==> IsPick(w, inner, taken + [root], p, (picks + [v])[p])
  {
    forall p | 0 <= p < q + 1 ensures IsPick(w, inner, taken + [root], p, (picks + [v])[p]) {
      if p < q { assert IsPick(w, inner, taken, p, picks[p]); }
    }
  }

  /** The second pick of a node completes it. */
  lemma PickLast(w: seq<nat>, inner: seq<nat>, picks: seq<nat>, taken: seq<nat>, q: nat, v: nat, root: nat)
    requires Greedy(w, inner, picks, taken, q) && taken[q] <= root <= taken[q] + 1 && root <= q / 2 && q + 1 - root <= |w|
    requires v == if root > taken[q] then inner[taken[q]] else w[q - taken[q]]
    requires LeastLeft(w, inner, root, q + 1 - root, v)
    requires q % 2 == 1
    ensures Greedy(w, inner + [picks[q - 1] + v], picks + [v], taken + [root], q + 1)
  {
    hide IsPick, Sorted, Shaped, LeastLeft;
    var inner' := inner + [picks[q - 1] + v];
    ShapedMore(taken, |w|, q, root);
    LaterPicks(w, inner, picks, taken, q, v, root);
    forall p | 0 <= p < q + 1 ensures IsPick(w, inner', taken + [root], p, (picks + [v])[p]) { MoreInner(w, inner, inner', taken + [root], p, (picks + [v])[p]); }
    PicksGrow(w, inner, picks, taken, q, v, root);
    SortedMore(picks, v);
    NodeGrows(inner, picks, q, v);
    SortedMore(inner, picks[q - 1] + v);
    LeastMore(w, inner, root, q + 1 - root, v, picks[q - 1] + v);
  }

  lemma MoreInner(w: seq<nat>, inner: seq<nat>, inner': seq<nat>, taken: seq<nat>, p: nat, v: nat)
    requires IsPick(w, inner, taken, p, v) && inner <= inner'
    ensures IsPick(w, inner', taken, p, v)
  {
  }

  lemma NodeGrows(inner: seq<nat>, picks: seq<nat>, q: nat, v: nat)
    requires q % 2 == 1 && |picks| == q && |inner| == q / 2 && Sorted(picks) && picks[q - 1] <= v
    requires forall j :: 0 <= j < q / 2 ==> inner[j] == picks[2 * j] + picks[2 * j + 1]
    ensures inner != [] ==> inner[|inner| - 1] <= picks[q - 1] + v
  {
    if q > 1 {
      var j := q / 2 - 1;
      assert inner[j] == picks[2 * j] + picks[2 * j + 1] && 2 * j + 1 == q - 2;
    }
  }

  lemma LeastMore(w: seq<nat>, inner: seq<nat>, root: nat, leaf: int, v: nat, x: nat)
    requires LeastLeft(w, inner, root, leaf, v) && v <= x
    ensures LeastLeft(w, inner + [x], root, leaf, v)
  {
  }

  // ----- the array

  /** The array while nodes are being made: parents of inner nodes that have one, weights of those that have none yet, and, further
      up, the leaves that have none. */
  ghost predicate Stored(keys: seq<nat>, w: seq<nat>, inner: seq<nat>, taken: seq<nat>, root: nat, leaf: nat, next: nat) {
    && root <= next < leaf <= |w| <= |keys| && next <= |inner| && 2 * next < |taken| && Kids(taken, next) <= root
    && (forall i :: 0 <= i < Kids(taken, next) ==> ParentOf(taken, i, keys[i]))
    && (forall i :: Kids(taken, next) <= i < root ==> keys[i] == next)
    && (forall i :: root <= i < next ==> keys[i] == inner[i])
    && (forall i :: leaf <= i < |w| ==> keys[i] == w[i])
  }

  /** The smaller of the smallest inner node and the smallest leaf that have no parent is given the parent `next`. */
  method Take(a: array<SymFreq>, n: nat, next: nat, root: nat, leaf: nat, ghost w: seq<nat>, ghost inner: seq<nat>, ghost taken: seq<nat>)
    returns (v: nat, root': nat, leaf': nat)
    requires n == |w| <= a.Length && Stored(Keys(a), w, inner, taken, root, leaf, next) && (root < next || leaf < n)
    requires Sorted(w) && Sorted(inner) && |inner| == next
    modifies a
    ensures OnlyKeys(a, n) && Stored(Keys(a), w, inner, taken, root', leaf', next)
    ensures root' + leaf' == root + leaf + 1 && root <= root' <= root + 1
    ensures v == if root' > root then inner[root] else w[leaf]
    ensures LeastLeft(w, inner, root', leaf', v) && a[next] == old(a[next])
  {
    if leaf >= n || (root < next && a[root].key < a[leaf].key) {
      v, root', leaf' := a[root].key, root + 1, leaf;
      a[root] := a[root].(key := next);
    } else {
      v, root', leaf' := a[leaf].key, root, leaf + 1;
    }
  }

  /** The first node joins the two smallest leaves. */
  lemma GreedyStart(w: seq<nat>)
    requires |w| >= 2 && Sorted(w)
    ensures Greedy(w, [w[0] + w[1]], [w[0], w[1]], [0, 0, 0], 2)
  {
  }

  /** The node `next` is complete: its children have parents, and it has none. */
  lemma StoredNext(keys: seq<nat>, w: seq<nat>, inner: seq<nat>, taken: seq<nat>, r1: nat, root: nat, leaf: nat, next: nat, v: nat)
    requires Stored(keys, w, inner, taken, root, leaf, next) && |taken| == 2 * next + 1 && |inner| == next && next + 1 < leaf && keys[next] == v
    ensures Stored(keys, w, inner + [v], taken + [r1] + [root], root, leaf, next + 1)
  {
    var taken' := taken + [r1] + [root];
    forall i | 0 <= i < root ensures ParentOf(taken', i, keys[i]) {
      if i < Kids(taken, next) { assert ParentOf(taken, i, keys[i]); }
    }
  }

  /** The first child of a new node. */
  method FirstChild(a: array<SymFreq>, n: nat, next: nat, root: nat, leaf: nat, ghost w: seq<nat>, ghost inner: seq<nat>, ghost picks: seq<nat>, ghost taken: seq<nat>)
    returns (v: nat, root': nat, leaf': nat)
    requires 0 < next < n - 1 && n == |w| <= a.Length && root + leaf == 2 * next
    requires Greedy(w, inner, picks, taken, 2 * next) && root == taken[2 * next] && Stored(Keys(a), w, inner, taken, root, leaf, next)
    modifies a
    ensures OnlyKeys(a, n) && root' + leaf' == 2 * next + 1 && a[next].key == v
    ensures Greedy(w, inner, picks + [v], taken + [root'], 2 * next + 1) && Stored(Keys(a), w, inner, taken, root', leaf', next)
  {
    hide Greedy, Stored, LeastLeft;
    GreedyQueues(w, inner, picks, taken, 2 * next);
    HeadsIn(Keys(a), w, inner, taken, root, leaf, next);
    v, root', leaf' := Take(a, n, next, root, leaf, w, inner, taken);
    HeadsIn(Keys(a), w, inner, taken, root', leaf', next);
    PickMore(w, inner, picks, taken, 2 * next, v, root');
    ghost var keys := Keys(a);
    a[next] := a[next].(key := v);
    StoredAside(keys, Keys(a), w, inner, taken, root', leaf', next);
  }

  /** The second child, and the sum of the two weights. */
  method SecondChild(a: array<SymFreq>, n: nat, next: nat, root: nat, leaf: nat, ghost w: seq<nat>, ghost inner: seq<nat>, ghost picks: seq<nat>, ghost taken: seq<nat>)
    returns (v: nat, root': nat, leaf': nat)
    requires 0 < next < n - 1 && n == |w| <= a.Length && root + leaf == 2 * next + 1
    requires Greedy(w, inner, picks, taken, 2 * next + 1) && root == taken[2 * next + 1] && Stored(Keys(a), w, inner, taken[..2 * next + 1], root, leaf, next)
    requires a[next].key == picks[2 * next]
    modifies a
    ensures OnlyKeys(a, n) && root' + leaf' == 2 * next + 2 && |picks| == 2 * next + 1 && |inner| == next && |taken| == 2 * next + 2
    ensures Greedy(w, inner + [picks[2 * next] + v], picks + [v], taken + [root'], 2 * next + 2)
    ensures Stored(Keys(a), w, inner + [picks[2 * next] + v], taken + [root'], root', leaf', next + 1)
  {
    hide Greedy, Stored, LeastLeft;
    GreedyQueues(w, inner, picks, taken, 2 * next + 1);
    ghost var before := taken[..2 * next + 1];
    HeadsIn(Keys(a), w, inner, before, root, leaf, next);
    v, root', leaf' := Take(a, n, next, root, leaf, w, inner, before);
    HeadsIn(Keys(a), w, inner, before, root', leaf', next);
    PickLast(w, inner, picks, taken, 2 * next + 1, v, root');
    ghost var keys := Keys(a);
    a[next] := a[next].(key := a[next].key + v);
    StoredAside(keys, Keys(a), w, inner, before, root', leaf', next);
    StoredNext(Keys(a), w, inner, before, root, root', leaf', next, picks[2 * next] + v);
    assert before + [root] + [root'] == taken + [root'];
  }

  /** Making one inner node. */
  method Join(a: array<SymFreq>, n: nat, next: nat, root: nat, leaf: nat, ghost w: seq<nat>, ghost inner: seq<nat>, ghost picks: seq<nat>, ghost taken: seq<nat>)
    returns (root': nat, leaf': nat, ghost inner': seq<nat>, ghost picks': seq<nat>, ghost taken': seq<nat>)
    requires 0 < next < n - 1 && n == |w| <= a.Length && root + leaf == 2 * next
    requires Greedy(w, inner, picks, taken, 2 * next) && root == taken[2 * next]
    requires Stored(Keys(a), w, inner, taken, root, leaf, next)
    modifies a
    ensures OnlyKeys(a, n) && root' + leaf' == 2 * next + 2
    ensures Greedy(w, inner', picks', taken', 2 * next + 2) && root' == taken'[2 * next + 2]
    ensures Stored(Keys(a), w, inner', taken', root', leaf', next + 1)
  {
    hide Greedy, Stored, LeastLeft;
    GreedyQueues(w, inner, picks, taken, 2 * next);
    var v1, r1, l1 := FirstChild(a, n, next, root, leaf, w, inner, picks, taken);
    picks', taken' := picks + [v1], taken + [r1];
    assert taken'[..2 * next + 1] == taken;
    var v2;
    v2, root', leaf' := SecondChild(a, n, next, r1, l1, w, inner, picks', taken');
    inner', picks', taken' := inner + [v1 + v2], picks' + [v2], taken' + [root'];
  }

  lemma HeadsIn(keys: seq<nat>, w: seq<nat>, inner: seq<nat>, taken: seq<nat>, root: nat, leaf: nat, next: nat)
    requires Stored(keys, w, inner, taken, root, leaf, next)
    ensures root <= next < leaf <= |w|
  {
  }

  /** The cell of the node being made is not looked at. */
  lemma StoredAside(keys: seq<nat>, keys': seq<nat>, w: seq<nat>, inner: seq<nat>, taken: seq<nat>, root: nat, leaf: nat, next: nat)
    requires Stored(keys, w, inner, taken, root, leaf, next) && |keys'| == |keys| && forall i :: 0 <= i < |keys| && i != next ==> keys'[i] == keys[i]
    ensures Stored(keys', w, inner, taken, root, leaf, next)
  {
  }

  lemma GreedyQueues(w: seq<nat>, inner: seq<nat>, picks: seq<nat>, taken: seq<nat>, q: nat)
    requires Greedy(w, inner, picks, taken, q)
    ensures Sorted(w) && Sorted(inner) && |inner| == q / 2 && |picks| == q && |taken| == q + 1 && taken[q] <= q && q - taken[q] <= |w|
  {
  }

  /** Making all inner nodes: the array then holds the parent of each but the root. */
  method JoinAll(a: array<SymFreq>, n: nat, ghost w: seq<nat>) returns (ghost inner: seq<nat>, ghost picks: seq<nat>, ghost taken: seq<nat>)
    requires 2 <= n <= a.Length && w == Keys(a)[..n] && Sorted(w)
    modifies a
    ensures OnlyKeys(a, n) && Greedy(w, inner, picks, taken, 2 * n - 2)
    ensures forall i :: 0 <= i < n - 2 ==> ParentOf(taken, i, a[i].key)
  {
    hide Greedy;
    a[0] := a[0].(key := a[0].key + a[1].key);
    var root, leaf: nat := 0, 2;
    inner, picks, taken := [w[0] + w[1]], [w[0], w[1]], [0, 0, 0];
    GreedyStart(w);
    for next := 1 to n - 1
      invariant OnlyKeys(a, n) && |taken| == 2 * next + 1
      invariant Greedy(w, inner, picks, taken, 2 * next) && root == taken[2 * next] && root + leaf == 2 * next
      invariant Stored(Keys(a), w, inner, taken, root, leaf, next)
    {
      root, leaf, inner, picks, taken := Join(a, n, next, root, leaf, w, inner, picks, taken);
      GreedyQueues(w, inner, picks, taken, 2 * next + 2);
    }
  }

  // ----- depths

  /** The whole tree: its shape, and the parents of all inner nodes but the last, which is the root. */
  ghost predicate Grown(taken: seq<nat>, parents: seq<nat>, n: nat) {
    n >= 2 && Shaped(taken, n, 2 * n - 2) && |parents| == n - 2 && forall i :: 0 <= i < n - 2 ==> ParentOf(taken, i, parents[i])
  }

  lemma {:induction false} TakenMono(taken: seq<nat>, n: nat, q: nat, p: nat, r: nat)
    requires Shaped(taken, n, q) && p <= r <= q
    ensures taken[p] <= taken[r] <= taken[p] + (r - p)
  {
    if p < r { TakenMono(taken, n, q, p, r - 1); }
  }

  lemma KidsFew(taken: seq<nat>, n: nat, q: nat, k: nat)
    requires Shaped(taken, n, q) && 2 * k <= q
    ensures Kids(taken, k) <= k && (k > 0 ==> Kids(taken, k) < k)
  {
    if k > 0 {
      var p := 2 * k - 1;
      assert taken[p + 1] <= p / 2;
    }
  }

  /** A parent is made after its children. */
  lemma ParentLater(taken: seq<nat>, parents: seq<nat>, n: nat, i: nat)
    requires Grown(taken, parents, n) && i < n - 2
    ensures i < parents[i] <= n - 2
  {
    assert ParentOf(taken, i, parents[i]);
    KidsFew(taken, n, 2 * n - 2, parents[i] + 1);
  }

  /** The nodes whose parent is among the first `k` are the first ones. */
  lemma ParentBelow(taken: seq<nat>, parents: seq<nat>, n: nat, i: nat, k: nat)
    requires Grown(taken, parents, n) && i < n - 2 && k <= n - 1
    ensures parents[i] < k <==> i < Kids(taken, k)
  {
    assert ParentOf(taken, i, parents[i]);
    if parents[i] < k { TakenMono(taken, n, 2 * n - 2, 2 * parents[i] + 2, 2 * k); } else { TakenMono(taken, n, 2 * n - 2, 2 * k, 2 * parents[i]); }
  }

  ghost function Depth(parents: seq<nat>, i: nat): nat
    requires Upward(parents)
    decreases |parents| - i
  {
    if i >= |parents| then 0 else Depth(parents, parents[i]) + 1
  }

  ghost predicate Upward(parents: seq<nat>) {
    forall i :: 0 <= i < |parents| ==> i < parents[i] <= |parents|
  }

  lemma GrownUpward(taken: seq<nat>, parents: seq<nat>, n: nat)
    requires Grown(taken, parents, n)
    ensures Upward(parents)
  {
    forall i | 0 <= i < |parents| ensures i < parents[i] <= |parents| { ParentLater(taken, parents, n, i); }
  }

  /** The inner nodes at depth `d` or more are the first `Level(.., d)`. */
  ghost function Level(taken: seq<nat>, n: nat, d: nat): (k: nat)
    requires n >= 2 && Shaped(taken, n, 2 * n - 2)
    ensures k <= n - 1
  {
    if d == 0 then n - 1
    else
      var k := Level(taken, n, d - 1);
      KidsFew(taken, n, 2 * n - 2, k);
      Kids(taken, k)
  }

  lemma {:induction false} DepthLevel(taken: seq<nat>, parents: seq<nat>, n: nat, i: nat, d: nat)
    requires Grown(taken, parents, n) && Upward(parents) && i <= n - 2
    ensures Depth(parents, i) >= d <==> i < Level(taken, n, d)
    decreases d
  {
    if d > 0 {
      if i < n - 2 {
        DepthLevel(taken, parents, n, parents[i], d - 1);
        ParentBelow(taken, parents, n, i, Level(taken, n, d - 1));
      } else {
        KidsFew(taken, n, 2 * n - 2, Level(taken, n, d - 1));
        KidsFew(taken, n, 2 * n - 2, n - 1);
      }
    }
  }

  /** Fewer nodes are at depth `d + 1` or more than at depth `d` or more, as long as there are any. */
  lemma LevelFalls(taken: seq<nat>, n: nat, d: nat)
    requires n >= 2 && Shaped(taken, n, 2 * n - 2) && Level(taken, n, d) > 0
    ensures Level(taken, n, d + 1) < Level(taken, n, d)
  {
    KidsFew(taken, n, 2 * n - 2, Level(taken, n, d));
  }

  /** Leaf `i` is at depth `d`. */
  ghost predicate LeafAt(taken: seq<nat>, n: nat, i: nat, d: nat) {
    n >= 2 && Shaped(taken, n, 2 * n - 2) && d >= 1 && Tips(taken, Level(taken, n, d)) <= i < Tips(taken, Level(taken, n, d - 1))
  }

  /** From parents to depths, from the root down. */
  method Depths(a: array<SymFreq>, n: nat, ghost parents: seq<nat>)
    requires 2 <= n <= a.Length && |parents| == n - 2 && Upward(parents) && forall i :: 0 <= i < n - 2 ==> a[i].key == parents[i]
    modifies a
    ensures OnlyKeys(a, n) && forall i :: 0 <= i <= n - 2 ==> a[i].key == Depth(parents, i)
  {
    a[n - 2] := a[n - 2].(key := 0);
    var next := n - 3;
    while next >= 0
      invariant -1 <= next <= n - 3 && OnlyKeys(a, n)
      invariant forall i :: 0 <= i <= next ==> a[i].key == parents[i]
      invariant forall i :: next < i <= n - 2 ==> a[i].key == Depth(parents, i)
    {
      a[next] := a[next].(key := a[a[next].key].key + 1);
      next := next - 1;
    }
  }

  // ----- lengths

  /** The loop over depths: the inner nodes at depth `d` or more are left, and so are the leaves below those at depth `d - 1` or
      more; `avbl` nodes are at depth `d`. */
  ghost predicate AtDepth(taken: seq<nat>, n: nat, d: nat, root: int, next: int, avbl: nat) {
    && n >= 2 && Shaped(taken, n, 2 * n - 2) && root + 1 == Level(taken, n, d)
    && if d == 0 then next + 1 == n && avbl == 1
       else next + 1 == Tips(taken, Level(taken, n, d - 1)) && avbl == 2 * (Level(taken, n, d - 1) - Level(taken, n, d))
  }

  /** Skipping the inner nodes at depth `d`. */
  method CountLevel(a: array<SymFreq>, n: nat, root: int, d: nat, ghost taken: seq<nat>, ghost parents: seq<nat>) returns (root': int, used: nat)
    requires 2 <= n <= a.Length && Grown(taken, parents, n) && Upward(parents) && root + 1 == Level(taken, n, d)
    requires forall i :: 0 <= i <= root ==> a[i].key == Depth(parents, i)
    ensures root' + 1 == Level(taken, n, d + 1) && root' <= root && used == root - root'
  {
    root', used := root, 0;
    KidsFew(taken, n, 2 * n - 2, Level(taken, n, d));
    while root' >= 0 && a[root'].key == d
      invariant Level(taken, n, d + 1) <= root' + 1 <= Level(taken, n, d) && used == root - root'
    {
      DepthLevel(taken, parents, n, root', d + 1);
      used := used + 1;
      root' := root' - 1;
    }
    if root' >= 0 {
      DepthLevel(taken, parents, n, root', d);
      DepthLevel(taken, parents, n, root', d + 1);
    }
  }

  lemma LevelSizes(taken: seq<nat>, n: nat, d: nat, root: int, next: int, avbl: nat)
    requires AtDepth(taken, n, d, root, next, avbl)
    ensures Level(taken, n, d + 1) <= Level(taken, n, d) <= Tips(taken, Level(taken, n, d))
    ensures next + 1 - Tips(taken, Level(taken, n, d)) == avbl - (Level(taken, n, d) - Level(taken, n, d + 1)) >= 0
    ensures next < n && (d == 0 ==> avbl <= Level(taken, n, d) - Level(taken, n, d + 1))
  {
    KidsFew(taken, n, 2 * n - 2, Level(taken, n, d));
    KidsFew(taken, n, 2 * n - 2, n - 1);
    if d > 0 {
      TakenMono(taken, n, 2 * n - 2, 2 * Level(taken, n, d), 2 * Level(taken, n, d - 1));
      TakenMono(taken, n, 2 * n - 2, 2 * Level(taken, n, d - 1), 2 * n - 2);
      LevelMono(taken, n, d);
    }
  }

  lemma LevelMono(taken: seq<nat>, n: nat, d: nat)
    requires n >= 2 && Shaped(taken, n, 2 * n - 2) && d > 0
    ensures Level(taken, n, d) <= Level(taken, n, d - 1)
  {
    KidsFew(taken, n, 2 * n - 2, Level(taken, n, d - 1));
  }

  lemma FilledAt(taken: seq<nat>, n: nat, d: nat, root: int, next: int, avbl: nat, i: nat)
    requires AtDepth(taken, n, d, root, next, avbl) && Tips(taken, Level(taken, n, d)) <= i <= next
    ensures LeafAt(taken, n, i, d)
  {
    hide Level;
    LevelSizes(taken, n, d, root, next, avbl);
  }

  /** The rest of the nodes at depth `d` are leaves. */
  method FillLevel(a: array<SymFreq>, n: nat, root: int, next: int, avbl: nat, used: nat, d: nat, ghost taken: seq<nat>) returns (next': int)
    requires n <= a.Length && -1 <= next && AtDepth(taken, n, d, root + used, next, avbl) && used <= avbl && root + 1 == Level(taken, n, d + 1)
    requires forall i :: next < i < n ==> LeafAt(taken, n, i, a[i].key)
    modifies a
    ensures OnlyKeys(a, n) && -1 <= next' && next' + 1 == Tips(taken, Level(taken, n, d)) && forall i :: 0 <= i <= root ==> a[i] == old(a[i])
    ensures forall i :: next' < i < n ==> LeafAt(taken, n, i, a[i].key)
  {
    hide LeafAt, Shaped, Level;
    LevelSizes(taken, n, d, root + used, next, avbl);
    next' := next;
    var left := avbl;
    while left > used
      invariant used <= left <= avbl && next' - left == next - avbl && -1 <= next' <= next
      invariant OnlyKeys(a, n) && forall i :: 0 <= i <= root ==> a[i] == old(a[i])
      invariant forall i :: next' < i < n ==> LeafAt(taken, n, i, a[i].key)
    {
      FilledAt(taken, n, d, root + used, next, avbl, next');
      a[next'] := a[next'].(key := d);
      next' := next' - 1;
      left := left - 1;
    }
  }

  /** From the depths of inner nodes to those of leaves, which take their place. */
  method Leaves(a: array<SymFreq>, n: nat, ghost taken: seq<nat>, ghost parents: seq<nat>)
    requires 2 <= n <= a.Length && Grown(taken, parents, n) && Upward(parents)
    requires forall i :: 0 <= i <= n - 2 ==> a[i].key == Depth(parents, i)
    modifies a
    ensures OnlyKeys(a, n) && forall i :: 0 <= i < n ==> LeafAt(taken, n, i, a[i].key)
  {
    hide Grown, LeafAt, Level, Upward;
    RootLevel(taken, parents, n);
    var avbl: nat, dpth: nat := 1, 0;
    var root, next := n - 2, n - 1;
    while avbl > 0
      invariant root <= n - 2 && -1 <= next < n && OnlyKeys(a, n) && AtDepth(taken, n, dpth, root, next, avbl)
      invariant forall i :: 0 <= i <= root ==> a[i].key == Depth(parents, i)
      invariant forall i :: next < i < n ==> LeafAt(taken, n, i, a[i].key)
      decreases root + 1 + (if avbl > 0 then 1 else 0)
    {
      LevelSizes(taken, n, dpth, root, next, avbl);
      var used;
      root, used := CountLevel(a, n, root, dpth, taken, parents);
      next := FillLevel(a, n, root, next, avbl, used, dpth, taken);
      avbl := 2 * used;
      dpth := dpth + 1;
    }
    NoneLeft(taken, n, dpth, root, next, avbl);
  }

  lemma RootLevel(taken: seq<nat>, parents: seq<nat>, n: nat)
    requires Grown(taken, parents, n)
    ensures n >= 2 && Shaped(taken, n, 2 * n - 2) && Level(taken, n, 0) == n - 1 && |parents| == n - 2
  {
  }

  lemma NoneLeft(taken: seq<nat>, n: nat, d: nat, root: int, next: int, avbl: nat)
    requires AtDepth(taken, n, d, root, next, avbl) && avbl == 0
    ensures next == -1
  {
    if Level(taken, n, d - 1) > 0 { LevelFalls(taken, n, d - 1); }
  }

  // ----- the whole

  /** For at least two weights in ascending order the array ends up with the depths of the leaves of a tree that was made by always
      joining the two smallest weights. */
  method CalculateMinimumRedundancy(a: array<SymFreq>, n: nat) returns (ghost inner: seq<nat>, ghost picks: seq<nat>, ghost taken: seq<nat>, ghost parents: seq<nat>)
    requires n <= a.Length && Sorted(Keys(a)[..n])
    modifies a
    ensures OnlyKeys(a, n)
    ensures n == 1 ==> a[0].key == 1
    ensures n >= 2 ==> Greedy(old(Keys(a)[..n]), inner, picks, taken, 2 * n - 2) && Grown(taken, parents, n)
    ensures n >= 2 ==> forall i :: 0 <= i < n ==> LeafAt(taken, n, i, a[i].key)
  {
    hide LeafAt, Greedy, Sorted;
    inner, picks, taken, parents := [], [], [], [];
    if n == 0 {
      return;
    } else if n == 1 {
      a[0] := a[0].(key := 1);
      return;
    }
    ghost var w := Keys(a)[..n];
    inner, picks, taken := JoinAll(a, n, w);
    parents := Keys(a)[..n - 2];
    GreedyShape(w, inner, picks, taken, 2 * n - 2);
    GrownUpward(taken, parents, n);
    Depths(a, n, parents);
    Leaves(a, n, taken, parents);
  }

  lemma GreedyShape(w: seq<nat>, inner: seq<nat>, picks: seq<nat>, taken: seq<nat>, q: nat)
    requires Greedy(w, inner, picks, taken, q)
    ensures Shaped(taken, |w|, q)
  {
  }
}
