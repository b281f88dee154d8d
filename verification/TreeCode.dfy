/** What the lengths left by `MinRedundancy` are: they fill the code space exactly, they fall as weights rise, their weighted sum is
    the total of the inner weights, and they are short. */
module TreeCode {
  import opened Bits
  import opened Canonical
  import opened MinRedundancy

  /** `lens` are the depths of the leaves of a tree of this shape. */
  ghost predicate LeafDepths(taken: seq<nat>, lens: seq<nat>) {
    |lens| >= 2 && Shaped(taken, |lens|, 2 * |lens| - 2) && forall i :: 0 <= i < |lens| ==> LeafAt(taken, |lens|, i, lens[i])
  }

  /** The leaves below inner nodes at depth `d` or more are the first `Leafs(.., d)`. */
  ghost function Leafs(taken: seq<nat>, n: nat, d: nat): (k: nat)
    requires n >= 2 && Shaped(taken, n, 2 * n - 2)
    ensures k <= n && (d == 0 ==> k == n)
  {
    var l := Level(taken, n, d);
    KidsFew(taken, n, 2 * n - 2, l);
    KidsFew(taken, n, 2 * n - 2, n - 1);
    TakenMono(taken, n, 2 * n - 2, 2 * l, 2 * n - 2);
    Tips(taken, l)
  }

  lemma {:induction false} LeafsFall(taken: seq<nat>, n: nat, d: nat, e: nat)
    requires n >= 2 && Shaped(taken, n, 2 * n - 2) && d <= e
    ensures Leafs(taken, n, e) <= Leafs(taken, n, d)
  {
    if d < e {
      LeafsFall(taken, n, d, e - 1);
      LevelMono(taken, n, e);
      TakenMono(taken, n, 2 * n - 2, 2 * Level(taken, n, e), 2 * Level(taken, n, e - 1));
    }
  }

  lemma LeafRange(taken: seq<nat>, lens: seq<nat>, i: nat, d: nat)
    requires LeafDepths(taken, lens) && i < |lens| && d >= 1
    ensures lens[i] == d <==> Leafs(taken, |lens|, d) <= i < Leafs(taken, |lens|, d - 1)
    ensures lens[i] >= 1
  {
    hide Shaped, Level;
    assert LeafAt(taken, |lens|, i, lens[i]);
    if lens[i] < d { LeafsFall(taken, |lens|, lens[i], d - 1); }
    if lens[i] > d { LeafsFall(taken, |lens|, d, lens[i] - 1); }
  }

  /** Heavier leaves are not deeper. */
  lemma LensFall(taken: seq<nat>, lens: seq<nat>, i: nat, k: nat)
    requires LeafDepths(taken, lens) && i <= k < |lens|
    ensures lens[k] <= lens[i]
  {
    hide Shaped, Level;
    LeafRange(taken, lens, i, lens[i]);
    LeafRange(taken, lens, k, lens[k]);
    assert LeafAt(taken, |lens|, i, lens[i]) && LeafAt(taken, |lens|, k, lens[k]);
    if lens[i] < lens[k] { LeafsFall(taken, |lens|, lens[i], lens[k] - 1); }
  }

  lemma {:induction false} CountRange(lens: seq<nat>, d: nat, lo: nat, hi: nat)
    requires lo <= hi <= |lens| && forall i :: 0 <= i < |lens| ==> (lens[i] == d <==> lo <= i < hi)
    ensures Count(lens, d) == hi - lo
  {
    if lens != [] {
      var k := |lens| - 1;
      CountRange(lens[..k], d, if lo <= k then lo else k, if hi <= k then hi else k);
    }
  }

  lemma LeafCount(taken: seq<nat>, lens: seq<nat>, d: nat)
    requires LeafDepths(taken, lens) && d >= 1
    ensures Count(lens, d) == Leafs(taken, |lens|, d - 1) - Leafs(taken, |lens|, d)
  {
    hide Count, Shaped, Level;
    LeafsFall(taken, |lens|, d - 1, d);
    forall i | 0 <= i < |lens| ensures lens[i] == d <==> Leafs(taken, |lens|, d) <= i < Leafs(taken, |lens|, d - 1) { LeafRange(taken, lens, i, d); }
    CountRange(lens, d, Leafs(taken, |lens|, d), Leafs(taken, |lens|, d - 1));
  }

  /** At each depth the codes so far and the inner nodes there make up the whole code space. */
  lemma {:induction false} Filled(taken: seq<nat>, lens: seq<nat>, d: nat)
    requires LeafDepths(taken, lens) && d >= 1
    ensures First(lens, d) + Count(lens, d) + (Level(taken, |lens|, d) - Level(taken, |lens|, d + 1)) == Pow2(d)
    decreases d
  {
    hide Count;
    var n := |lens|;
    LeafCount(taken, lens, d);
    KidsFew(taken, n, 2 * n - 2, Level(taken, n, d));
    KidsFew(taken, n, 2 * n - 2, n - 1);
    if d > 1 {
      Filled(taken, lens, d - 1);
      FirstStep(lens, d - 1);
    }
  }

  /** Kraft equality: with no leaf below depth `d`, the code of these lengths is complete at size `d`. */
  lemma KraftEqual(taken: seq<nat>, lens: seq<nat>, d: nat)
    requires LeafDepths(taken, lens) && d >= 1 && forall i :: 0 <= i < |lens| ==> lens[i] <= d
    ensures First(lens, d) + Count(lens, d) == Pow2(d)
  {
    hide First, Count, Shaped, Level;
    Filled(taken, lens, d);
    NoneBelow(taken, lens, d);
  }

  lemma NoneBelow(taken: seq<nat>, lens: seq<nat>, d: nat)
    requires LeafDepths(taken, lens) && d >= 1 && forall i :: 0 <= i < |lens| ==> lens[i] <= d
    ensures Level(taken, |lens|, d) == Level(taken, |lens|, d + 1) == 0
  {
    var n := |lens|;
    KidsFew(taken, n, 2 * n - 2, Level(taken, n, d));
    if Level(taken, n, d) > 0 {
      // some inner node is at depth d, and the first leaf is below it
      assert Leafs(taken, n, d) >= 1;
      LeafRange(taken, lens, 0, lens[0]);
      LeafsFall(taken, n, lens[0], d);
    }
  }

  // ----- weighted length

  function Sum(s: seq<nat>, a: nat, b: nat): nat
    requires a <= b <= |s|
    decreases b - a
  {
    if a == b then 0 else Sum(s, a, b - 1) + s[b - 1]
  }

  function Dot(ws: seq<nat>, ls: seq<nat>, a: nat, b: nat): nat
    requires a <= b <= |ws| && b <= |ls|
    decreases b - a
  {
    if a == b then 0 else Dot(ws, ls, a, b - 1) + ws[b - 1] * ls[b - 1]
  }

  lemma {:induction false} SumSplit(s: seq<nat>, a: nat, m: nat, b: nat)
    requires a <= m <= b <= |s|
    ensures Sum(s, a, b) == Sum(s, a, m) + Sum(s, m, b)
  {
    if m < b { SumSplit(s, a, m, b - 1); }
  }

  lemma {:induction false} SumZero(s: seq<nat>, n: nat)
    requires n <= |s| && forall i :: 0 <= i < n ==> s[i] == 0
    ensures Sum(s, 0, n) == 0
  {
    if n > 0 { SumZero(s, n - 1); }
  }

  lemma {:induction false} SumUpdate(s: seq<nat>, k: nat, v: nat, n: nat)
    requires k < |s| && n <= |s|
    ensures Sum(s[k := v], 0, n) == Sum(s, 0, n) + (if k < n then v - s[k] else 0)
  {
    if n > 0 { SumUpdate(s, k, v, n - 1); }
  }

  lemma {:induction false} DotSplit(ws: seq<nat>, ls: seq<nat>, a: nat, m: nat, b: nat)
    requires a <= m <= b <= |ws| && b <= |ls|
    ensures Dot(ws, ls, a, b) == Dot(ws, ls, a, m) + Dot(ws, ls, m, b)
  {
    if m < b { DotSplit(ws, ls, a, m, b - 1); }
  }

  lemma {:induction false} DotLevel(ws: seq<nat>, ls: seq<nat>, a: nat, b: nat, d: nat)
    requires a <= b <= |ws| && b <= |ls| && forall i :: a <= i < b ==> ls[i] == d
    ensures Dot(ws, ls, a, b) == d * Sum(ws, a, b)
  {
    if a < b {
      DotLevel(ws, ls, a, b - 1, d);
      assert d * (Sum(ws, a, b - 1) + ws[b - 1]) == d * Sum(ws, a, b - 1) + d * ws[b - 1];
    }
  }

  /** A tree that was made by joining the two smallest weights, with the depths of its inner nodes and of its leaves. */
  ghost predicate Huffman(w: seq<nat>, inner: seq<nat>, picks: seq<nat>, taken: seq<nat>, parents: seq<nat>, lens: seq<nat>) {
    |w| == |lens| >= 2 && Greedy(w, inner, picks, taken, 2 * |w| - 2) && Grown(taken, parents, |w|) && Upward(parents) && LeafDepths(taken, lens)
  }

  ghost function InnerDepths(parents: seq<nat>): (ds: seq<nat>)
    requires Upward(parents)
    ensures |ds| == |parents| + 1 && forall i :: 0 <= i < |ds| ==> ds[i] == Depth(parents, i)
  {
    seq(|parents| + 1, i requires 0 <= i => Depth(parents, i))
  }

  lemma Ranges(taken: seq<nat>, n: nat, k: nat)
    requires n >= 2 && Shaped(taken, n, 2 * n - 2) && k < n - 1
    ensures Kids(taken, k) <= Kids(taken, k + 1) <= k && 0 <= Tips(taken, k) <= Tips(taken, k + 1) <= n
    ensures Kids(taken, k + 1) - Kids(taken, k) + (Tips(taken, k + 1) - Tips(taken, k)) == 2
    ensures Kids(taken, k) <= k
  {
    KidsFew(taken, n, 2 * n - 2, k);
    KidsFew(taken, n, 2 * n - 2, k + 1);
    KidsFew(taken, n, 2 * n - 2, n - 1);
    TakenMono(taken, n, 2 * n - 2, 2 * k, 2 * k + 2);
    TakenMono(taken, n, 2 * n - 2, 2 * k + 2, 2 * n - 2);
  }

  /** What `Greedy` says of one node. */
  lemma NodePicks(w: seq<nat>, inner: seq<nat>, picks: seq<nat>, taken: seq<nat>, k: nat)
    requires |w| >= 2 && Greedy(w, inner, picks, taken, 2 * |w| - 2) && k < |w| - 1
    ensures |inner| == |w| - 1 && |picks| == 2 * |w| - 2 && |taken| == 2 * |w| - 1 && Shaped(taken, |w|, 2 * |w| - 2) && taken[0] == 0
    ensures IsPick(w, inner, taken, 2 * k, picks[2 * k]) && IsPick(w, inner, taken, 2 * k + 1, picks[2 * k + 1])
    ensures inner[k] == picks[2 * k] + picks[2 * k + 1] && Sorted(picks) && Sorted(inner)
  {
    hide IsPick, Sorted, LeastLeft;
  }

  /** A node weighs as much as its children. */
  lemma NodeWeight(w: seq<nat>, inner: seq<nat>, picks: seq<nat>, taken: seq<nat>, k: nat)
    requires |w| >= 2 && Greedy(w, inner, picks, taken, 2 * |w| - 2) && k < |w| - 1
    ensures |inner| == |w| - 1 && |taken| == 2 * |w| - 1
    ensures Kids(taken, k) <= Kids(taken, k + 1) <= k && 0 <= Tips(taken, k) <= Tips(taken, k + 1) <= |w|
    ensures inner[k] == Sum(inner, Kids(taken, k), Kids(taken, k + 1)) + Sum(w, Tips(taken, k), Tips(taken, k + 1))
  {
    hide Greedy, Sorted, Shaped;
    NodePicks(w, inner, picks, taken, k);
    Ranges(taken, |w|, k);
    TakenMono(taken, |w|, 2 * |w| - 2, 2 * k, 2 * k + 1);
    TakenMono(taken, |w|, 2 * |w| - 2, 2 * k + 1, 2 * k + 2);
    TwoItems(inner, Kids(taken, k), Kids(taken, k + 1));
    TwoItems(w, Tips(taken, k), Tips(taken, k + 1));
  }

  lemma TwoItems(s: seq<nat>, a: nat, b: nat)
    requires a <= b <= |s|
    ensures b == a ==> Sum(s, a, b) == 0
    ensures b == a + 1 ==> Sum(s, a, b) == s[a]
    ensures b == a + 2 ==> Sum(s, a, b) == s[a] + s[a + 1]
  {
    if b == a + 2 { assert Sum(s, a, a + 1) == Sum(s, a, a) + s[a]; }
  }

  /** The children of a node are one deeper than the node. */
  lemma ChildDepths(taken: seq<nat>, parents: seq<nat>, lens: seq<nat>, k: nat)
    requires Grown(taken, parents, |lens|) && Upward(parents) && LeafDepths(taken, lens) && k < |lens| - 1
    ensures Kids(taken, k + 1) <= |parents| && 0 <= Tips(taken, k)
    ensures forall i :: Kids(taken, k) <= i < Kids(taken, k + 1) ==> Depth(parents, i) == Depth(parents, k) + 1
    ensures forall i :: Tips(taken, k) <= i < Tips(taken, k + 1) && i < |lens| ==> lens[i] == Depth(parents, k) + 1
  {
    hide Shaped, Level;
    var n := |lens|;
    GrownShaped(taken, parents, n);
    Ranges(taken, n, k);
    forall i | Kids(taken, k) <= i < Kids(taken, k + 1) ensures Depth(parents, i) == Depth(parents, k) + 1 {
      ParentBelow(taken, parents, n, i, k);
      ParentBelow(taken, parents, n, i, k + 1);
    }
    forall i | Tips(taken, k) <= i < Tips(taken, k + 1) && i < n ensures lens[i] == Depth(parents, k) + 1 { LeafDepth(taken, parents, lens, k, i); }
  }

  lemma GrownShaped(taken: seq<nat>, parents: seq<nat>, n: nat)
    requires Grown(taken, parents, n)
    ensures n >= 2 && Shaped(taken, n, 2 * n - 2) && |parents| == n - 2 && |taken| == 2 * n - 1
  {
  }

  lemma LeafDepth(taken: seq<nat>, parents: seq<nat>, lens: seq<nat>, k: nat, i: nat)
    requires Grown(taken, parents, |lens|) && Upward(parents) && LeafDepths(taken, lens) && k < |lens| - 1
    requires i < |lens| && Tips(taken, k) <= i < Tips(taken, k + 1)
    ensures lens[i] == Depth(parents, k) + 1
  {
    hide Level, Shaped, Grown, LeafDepths, Depth, Upward;
    var n, e := |lens|, lens[i];
    GrownShaped(taken, parents, n);
    LeafRange(taken, lens, i, 1);
    LeafRange(taken, lens, i, e);
    if k >= Level(taken, n, e - 1) { TakenMono(taken, n, 2 * n - 2, 2 * Level(taken, n, e - 1), 2 * k); }
    if k < Level(taken, n, e) { TakenMono(taken, n, 2 * n - 2, 2 * k + 2, 2 * Level(taken, n, e)); }
    DepthLevel(taken, parents, n, k, e - 1);
    DepthLevel(taken, parents, n, k, e);
  }

  /** Cutting the tree above node `k`: what hangs below the cut, at its depth, weighs as much as the nodes above it. */
  lemma {:induction false} CutWeight(w: seq<nat>, inner: seq<nat>, picks: seq<nat>, taken: seq<nat>, parents: seq<nat>, lens: seq<nat>, k: nat)
    requires Huffman(w, inner, picks, taken, parents, lens) && k <= |w| - 1
    ensures Kids(taken, k) <= k <= |inner| == |w| - 1 && 0 <= Tips(taken, k) <= |w| && |taken| == 2 * |w| - 1
    ensures Dot(inner, InnerDepths(parents), Kids(taken, k), k) + Dot(w, lens, Tips(taken, k), |w|) == Sum(inner, k, |w| - 1)
    decreases |w| - k
  {
    hide Huffman, Greedy, Grown, LeafDepths, Upward, Shaped, Depth, Sum, Dot;
    HuffmanShape(w, inner, picks, taken, parents, lens);
    var n, ds := |w|, InnerDepths(parents);
    if k == n - 1 {
      RootDepth(parents);
      RootCut(inner, ds, taken, n);
      DotNone(w, lens, n);
      DotNone(inner, ds, n - 1);
    } else {
      CutWeight(w, inner, picks, taken, parents, lens, k + 1);
      NodeWeight(w, inner, picks, taken, k);
      ChildDepths(taken, parents, lens, k);
      var a, b, c, d := Kids(taken, k), Kids(taken, k + 1), Tips(taken, k), Tips(taken, k + 1);
      var e := ds[k] + 1;
      DotLevel(inner, ds, a, b, e);
      DotLevel(w, lens, c, d, e);
      DotSplit(inner, ds, a, b, k);
      DotSplit(w, lens, c, d, n);
      DotSplit(inner, ds, b, k, k + 1);
      TwoItemsDot(inner, ds, k);
      SumSplit(inner, k, k + 1, n - 1);
      TwoItems(inner, k, k + 1);
      Distribute(e, Sum(inner, a, b), Sum(w, c, d), inner[k], ds[k]);
    }
  }

  lemma Distribute(e: nat, x: nat, y: nat, z: nat, f: nat)
    requires x + y == z && e == f + 1
    ensures e * x + e * y == z * f + z
  {
    assert e * x + e * y == e * (x + y);
  }

  lemma TwoItemsDot(ws: seq<nat>, ls: seq<nat>, k: nat)
    requires k < |ws| && k < |ls|
    ensures Dot(ws, ls, k, k + 1) == ws[k] * ls[k]
  {
    assert Dot(ws, ls, k, k) == 0;
  }

  lemma HuffmanShape(w: seq<nat>, inner: seq<nat>, picks: seq<nat>, taken: seq<nat>, parents: seq<nat>, lens: seq<nat>)
    requires Huffman(w, inner, picks, taken, parents, lens)
    ensures |w| == |lens| >= 2 && Shaped(taken, |w|, 2 * |w| - 2) && |taken| == 2 * |w| - 1 && taken[0] == 0 && |inner| == |w| - 1 && |parents| == |w| - 2 && |picks| == 2 * |w| - 2
    ensures Greedy(w, inner, picks, taken, 2 * |w| - 2) && Grown(taken, parents, |w|) && Upward(parents) && LeafDepths(taken, lens)
  {
  }

  lemma RootDepth(parents: seq<nat>)
    requires Upward(parents)
    ensures Depth(parents, |parents|) == 0
  {
  }

  lemma RootCut(inner: seq<nat>, ds: seq<nat>, taken: seq<nat>, n: nat)
    requires n >= 2 && Shaped(taken, n, 2 * n - 2) && |inner| == |ds| == n - 1 && ds[n - 2] == 0
    ensures Kids(taken, n - 1) == n - 2 && Tips(taken, n - 1) == n && Dot(inner, ds, n - 2, n - 1) == 0
  {
    KidsFew(taken, n, 2 * n - 2, n - 1);
    TwoItemsDot(inner, ds, n - 2);
  }

  lemma DotNone(ws: seq<nat>, ls: seq<nat>, a: nat)
    requires a <= |ws| && a <= |ls|
    ensures Dot(ws, ls, a, a) == 0 && Sum(ws, a, a) == 0
  {
  }

  /** The weighted length of the code is the weight of all inner nodes. */
  lemma CodeWeight(w: seq<nat>, inner: seq<nat>, picks: seq<nat>, taken: seq<nat>, parents: seq<nat>, lens: seq<nat>)
    requires Huffman(w, inner, picks, taken, parents, lens)
    ensures |w| == |lens| && Dot(w, lens, 0, |w|) == Sum(inner, 0, |inner|)
  {
    hide Huffman, Greedy, Grown, LeafDepths, Upward, Shaped, Sum, Dot;
    HuffmanShape(w, inner, picks, taken, parents, lens);
    DotNone(inner, InnerDepths(parents), 0);
    CutWeight(w, inner, picks, taken, parents, lens, 0);
  }

  // ----- how deep a tree can be

  function Fib(k: nat): nat {
    if k < 2 then k else Fib(k - 1) + Fib(k - 2)
  }

  lemma {:induction false} FibMono(j: nat, k: nat)
    requires j <= k
    ensures Fib(j) <= Fib(k)
  {
    if j < k { FibMono(j, k - 1); }
  }

  /** All weight ends up in the root. */
  lemma {:induction false} WeightKept(w: seq<nat>, inner: seq<nat>, picks: seq<nat>, taken: seq<nat>, k: nat)
    requires |w| >= 2 && Greedy(w, inner, picks, taken, 2 * |w| - 2) && k <= |w| - 1
    ensures |inner| == |w| - 1 && |taken| == 2 * |w| - 1 && Kids(taken, k) <= k && 0 <= Tips(taken, k) <= |w|
    ensures Sum(inner, Kids(taken, k), k) + Sum(w, Tips(taken, k), |w|) == Sum(w, 0, |w|)
  {
    hide Greedy;
    var n := |w|;
    GreedyQueues(w, inner, picks, taken, 2 * n - 2);
    GreedyShape(w, inner, picks, taken, 2 * n - 2);
    if k > 0 {
      WeightKept(w, inner, picks, taken, k - 1);
      NodeWeight(w, inner, picks, taken, k - 1);
      var a, b, c, d := Kids(taken, k - 1), Kids(taken, k), Tips(taken, k - 1), Tips(taken, k);
      SumSplit(inner, a, b, k - 1);
      SumSplit(w, c, d, n);
      SumSplit(inner, b, k - 1, k);
      TwoItems(inner, k - 1, k);
    }
  }

  lemma RootTakesAll(taken: seq<nat>, n: nat)
    requires n >= 2 && Shaped(taken, n, 2 * n - 2)
    ensures Kids(taken, n - 1) == n - 2 && Tips(taken, n - 1) == n
  {
    KidsFew(taken, n, 2 * n - 2, n - 1);
  }

  /** No sum exceeds the total weight: 16-bit keys do not overflow when the total fits. */
  lemma InnerBound(w: seq<nat>, inner: seq<nat>, picks: seq<nat>, taken: seq<nat>, k: nat)
    requires |w| >= 2 && Greedy(w, inner, picks, taken, 2 * |w| - 2) && k < |w| - 1
    ensures |inner| == |w| - 1 && inner[k] <= inner[|w| - 2] == Sum(w, 0, |w|)
  {
    hide Greedy, Shaped;
    var n := |w|;
    NodePicks(w, inner, picks, taken, k);
    WeightKept(w, inner, picks, taken, n - 1);
    RootTakesAll(taken, n);
    KidsFew(taken, n, 2 * n - 2, n - 1);
    TwoItems(inner, n - 2, n - 1);
  }

  /** A node at depth `d` that weighs `x`, with a heavier child that weighs `y`, takes a share of the total: its parent weighs `x + y`
      at least and has a child that weighs `x` or more. */
  lemma {:induction false} NodeShare(w: seq<nat>, inner: seq<nat>, picks: seq<nat>, taken: seq<nat>, parents: seq<nat>, lens: seq<nat>, k: nat, x: nat, y: nat)
    requires Huffman(w, inner, picks, taken, parents, lens) && k <= |parents|
    requires |inner| == |w| - 1 && |picks| == 2 * |w| - 2 && |parents| == |w| - 2 && Upward(parents)
    requires x <= inner[k] && y <= picks[2 * k + 1]
    ensures Fib(Depth(parents, k) + 1) * x + Fib(Depth(parents, k)) * y <= Sum(w, 0, |w|)
    decreases |parents| - k
  {
    hide Huffman, Greedy, Grown, LeafDepths, Depth, Shaped, IsPick, Fib, Upward;
    HuffmanShape(w, inner, picks, taken, parents, lens);
    var d := Depth(parents, k);
    DepthUp(parents, k);
    if k < |parents| {
      ParentPick(w, inner, picks, taken, parents, k);
      var p := parents[k];
      NodePicks(w, inner, picks, taken, p);
      NodeShare(w, inner, picks, taken, parents, lens, p, x + y, x);
      FibStep(d - 1);
      Shares(Fib(d - 1), Fib(d), x, y);
    } else {
      InnerBound(w, inner, picks, taken, k);
      FibStart();
    }
  }

  lemma DepthUp(parents: seq<nat>, k: nat)
    requires Upward(parents) && k <= |parents|
    ensures k == |parents| ==> Depth(parents, k) == 0
    ensures k < |parents| ==> k < parents[k] <= |parents| && Depth(parents, k) == Depth(parents, parents[k]) + 1
  {
  }

  lemma FibStep(d: nat)
    ensures Fib(d + 2) == Fib(d + 1) + Fib(d)
  {
  }

  lemma FibStart()
    ensures Fib(0) == 0 && Fib(1) == 1
  {
  }

  lemma Shares(f: nat, g: nat, x: nat, y: nat)
    ensures g * (x + y) + f * x == (g + f) * x + g * y
  {
  }

  /** A leaf at depth `d` has at most one `Fib(d + 1)`th of the total weight. */
  lemma LeafShare(w: seq<nat>, inner: seq<nat>, picks: seq<nat>, taken: seq<nat>, parents: seq<nat>, lens: seq<nat>, i: nat)
    requires Huffman(w, inner, picks, taken, parents, lens) && i < |w|
    ensures |w| == |lens| && Fib(lens[i] + 1) * w[i] <= Sum(w, 0, |w|)
  {
    hide *;
    HuffmanShape(w, inner, picks, taken, parents, lens);
    RootTips(taken, |w|);
    var p := LeafParent(taken, |w|, i, |w| - 1);
    PickShare(w, inner, picks, taken, parents, lens, p, i);
  }

  lemma RootTips(taken: seq<nat>, n: nat)
    requires n >= 2 && Shaped(taken, n, 2 * n - 2)
    ensures |taken| == 2 * n - 1 && Tips(taken, n - 1) == n
  {
    RootTakesAll(taken, n);
  }

  lemma PickShare(w: seq<nat>, inner: seq<nat>, picks: seq<nat>, taken: seq<nat>, parents: seq<nat>, lens: seq<nat>, p: nat, i: nat)
    requires Huffman(w, inner, picks, taken, parents, lens) && i < |w| == |lens| && p < |w| - 1 && |taken| == 2 * |w| - 1
    requires Tips(taken, p) <= i < Tips(taken, p + 1)
    ensures Fib(lens[i] + 1) * w[i] <= Sum(w, 0, |w|)
  {
    hide *;
    HuffmanShape(w, inner, picks, taken, parents, lens);
    LeafDepth(taken, parents, lens, p, i);
    LeafPick(w, inner, picks, taken, p, i);
    var d := Depth(parents, p);
    NodeShare(w, inner, picks, taken, parents, lens, p, w[i], w[i]);
    FibStep(d);
    Distributed(Fib(d + 1), Fib(d), w[i]);
  }

  lemma Distributed(f: nat, g: nat, x: nat)
    ensures (f + g) * x == f * x + g * x
  {
  }

  lemma {:induction false} LeafParent(taken: seq<nat>, n: nat, i: nat, k: nat) returns (p: nat)
    requires n >= 2 && Shaped(taken, n, 2 * n - 2) && k <= n - 1 && i < Tips(taken, k)
    ensures p < k && Tips(taken, p) <= i < Tips(taken, p + 1)
  {
    p := k - 1;
    if i < Tips(taken, k - 1) { p := LeafParent(taken, n, i, k - 1); }
  }

  lemma LeafPick(w: seq<nat>, inner: seq<nat>, picks: seq<nat>, taken: seq<nat>, p: nat, i: nat)
    requires |w| >= 2 && Greedy(w, inner, picks, taken, 2 * |w| - 2) && p < |w| - 1 && 2 * p + 2 < |taken| && i < |w|
    requires Tips(taken, p) <= i < Tips(taken, p + 1)
    ensures |inner| == |w| - 1 && |picks| == 2 * |w| - 2 && w[i] <= picks[2 * p + 1] && w[i] <= inner[p]
  {
    hide Greedy, Shaped;
    NodePicks(w, inner, picks, taken, p);
    TakenMono(taken, |w|, 2 * |w| - 2, 2 * p, 2 * p + 1);
    TakenMono(taken, |w|, 2 * |w| - 2, 2 * p + 1, 2 * p + 2);
  }

  lemma FirstNode(w: seq<nat>, inner: seq<nat>, picks: seq<nat>, taken: seq<nat>)
    requires |w| >= 2 && Greedy(w, inner, picks, taken, 2 * |w| - 2)
    ensures |picks| >= 2 && picks[0] == w[0] && picks[1] == w[1] && taken[2] == 0
  {
    assert IsPick(w, inner, taken, 0, picks[0]) && IsPick(w, inner, taken, 1, picks[1]);
    assert taken[0 + 1] <= 0 / 2 && taken[1 + 1] <= 1 / 2;
  }

  /** An inner node is one of the picks of its parent, and its own picks came before those. */
  lemma ParentPick(w: seq<nat>, inner: seq<nat>, picks: seq<nat>, taken: seq<nat>, parents: seq<nat>, i: nat)
    requires |w| >= 2 && Greedy(w, inner, picks, taken, 2 * |w| - 2) && Grown(taken, parents, |w|) && i < |parents|
    ensures var p := parents[i]; |picks| == 2 * |inner| && i < p < |inner| && (inner[i] == picks[2 * p] || inner[i] == picks[2 * p + 1])
    ensures var p := parents[i]; picks[2 * i + 1] <= picks[2 * p] <= picks[2 * p + 1]
  {
    hide Greedy, Shaped;
    var n, p := |w|, parents[i];
    ParentLater(taken, parents, n, i);
    assert ParentOf(taken, i, p);
    NodePicks(w, inner, picks, taken, p);
    TakenMono(taken, n, 2 * n - 2, 2 * p, 2 * p + 1);
    TakenMono(taken, n, 2 * n - 2, 2 * p + 1, 2 * p + 2);
  }

  /** A code of length `d` costs a total weight of at least `Fib(d + 2)`. */
  lemma DepthBound(w: seq<nat>, inner: seq<nat>, picks: seq<nat>, taken: seq<nat>, parents: seq<nat>, lens: seq<nat>, i: nat)
    requires Huffman(w, inner, picks, taken, parents, lens) && i < |w| && forall i :: 0 <= i < |w| ==> w[i] >= 1
    ensures Sum(w, 0, |w|) >= Fib(lens[i] + 2)
    ensures Sum(w, 0, |w|) < 65536 ==> lens[i] <= 22
  {
    hide Greedy, Grown, LeafDepths, Upward, Fib, Level;
    HuffmanShape(w, inner, picks, taken, parents, lens);
    var top := Depth(parents, 0);
    InnerBound(w, inner, picks, taken, 0);
    NodePicks(w, inner, picks, taken, 0);
    FirstNode(w, inner, picks, taken);
    LeafDepth(taken, parents, lens, 0, 0);
    NodeShare(w, inner, picks, taken, parents, lens, 0, 2, 1);
    FibStep(top);
    FibStep(top + 1);
    LensFall(taken, lens, 0, i);
    FibMono(lens[i] + 2, top + 3);
    FibValues();
    if lens[i] >= 23 { FibMono(25, lens[i] + 2); }
  }

  lemma FibValues()
    ensures Fib(25) == 75025
  {
    assert Fib(10) == 55 && Fib(11) == 89;
    assert Fib(18) == 2584 && Fib(19) == 4181;
  }
}
