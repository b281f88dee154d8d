/** What limiting the code sizes costs: the weights that get longer codes are a small share of the total. */
module LimitCost {
  import opened Bits
  import opened Canonical
  import opened MinRedundancy
  import opened TreeCode
  import opened CodeLimit

  // ----- sizes by position

  /** Entry `p` of `n`, by ascending weight, has size `l` when `c` counts the sizes. */
  ghost predicate Placed(c: seq<int>, n: nat, p: nat, l: nat) {
    1 <= l < |c| && n - Codes(c, l) <= p < n - Codes(c, l - 1)
  }

  lemma {:induction false} CodesLeafs(taken: seq<nat>, lens: seq<nat>, c: seq<int>, d: nat)
    requires LeafDepths(taken, lens) && HistogramOf(c, lens) && d <= MAX_SUPPORTED
    ensures Codes(c, d) == |lens| - Leafs(taken, |lens|, d)
  {
    hide Shaped, Level, Count;
    if d > 0 {
      CodesLeafs(taken, lens, c, d - 1);
      LeafCount(taken, lens, d);
    }
  }

  lemma TreePlaced(taken: seq<nat>, lens: seq<nat>, c: seq<int>, p: nat)
    requires LeafDepths(taken, lens) && HistogramOf(c, lens) && p < |lens| && lens[p] <= MAX_SUPPORTED
    ensures Placed(c, |lens|, p, lens[p])
  {
    hide Shaped, Level, Count, Codes, LeafDepths, Leafs;
    LeafRange(taken, lens, p, 1);
    LeafRange(taken, lens, p, lens[p]);
    CodesLeafs(taken, lens, c, lens[p]);
    CodesLeafs(taken, lens, c, lens[p] - 1);
  }

  /** A size grows only for the rarest entries, and then by no more than what lies between the split and the limit. */
  lemma SizeGrows(c: seq<int>, d: seq<int>, n: nat, m: nat, j: nat, t: nat, p: nat, l: nat, k: nat)
    requires Repaired(c, d, n, m, j, t) && Counts(c) && forall i :: 0 <= i <= m ==> d[i] >= 0
    requires Placed(c, n, p, l) && Placed(d, n, p, k) && k <= m
    ensures k <= l + (if p < n - Codes(d, j) then m - j else 0)
  {
    hide Codes, Taken, Pow2, Shl;
    if k <= j {
      SameBelow(c, d, k - 1);
      if l < k { CodesGrow(c, l, k - 1); }
    } else {
      SameBelow(c, d, j - 1);
      CodesGrow(d, j, k - 1);
      CodesGrow(d, j - 1, j);
      if l < j { CodesGrow(c, l, j - 1); }
    }
  }

  lemma {:induction false} DotGrows(w: seq<nat>, ls: seq<nat>, ks: seq<nat>, q: nat, e: nat, b: nat)
    requires b <= |w| && b <= |ls| && b <= |ks| && forall p :: 0 <= p < b ==> ks[p] <= ls[p] + (if p < q then e else 0)
    ensures Dot(w, ks, 0, b) <= Dot(w, ls, 0, b) + e * Sum(w, 0, if b < q then b else q)
  {
    if b > 0 {
      DotGrows(w, ls, ks, q, e, b - 1);
      Raised(w[b - 1], ls[b - 1], ks[b - 1], if b <= q then e else 0);
      Raised(e, Sum(w, 0, b - 1), Sum(w, 0, b), w[b - 1]);
    }
  }

  lemma Raised(x: nat, l: nat, k: nat, e: nat)
    ensures k <= l + e ==> x * k <= x * l + x * e
    ensures k == l + e ==> x * k == x * l + x * e
    ensures e * x == x * e
  {
    if k <= l + e { assert x * (l + e - k) >= 0; }
  }

  // ----- how heavy the lengthened codes are

  lemma LevelIs(taken: seq<nat>, n: nat, d: nat)
    requires n >= 2 && Shaped(taken, n, 2 * n - 2)
    ensures |taken| == 2 * n - 1 && Kids(taken, Level(taken, n, d)) == Level(taken, n, d + 1) <= Level(taken, n, d)
    ensures Tips(taken, Level(taken, n, d)) == Leafs(taken, n, d)
  {
    LevelMono(taken, n, d + 1);
  }

  lemma {:induction false} NodesShare(w: seq<nat>, inner: seq<nat>, picks: seq<nat>, taken: seq<nat>, parents: seq<nat>, lens: seq<nat>, d: nat, a: nat, b: nat)
    requires Huffman(w, inner, picks, taken, parents, lens) && a <= b <= |inner| == |parents| + 1
    requires Upward(parents) && forall k :: a <= k < b ==> Depth(parents, k) == d
    ensures Fib(d + 1) * Sum(inner, a, b) <= (b - a) * Sum(w, 0, |w|)
  {
    hide Huffman, Greedy, Grown, LeafDepths, Upward, Shaped, Fib, Depth;
    HuffmanShape(w, inner, picks, taken, parents, lens);
    if a < b {
      NodesShare(w, inner, picks, taken, parents, lens, d, a, b - 1);
      NodeShare(w, inner, picks, taken, parents, lens, b - 1, inner[b - 1], 0);
      MoreShare(Fib(d + 1), Sum(inner, a, b - 1), inner[b - 1], b - a, Sum(w, 0, |w|));
    }
  }

  lemma MoreShare(f: nat, s: nat, x: nat, n: nat, total: nat)
    requires n > 0 && f * s <= (n - 1) * total && f * x <= total
    ensures f * (s + x) <= n * total
  {
    assert f * (s + x) == f * s + f * x && n * total == (n - 1) * total + total;
  }

  lemma {:induction false} LeavesShare(w: seq<nat>, inner: seq<nat>, picks: seq<nat>, taken: seq<nat>, parents: seq<nat>, lens: seq<nat>, d: nat, a: nat, b: nat)
    requires Huffman(w, inner, picks, taken, parents, lens) && a <= b <= |w| == |lens| && forall i :: a <= i < b ==> lens[i] == d
    ensures Fib(d + 1) * Sum(w, a, b) <= (b - a) * Sum(w, 0, |w|)
  {
    hide Huffman, Fib;
    if a < b {
      LeavesShare(w, inner, picks, taken, parents, lens, d, a, b - 1);
      LeafShare(w, inner, picks, taken, parents, lens, b - 1);
      MoreShare(Fib(d + 1), Sum(w, a, b - 1), w[b - 1], b - a, Sum(w, 0, |w|));
    }
  }

  /** The code space left open at some size is that of the inner nodes there. */
  lemma OpenNodes(taken: seq<nat>, lens: seq<nat>, c: seq<int>, d: nat)
    requires LeafDepths(taken, lens) && HistogramOf(c, lens) && 1 <= d <= MAX_SUPPORTED
    ensures Open(c, d) == Level(taken, |lens|, d) - Level(taken, |lens|, d + 1)
  {
    hide Count, First, Level, Shaped, Taken, Pow2;
    Filled(taken, lens, d);
    HistogramTaken(c, lens, d);
  }

  /** While some code is longer, there is an inner node at each smaller depth. */
  lemma SomeOpen(taken: seq<nat>, lens: seq<nat>, c: seq<int>, j: nat, m: nat)
    requires LeafDepths(taken, lens) && HistogramOf(c, lens) && 1 <= j <= m <= MAX_SUPPORTED && Codes(c, m) < |lens|
    ensures Open(c, j) >= 1
  {
    hide Count, Codes, Open;
    CodesLeafs(taken, lens, c, m);
    LeafsFall(taken, |lens|, j, m);
    OpenNodes(taken, lens, c, j);
    LevelFalls(taken, |lens|, j);
  }

  /** The first `q` entries, those below the inner nodes at depth `j` and `t` leaves at that depth. */
  lemma CutShare(w: seq<nat>, inner: seq<nat>, picks: seq<nat>, taken: seq<nat>, parents: seq<nat>, lens: seq<nat>, c: seq<int>, j: nat, t: nat)
    requires Huffman(w, inner, picks, taken, parents, lens) && HistogramOf(c, lens) && 1 <= j <= MAX_SUPPORTED && t <= c[j]
    ensures |w| == |lens| && 0 <= |w| - Codes(c, j) + t <= |w| && 0 <= Open(c, j)
    ensures Fib(j + 1) * Sum(w, 0, |w| - Codes(c, j) + t) <= (Open(c, j) + t) * Sum(w, 0, |w|)
  {
    hide *;
    HuffmanShape(w, inner, picks, taken, parents, lens);
    var n := |w|;
    LevelIs(taken, n, j);
    var a, b := Level(taken, n, j + 1), Level(taken, n, j);
    var p := CutLeafs(taken, lens, c, j, t);
    forall k | a <= k < b ensures Depth(parents, k) == j { NodesAt(taken, parents, n, k, j); }
    OpenNodes(taken, lens, c, j);
    NodesShare(w, inner, picks, taken, parents, lens, j, a, b);
    LeavesShare(w, inner, picks, taken, parents, lens, j, p, p + t);
    WeightKept(w, inner, picks, taken, b);
    SumSplit(w, 0, p, n);
    SumSplit(w, 0, p, p + t);
    Distributed(b - a, t, Sum(w, 0, n));
    Distributed(Sum(w, 0, p), Sum(w, p, p + t), Fib(j + 1));
  }

  lemma NodesAt(taken: seq<nat>, parents: seq<nat>, n: nat, k: nat, d: nat)
    requires Grown(taken, parents, n) && Upward(parents) && n >= 2 && Shaped(taken, n, 2 * n - 2) && Level(taken, n, d + 1) <= k < Level(taken, n, d)
    ensures Depth(parents, k) == d
  {
    hide Level, Shaped, Upward, Depth, Grown;
    DepthLevel(taken, parents, n, k, d);
    DepthLevel(taken, parents, n, k, d + 1);
  }

  lemma CutLeafs(taken: seq<nat>, lens: seq<nat>, c: seq<int>, j: nat, t: nat) returns (p: nat)
    requires LeafDepths(taken, lens) && HistogramOf(c, lens) && 1 <= j <= MAX_SUPPORTED && t <= c[j]
    ensures p == Leafs(taken, |lens|, j) == |lens| - Codes(c, j) && p + t <= |lens| && forall i :: p <= i < p + t ==> lens[i] == j
  {
    hide Shaped, Level, Count, Codes, Leafs;
    var n := |lens|;
    p := Leafs(taken, n, j);
    CodesLeafs(taken, lens, c, j);
    LeafCount(taken, lens, j);
    assert p + t <= Leafs(taken, n, j - 1) <= n;
    forall i | p <= i < p + t ensures lens[i] == j { LeafRange(taken, lens, i, j); }
  }

  // ----- the cost

  /** Hundredths of a bit for each symbol that a code limited to 15 bits may take more than any other code. */
  function Slack(n: nat): nat {
    if n <= 32 then 10 else 80
  }

  lemma SlackIs(n: nat, j: nat, x: nat)
    requires 1 <= j < 15 && x >= 2 && n <= 288 && Shl(x - 1, 15 - j) < n
    ensures 100 * ((15 - j) * x) <= Slack(n) * Fib(j + 1)
  {
    hide Fib, Shl;
    FibTable();
    ShlTable(x - 1, 15 - j);
    assert j >= 7 && (n <= 32 ==> j >= 11);
    assert (15 - j) * x == if j == 14 then x else if j == 13 then 2 * x else if j == 12 then 3 * x else if j == 11 then 4 * x
      else if j == 10 then 5 * x else if j == 9 then 6 * x else if j == 8 then 7 * x else 8 * x;
  }

  lemma FibTable()
    ensures Fib(8) == 21 && Fib(9) == 34 && Fib(10) == 55 && Fib(11) == 89 && Fib(12) == 144 && Fib(13) == 233 && Fib(14) == 377 && Fib(15) == 610
  {
  }

  lemma ShlTable(x: nat, k: nat)
    ensures Shl(x, 1) == 2 * x && Shl(x, 2) == 4 * x && Shl(x, 3) == 8 * x && Shl(x, 4) == 16 * x && Shl(x, 5) == 32 * x
    ensures Shl(x, 6) == 64 * x && Shl(x, 7) == 128 * x && Shl(x, 8) == 256 * x && (k >= 9 ==> Shl(x, k) >= 512 * x)
  {
    assert Shl(x, 2) == 2 * Shl(x, 1) && Shl(x, 4) == 2 * Shl(x, 3) && Shl(x, 6) == 2 * Shl(x, 5) && Shl(x, 8) == 2 * Shl(x, 7);
    if k >= 9 {
      ShlShl(x, 9, k - 9);
      ShlGrows(Shl(x, 9), k - 9);
    }
  }

  lemma Cancelled(e: nat, f: nat, s: nat, x: nat, total: nat, slack: nat)
    requires f > 0 && f * s <= x * total && 100 * (e * x) <= slack * f
    ensures 100 * (e * s) <= slack * total
  {
    assert f * (100 * (e * s)) == 100 * e * (f * s);
    assert 100 * e * (f * s) <= 100 * e * (x * total);
    assert 100 * e * (x * total) == 100 * (e * x) * total;
    assert 100 * (e * x) * total <= slack * f * total;
    assert slack * f * total == f * (slack * total);
  }

  /** The limited code is within the slack of the Huffman code. */
  lemma LimitedCost(w: seq<nat>, inner: seq<nat>, picks: seq<nat>, taken: seq<nat>, parents: seq<nat>, lens: seq<nat>, ks: seq<nat>, c: seq<int>, d: seq<int>, j: nat, t: nat)
    requires Huffman(w, inner, picks, taken, parents, lens) && HistogramOf(c, lens) && |ks| == |w| == |lens| <= 288
    requires Counts(c) && Repaired(c, d, |w|, 15, j, t) && forall i :: 0 <= i <= 15 ==> d[i] >= 0
    requires forall p :: 0 <= p < |w| ==> lens[p] <= MAX_SUPPORTED && ks[p] <= 15 && Placed(d, |w|, p, ks[p])
    ensures 100 * Dot(w, ks, 0, |w|) <= 100 * Dot(w, lens, 0, |w|) + Slack(|w|) * Sum(w, 0, |w|)
  {
    hide *;
    HuffmanShape(w, inner, picks, taken, parents, lens);
    RepairedIs(c, d, |w|, 15, j, t);
    var q := SizesGrow(taken, lens, ks, c, d, j, t);
    DotGrows(w, lens, ks, q, 15 - j, |w|);
    if j < 15 { LimitedShare(w, inner, picks, taken, parents, lens, c, j, t); }
    Combined(Dot(w, ks, 0, |w|), Dot(w, lens, 0, |w|), 15 - j, Sum(w, 0, q), Slack(|w|), Sum(w, 0, |w|));
  }

  lemma Combined(a: nat, b: nat, e: nat, s: nat, slack: nat, total: nat)
    requires a <= b + e * s && (e == 0 || 100 * (e * s) <= slack * total)
    ensures 100 * a <= 100 * b + slack * total
  {
    assert e == 0 ==> e * s == 0;
    assert slack * total >= 0;
  }

  lemma SizesGrow(taken: seq<nat>, lens: seq<nat>, ks: seq<nat>, c: seq<int>, d: seq<int>, j: nat, t: nat) returns (q: nat)
    requires LeafDepths(taken, lens) && HistogramOf(c, lens) && |ks| == |lens|
    requires Counts(c) && Repaired(c, d, |lens|, 15, j, t) && forall i :: 0 <= i <= 15 ==> d[i] >= 0
    requires forall p :: 0 <= p < |lens| ==> lens[p] <= MAX_SUPPORTED && ks[p] <= 15 && Placed(d, |lens|, p, ks[p])
    ensures q <= |lens| && (j < 15 ==> q == |lens| - Codes(c, j) + t)
    ensures forall p :: 0 <= p < |lens| ==> ks[p] <= lens[p] + (if p < q then 15 - j else 0)
  {
    hide LeafDepths, HistogramOf, Codes, Repaired, Placed;
    RepairedIs(c, d, |lens|, 15, j, t);
    q := 0;
    if j < 15 {
      var p := CutLeafs(taken, lens, c, j, t);
      q := p + t;
    }
    forall p | 0 <= p < |lens| ensures ks[p] <= lens[p] + (if p < q then 15 - j else 0) {
      TreePlaced(taken, lens, c, p);
      SizeGrows(c, d, |lens|, 15, j, t, p, lens[p], ks[p]);
    }
  }

  lemma LimitedShare(w: seq<nat>, inner: seq<nat>, picks: seq<nat>, taken: seq<nat>, parents: seq<nat>, lens: seq<nat>, c: seq<int>, j: nat, t: nat)
    requires Huffman(w, inner, picks, taken, parents, lens) && HistogramOf(c, lens) && |w| == |lens| <= 288 && |c| == MAX_SUPPORTED + 1
    requires 1 <= j < 15 && 1 <= t <= c[j] && Codes(c, 15) < |w| && Open(c, j) >= 0 && Shl(Open(c, j) + t - 1, 15 - j) < |w|
    ensures 0 <= |w| - Codes(c, j) + t <= |w|
    ensures 100 * ((15 - j) * Sum(w, 0, |w| - Codes(c, j) + t)) <= Slack(|w|) * Sum(w, 0, |w|)
  {
    hide Huffman, HistogramOf, Codes, Open, Shl, Fib, Sum, LeafDepths, Greedy, Grown, Shaped, Upward, Slack;
    HuffmanShape(w, inner, picks, taken, parents, lens);
    CutShare(w, inner, picks, taken, parents, lens, c, j, t);
    SomeOpen(taken, lens, c, j, 15);
    SlackIs(|w|, j, Open(c, j) + t);
    FibMono(1, j + 1);
    FibStart();
    Cancelled(15 - j, Fib(j + 1), Sum(w, 0, |w| - Codes(c, j) + t), Open(c, j) + t, Sum(w, 0, |w|), Slack(|w|));
  }

  lemma RepairedIs(c: seq<int>, d: seq<int>, n: nat, m: nat, j: nat, t: nat)
    requires Repaired(c, d, n, m, j, t)
    ensures |c| == |d| == MAX_SUPPORTED + 1 && 1 <= j <= m < MAX_SUPPORTED
    ensures j < m ==> 1 <= t && d[j] == c[j] - t && Codes(d, j) == Codes(c, j) - t && Codes(c, m) < n && Open(c, j) >= 0 && Shl(Open(c, j) + t - 1, m - j) < n
  {
    hide Codes, Open, Shl;
    if j < m {
      SameBelow(c, d, j - 1);
      CodesNext(c, j);
      CodesNext(d, j);
    }
  }
}
