/** From the entries of the symbols that occur back to the symbols: what a code costs, and how near it is to the best one. */
module SymbolCost {
  import opened Bits
  import opened Canonical
  import opened RadixSort
  import opened MinRedundancy
  import opened TreeCode
  import opened OptimalCode
  import opened CodeLimit
  import opened LimitCost

  /** Entries for exactly the symbols that occur, by ascending count. */
  ghost predicate ByCount(count: seq<nat>, syms: seq<SymFreq>) {
    && (forall p :: 0 <= p < |syms| ==> syms[p].sym < |count| && syms[p].key == count[syms[p].sym] > 0)
    && (forall p, q :: 0 <= p < q < |syms| ==> syms[p].sym != syms[q].sym && syms[p].key <= syms[q].key)
    && (forall s :: 0 <= s < |count| && count[s] > 0 ==> exists p :: 0 <= p < |syms| && syms[p].sym == s)
  }

  ghost function KeysOf(syms: seq<SymFreq>): (k: seq<nat>)
    ensures |k| == |syms| && forall i :: 0 <= i < |syms| ==> k[i] == syms[i].key
  {
    seq(|syms|, i requires 0 <= i < |syms| => syms[i].key)
  }

  // ----- sums over entries

  ghost predicate Distinct(syms: seq<SymFreq>, n: nat) {
    (forall p :: 0 <= p < |syms| ==> syms[p].sym < n) && forall p, q :: 0 <= p < q < |syms| ==> syms[p].sym != syms[q].sym
  }

  ghost function SumAt(g: seq<nat>, syms: seq<SymFreq>, k: nat): nat
    requires k <= |syms| && Distinct(syms, |g|)
  {
    if k == 0 then 0 else SumAt(g, syms, k - 1) + g[syms[k - 1].sym]
  }

  lemma {:induction false} SumAtSame(g: seq<nat>, h: seq<nat>, syms: seq<SymFreq>, k: nat)
    requires k <= |syms| && |g| == |h| && Distinct(syms, |g|) && forall p :: 0 <= p < k ==> g[syms[p].sym] == h[syms[p].sym]
    ensures SumAt(g, syms, k) == SumAt(h, syms, k)
  {
    if k > 0 { SumAtSame(g, h, syms, k - 1); }
  }

  /** Every value listed at most once, or exactly once where there is any. */
  lemma {:induction false} SumAtMost(g: seq<nat>, syms: seq<SymFreq>, k: nat)
    requires k <= |syms| && Distinct(syms, |g|)
    ensures SumAt(g, syms, k) <= Sum(g, 0, |g|)
    ensures (forall s :: 0 <= s < |g| && g[s] > 0 ==> exists p :: 0 <= p < k && syms[p].sym == s) ==> SumAt(g, syms, k) == Sum(g, 0, |g|)
    decreases k
  {
    if k == 0 {
      if forall s :: 0 <= s < |g| ==> g[s] == 0 { SumZero(g, |g|); }
    } else {
      var s0 := syms[k - 1].sym;
      var h := g[s0 := 0];
      SumAtMost(h, syms, k - 1);
      SumAtSame(g, h, syms, k - 1);
      SumUpdate(g, s0, 0, |g|);
      if forall s :: 0 <= s < |g| && g[s] > 0 ==> exists p :: 0 <= p < k && syms[p].sym == s {
        forall s | 0 <= s < |h| && h[s] > 0 ensures exists p :: 0 <= p < k - 1 && syms[p].sym == s {
          assert g[s] > 0;
          var p :| 0 <= p < k && syms[p].sym == s;
        }
      }
    }
  }

  ghost function Products(a: seq<nat>, b: seq<nat>): (r: seq<nat>)
    requires |a| <= |b|
    ensures |r| == |a| && forall i :: 0 <= i < |a| ==> r[i] == a[i] * b[i]
  {
    seq(|a|, i requires 0 <= i < |a| => a[i] * b[i])
  }

  lemma {:induction false} DotIsSum(a: seq<nat>, b: seq<nat>, k: nat)
    requires k <= |a| <= |b|
    ensures Dot(a, b, 0, k) == Sum(Products(a, b), 0, k)
  {
    if k > 0 { DotIsSum(a, b, k - 1); }
  }

  /** The sizes of the entries' symbols. */
  ghost function SizesAt(ls: seq<nat>, syms: seq<SymFreq>): (r: seq<nat>)
    requires forall p :: 0 <= p < |syms| ==> syms[p].sym < |ls|
    ensures |r| == |syms| && forall p :: 0 <= p < |syms| ==> r[p] == ls[syms[p].sym]
  {
    seq(|syms|, p requires 0 <= p < |syms| => ls[syms[p].sym])
  }

  lemma {:induction false} DotAt(count: seq<nat>, syms: seq<SymFreq>, ls: seq<nat>, k: nat)
    requires ByCount(count, syms) && Distinct(syms, |count|) && |count| <= |ls| && k <= |syms|
    ensures Dot(KeysOf(syms), SizesAt(ls, syms), 0, k) == SumAt(Products(count, ls), syms, k)
  {
    if k > 0 { DotAt(count, syms, ls, k - 1); }
  }

  /** A code costs the same, entry by entry or symbol by symbol. */
  lemma EntriesCost(count: seq<nat>, syms: seq<SymFreq>, ls: seq<nat>)
    requires ByCount(count, syms) && |count| <= |ls|
    ensures Dot(KeysOf(syms), SizesAt(ls, syms), 0, |syms|) == Dot(count, ls, 0, |count|)
  {
    hide Sum, Dot, SumAt;
    assert Distinct(syms, |count|);
    DotAt(count, syms, ls, |syms|);
    DotIsSum(count, ls, |count|);
    var g := Products(count, ls);
    forall s | 0 <= s < |g| && g[s] > 0 ensures exists p :: 0 <= p < |syms| && syms[p].sym == s { Positive(count[s], ls[s]); }
    SumAtMost(g, syms, |syms|);
  }

  lemma Positive(a: nat, b: nat)
    requires a * b > 0
    ensures a > 0
  {
  }

  // ----- codes to compare with

  ghost function Units(ls: seq<nat>, m: nat): (u: seq<nat>)
    requires forall s :: 0 <= s < |ls| ==> ls[s] <= m
    ensures |u| == |ls| && forall s :: 0 <= s < |ls| ==> u[s] == Pow2(m - ls[s])
  {
    seq(|ls|, s requires 0 <= s < |ls| => Pow2(m - ls[s]))
  }

  /** Code sizes for all symbols that leave no symbol out and fit the code space. */
  ghost predicate Fitting(ls: seq<nat>, m: nat) {
    (forall s :: 0 <= s < |ls| ==> 1 <= ls[s] <= m) && Sum(Units(ls, m), 0, |ls|) <= Pow2(m)
  }

  lemma {:induction false} EntriesSpace(w: seq<nat>, syms: seq<SymFreq>, ls: seq<nat>, m: nat, k: nat)
    requires |w| == |syms| && k <= |syms| && Distinct(syms, |ls|) && forall s :: 0 <= s < |ls| ==> ls[s] <= m
    ensures Within(Items(w, SizesAt(ls, syms))[k..], m)
    ensures SumAt(Units(ls, m), syms, k) + Space(Items(w, SizesAt(ls, syms))[k..], m) == SumAt(Units(ls, m), syms, |syms|)
    decreases |syms| - k
  {
    hide Pow2, Space, Weights, Cost, SizesAt, Units, Items;
    var c := Items(w, SizesAt(ls, syms));
    if k < |syms| {
      EntriesSpace(w, syms, ls, m, k + 1);
      assert c[k..] == [c[k]] + c[k + 1..];
      Cons(c[k], c[k + 1..], m);
    } else {
      NoSpace(c[k..], m);
    }
  }

  lemma NoSpace(c: seq<Item>, m: nat)
    requires c == []
    ensures Space(c, m) == 0
  {
  }

  lemma EntriesFit(w: seq<nat>, syms: seq<SymFreq>, ls: seq<nat>, m: nat)
    requires |w| == |syms| && Distinct(syms, |ls|) && Fitting(ls, m)
    ensures Within(Items(w, SizesAt(ls, syms)), m) && Space(Items(w, SizesAt(ls, syms)), m) <= Pow2(m)
  {
    hide Pow2, Sum, Space;
    EntriesSpace(w, syms, ls, m, 0);
    var c := Items(w, SizesAt(ls, syms));
    assert c[0..] == c;
    SumAtMost(Units(ls, m), syms, |syms|);
  }

  // ----- nearly the best code

  /** No code for all symbols is better by more than the slack. */
  ghost predicate NearBest(count: seq<nat>, sizes: seq<nat>) {
    |sizes| == |count| && forall ls, m :: |ls| == |count| && Fitting(ls, m) ==> NearTo(count, sizes, ls)
  }

  ghost predicate NearTo(count: seq<nat>, sizes: seq<nat>, ls: seq<nat>) {
    |sizes| == |count| == |ls| && 100 * Dot(count, sizes, 0, |count|) <= 100 * Dot(count, ls, 0, |count|) + Slack(|count|) * Sum(count, 0, |count|)
  }

  lemma LimitedNear(count: seq<nat>, syms: seq<SymFreq>, inner: seq<nat>, picks: seq<nat>, taken: seq<nat>, parents: seq<nat>, lens: seq<nat>,
                    sizes: seq<nat>, c: seq<int>, d: seq<int>, j: nat, t: nat)
    requires ByCount(count, syms) && |syms| <= |count| == |sizes| <= 288 && |lens| == |syms|
    requires Huffman(KeysOf(syms), inner, picks, taken, parents, lens) && HistogramOf(c, lens)
    requires Counts(c) && Repaired(c, d, |syms|, 15, j, t) && forall i :: 0 <= i <= 15 ==> d[i] >= 0
    requires forall p :: 0 <= p < |syms| ==> lens[p] <= MAX_SUPPORTED && sizes[syms[p].sym] <= 15 && Placed(d, |syms|, p, sizes[syms[p].sym])
    ensures NearBest(count, sizes)
  {
    hide *;
    forall ls, m | |ls| == |count| && Fitting(ls, m) ensures NearTo(count, sizes, ls) {
      LimitedNearTo(count, syms, inner, picks, taken, parents, lens, sizes, c, d, j, t, ls, m);
    }
    NearBestIs(count, sizes);
  }

  lemma NearBestIs(count: seq<nat>, sizes: seq<nat>)
    requires |sizes| == |count| && forall ls, m :: |ls| == |count| && Fitting(ls, m) ==> NearTo(count, sizes, ls)
    ensures NearBest(count, sizes)
  {
  }

  lemma SymsDistinct(count: seq<nat>, syms: seq<SymFreq>)
    requires ByCount(count, syms)
    ensures Distinct(syms, |count|) && forall p :: 0 <= p < |syms| ==> syms[p].sym < |count|
  {
  }

  lemma KeysSum(count: seq<nat>, syms: seq<SymFreq>)
    requires ByCount(count, syms)
    ensures Sum(KeysOf(syms), 0, |syms|) == Sum(count, 0, |count|)
  {
    hide Sum;
    KeysSumAt(count, syms, |syms|);
    SumAtMost(count, syms, |syms|);
  }

  lemma {:induction false} KeysSumAt(count: seq<nat>, syms: seq<SymFreq>, k: nat)
    requires ByCount(count, syms) && k <= |syms|
    ensures Distinct(syms, |count|) && Sum(KeysOf(syms), 0, k) == SumAt(count, syms, k)
  {
    if k > 0 { KeysSumAt(count, syms, k - 1); }
  }

  lemma LimitedNearTo(count: seq<nat>, syms: seq<SymFreq>, inner: seq<nat>, picks: seq<nat>, taken: seq<nat>, parents: seq<nat>, lens: seq<nat>,
                      sizes: seq<nat>, c: seq<int>, d: seq<int>, j: nat, t: nat, ls: seq<nat>, m: nat)
    requires ByCount(count, syms) && |syms| <= |count| == |sizes| <= 288 && |lens| == |syms| && |ls| == |count| && Fitting(ls, m)
    requires Huffman(KeysOf(syms), inner, picks, taken, parents, lens) && HistogramOf(c, lens)
    requires Counts(c) && Repaired(c, d, |syms|, 15, j, t) && forall i :: 0 <= i <= 15 ==> d[i] >= 0
    requires forall p :: 0 <= p < |syms| ==> lens[p] <= MAX_SUPPORTED && sizes[syms[p].sym] <= 15 && Placed(d, |syms|, p, sizes[syms[p].sym])
    ensures NearTo(count, sizes, ls)
  {
    hide *;
    SymsDistinct(count, syms);
    var w, n := KeysOf(syms), |syms|;
    var ks := SizesAt(sizes, syms);
    LimitedCost(w, inner, picks, taken, parents, lens, ks, c, d, j, t);
    EntriesFit(w, syms, ls, m);
    Optimal(w, inner, picks, taken, parents, lens, SizesAt(ls, syms), m);
    EntriesCost(count, syms, sizes);
    EntriesCost(count, syms, ls);
    KeysSum(count, syms);
    SlackMono(n, |count|, Sum(count, 0, |count|));
    NearToIs(count, sizes, ls);
  }

  lemma NearToIs(count: seq<nat>, sizes: seq<nat>, ls: seq<nat>)
    requires |sizes| == |count| == |ls| && 100 * Dot(count, sizes, 0, |count|) <= 100 * Dot(count, ls, 0, |count|) + Slack(|count|) * Sum(count, 0, |count|)
    ensures NearTo(count, sizes, ls)
  {
  }

  lemma SlackMono(n: nat, k: nat, total: nat)
    requires n <= k
    ensures Slack(n) * total <= Slack(k) * total
  {
    assert (Slack(k) - Slack(n)) * total >= 0;
  }

  lemma {:induction false} DotMono(w: seq<nat>, ls: seq<nat>, ks: seq<nat>, b: nat)
    requires b <= |w| && b <= |ls| && b <= |ks| && forall s :: 0 <= s < b ==> ks[s] <= ls[s]
    ensures Dot(w, ks, 0, b) <= Dot(w, ls, 0, b)
  {
    if b > 0 {
      DotMono(w, ls, ks, b - 1);
      Raised(w[b - 1], ls[b - 1], ks[b - 1], 0);
    }
  }

  /** With one symbol there is nothing to compare. */
  lemma FewNear(count: seq<nat>, sizes: seq<nat>)
    requires |sizes| == |count| && forall s :: 0 <= s < |sizes| ==> sizes[s] <= 1
    ensures NearBest(count, sizes)
  {
    forall ls, m | |ls| == |count| && Fitting(ls, m) ensures NearTo(count, sizes, ls) {
      DotMono(count, ls, sizes, |count|);
      assert Slack(|count|) * Sum(count, 0, |count|) >= 0;
    }
  }
}
