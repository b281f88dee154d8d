/** No prefix code for the same weights is shorter than the one `MinRedundancy` makes. */
module OptimalCode {
  import opened Bits
  import opened Canonical
  import opened MinRedundancy
  import opened TreeCode

  // ----- the cost of joining the two smallest weights again and again

  lemma LeastExists(m: multiset<nat>, y: nat) returns (x: nat)
    requires y in m
    ensures x in m && forall z :: z in m ==> x <= z
    decreases y
  {
    if z :| z in m && z < y { x := LeastExists(m, z); } else { x := y; }
  }

  ghost predicate IsLeast(m: multiset<nat>, x: nat) {
    x in m && forall z :: z in m ==> x <= z
  }

  ghost function Least(m: multiset<nat>): (x: nat)
    requires |m| > 0
    ensures IsLeast(m, x)
  {
    assert exists x :: IsLeast(m, x) by {
      var y :| y in m;
      var x := LeastExists(m, y);
      assert IsLeast(m, x);
    }
    var x :| IsLeast(m, x);
    x
  }

  /** The two smallest weights replaced by their sum. */
  ghost function Joined(m: multiset<nat>, a: nat, b: nat): multiset<nat> {
    m - multiset{a} - multiset{b} + multiset{a + b}
  }

  ghost function Second(m: multiset<nat>): nat
    requires |m| > 1
  {
    assert |m - multiset{Least(m)}| > 0;
    Least(m - multiset{Least(m)})
  }

  lemma JoinedFewer(m: multiset<nat>)
    requires |m| > 1
    ensures |Joined(m, Least(m), Second(m))| < |m|
  {
  }

  ghost function JoinCost(m: multiset<nat>): nat
    decreases |m|
  {
    if |m| <= 1 then 0
    else
      JoinedFewer(m);
      Least(m) + Second(m) + JoinCost(Joined(m, Least(m), Second(m)))
  }

  lemma LeastIs(m: multiset<nat>, x: nat)
    requires IsLeast(m, x)
    ensures |m| == |m - multiset{x}| + 1 && Least(m) == x
  {
    assert m == m - multiset{x} + multiset{x};
  }

  lemma JoinStep(m: multiset<nat>, a: nat, b: nat)
    requires IsLeast(m, a) && IsLeast(m - multiset{a}, b)
    ensures JoinCost(m) == a + b + JoinCost(Joined(m, a, b))
  {
    hide Least, IsLeast, Joined;
    LeastIs(m, a);
    LeastIs(m - multiset{a}, b);
    assert Second(m) == b;
  }

  // ----- any code at all

  /** A symbol with its weight and the size of its code. */
  datatype Item = Item(w: nat, l: nat)

  ghost function Weights(c: seq<Item>): multiset<nat> {
    if c == [] then multiset{} else multiset{c[0].w} + Weights(c[1..])
  }

  ghost function Cost(c: seq<Item>): nat {
    if c == [] then 0 else c[0].w * c[0].l + Cost(c[1..])
  }

  ghost predicate Within(c: seq<Item>, m: nat) {
    forall i :: 0 <= i < |c| ==> c[i].l <= m
  }

  /** The share of the code space that the codes take, in units of one code of size `m`. */
  ghost function Space(c: seq<Item>, m: nat): nat
    requires Within(c, m)
  {
    if c == [] then 0 else Pow2(m - c[0].l) + Space(c[1..], m)
  }

  lemma Cons(x: Item, r: seq<Item>, m: nat)
    requires x.l <= m && Within(r, m)
    ensures Within([x] + r, m) && Weights([x] + r) == multiset{x.w} + Weights(r) && Cost([x] + r) == x.w * x.l + Cost(r)
    ensures Space([x] + r, m) == Pow2(m - x.l) + Space(r, m)
  {
    assert ([x] + r)[1..] == r;
  }

  // ----- rearranging a code

  ghost function Without(c: seq<Item>, i: nat): seq<Item>
    requires i < |c|
  {
    c[..i] + c[i + 1..]
  }

  lemma {:induction false} ToFront(c: seq<Item>, i: nat, m: nat)
    requires i < |c| && Within(c, m)
    ensures var d := [c[i]] + Without(c, i); Within(d, m) && Weights(d) == Weights(c) && Cost(d) == Cost(c) && Space(d, m) == Space(c, m)
  {
    hide Weights, Cost, Space, Pow2;
    var x, e := c[0], c[1..];
    assert c == [x] + e;
    if i == 0 {
      assert [c[0]] + Without(c, 0) == c;
    } else {
      var y, f := c[i], Without(e, i - 1);
      ToFront(e, i - 1, m);
      assert Without(c, i) == [x] + f;
      Cons(x, e, m);
      Cons(y, f, m);
      Cons(x, f, m);
      Cons(y, [x] + f, m);
    }
  }

  lemma {:induction false} LightestAt(c: seq<Item>) returns (i: nat)
    requires c != []
    ensures i < |c| && forall k :: 0 <= k < |c| ==> c[i].w <= c[k].w
  {
    if |c| == 1 {
      i := 0;
    } else {
      i := LightestAt(c[1..]);
      if c[0].w <= c[1..][i].w {
        i := 0;
      } else {
        i := i + 1;
      }
    }
  }

  lemma {:induction false} LongestAt(c: seq<Item>) returns (i: nat)
    requires c != []
    ensures i < |c| && forall k :: 0 <= k < |c| ==> c[k].l <= c[i].l
  {
    if |c| == 1 {
      i := 0;
    } else {
      i := LongestAt(c[1..]);
      if c[0].l >= c[1..][i].l {
        i := 0;
      } else {
        i := i + 1;
      }
    }
  }

  lemma {:induction false} WeightsCount(c: seq<Item>)
    ensures |Weights(c)| == |c|
  {
    if c != [] { WeightsCount(c[1..]); }
  }

  lemma {:induction false} WeightIn(c: seq<Item>, i: nat)
    requires i < |c|
    ensures c[i].w in Weights(c)
  {
    if i > 0 { WeightIn(c[1..], i - 1); }
  }

  lemma {:induction false} WeightAt(c: seq<Item>, z: nat) returns (i: nat)
    requires z in Weights(c)
    ensures i < |c| && c[i].w == z
  {
    if c[0].w == z {
      i := 0;
    } else {
      i := WeightAt(c[1..], z);
      i := i + 1;
    }
  }

  /** Giving the longest code to the lightest symbol costs nothing. */
  lemma {:induction false} Longest(c: seq<Item>, m: nat) returns (d: seq<Item>)
    requires c != [] && Within(c, m) && forall k :: 0 <= k < |c| ==> c[0].w <= c[k].w
    ensures |d| == |c| && Within(d, m) && Weights(d) == Weights(c) && Cost(d) <= Cost(c) && Space(d, m) == Space(c, m)
    ensures d[0].w == c[0].w && forall k :: 0 <= k < |d| ==> d[k].l <= d[0].l && d[0].w <= d[k].w
    ensures exists k :: 0 <= k < |c| && c[k].l == d[0].l
  {
    hide Weights, Cost, Space, Pow2;
    var i := LongestAt(c);
    if i == 0 {
      d := c;
    } else {
      var x, rest := c[0], c[1..];
      assert c == [x] + rest;
      Cons(x, rest, m);
      ToFront(rest, i - 1, m);
      var y, others := rest[i - 1], Without(rest, i - 1);
      Cons(y, others, m);
      Cons(Item(y.w, x.l), others, m);
      Cons(Item(x.w, y.l), [Item(y.w, x.l)] + others, m);
      d := [Item(x.w, y.l)] + ([Item(y.w, x.l)] + others);
      Exchange(x.w, y.w, x.l, y.l);
      forall k | 2 <= k < |d| ensures d[k].l <= y.l && x.w <= d[k].w { assert d[k] == others[k - 2] && (d[k] == c[k - 1] || d[k] == c[k]); }
    }
  }

  lemma Exchange(a: nat, b: nat, l: nat, m: nat)
    requires a <= b && l <= m
    ensures a * m + b * l <= a * l + b * m
  {
    assert (b - a) * (m - l) >= 0;
    assert (b - a) * (m - l) == b * m - b * l - a * m + a * l;
  }

  // ----- the two longest codes

  lemma {:induction false} SpaceFiner(c: seq<Item>, l: nat, m: nat)
    requires Within(c, l) && l <= m
    ensures Within(c, m) && Space(c, m) == Shl(Space(c, l), m - l)
  {
    if c == [] {
      ShlZero(m - l);
    } else {
      SpaceFiner(c[1..], l, m);
      ShlPow2(l - c[0].l, m - l);
      ShlSum(Pow2(l - c[0].l), Space(c[1..], l), m - l);
    }
  }

  lemma {:induction false} ShlZero(n: nat)
    ensures Shl(0, n) == 0
  {
    if n > 0 { ShlZero(n - 1); }
  }

  /** If only the first code is longer than `l`, it can be cut to `l`. */
  lemma Cut(c: seq<Item>, l: nat, m: nat)
    requires c != [] && Within(c, m) && Within(c[1..], l) && l <= c[0].l && Space(c, m) <= Pow2(m)
    ensures var d := [Item(c[0].w, l)] + c[1..]; Within(d, l) && Space(d, l) <= Pow2(l) && Cost(d) <= Cost(c) && Weights(d) == Weights(c)
  {
    hide Weights, Cost, Space, Pow2, Shl;
    var x, r := c[0], c[1..];
    assert c == [x] + r;
    Cons(x, r, m);
    Cons(Item(x.w, l), r, l);
    SpaceFiner(r, l, m);
    ShlPow2(l, m - l);
    if Space(r, l) >= Pow2(l) { ShlMono(Pow2(l), Space(r, l), m - l); }
    Pow2Values();
    Shorter(x.w, l, x.l);
  }

  lemma Shorter(w: nat, l: nat, m: nat)
    requires l <= m
    ensures w * l <= w * m
  {
  }

  lemma MergeCost(a: nat, b: nat, m: nat)
    requires m > 0
    ensures (a + b) * (m - 1) + a + b == a * m + b * m
  {
  }

  lemma MergeWeights(r: multiset<nat>, a: nat, b: nat)
    ensures Joined(multiset{a} + (multiset{b} + r), a, b) == multiset{a + b} + r
  {
  }

  lemma OneTwo()
    ensures Pow2(0) == 1 && Pow2(1) == 2
  {
  }

  /** Two sibling codes become the code of their parent. */
  lemma Merge(c: seq<Item>, m: nat)
    requires |c| >= 2 && Within(c, m) && c[0].l == c[1].l == m && Space(c, m) <= Pow2(m)
    ensures m > 0
    ensures var d := [Item(c[0].w + c[1].w, m - 1)] + c[2..];
            Within(d, m) && Space(d, m) == Space(c, m) && Cost(d) + c[0].w + c[1].w == Cost(c)
            && Weights(d) == Joined(Weights(c), c[0].w, c[1].w)
  {
    hide Weights, Cost, Space, Pow2, Joined;
    var x, y, r := c[0], c[1], c[2..];
    assert c == [x] + ([y] + r);
    Cons(y, r, m);
    Cons(x, [y] + r, m);
    OneTwo();
    if m == 0 { assert false; }
    Cons(Item(x.w + y.w, m - 1), r, m);
    MergeCost(x.w, y.w, m);
    MergeWeights(Weights(r), x.w, y.w);
  }

  /** The lightest two symbols can be given the two longest codes, of the same size, without cost. */
  lemma Siblings(c: seq<Item>, m: nat) returns (d: seq<Item>, l: nat)
    requires |c| >= 2 && Within(c, m) && Space(c, m) <= Pow2(m)
    ensures |d| == |c| && Within(d, l) && Space(d, l) <= Pow2(l) && Weights(d) == Weights(c) && Cost(d) <= Cost(c)
    ensures d[0].l == d[1].l == l && (forall k :: 0 <= k < |d| ==> d[0].w <= d[k].w) && (forall k :: 1 <= k < |d| ==> d[1].w <= d[k].w)
  {
    hide Weights, Cost, Space, Pow2;
    var e := LightestFirst(c, m);
    var x, rest := e[0], e[1..];
    assert e == [x] + rest && forall k :: 0 <= k < |rest| ==> rest[k] == e[k + 1];
    Cons(x, rest, m);
    var f := LightestFirst(rest, m);
    l := f[0].l;
    Cons(x, f, m);
    var g := [x] + f;
    assert g[1..] == f;
    SameItems(rest, f, x);
    Cut(g, l, m);
    d := [Item(x.w, l)] + f;
  }

  lemma SameItems(rest: seq<Item>, f: seq<Item>, x: Item)
    requires Weights(f) == Weights(rest) && forall k :: 0 <= k < |rest| ==> x.w <= rest[k].w
    ensures forall k :: 0 <= k < |f| ==> x.w <= f[k].w
  {
    forall k | 0 <= k < |f| ensures x.w <= f[k].w {
      WeightIn(f, k);
      var i := WeightAt(rest, f[k].w);
    }
  }

  /** The lightest symbol first, and with the longest code. */
  lemma LightestFirst(c: seq<Item>, m: nat) returns (d: seq<Item>)
    requires c != [] && Within(c, m)
    ensures |d| == |c| && Within(d, m) && Weights(d) == Weights(c) && Cost(d) <= Cost(c) && Space(d, m) == Space(c, m)
    ensures forall k :: 0 <= k < |d| ==> d[k].l <= d[0].l && d[0].w <= d[k].w
    ensures exists k :: 0 <= k < |c| && c[k].l == d[0].l
  {
    hide Weights, Cost, Space, Pow2;
    var i := LightestAt(c);
    ToFront(c, i, m);
    var e := [c[i]] + Without(c, i);
    d := Longest(e, m);
    var k :| 0 <= k < |e| && e[k].l == d[0].l;
    assert e[k] == c[if k == 0 then i else if k <= i then k - 1 else k];
  }

  /** Every code that fits costs at least what joining the two smallest weights again and again does. */
  lemma {:induction false} LowerBound(c: seq<Item>, m: nat)
    requires Within(c, m) && Space(c, m) <= Pow2(m)
    ensures Cost(c) >= JoinCost(Weights(c))
    decreases |c|
  {
    hide Weights, Cost, Space, Pow2, JoinCost;
    WeightsCount(c);
    if |c| <= 1 {
      JoinNone(Weights(c));
    } else {
      var d, l := Siblings(c, m);
      Merge(d, l);
      var e := [Item(d[0].w + d[1].w, l - 1)] + d[2..];
      LowerBound(e, l);
      FirstTwo(d);
      JoinStep(Weights(c), d[0].w, d[1].w);
    }
  }

  lemma JoinNone(m: multiset<nat>)
    requires |m| <= 1
    ensures JoinCost(m) == 0
  {
  }

  lemma FirstTwo(d: seq<Item>)
    requires |d| >= 2 && (forall k :: 0 <= k < |d| ==> d[0].w <= d[k].w) && (forall k :: 1 <= k < |d| ==> d[1].w <= d[k].w)
    ensures var m := Weights(d);
            IsLeast(m, d[0].w) && IsLeast(m - multiset{d[0].w}, d[1].w)
  {
    hide Weights;
    var r := d[1..];
    assert d == [d[0]] + r && r[0].w == d[1].w;
    WeightsCons(d[0], r);
    WeightIn(d, 0);
    WeightIn(r, 0);
    assert Weights(d) - multiset{d[0].w} == Weights(r);
    forall z | z in Weights(d) ensures d[0].w <= z { var i := WeightAt(d, z); }
    forall z | z in Weights(r) ensures d[1].w <= z { var i := WeightAt(r, z); }
  }

  lemma WeightsCons(x: Item, r: seq<Item>)
    ensures Weights([x] + r) == multiset{x.w} + Weights(r)
  {
    assert ([x] + r)[1..] == r;
  }

  // ----- the greedy tree costs just that

  /** What is left after `q` picks, when `k` inner nodes have been made. */
  ghost function Left(w: seq<nat>, inner: seq<nat>, taken: seq<nat>, q: nat, k: nat): multiset<nat> {
    if q < |taken| && taken[q] <= k <= |inner| && 0 <= q - taken[q] <= |w| then multiset(inner[taken[q]..k]) + multiset(w[q - taken[q]..])
    else multiset{}
  }

  /** Whatever is left is picked later. */
  lemma {:induction false} PickedLater(w: seq<nat>, inner: seq<nat>, picks: seq<nat>, taken: seq<nat>, q: nat, r: nat, i: nat, kid: bool) returns (p: nat)
    requires |taken| > r >= q && |picks| >= r && Shaped(taken, |w|, |taken| - 1)
    requires forall p :: 0 <= p < r ==> IsPick(w, inner, taken, p, picks[p])
    requires if kid then taken[q] <= i < taken[r] && i < |inner| else q - taken[q] <= i < r - taken[r] && i < |w|
    ensures q <= p < r && picks[p] == if kid then inner[i] else w[i]
    decreases r
  {
    TakenMono(taken, |w|, |taken| - 1, r - 1, r);
    assert IsPick(w, inner, taken, r - 1, picks[r - 1]);
    if (if kid then i < taken[r - 1] else i < r - 1 - taken[r - 1]) {
      p := PickedLater(w, inner, picks, taken, q, r - 1, i, kid);
    } else {
      p := r - 1;
    }
  }

  lemma PickIsLeast(w: seq<nat>, inner: seq<nat>, picks: seq<nat>, taken: seq<nat>, q: nat, k: nat)
    requires |w| >= 2 && |taken| == 2 * |w| - 1 && |inner| == |w| - 1 && |picks| == 2 * |w| - 2 && k < |w| - 1 && 2 * k <= q <= 2 * k + 1
    requires taken[q] <= taken[q + 1] <= k && 0 <= q - taken[q] <= q + 1 - taken[q + 1] <= |w|
    requires Greedy(w, inner, picks, taken, 2 * |w| - 2)
    ensures IsLeast(Left(w, inner, taken, q, k), picks[q])
    ensures Left(w, inner, taken, q, k) - multiset{picks[q]} == Left(w, inner, taken, q + 1, k)
  {
    hide Greedy, Shaped, Sorted, Left, IsPick;
    NodePicks(w, inner, picks, taken, k);
    QRange(taken, |w|, q, k);
    SplitOne(w, inner, taken, q, k, picks[q]);
    forall z | z in Left(w, inner, taken, q, k) ensures picks[q] <= z { LaterIsMore(w, inner, picks, taken, q, k, z); }
  }

  lemma LaterIsMore(w: seq<nat>, inner: seq<nat>, picks: seq<nat>, taken: seq<nat>, q: nat, k: nat, z: nat)
    requires |w| >= 2 && Greedy(w, inner, picks, taken, 2 * |w| - 2) && k < |w| - 1 && 2 * k <= q <= 2 * k + 1
    requires |taken| == 2 * |w| - 1 && |inner| == |w| - 1 && |picks| == 2 * |w| - 2 && taken[q] <= k && 0 <= q - taken[q] <= |w|
    requires z in Left(w, inner, taken, q, k)
    ensures picks[q] <= z
  {
    hide Greedy, Shaped, Sorted, IsPick;
    var n := |w|;
    NodePicks(w, inner, picks, taken, k);
    AllPicks(w, inner, picks, taken);
    RootTakesAll(taken, n);
    var p;
    if z in inner[taken[q]..k] {
      var i :| taken[q] <= i < k && inner[i] == z;
      p := PickedLater(w, inner, picks, taken, q, 2 * n - 2, i, true);
    } else {
      var i :| q - taken[q] <= i < n && w[i] == z;
      p := PickedLater(w, inner, picks, taken, q, 2 * n - 2, i, false);
    }
    SortedAt(picks, q, p);
  }

  lemma AllPicks(w: seq<nat>, inner: seq<nat>, picks: seq<nat>, taken: seq<nat>)
    requires |w| >= 2 && Greedy(w, inner, picks, taken, 2 * |w| - 2)
    ensures |picks| == 2 * |w| - 2 && forall p :: 0 <= p < |picks| ==> IsPick(w, inner, taken, p, picks[p])
  {
    hide Shaped, Sorted, LeastLeft, IsPick;
  }

  lemma SortedAt(s: seq<nat>, i: nat, k: nat)
    requires Sorted(s) && i <= k < |s|
    ensures s[i] <= s[k]
  {
  }

  lemma QRange(taken: seq<nat>, n: nat, q: nat, k: nat)
    requires n >= 2 && Shaped(taken, n, 2 * n - 2) && k < n - 1 && 2 * k <= q <= 2 * k + 1
    ensures taken[q] <= taken[q + 1] <= k && 0 <= q - taken[q] <= q + 1 - taken[q + 1] <= n && taken[2 * n - 2] == n - 2
  {
    RootTakesAll(taken, n);
    assert taken[q + 1] <= q / 2;
    TakenMono(taken, n, 2 * n - 2, 0, q);
    TakenMono(taken, n, 2 * n - 2, q, q + 1);
    TakenMono(taken, n, 2 * n - 2, q + 1, 2 * n - 2);
  }

  lemma SplitOne(w: seq<nat>, inner: seq<nat>, taken: seq<nat>, q: nat, k: nat, v: nat)
    requires q + 1 < |taken| && taken[q] <= taken[q + 1] <= taken[q] + 1 && taken[q + 1] <= k <= |inner| && 0 <= q - taken[q] <= q + 1 - taken[q + 1] <= |w|
    requires IsPick(w, inner, taken, q, v)
    ensures v in Left(w, inner, taken, q, k) && Left(w, inner, taken, q, k) - multiset{v} == Left(w, inner, taken, q + 1, k)
  {
    if taken[q + 1] > taken[q] {
      assert inner[taken[q]..k] == [v] + inner[taken[q + 1]..k];
      FirstOut(v, inner[taken[q + 1]..k], multiset(w[q - taken[q]..]));
    } else {
      assert w[q - taken[q]..] == [v] + w[q + 1 - taken[q + 1]..];
      FirstOut(v, w[q + 1 - taken[q + 1]..], multiset(inner[taken[q]..k]));
    }
  }

  lemma FirstOut(v: nat, s: seq<nat>, m: multiset<nat>)
    ensures v in multiset([v] + s) + m && multiset([v] + s) + m - multiset{v} == multiset(s) + m
  {
  }

  lemma {:induction false} GreedyCost(w: seq<nat>, inner: seq<nat>, picks: seq<nat>, taken: seq<nat>, k: nat)
    requires |w| >= 2 && Greedy(w, inner, picks, taken, 2 * |w| - 2) && k <= |w| - 1
    ensures |taken| == 2 * |w| - 1 && |inner| == |w| - 1 && taken[2 * k] <= k && 0 <= 2 * k - taken[2 * k] <= |w|
    ensures Sum(inner, 0, k) + JoinCost(Left(w, inner, taken, 2 * k, k)) == JoinCost(multiset(w))
  {
    hide Greedy, JoinCost, IsLeast, Shaped, IsPick, Sorted, Left, Joined;
    NodePicks(w, inner, picks, taken, 0);
    if k == 0 {
      AllLeft(w, inner, taken);
    } else {
      var j := k - 1;
      NodePicks(w, inner, picks, taken, j);
      GreedyCost(w, inner, picks, taken, j);
      QRange(taken, |w|, 2 * j, j);
      QRange(taken, |w|, 2 * j + 1, j);
      PickIsLeast(w, inner, picks, taken, 2 * j, j);
      PickIsLeast(w, inner, picks, taken, 2 * j + 1, j);
      JoinStep(Left(w, inner, taken, 2 * j, j), picks[2 * j], picks[2 * j + 1]);
      JoinedLeft(Left(w, inner, taken, 2 * j, j), picks[2 * j], picks[2 * j + 1], inner[j]);
      LeftGrows(w, inner, taken, 2 * k, j);
    }
  }

  lemma JoinedLeft(m: multiset<nat>, a: nat, b: nat, c: nat)
    requires c == a + b
    ensures Joined(m, a, b) == m - multiset{a} - multiset{b} + multiset{c}
  {
  }

  lemma AllLeft(w: seq<nat>, inner: seq<nat>, taken: seq<nat>)
    requires |taken| > 0 && taken[0] == 0
    ensures Left(w, inner, taken, 0, 0) == multiset(w)
  {
    assert w[0..] == w && inner[0..0] == [];
  }

  lemma LeftGrows(w: seq<nat>, inner: seq<nat>, taken: seq<nat>, q: nat, j: nat)
    requires q < |taken| && taken[q] <= j < |inner| && 0 <= q - taken[q] <= |w|
    ensures Left(w, inner, taken, q, j + 1) == Left(w, inner, taken, q, j) + multiset{inner[j]}
  {
    assert inner[taken[q]..j + 1] == inner[taken[q]..j] + [inner[j]];
  }

  // ----- optimality

  ghost function Items(w: seq<nat>, ls: seq<nat>): (c: seq<Item>)
    requires |w| == |ls|
    ensures |c| == |w| && forall i :: 0 <= i < |w| ==> c[i] == Item(w[i], ls[i])
  {
    seq(|w|, i requires 0 <= i < |w| => Item(w[i], ls[i]))
  }

  lemma {:induction false} ItemsCost(w: seq<nat>, ls: seq<nat>, k: nat)
    requires |w| == |ls| && k <= |w|
    ensures Weights(Items(w, ls)[k..]) == multiset(w[k..]) && Cost(Items(w, ls)[k..]) == Dot(w, ls, k, |w|)
    decreases |w| - k
  {
    if k < |w| {
      ItemsCost(w, ls, k + 1);
      var c := Items(w, ls);
      assert c[k..][1..] == c[k + 1..];
      assert w[k..] == [w[k]] + w[k + 1..];
      DotSplit(w, ls, k, k + 1, |w|);
      TwoItemsDot(w, ls, k);
    }
  }

  lemma HuffmanCost(w: seq<nat>, inner: seq<nat>, picks: seq<nat>, taken: seq<nat>, parents: seq<nat>, lens: seq<nat>)
    requires Huffman(w, inner, picks, taken, parents, lens)
    ensures |lens| == |w| && Dot(w, lens, 0, |w|) == JoinCost(multiset(w))
  {
    hide Huffman, Greedy, Grown, LeafDepths, Upward, Shaped, JoinCost, Left, Dot, Sum, IsPick, Sorted;
    HuffmanShape(w, inner, picks, taken, parents, lens);
    CodeWeight(w, inner, picks, taken, parents, lens);
    GreedyCost(w, inner, picks, taken, |w| - 1);
    RootTakesAll(taken, |w|);
    OneLeft(w, inner, taken);
  }

  lemma ItemsBound(w: seq<nat>, ls: seq<nat>, m: nat)
    requires |ls| == |w| && Within(Items(w, ls), m) && Space(Items(w, ls), m) <= Pow2(m)
    ensures Dot(w, ls, 0, |w|) >= JoinCost(multiset(w))
  {
    hide Weights, Cost, Space, Pow2, JoinCost, Items, Dot;
    ItemsCost(w, ls, 0);
    assert Items(w, ls)[0..] == Items(w, ls) && w[0..] == w;
    LowerBound(Items(w, ls), m);
  }

  /** The total length of the code is no more than that of any code whose sizes fit the code space. */
  lemma Optimal(w: seq<nat>, inner: seq<nat>, picks: seq<nat>, taken: seq<nat>, parents: seq<nat>, lens: seq<nat>, ls: seq<nat>, m: nat)
    requires Huffman(w, inner, picks, taken, parents, lens)
    requires |ls| == |w| && Within(Items(w, ls), m) && Space(Items(w, ls), m) <= Pow2(m)
    ensures |lens| == |w| && Dot(w, lens, 0, |w|) <= Dot(w, ls, 0, |w|)
  {
    hide Huffman, Space, Pow2, JoinCost, Items, Dot;
    HuffmanCost(w, inner, picks, taken, parents, lens);
    ItemsBound(w, ls, m);
  }

  lemma OneLeft(w: seq<nat>, inner: seq<nat>, taken: seq<nat>)
    requires |w| >= 2 && |taken| == 2 * |w| - 1 && |inner| == |w| - 1 && taken[2 * |w| - 2] == |w| - 2
    ensures JoinCost(Left(w, inner, taken, 2 * |w| - 2, |w| - 1)) == 0
  {
    assert inner[|w| - 2..|w| - 1] == [inner[|w| - 2]] && w[|w|..] == [];
  }

  // ----- prefix codes

  /** No word begins another. */
  ghost predicate PrefixCode(words: seq<Bits>) {
    words == [] || (PrefixCode(words[1..]) && forall k :: 1 <= k < |words| ==> !(words[0] <= words[k]) && !(words[k] <= words[0]))
  }

  ghost predicate NoLonger(words: seq<Bits>, m: nat) {
    forall k :: 0 <= k < |words| ==> |words[k]| <= m
  }

  ghost function WordSpace(words: seq<Bits>, m: nat): nat
    requires NoLonger(words, m)
  {
    if words == [] then 0 else Pow2(m - |words[0]|) + WordSpace(words[1..], m)
  }

  /** What follows the bit `b` in the words that begin with it. */
  ghost function After(words: seq<Bits>, b: bool): (r: seq<Bits>)
    requires forall k :: 0 <= k < |words| ==> words[k] != []
    ensures forall x :: x in r ==> [b] + x in words
  {
    if words == [] then []
    else if words[0][0] == b then
      assert words[0] == [b] + words[0][1..];
      [words[0][1..]] + After(words[1..], b)
    else After(words[1..], b)
  }

  lemma {:induction false} AfterPrefixCode(words: seq<Bits>, b: bool)
    requires PrefixCode(words) && forall k :: 0 <= k < |words| ==> words[k] != []
    ensures PrefixCode(After(words, b))
  {
    if words != [] {
      var rest := After(words[1..], b);
      AfterPrefixCode(words[1..], b);
      if words[0][0] == b {
        var a := After(words, b);
        assert a[1..] == rest;
        forall k | 1 <= k < |a| ensures !(a[0] <= a[k]) && !(a[k] <= a[0]) {
          var i :| 0 <= i < |words[1..]| && words[1..][i] == [b] + a[k];
          assert words[i + 1] == [b] + a[k] && words[0] == [b] + a[0];
          PrefixTail(a[0], a[k], b);
          PrefixTail(a[k], a[0], b);
        }
      }
    }
  }

  lemma PrefixTail(x: Bits, y: Bits, b: bool)
    ensures x <= y ==> [b] + x <= [b] + y
  {
  }

  lemma {:induction false} AfterSpace(words: seq<Bits>, m: nat)
    requires m > 0 && NoLonger(words, m) && forall k :: 0 <= k < |words| ==> words[k] != []
    ensures NoLonger(After(words, false), m - 1) && NoLonger(After(words, true), m - 1)
    ensures WordSpace(words, m) == WordSpace(After(words, false), m - 1) + WordSpace(After(words, true), m - 1)
  {
    hide Pow2, After;
    if words == [] {
      AfterNone(words);
    } else {
      AfterSpace(words[1..], m);
      AfterCons(words);
      var b := words[0][0];
      SpaceCons(words[0][1..], After(words[1..], b), m - 1);
    }
  }

  lemma AfterNone(words: seq<Bits>)
    requires words == []
    ensures After(words, false) == After(words, true) == []
  {
  }

  lemma AfterCons(words: seq<Bits>)
    requires words != [] && forall k :: 0 <= k < |words| ==> words[k] != []
    ensures After(words, words[0][0]) == [words[0][1..]] + After(words[1..], words[0][0])
    ensures After(words, !words[0][0]) == After(words[1..], !words[0][0])
  {
  }

  lemma SpaceCons(x: Bits, r: seq<Bits>, m: nat)
    requires |x| <= m && NoLonger(r, m)
    ensures NoLonger([x] + r, m) && WordSpace([x] + r, m) == Pow2(m - |x|) + WordSpace(r, m)
  {
    hide Pow2;
    assert ([x] + r)[1..] == r;
  }

  /** Kraft's inequality. */
  lemma {:induction false} PrefixSpace(words: seq<Bits>, m: nat)
    requires PrefixCode(words) && NoLonger(words, m)
    ensures WordSpace(words, m) <= Pow2(m)
    decreases m
  {
    if |words| <= 1 {
      if |words| == 1 {
        assert words[1..] == [];
        Pow2Mono(m - |words[0]|, m);
      }
    } else {
      forall k | 0 <= k < |words| ensures words[k] != [] { NotEmpty(words, k); }
      assert |words[0]| <= m;
      AfterSpace(words, m);
      AfterPrefixCode(words, false);
      AfterPrefixCode(words, true);
      PrefixSpace(After(words, false), m - 1);
      PrefixSpace(After(words, true), m - 1);
    }
  }

  lemma {:induction false} NotEmpty(words: seq<Bits>, k: nat)
    requires PrefixCode(words) && |words| > 1 && k < |words|
    ensures words[k] != []
  {
    if k > 0 {
      assert !(words[k] <= words[0]);
    } else {
      assert !(words[0] <= words[1]);
    }
  }

  ghost function Lengths(words: seq<Bits>): (ls: seq<nat>)
    ensures |ls| == |words| && forall i :: 0 <= i < |words| ==> ls[i] == |words[i]|
  {
    seq(|words|, i requires 0 <= i < |words| => |words[i]|)
  }

  lemma {:induction false} SameSpace(w: seq<nat>, words: seq<Bits>, m: nat, k: nat)
    requires |w| == |words| && NoLonger(words, m) && k <= |w|
    ensures Within(Items(w, Lengths(words))[k..], m) && Space(Items(w, Lengths(words))[k..], m) == WordSpace(words[k..], m)
    decreases |w| - k
  {
    if k < |w| {
      SameSpace(w, words, m, k + 1);
      assert Items(w, Lengths(words))[k..][1..] == Items(w, Lengths(words))[k + 1..];
      assert words[k..][1..] == words[k + 1..];
    }
  }

  /** No prefix code for these weights has a smaller total length. */
  lemma OptimalPrefixCode(w: seq<nat>, inner: seq<nat>, picks: seq<nat>, taken: seq<nat>, parents: seq<nat>, lens: seq<nat>, words: seq<Bits>, m: nat)
    requires Huffman(w, inner, picks, taken, parents, lens)
    requires |words| == |w| && PrefixCode(words) && NoLonger(words, m)
    ensures |lens| == |w| && Dot(w, lens, 0, |w|) <= Dot(w, Lengths(words), 0, |w|)
  {
    hide Huffman, PrefixCode, Space, WordSpace, Pow2, Items, Dot, Lengths;
    PrefixSpace(words, m);
    SameSpace(w, words, m, 0);
    assert Items(w, Lengths(words))[0..] == Items(w, Lengths(words)) && words[0..] == words;
    Optimal(w, inner, picks, taken, parents, lens, Lengths(words), m);
  }
}
