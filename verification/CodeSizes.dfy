/** `tdefl_optimize_huffman_table`: from symbol counts to code sizes and codes. */
module CodeSizes {
  import opened Bits
  import opened Canonical
  import opened RadixSort
  import opened MinRedundancy
  import opened TreeCode
  import opened CodeLimit
  import opened LimitCost
  import opened SymbolCost

  // ----- one table of the compressor

  const MAX_SYMBOLS := 288

  /** One of `m_huff_count`, `m_huff_codes` and `m_huff_code_sizes`. */
  class CodeTable {
    const count: array<nat>
    const codes: array<nat>
    const sizes: array<nat>

    ghost predicate Shape() {
      count.Length == codes.Length == sizes.Length == MAX_SYMBOLS && count != codes && count != sizes && codes != sizes
    }

    constructor ()
      ensures Shape() && fresh(count) && fresh(codes) && fresh(sizes) && (forall i :: 0 <= i < MAX_SYMBOLS ==> count[i] == 0)
    {
      count := new nat[MAX_SYMBOLS](_ => 0);
      codes := new nat[MAX_SYMBOLS](_ => 0);
      sizes := new nat[MAX_SYMBOLS](_ => 0);
    }

    /** The codes are the canonical ones of the sizes, turned around for sending. */
    ghost predicate Coded(n: nat)
      reads this, codes, sizes
    {
      Shape() && n <= MAX_SYMBOLS && forall i :: 0 <= i < n && sizes[i] > 0 ==> codes[i] == Val(CodeBits(sizes[..n], i))
    }

    /** The symbols that occur, in order, with their counts. */
    method UsedSyms(n: nat, syms: array<SymFreq>) returns (used: nat)
      requires Shape() && n <= MAX_SYMBOLS && syms.Length == MAX_SYMBOLS
      modifies syms
      ensures UsedAre(count[..n], syms[..], used)
    {
      used := 0;
      for i := 0 to n
        invariant UsedAre(count[..i], syms[..], used)
      {
        ghost var before := syms[..];
        if count[i] > 0 {
          syms[used] := SymFreq(count[i], i);
          used := used + 1;
        }
        UsedNext(count[..i + 1], before, syms[..], used);
      }
    }

    /** Codes in order of size, and of symbol among equal sizes. */
    method AssignCodes(num: array<int>, n: nat, limit: nat)
      requires Shape() && n <= MAX_SYMBOLS && num.Length == MAX_SUPPORTED + 1 && 0 < limit <= 15 && num as object != codes
      requires (forall i :: 0 <= i < n ==> sizes[i] <= limit) && forall d :: 1 <= d < limit ==> num[d] == Count(sizes[..n], d)
      modifies codes
      ensures Coded(n)
    {
      hide Count, First, Code, Val, Msb;
      ghost var lens := sizes[..n];
      var next := new nat[MAX_SUPPORTED + 1](_ => 0);
      FirstOne(lens);
      var j: nat := 0;
      for i := 2 to limit + 1
        invariant sizes[..n] == lens && j == First(lens, i - 1)
        invariant forall d :: 1 <= d < i ==> next[d] == First(lens, d)
        invariant forall d :: 1 <= d < limit ==> num[d] == Count(lens, d)
      {
        FirstStep(lens, i - 1);
        j := (j + num[i - 1]) * 2;
        next[i] := j;
      }
      NumberedStart(next[..], lens, limit);
      for i := 0 to n
        invariant sizes[..n] == lens && Numbered(next[..], lens, i, limit)
        invariant forall s :: 0 <= s < i && lens[s] > 0 ==> codes[s] == Val(CodeBits(lens, s))
      {
        NumberedNext(next[..], lens, i, limit);
        var size := sizes[i];
        if size > 0 {
          var code := next[size];
          next[size] := code + 1;
          var rev := ReverseCode(code, size);
          codes[i] := rev;
        }
      }
    }

    /** `tdefl_optimize_huffman_table` with `static_table`: the sizes are there already. */
    method CodeStatic(n: nat)
      requires Shape() && n <= MAX_SYMBOLS && forall i :: 0 <= i < n ==> sizes[i] <= 15
      modifies codes
      ensures Coded(n)
    {
      hide Count;
      var num := new int[MAX_SUPPORTED + 1](_ => 0);
      ghost var lens := sizes[..n];
      forall d ensures Count(lens[..0], d) == 0 { CountEmpty(lens, d); }
      for i := 0 to n
        invariant sizes[..n] == lens && forall d :: 0 <= d <= MAX_SUPPORTED ==> num[d] == Count(lens[..i], d)
      {
        forall d: nat ensures Count(lens[..i + 1], d) == Count(lens[..i], d) + (if lens[i] == d then 1 else 0) { CountStep(lens, d, i); }
        num[sizes[i]] := num[sizes[i]] + 1;
      }
      assert lens[..n] == lens;
      AssignCodes(num, n, 15);
    }

    /** What `tdefl_optimize_huffman_table` leaves: a code for exactly the symbols that occur, within the limit, that fills the
        code space (if it has more than one symbol), with rarer symbols no shorter. */
    ghost predicate Optimized(n: nat, limit: nat)
      reads this, count, codes, sizes
    {
      && Coded(n) && (forall s :: 0 <= s < MAX_SYMBOLS ==> sizes[s] <= limit && (sizes[s] > 0 <==> s < n && count[s] > 0))
      && Buildable(sizes[..n])
      && forall s, t :: 0 <= s < n && 0 <= t < n && 0 < count[s] < count[t] ==> sizes[s] >= sizes[t]
    }

    method Optimize(n: nat, limit: nat)
      requires Shape() && n <= MAX_SYMBOLS && 0 < limit <= 15 && n <= Pow2(limit) && Sum(count[..n], 0, n) < 65536
      modifies codes, sizes
      ensures Optimized(n, limit) && (limit == 15 ==> NearBest(count[..n], sizes[..n]))
    {
      hide HistogramOf, TreeSizes, AllPlaced, NearBest, Repaired, Full, Given, Taken, Codes, Count, Sum, Pow2, ByCount, Excess, MinRedundancy.Sorted;
      var syms, used := SortUsed(n);
      ghost var s1 := syms[..used];
      SymsApart(count[..n], s1, s1);
      var num;
      ghost var inner, picks, taken, parents, lens;
      num, inner, picks, taken, parents, lens := TreeHistogramOf(syms, used, limit);
      ghost var c := num[..];
      ghost var j, t := EnforceMaxCodeSize(num, used, limit);
      LimitedReady(num[..], used, limit);
      SymsApart(count[..n], s1, syms[..used]);
      AssignSizes(num, syms, used, limit);
      SizesReady(sizes[..], count[..n], s1, syms[..used], num[..], n, limit);
      AssignCodes(num, n, limit);
      AllOrdered(sizes[..], count[..n], s1, syms[..used], limit);
      if limit == 15 { TreeNear(count[..n], s1, syms[..used], inner, picks, taken, parents, lens, sizes[..], c, num[..], j, t); }
    }

    /** The symbols that occur, by ascending count. */
    method SortUsed(n: nat) returns (syms: array<SymFreq>, used: nat)
      requires Shape() && n <= MAX_SYMBOLS && Sum(count[..n], 0, n) < 65536
      ensures fresh(syms) && used <= n <= syms.Length && ByCount(count[..n], syms[..used])
      ensures MinRedundancy.Sorted(KeysOf(syms[..used])) && Sum(KeysOf(syms[..used]), 0, used) < 65536
    {
      hide Sum, StableSorted, UsedAre;
      var syms0 := new SymFreq[MAX_SYMBOLS](_ => SymFreq(0, 0));
      var syms1 := new SymFreq[MAX_SYMBOLS](_ => SymFreq(0, 0));
      used := UsedSyms(n, syms0);
      ghost var all, s0 := syms0[..], syms0[..used];
      UsedSmall(count[..n], all, used);
      UsedRoom(count[..n], all, used);
      ghost var at;
      syms, at := SortSyms(used, syms0, syms1);
      SortedSyms(count[..n], all, s0, syms[..used], at);
      SortedSum(count[..n], all, s0, syms[..used], at);
    }

    /** The most frequent symbols get the shortest codes. */
    method AssignSizes(num: array<int>, syms: array<SymFreq>, used: nat, limit: nat)
      requires Shape() && num.Length == MAX_SUPPORTED + 1 && used <= syms.Length && 0 < limit <= 15
      requires (forall d :: 1 <= d <= limit ==> num[d] >= 0) && Codes(num[..], limit) == used
      requires (forall p :: 0 <= p < used ==> syms[p].sym < MAX_SYMBOLS) && (forall p, q :: 0 <= p < q < used ==> syms[p].sym != syms[q].sym)
      requires num as object != sizes
      modifies sizes
      ensures Given(sizes[..], syms[..used], 0, limit)
      ensures forall d :: 1 <= d <= limit ==> Count(sizes[..], d) == num[d]
      ensures AllPlaced(num[..], sizes[..], syms[..used], 0)
    {
      hide Count, Codes;
      ghost var c := num[..];
      CodesNone(c);
      forall k | 0 <= k < MAX_SYMBOLS { sizes[k] := 0; }
      assert num[..] == c;
      forall d: nat | d >= 1 ensures Count(sizes[..], d) == 0 { CountNone(sizes[..], d); }
      var j: int := used;
      for i := 1 to limit + 1
        invariant num[..] == c && j == used - Codes(c, i - 1) && 0 <= j <= used
        invariant Given(sizes[..], syms[..used], j, i - 1)
        invariant forall d :: 1 <= d <= limit ==> Count(sizes[..], d) == if d < i then c[d] else 0
        invariant AllPlaced(c, sizes[..], syms[..used], j)
      {
        CodesRoom(c, i, limit);
        ghost var j0, before := j, sizes[..];
        j := AssignSize(i, num[i], syms, used, j);
        CodesNext(c, i);
        PlacedNext(c, before, sizes[..], syms[..used], j0, j, i);
      }
    }

    /** `n` symbols get codes of size `i`. */
    method AssignSize(i: nat, n: nat, syms: array<SymFreq>, used: nat, j: int) returns (j': int)
      requires Shape() && used <= syms.Length && 1 <= i && n <= j <= used && Given(sizes[..], syms[..used], j, i - 1)
      requires (forall p :: 0 <= p < used ==> syms[p].sym < MAX_SYMBOLS) && (forall p, q :: 0 <= p < q < used ==> syms[p].sym != syms[q].sym)
      modifies sizes
      ensures j' == j - n && Given(sizes[..], syms[..used], j', i)
      ensures forall d :: 1 <= d ==> Count(sizes[..], d) == old(Count(sizes[..], d)) + (if d == i then n else 0)
      ensures Handed(old(sizes[..]), sizes[..], syms[..used], j', j, i)
    {
      hide Count, Given, Handed;
      j' := j;
      HandedNone(sizes[..], syms[..used], j, i);
      GivenMore(sizes[..], syms[..used], j, i - 1, i);
      for l := n downto 0
        invariant j' == j - (n - l) && Given(sizes[..], syms[..used], j', i)
        invariant forall d :: 1 <= d ==> Count(sizes[..], d) == old(Count(sizes[..], d)) + (if d == i then n - l else 0)
        invariant Handed(old(sizes[..]), sizes[..], syms[..used], j', j, i)
      {
        j' := j' - 1;
        ghost var before := sizes[..];
        var s := syms[j'].sym;
        GivenNext(before, syms[..used], j', i);
        HandedNext(old(sizes[..]), before, syms[..used], j', j, i);
        forall d | 1 <= d ensures Count(before[s := i], d) == Count(before, d) + (if d == i then 1 else 0) { CountUpdate(before, s, i, d); }
        sizes[s] := i;
        assert sizes[..] == before[s := i];
      }
    }
  }

  /** The next code of each size. */
  ghost predicate Numbered(next: seq<nat>, lens: seq<nat>, i: nat, limit: nat) {
    i <= |lens| && limit < |next| && forall d :: 1 <= d <= limit ==> next[d] == First(lens, d) + Count(lens[..i], d)
  }

  lemma NumberedNext(next: seq<nat>, lens: seq<nat>, i: nat, limit: nat)
    requires Numbered(next, lens, i, limit) && i < |lens| && lens[i] <= limit
    ensures lens[i] == 0 ==> Numbered(next, lens, i + 1, limit)
    ensures lens[i] > 0 ==> next[lens[i]] == Code(lens, i) && Numbered(next[lens[i] := next[lens[i]] + 1], lens, i + 1, limit)
  {
    hide Count, First;
    forall d: nat ensures Count(lens[..i + 1], d) == Count(lens[..i], d) + (if lens[i] == d then 1 else 0) { CountStep(lens, d, i); }
  }

  lemma NumberedStart(next: seq<nat>, lens: seq<nat>, limit: nat)
    requires limit < |next| && forall d :: 1 <= d <= limit ==> next[d] == First(lens, d)
    ensures Numbered(next, lens, 0, limit)
  {
    hide Count, First;
    forall d: nat ensures Count(lens[..0], d) == 0 { CountEmpty(lens, d); }
  }

  lemma {:induction false} LongerOne(lens: seq<nat>, s: nat)
    requires forall k :: 0 <= k < |lens| && lens[k] > 0 ==> k == s
    ensures Longer(lens, 0) <= 1
  {
    if lens != [] {
      var n := |lens| - 1;
      if lens[n] > 0 { LongerSized(lens[..n], 0); } else { LongerOne(lens[..n], s); }
    }
  }

  lemma {:induction false} CountTail(lens: seq<nat>, n: nat, d: nat)
    requires n <= |lens| && d > 0 && forall k :: n <= k < |lens| ==> lens[k] == 0
    ensures Count(lens[..n], d) == Count(lens, d)
  {
    if n < |lens| {
      CountTail(lens[..|lens| - 1], n, d);
      assert lens[..|lens| - 1][..n] == lens[..n];
    } else {
      assert lens[..n] == lens;
    }
  }

  /** The symbols from entry `j` on have code sizes from 1 to `most`, rarer ones no shorter, and no other symbol has one. */
  ghost predicate Given(sizes: seq<nat>, syms: seq<SymFreq>, j: nat, most: nat) {
    && j <= |syms|
    && (forall p :: j <= p < |syms| ==> syms[p].sym < |sizes| && 1 <= sizes[syms[p].sym] <= most)
    && (forall p, q :: j <= p < q < |syms| ==> sizes[syms[p].sym] >= sizes[syms[q].sym])
    && (forall s :: 0 <= s < |sizes| && sizes[s] > 0 ==> exists p :: j <= p < |syms| && syms[p].sym == s)
  }

  lemma GivenMore(sizes: seq<nat>, syms: seq<SymFreq>, j: nat, most: nat, more: nat)
    requires Given(sizes, syms, j, most) && most <= more
    ensures Given(sizes, syms, j, more)
  {
  }

  lemma GivenNext(sizes: seq<nat>, syms: seq<SymFreq>, j: nat, i: nat)
    requires j < |syms| && 1 <= i && Given(sizes, syms, j + 1, i) && syms[j].sym < |sizes|
    requires forall p, q :: 0 <= p < q < |syms| ==> syms[p].sym != syms[q].sym
    ensures sizes[syms[j].sym] == 0 && Given(sizes[syms[j].sym := i], syms, j, i)
  {
    var after := sizes[syms[j].sym := i];
    forall s | 0 <= s < |after| && after[s] > 0 ensures exists p :: j <= p < |syms| && syms[p].sym == s {
      if s != syms[j].sym {
        var p :| j + 1 <= p < |syms| && syms[p].sym == s;
      }
    }
  }

  /** The entries from `j` to `top` have just got size `i`; those behind have kept theirs. */
  ghost predicate Handed(was: seq<nat>, sizes: seq<nat>, syms: seq<SymFreq>, j: nat, top: nat, i: nat) {
    && j <= top <= |syms| && |was| == |sizes|
    && forall p :: j <= p < |syms| && syms[p].sym < |sizes| ==> sizes[syms[p].sym] == if p < top then i else was[syms[p].sym]
  }

  lemma HandedNone(sizes: seq<nat>, syms: seq<SymFreq>, j: nat, i: nat)
    requires j <= |syms|
    ensures Handed(sizes, sizes, syms, j, j, i)
  {
  }

  lemma HandedNext(was: seq<nat>, sizes: seq<nat>, syms: seq<SymFreq>, j: nat, top: nat, i: nat)
    requires Handed(was, sizes, syms, j + 1, top, i) && j < |syms| && syms[j].sym < |sizes| && forall p, q :: 0 <= p < q < |syms| ==> syms[p].sym != syms[q].sym
    ensures Handed(was, sizes[syms[j].sym := i], syms, j, top, i)
  {
  }

  /** Every entry from `j` on is where its size belongs. */
  ghost predicate AllPlaced(c: seq<int>, sizes: seq<nat>, syms: seq<SymFreq>, j: nat) {
    forall p :: j <= p < |syms| ==> syms[p].sym < |sizes| && Placed(c, |syms|, p, sizes[syms[p].sym])
  }

  lemma PlacedNext(c: seq<int>, was: seq<nat>, sizes: seq<nat>, syms: seq<SymFreq>, top: nat, j: nat, i: nat)
    requires AllPlaced(c, was, syms, top) && Handed(was, sizes, syms, j, top, i) && forall p :: 0 <= p < |syms| ==> syms[p].sym < |sizes|
    requires 1 <= i < |c| && top == |syms| - Codes(c, i - 1) && j == |syms| - Codes(c, i)
    ensures AllPlaced(c, sizes, syms, j)
  {
    hide Codes;
  }

  lemma CodesNone(c: seq<int>)
    requires c != []
    ensures Codes(c, 0) == 0
  {
  }

  lemma {:induction false} CodesRoom(c: seq<int>, i: nat, m: nat)
    requires 0 < i <= m < |c| && forall d :: 1 <= d <= m ==> c[d] >= 0
    ensures Codes(c, i - 1) + c[i] <= Codes(c, m)
  {
    if i < m { CodesRoom(c, i, m - 1); }
  }

  /** The first `used` entries are the symbols with a count above 0, in ascending order. */
  ghost predicate UsedAre(count: seq<nat>, syms: seq<SymFreq>, used: nat) {
    && used <= |syms| && used <= |count|
    && (forall p :: 0 <= p < used ==> syms[p].sym < |count| && syms[p].key == count[syms[p].sym] > 0)
    && (forall p, q :: 0 <= p < q < used ==> syms[p].sym < syms[q].sym)
    && (forall s :: 0 <= s < |count| && count[s] > 0 ==> exists p :: 0 <= p < used && syms[p].sym == s)
  }

  /** No code of a Huffman tree for 16-bit counts is longer than 22, so the histogram has room. */
  lemma KeysReady(w: seq<nat>, inner: seq<nat>, picks: seq<nat>, taken: seq<nat>, parents: seq<nat>, lens: seq<nat>)
    requires |w| == |lens| && (forall i :: 0 <= i < |w| ==> w[i] >= 1) && Sum(w, 0, |w|) < 65536
    requires |w| == 1 ==> lens[0] == 1
    requires |w| >= 2 ==> Greedy(w, inner, picks, taken, 2 * |w| - 2) && Grown(taken, parents, |w|) && forall i :: 0 <= i < |w| ==> LeafAt(taken, |w|, i, lens[i])
    ensures TreeSizes(w, inner, picks, taken, parents, lens) && (|w| >= 2 ==> LeafDepths(taken, lens))
  {
    hide Greedy, Grown, LeafAt, Sum;
    if |w| >= 2 {
      GreedyShape(w, inner, picks, taken, 2 * |w| - 2);
      GrownUpward(taken, parents, |w|);
      forall i | 0 <= i < |lens| ensures 1 <= lens[i] <= 22 {
        DepthBound(w, inner, picks, taken, parents, lens, i);
        LeafRange(taken, lens, i, 1);
      }
    }
  }

  lemma HistogramReady(c: seq<int>, taken: seq<nat>, lens: seq<nat>, limit: nat)
    requires HistogramOf(c, lens) && (forall i :: 0 <= i < |lens| ==> 1 <= lens[i] <= 22) && (|lens| >= 2 ==> LeafDepths(taken, lens)) && (|lens| == 1 ==> lens[0] == 1)
    requires 0 < limit <= 15
    ensures |lens| > 1 ==> Counts(c) && Codes(c, MAX_SUPPORTED) == |lens| && Taken(c, MAX_SUPPORTED) == Pow2(MAX_SUPPORTED)
    ensures |lens| <= 1 ==> (forall d :: 1 <= d <= limit ==> c[d] >= 0) && Codes(c, limit) == |lens|
  {
    hide Count, Pow2, Below, LeafDepths, Taken, Codes;
    if |lens| > 1 {
      TreeHistogram(taken, lens, c);
    } else {
      CountNone(lens, 0);
      HistogramCodes(c, lens, limit);
      BelowAll(lens, limit + 1);
    }
  }

  lemma LimitedReady(c: seq<int>, used: nat, limit: nat)
    requires |c| == MAX_SUPPORTED + 1 && 0 < limit <= 15
    requires used > 1 ==> Excess(c, used, limit)
    requires used <= 1 ==> (forall d :: 1 <= d <= limit ==> c[d] >= 0) && Codes(c, limit) == used
    ensures (forall d :: 1 <= d <= limit ==> c[d] >= 0) && Codes(c, limit) == used
  {
  }

  lemma SizesReady(sizes: seq<nat>, count: seq<nat>, s1: seq<SymFreq>, s2: seq<SymFreq>, c: seq<int>, n: nat, limit: nat)
    requires n == |count| <= |sizes| && |s1| == |s2| && ByCount(count, s1) && (forall p :: 0 <= p < |s1| ==> s2[p].sym == s1[p].sym)
    requires Given(sizes, s2, 0, limit) && 0 < limit <= 15 && |c| == MAX_SUPPORTED + 1
    requires (forall d :: 1 <= d <= limit ==> Count(sizes, d) == c[d]) && (|s1| > 1 ==> Taken(c, limit) == Pow2(limit))
    ensures forall s :: 0 <= s < |sizes| ==> sizes[s] <= limit && (sizes[s] > 0 <==> s < n && count[s] > 0)
    ensures Buildable(sizes[..n]) && forall d :: 1 <= d <= limit ==> Count(sizes[..n], d) == c[d]
  {
    hide Count, First, Taken, Pow2;
    forall s | 0 <= s < |sizes| ensures sizes[s] <= limit && (sizes[s] > 0 <==> s < n && count[s] > 0) { SizeOf(sizes, count, s1, s2, s, limit); }
    forall d | 1 <= d <= limit ensures Count(sizes[..n], d) == c[d] { CountTail(sizes, n, d); }
    if |s1| > 1 {
      LimitedComplete(c, sizes[..n], limit);
    } else {
      forall k | 0 <= k < n && sizes[k] > 0 ensures |s1| == 1 && k == s1[0].sym {}
      LongerOne(sizes[..n], if |s1| == 1 then s1[0].sym else 0);
    }
  }

  lemma SizeOf(sizes: seq<nat>, count: seq<nat>, s1: seq<SymFreq>, s2: seq<SymFreq>, s: nat, limit: nat)
    requires |count| <= |sizes| && |s1| == |s2| && ByCount(count, s1) && (forall p :: 0 <= p < |s1| ==> s2[p].sym == s1[p].sym)
    requires Given(sizes, s2, 0, limit) && s < |sizes|
    ensures sizes[s] <= limit && (sizes[s] > 0 <==> s < |count| && count[s] > 0)
  {
    if sizes[s] > 0 { var p :| 0 <= p < |s2| && s2[p].sym == s; }
    if s < |count| && count[s] > 0 { var p :| 0 <= p < |s1| && s1[p].sym == s; }
  }

  lemma AllOrdered(sizes: seq<nat>, count: seq<nat>, s1: seq<SymFreq>, s2: seq<SymFreq>, limit: nat)
    requires |count| <= |sizes| && |s1| == |s2| && ByCount(count, s1) && (forall p :: 0 <= p < |s1| ==> s2[p].sym == s1[p].sym) && Given(sizes, s2, 0, limit)
    ensures forall s, t :: 0 <= s < |count| && 0 <= t < |count| && 0 < count[s] < count[t] ==> sizes[s] >= sizes[t]
  {
    forall s, t | 0 <= s < |count| && 0 <= t < |count| && 0 < count[s] < count[t] ensures sizes[s] >= sizes[t] {
      PairOrdered(sizes, count, s1, s2, limit, s, t);
    }
  }

  lemma PairOrdered(sizes: seq<nat>, count: seq<nat>, s1: seq<SymFreq>, s2: seq<SymFreq>, limit: nat, s: nat, t: nat)
    requires |count| <= |sizes| && |s1| == |s2| && ByCount(count, s1) && (forall p :: 0 <= p < |s1| ==> s2[p].sym == s1[p].sym) && Given(sizes, s2, 0, limit)
    requires s < |count| && t < |count| && 0 < count[s] < count[t]
    ensures sizes[s] >= sizes[t]
  {
    var p :| 0 <= p < |s1| && s1[p].sym == s;
    var q :| 0 <= q < |s1| && s1[q].sym == t;
    assert s1[p].key < s1[q].key;
  }

  /** `num_codes` from the finished keys. */
  method Histogram(syms: array<SymFreq>, used: nat) returns (num: array<int>)
    requires used <= syms.Length && forall p :: 0 <= p < used ==> syms[p].key <= MAX_SUPPORTED
    ensures fresh(num) && num.Length == MAX_SUPPORTED + 1 && HistogramOf(num[..], Keys(syms)[..used])
  {
    hide Count;
    num := new int[MAX_SUPPORTED + 1](_ => 0);
    ghost var ks := Keys(syms);
    forall d ensures Count(ks[..0], d) == 0 { CountEmpty(ks, d); }
    for p := 0 to used
      invariant forall d :: 0 <= d <= MAX_SUPPORTED ==> num[d] == Count(ks[..p], d)
    {
      forall d: nat ensures Count(ks[..p + 1], d) == Count(ks[..p], d) + (if ks[p] == d then 1 else 0) { CountStep(ks, d, p); }
      num[syms[p].key] := num[syms[p].key] + 1;
    }
  }

  /** What the tree leaves: the sizes are those of a Huffman tree, or 1 for a single symbol. */
  ghost predicate TreeSizes(w: seq<nat>, inner: seq<nat>, picks: seq<nat>, taken: seq<nat>, parents: seq<nat>, lens: seq<nat>) {
    && |w| == |lens| && (forall i :: 0 <= i < |lens| ==> 1 <= lens[i] <= 22) && (|w| == 1 ==> lens[0] == 1)
    && (|w| >= 2 ==> Huffman(w, inner, picks, taken, parents, lens))
  }

  /** The sizes of the Huffman tree, counted. */
  method TreeHistogramOf(syms: array<SymFreq>, used: nat, limit: nat)
    returns (num: array<int>, ghost inner: seq<nat>, ghost picks: seq<nat>, ghost taken: seq<nat>, ghost parents: seq<nat>, ghost lens: seq<nat>)
    requires used <= syms.Length && MinRedundancy.Sorted(KeysOf(syms[..used])) && Sum(KeysOf(syms[..used]), 0, used) < 65536 && 0 < limit <= 15
    requires forall p :: 0 <= p < used ==> syms[p].key > 0
    modifies syms
    ensures OnlyKeys(syms, used) && fresh(num) && num.Length == MAX_SUPPORTED + 1
    ensures HistogramOf(num[..], lens) && TreeSizes(old(KeysOf(syms[..used])), inner, picks, taken, parents, lens)
    ensures used > 1 ==> Full(num[..], used)
    ensures used <= 1 ==> (forall d :: 1 <= d <= limit ==> num[d] >= 0) && Codes(num[..], limit) == used
  {
    hide Greedy, Grown, LeafAt, LeafDepths, Huffman, Taken, Codes, Counts, Sum, Pow2, HistogramOf, MinRedundancy.Sorted;
    ghost var w := KeysOf(syms[..used]);
    assert Keys(syms)[..used] == w;
    inner, picks, taken, parents := CalculateMinimumRedundancy(syms, used);
    lens := Keys(syms)[..used];
    KeysReady(w, inner, picks, taken, parents, lens);
    num := Histogram(syms, used);
    HistogramReady(num[..], taken, lens, limit);
  }

  lemma TreeNear(count: seq<nat>, s1: seq<SymFreq>, s2: seq<SymFreq>, inner: seq<nat>, picks: seq<nat>, taken: seq<nat>, parents: seq<nat>, lens: seq<nat>,
                 sizes: seq<nat>, c: seq<int>, d: seq<int>, j: nat, t: nat)
    requires ByCount(count, s1) && |s1| <= |count| <= |sizes| == MAX_SYMBOLS && TreeSizes(KeysOf(s1), inner, picks, taken, parents, lens) && HistogramOf(c, lens)
    requires |c| == |d| == MAX_SUPPORTED + 1 && if |s1| > 1 then Full(c, |s1|) && Repaired(c, d, |s1|, 15, j, t) && Excess(d, |s1|, 15) else d == c
    requires |s1| == |s2| && (forall p :: 0 <= p < |s1| ==> s2[p].sym == s1[p].sym) && AllPlaced(d, sizes, s2, 0)
    requires forall s :: 0 <= s < |sizes| ==> sizes[s] <= 15 && (sizes[s] > 0 <==> s < |count| && count[s] > 0)
    ensures NearBest(count, sizes[..|count|])
  {
    hide HistogramOf, Huffman, Placed, NearBest, Repaired, Codes, Taken, Pow2;
    var n, mine := |s1|, sizes[..|count|];
    forall p | 0 <= p < n ensures Placed(d, n, p, mine[s1[p].sym]) { assert Placed(d, n, p, sizes[s2[p].sym]); }
    if n > 1 {
      LimitedNear(count, s1, inner, picks, taken, parents, lens, mine, c, d, j, t);
    } else {
      if n == 1 { OnePlaced(c, lens, mine[s1[0].sym]); }
      FewNear(count, mine);
    }
  }

  /** A single symbol gets size 1. */
  lemma OnePlaced(c: seq<int>, lens: seq<nat>, l: nat)
    requires lens == [1] && HistogramOf(c, lens) && Placed(c, 1, 0, l)
    ensures l == 1
  {
    assert Count(lens, 1) == Count([], 1) + 1;
    assert Counts(c) && c[1] == 1 && Codes(c, 1) == 1;
    CodesGrow(c, 1, if l > 1 then l - 1 else 1);
  }

  lemma SymsApart(count: seq<nat>, s1: seq<SymFreq>, s2: seq<SymFreq>)
    requires ByCount(count, s1) && |s1| == |s2| && |count| <= MAX_SYMBOLS && forall p :: 0 <= p < |s1| ==> s2[p].sym == s1[p].sym
    ensures (forall p :: 0 <= p < |s2| ==> s2[p].sym < MAX_SYMBOLS) && forall p, q :: 0 <= p < q < |s2| ==> s2[p].sym != s2[q].sym
    ensures forall p :: 0 <= p < |s1| ==> s1[p].key > 0
  {
  }

  lemma {:induction false} UsedSum(count: seq<nat>, syms: seq<SymFreq>, used: nat)
    requires UsedAre(count, syms, used)
    ensures Sum(count, 0, |count|) == Sum(KeysOf(syms[..used]), 0, used)
  {
    hide UsedAre;
    UsedRoom(count, syms, used);
    if count != [] {
      var n := |count| - 1;
      UsedLast(count, syms, used);
      UsedFewer(count, syms, used);
      if count[n] > 0 {
        UsedSum(count[..n], syms, used - 1);
        SumPrefix(KeysOf(syms[..used]), KeysOf(syms[..used - 1]), used - 1);
      } else {
        UsedSum(count[..n], syms, used);
      }
      SumPrefix(count, count[..n], n);
    }
  }

  lemma UsedRoom(count: seq<nat>, syms: seq<SymFreq>, used: nat)
    requires UsedAre(count, syms, used)
    ensures used <= |syms| && used <= |count|
  {
  }

  lemma UsedLast(count: seq<nat>, syms: seq<SymFreq>, used: nat)
    requires count != [] && UsedAre(count, syms, used)
    ensures count[|count| - 1] > 0 ==> 0 < used <= |syms| && syms[used - 1].sym == |count| - 1 && syms[used - 1].key == count[|count| - 1]
  {
    var n := |count| - 1;
    if count[n] > 0 {
      var p :| 0 <= p < used && syms[p].sym == n;
      if p < used - 1 { assert syms[p].sym < syms[used - 1].sym < |count|; }
    }
  }

  lemma UsedFewer(count: seq<nat>, syms: seq<SymFreq>, used: nat)
    requires count != [] && UsedAre(count, syms, used)
    requires count[|count| - 1] > 0 ==> used > 0 && syms[used - 1].sym == |count| - 1
    ensures UsedAre(count[..|count| - 1], syms, if count[|count| - 1] > 0 then used - 1 else used)
  {
    var n := |count| - 1;
    var k := if count[n] > 0 then used - 1 else used;
    forall p | 0 <= p < k ensures syms[p].sym < n {}
    forall s | 0 <= s < n && count[..n][s] > 0 ensures exists p :: 0 <= p < k && syms[p].sym == s {
      assert count[s] > 0;
      var p :| 0 <= p < used && syms[p].sym == s;
    }
    CountBound(syms, n, k);
  }

  /** Distinct ascending numbers below `n` are at most `n`. */
  lemma {:induction false} CountBound(syms: seq<SymFreq>, n: nat, k: nat)
    requires k <= |syms| && (forall p :: 0 <= p < k ==> syms[p].sym < n) && (forall p, q :: 0 <= p < q < k ==> syms[p].sym < syms[q].sym)
    ensures k <= n
  {
    if k > 0 { CountBound(syms, syms[k - 1].sym, k - 1); }
  }

  lemma {:induction false} SumPrefix(s: seq<nat>, t: seq<nat>, k: nat)
    requires k <= |s| && k <= |t| && s[..k] == t[..k]
    ensures Sum(s, 0, k) == Sum(t, 0, k)
  {
    if k > 0 {
      assert s[..k - 1] == s[..k][..k - 1] && t[..k - 1] == t[..k][..k - 1] && s[..k][k - 1] == t[..k][k - 1];
      SumPrefix(s, t, k - 1);
    }
  }

  lemma {:induction false} SumAtLeast(s: seq<nat>, i: nat, n: nat)
    requires i < n <= |s|
    ensures s[i] <= Sum(s, 0, n)
  {
    if i < n - 1 { SumAtLeast(s, i, n - 1); }
  }

  lemma UsedSmall(count: seq<nat>, syms: seq<SymFreq>, used: nat)
    requires UsedAre(count, syms, used) && Sum(count, 0, |count|) < 65536
    ensures forall p :: 0 <= p < used ==> syms[p].key < 65536
  {
    forall p | 0 <= p < used ensures syms[p].key < 65536 { SumAtLeast(count, syms[p].sym, |count|); }
  }

  /** Sorting keeps the entries. */
  lemma SortedSyms(count: seq<nat>, syms: seq<SymFreq>, s0: seq<SymFreq>, s1: seq<SymFreq>, at: seq<nat>)
    requires UsedAre(count, syms, |s0|) && s0 == syms[..|s0|] && StableSorted(s0, s1, at)
    ensures ByCount(count, s1) && MinRedundancy.Sorted(KeysOf(s1))
  {
    forall p, q | 0 <= p < q < |s1| ensures s1[p].sym != s1[q].sym && s1[p].key <= s1[q].key { assert Before(s0, at[p], at[q]); }
    forall s | 0 <= s < |count| && count[s] > 0 ensures exists p :: 0 <= p < |s1| && s1[p].sym == s {
      var k :| 0 <= k < |s0| && syms[k].sym == s;
      var p := Onto(at, k);
      assert s1[p].sym == s;
    }
  }

  lemma SortedSum(count: seq<nat>, syms: seq<SymFreq>, s0: seq<SymFreq>, s1: seq<SymFreq>, at: seq<nat>)
    requires UsedAre(count, syms, |s0|) && s0 == syms[..|s0|] && StableSorted(s0, s1, at)
    ensures Sum(KeysOf(s1), 0, |s1|) == Sum(count, 0, |count|)
  {
    hide UsedAre, Sum;
    UsedSum(count, syms, |s0|);
    forall p, q | 0 <= p < q < |s1| ensures at[p] != at[q] { assert Before(s0, at[p], at[q]); }
    SumRearranged(KeysOf(s0), KeysOf(s1), at);
  }

  /** An arrangement without repetition uses every place. */
  lemma {:induction false} Onto(at: seq<nat>, k: nat) returns (p: nat)
    requires k < |at| && (forall p :: 0 <= p < |at| ==> at[p] < |at|) && forall p, q :: 0 <= p < q < |at| ==> at[p] != at[q]
    ensures p < |at| && at[p] == k
    decreases |at|
  {
    var n := |at| - 1;
    var i := at[n];
    if i == k {
      p := n;
    } else {
      p := Onto(Closed(at), if k < i then k else k - 1);
    }
  }

  lemma {:induction false} SumRearranged(ds: seq<nat>, es: seq<nat>, at: seq<nat>)
    requires |ds| == |es| == |at| && (forall p :: 0 <= p < |at| ==> at[p] < |ds| && es[p] == ds[at[p]])
    requires forall p, q :: 0 <= p < q < |at| ==> at[p] != at[q]
    ensures Sum(ds, 0, |ds|) == Sum(es, 0, |es|)
    decreases |at|
  {
    if ds != [] {
      var n := |ds| - 1;
      var i := at[n];
      SumRearranged(ds[..i] + ds[i + 1..], es[..n], Closed(at));
      SumWithout(ds, i, |ds|);
      SumPrefix(es, es[..n], n);
    }
  }

  lemma {:induction false} SumWithout(s: seq<nat>, i: nat, b: nat)
    requires i < b <= |s|
    ensures Sum(s, 0, b) == s[i] + Sum(s[..i] + s[i + 1..], 0, b - 1)
  {
    var r := s[..i] + s[i + 1..];
    if i < b - 1 { SumWithout(s, i, b - 1); } else { SumPrefix(s, r, i); }
  }

  lemma UsedNext(count: seq<nat>, before: seq<SymFreq>, after: seq<SymFreq>, used: nat)
    requires count != [] && |before| == |after|
    requires if count[|count| - 1] > 0 then used > 0 && used <= |before| && UsedAre(count[..|count| - 1], before, used - 1) && after == before[used - 1 := SymFreq(count[|count| - 1], |count| - 1)]
             else UsedAre(count[..|count| - 1], before, used) && after == before
    ensures UsedAre(count, after, used)
  {
    var n := |count| - 1;
    forall s | 0 <= s < |count| && count[s] > 0 ensures exists p :: 0 <= p < used && after[p].sym == s {
      if s == n {
        assert after[used - 1].sym == s;
      } else {
        assert count[..n][s] > 0;
        var k := if count[n] > 0 then used - 1 else used;
        var p :| 0 <= p < k && before[p].sym == s;
        assert after[p].sym == s;
      }
    }
  }
}
