/** `tdefl_huffman_enforce_max_code_size`: histograms of code sizes, and how codes are limited in size. */
module CodeLimit {
  import opened Bits
  import opened Canonical
  import opened RadixSort
  import opened MinRedundancy
  import opened TreeCode

  const MAX_SUPPORTED := 32

  // ----- histograms of code sizes

  /** Codes of size up to `i`. */
  function Codes(c: seq<int>, i: nat): int
    requires i < |c|
  {
    if i == 0 then 0 else Codes(c, i - 1) + c[i]
  }

  /** The code space that codes of size up to `i` take, in units of one code of size `i`. */
  function Taken(c: seq<int>, i: nat): int
    requires i < |c|
  {
    if i == 0 then 0 else 2 * Taken(c, i - 1) + c[i]
  }

  ghost predicate Counts(c: seq<int>) {
    forall i :: 0 <= i < |c| ==> c[i] >= 0
  }

  lemma {:induction false} TakenNat(c: seq<int>, i: nat)
    requires i < |c| && Counts(c)
    ensures 0 <= Taken(c, i) && 0 <= Codes(c, i)
  {
    if i > 0 { TakenNat(c, i - 1); }
  }

  lemma {:induction false} TakenGrows(c: seq<int>, i: nat, j: nat)
    requires i <= j < |c| && Counts(c)
    ensures 0 <= Taken(c, i) && Shl(Taken(c, i), j - i) <= Taken(c, j)
  {
    TakenNat(c, i);
    if i < j { TakenGrows(c, i, j - 1); }
  }

  /** Codes longer than `m` count for at most one unit each when they are cut to `m`. */
  lemma {:induction false} CutGrows(c: seq<int>, m: nat, j: nat)
    requires m <= j < |c| && Counts(c)
    ensures 0 <= Taken(c, m) && 0 <= Codes(c, j) - Codes(c, m)
    ensures Taken(c, j) <= Shl(Taken(c, m) + (Codes(c, j) - Codes(c, m)), j - m)
  {
    TakenNat(c, m);
    if m < j {
      CutGrows(c, m, j - 1);
      var x := Taken(c, m) + (Codes(c, j - 1) - Codes(c, m));
      ShlSum(x, c[j], j - m);
      ShlGrows(c[j], j - m);
    }
  }

  lemma {:induction false} ShlGrows(w: nat, n: nat)
    ensures w <= Shl(w, n)
  {
    if n > 0 { ShlGrows(w, n - 1); }
  }

  lemma {:induction false} SameBelow(c: seq<int>, d: seq<int>, i: nat)
    requires i < |c| == |d| && forall k :: 1 <= k <= i ==> c[k] == d[k]
    ensures Taken(c, i) == Taken(d, i) && Codes(c, i) == Codes(d, i)
  {
    if i > 0 { SameBelow(c, d, i - 1); }
  }

  /** One code fewer of size `i`, and two more of size `i + 1`. */
  ghost function Split(c: seq<int>, i: nat): seq<int>
    requires i + 1 < |c|
  {
    c[i := c[i] - 1][i + 1 := c[i + 1] + 2]
  }

  lemma {:induction false} SplitKeeps(c: seq<int>, i: nat, j: nat)
    requires 0 < i && i + 1 < |c| && j < |c|
    ensures Taken(Split(c, i), j) == Taken(c, j) - (if j == i then 1 else 0)
    ensures Codes(Split(c, i), j) == Codes(c, j) + (if j < i then 0 else if j == i then -1 else 1)
  {
    if j > 0 { SplitKeeps(c, i, j - 1); }
  }

  lemma Adjusted(c: seq<int>, m: nat, more: int)
    requires 0 < m < |c|
    ensures var d := c[m := c[m] + more]; Taken(d, m) == Taken(c, m) + more && Codes(d, m) == Codes(c, m) + more && Taken(d, m - 1) == Taken(c, m - 1)
  {
    SameBelow(c, c[m := c[m] + more], m - 1);
  }

  lemma {:induction false} NoneShorter(c: seq<int>, i: nat)
    requires i < |c| && forall k :: 1 <= k <= i ==> c[k] == 0
    ensures Taken(c, i) == 0 && Codes(c, i) == 0
  {
    if i > 0 { NoneShorter(c, i - 1); }
  }

  // ----- limiting

  /** The histogram on the way to the limit `m`: `n` codes, too many for the code space by `Taken - 2^m`, and only because of the
      longest ones. */
  ghost predicate Excess(c: seq<int>, n: nat, m: nat) {
    && 0 < m < |c| == MAX_SUPPORTED + 1 && (forall i :: 0 <= i <= m ==> c[i] >= 0) && Codes(c, m) == n
    && Taken(c, m - 1) <= Pow2(m - 1) && Taken(c, m) >= Pow2(m)
  }

  lemma ExcessStart(c: seq<int>, n: nat, m: nat)
    requires |c| == MAX_SUPPORTED + 1 && 0 < m < MAX_SUPPORTED && Counts(c) && Codes(c, MAX_SUPPORTED) == n && Taken(c, MAX_SUPPORTED) == Pow2(MAX_SUPPORTED)
    ensures Excess(c[m := c[m] + (n - Codes(c, m))], n, m)
  {
    hide Pow2, Shl, Taken, Codes;
    var more := n - Codes(c, m);
    CutGrows(c, m, MAX_SUPPORTED);
    Adjusted(c, m, more);
    ShlPow2(m, MAX_SUPPORTED - m);
    ShlCancel(Pow2(m), Taken(c, m) + more, MAX_SUPPORTED - m);
    TakenGrows(c, m - 1, MAX_SUPPORTED);
    ShlPow2(m - 1, MAX_SUPPORTED - (m - 1));
    ShlCancel(Taken(c, m - 1), Pow2(m - 1), MAX_SUPPORTED - (m - 1));
  }

  /** While there is an excess some code is of the greatest size, and some is shorter. */
  lemma ExcessRoom(c: seq<int>, n: nat, m: nat)
    requires Excess(c, n, m) && Taken(c, m) > Pow2(m) && n <= Pow2(m)
    ensures c[m] > 0 && exists i :: 1 <= i < m && c[i] > 0
  {
    if forall i :: 1 <= i < m ==> c[i] <= 0 { NoneShorter(c, m - 1); }
  }

  lemma ExcessStep(c: seq<int>, n: nat, m: nat, i: nat)
    requires Excess(c, n, m) && Taken(c, m) > Pow2(m) && c[m] > 0 && 1 <= i < m && c[i] > 0
    ensures var d := Split(c[m := c[m] - 1], i); Excess(d, n, m) && Taken(d, m) == Taken(c, m) - 1
  {
    hide Pow2, Taken, Codes;
    var e := c[m := c[m] + -1];
    Adjusted(c, m, -1);
    SplitKeeps(e, i, m);
    SplitKeeps(e, i, m - 1);
  }

  lemma {:induction false} ShiftedSum(c: seq<int>, m: nat, i: nat)
    requires 0 < i <= m < |c| && (forall k :: 0 <= k <= m ==> c[k] >= 0)
    ensures 0 <= Taken(c, i - 1) && 0 <= Taken(c, i)
    ensures Shl(Taken(c, i), m - i) == Shl(Taken(c, i - 1), m - (i - 1)) + Shl(c[i], m - i)
  {
    TakenNat(c[..m + 1], i - 1);
    SameTaken(c, m + 1, i - 1);
    SameTaken(c, m + 1, i);
    TakenNat(c[..m + 1], i);
    ShlSum(2 * Taken(c, i - 1), c[i], m - i);
    assert Shl(2 * Taken(c, i - 1), m - i) == Shl(Taken(c, i - 1), m - (i - 1)) by { ShlShl(Taken(c, i - 1), 1, m - i); }
  }

  lemma {:induction false} SameTaken(c: seq<int>, k: nat, i: nat)
    requires i < k <= |c|
    ensures Taken(c[..k], i) == Taken(c, i)
  {
    if i > 0 { SameTaken(c, k, i - 1); }
  }

  // ----- how much the repair changes

  /** After the repair: no size below `j` has changed, and `t` codes of size `j` have been split, which happens only while nearly all
      codes are longer. */
  ghost predicate Repaired(c: seq<int>, d: seq<int>, n: nat, m: nat, j: nat, t: nat) {
    && |c| == |d| == MAX_SUPPORTED + 1 && 1 <= j <= m < MAX_SUPPORTED && (forall i :: 1 <= i < j ==> d[i] == c[i])
    && (j < m ==> 1 <= t && d[j] == c[j] - t && Codes(c, m) < n && Open(c, j) >= 0 && Shl(Open(c, j) + t - 1, m - j) < n)
  }

  /** The code space left over by codes of size up to `i`, in units of one code of size `i`. */
  function Open(c: seq<int>, i: nat): int
    requires i < |c|
  {
    Pow2(i) - Taken(c, i)
  }

  /** A histogram of all codes of a full code space. */
  ghost predicate Full(c: seq<int>, n: nat) {
    |c| == MAX_SUPPORTED + 1 && Counts(c) && Codes(c, MAX_SUPPORTED) == n && Taken(c, MAX_SUPPORTED) == Pow2(MAX_SUPPORTED)
  }

  lemma FullOpen(c: seq<int>, n: nat, i: nat)
    requires Full(c, n) && i <= MAX_SUPPORTED
    ensures Open(c, i) >= 0
  {
    hide Pow2, Shl, Taken, Codes;
    TakenGrows(c, i, MAX_SUPPORTED);
    ShlPow2(i, MAX_SUPPORTED - i);
    ShlCancel(Taken(c, i), Pow2(i), MAX_SUPPORTED - i);
  }

  lemma {:induction false} CodesGrow(c: seq<int>, i: nat, k: nat)
    requires i <= k < |c| && forall d :: 1 <= d <= k ==> c[d] >= 0
    ensures 0 <= Codes(c, i) <= Codes(c, k)
  {
    if k > 0 { CodesGrow(c, if i < k then i else k - 1, k - 1); }
  }

  /** Nothing but the longest codes beyond size `i`. */
  lemma {:induction false} TakenFlat(d: seq<int>, i: nat, m: nat)
    requires i < m < |d| && (forall k :: i < k < m ==> d[k] == 0) && Taken(d, i) >= 0
    ensures Taken(d, m) == Shl(Taken(d, i), m - i) + d[m] && Codes(d, m) == Codes(d, i) + d[m]
  {
    if i + 1 < m {
      TakenFlat(d, i, m - 1);
      assert d[m - 1] == 0;
    }
  }

  /** Codes of size `i` are split only while the longest ones outnumber what is left of the code space. */
  lemma Outnumbered(d: seq<int>, n: nat, m: nat, i: nat)
    requires Excess(d, n, m) && Taken(d, m) > Pow2(m) && 1 <= i < m && (forall k :: i < k < m ==> d[k] == 0) && Open(d, i) >= 0
    ensures Shl(Open(d, i), m - i) < n
  {
    hide Pow2, Shl, Taken, Codes;
    TakenNat(d[..m + 1], i);
    SameTaken(d, m + 1, i);
    TakenFlat(d, i, m);
    ShlPow2(i, m - i);
    ShlSum(Taken(d, i), Open(d, i), m - i);
    CodesGrow(d, i, m);
  }

  /** Only codes that had to be cut make an excess. */
  lemma SomeCut(c: seq<int>, d: seq<int>, n: nat, m: nat)
    requires Full(c, n) && Excess(d, n, m) && Taken(d, m) > Pow2(m) && 0 < m < MAX_SUPPORTED && forall i :: 1 <= i < m ==> d[i] == c[i]
    ensures Codes(c, m) < n
  {
    hide Pow2, Taken, Codes;
    CodesGrow(c, m, MAX_SUPPORTED);
    if Codes(c, m) == n {
      SameBelow(c, d, m - 1);
      LastSame(c, d, m);
      FullOpen(c, n, m);
    }
  }

  lemma LastSame(c: seq<int>, d: seq<int>, m: nat)
    requires 0 < m < |c| == |d| && Codes(c, m - 1) == Codes(d, m - 1) && Codes(c, m) == Codes(d, m) && Taken(c, m - 1) == Taken(d, m - 1)
    ensures Taken(c, m) == Taken(d, m)
  {
  }

  lemma LastLess(c: seq<int>, d: seq<int>, j: nat, t: nat)
    requires 0 < j < |c| == |d| && Taken(c, j - 1) == Taken(d, j - 1) && d[j] == c[j] - t
    ensures Taken(d, j) == Taken(c, j) - t
  {
  }

  lemma RepairedStep(c: seq<int>, d: seq<int>, n: nat, m: nat, j: nat, t: nat, i: nat) returns (j': nat, t': nat)
    requires Full(c, n) && Repaired(c, d, n, m, j, t) && Excess(d, n, m) && Taken(d, m) > Pow2(m)
    requires 1 <= i < m && d[i] > 0 && forall k :: i < k < m ==> d[k] == 0
    ensures Repaired(c, Split(d[m := d[m] - 1], i), n, m, j', t')
  {
    hide Pow2, Taken, Codes, Shl, Excess, Full;
    j', t' := if i < j then i else j, if i < j then 1 else if i == j then t + 1 else t;
    if i <= j {
      SameBelow(c, d, i - 1);
      LastLess(c, d, i, if i < j then 0 else t);
      FullOpen(c, n, i);
      Outnumbered(d, n, m, i);
      if j == m { SomeCut(c, d, n, m); }
    }
  }

  /** `tdefl_huffman_enforce_max_code_size`: codes longer than `m` are cut, and shorter ones split until the code space is exactly
      full again.  Each pass takes one off the excess, and the number of codes stays the same. */
  method EnforceMaxCodeSize(num: array<int>, n: nat, m: nat) returns (ghost j: nat, ghost t: nat)
    requires num.Length == MAX_SUPPORTED + 1 && 0 < m < MAX_SUPPORTED && n <= Pow2(m)
    requires n > 1 ==> Full(num[..], n)
    modifies num
    ensures n <= 1 ==> num[..] == old(num[..])
    ensures n > 1 ==> Excess(num[..], n, m) && Taken(num[..], m) == Pow2(m) && Repaired(old(num[..]), num[..], n, m, j, t)
  {
    hide Pow2, Shl, Excess, Counts, Taken, Codes;
    j, t := m, 0;
    if n <= 1 { return; }
    ghost var c := num[..];
    for i := m + 1 to MAX_SUPPORTED + 1
      invariant num[..] == c[m := c[m] + (Codes(c, i - 1) - Codes(c, m))]
    {
      CodesNext(c, i);
      num[m] := num[m] + num[i];
    }
    ExcessStart(c, n, m);
    ghost var d := num[..];
    ExcessShape(d, n, m);
    var total := 0;
    var i := m;
    ShlNone(Taken(d, m));
    while i > 0
      invariant num[..] == d && 0 <= i <= m && 0 <= Taken(d, i) && total + Shl(Taken(d, i), m - i) == Taken(d, m)
    {
      ShiftedSum(d, m, i);
      total := total + Shl(num[i], m - i);
      i := i - 1;
    }
    ShlOfZero(m);
    TakenNone(d);
    while total != Pow2(m)
      invariant Excess(num[..], n, m) && total == Taken(num[..], m) && total >= Pow2(m) && Repaired(c, num[..], n, m, j, t)
      decreases total
    {
      ghost var before := num[..];
      ExcessRoom(num[..], n, m);
      ExcessShape(num[..], n, m);
      ghost var i;
      total, i := SplitOne(num, n, m, total);
      j, t := RepairedStep(c, before, n, m, j, t, i);
    }
  }

  lemma ExcessShape(c: seq<int>, n: nat, m: nat)
    requires Excess(c, n, m)
    ensures 0 < m < |c| && (forall i :: 0 <= i <= m ==> c[i] >= 0) && Taken(c, m) >= Pow2(m)
  {
  }

  lemma CodesNext(c: seq<int>, i: nat)
    requires 0 < i < |c|
    ensures Codes(c, i) == Codes(c, i - 1) + c[i]
  {
  }

  lemma TakenNone(c: seq<int>)
    requires c != []
    ensures Taken(c, 0) == 0
  {
  }

  lemma ShlNone(w: nat)
    ensures Shl(w, 0) == w
  {
  }

  lemma {:induction false} ShlOfZero(n: nat)
    ensures Shl(0, n) == 0
  {
    if n > 0 { ShlOfZero(n - 1); }
  }

  /** One pass of the repair loop. */
  method SplitOne(num: array<int>, n: nat, m: nat, total: int) returns (total': int, ghost place: nat)
    requires Excess(num[..], n, m) && total == Taken(num[..], m) > Pow2(m) && num.Length == MAX_SUPPORTED + 1 && m < MAX_SUPPORTED
    requires num[m] > 0 && exists i :: 1 <= i < m && num[i] > 0
    modifies num
    ensures Excess(num[..], n, m) && total' == Taken(num[..], m) == total - 1
    ensures 1 <= place < m && old(num[place]) > 0 && (forall k :: place < k < m ==> old(num[k]) == 0)
    ensures num[..] == Split(old(num[..])[m := old(num[m]) - 1], place)
  {
    hide Pow2, Excess;
    ghost var c := num[..];
    ghost var k :| 1 <= k < m && num[k] > 0;
    num[m] := num[m] - 1;
    var i := m - 1;
    while num[i] == 0
      invariant k <= i < m && num[..] == c[m := c[m] - 1] && forall l :: i < l < m ==> c[l] == 0
      decreases i
    {
      i := i - 1;
    }
    ExcessShape(c, n, m);
    ExcessStep(c, n, m, i);
    num[i] := num[i] - 1;
    num[i + 1] := num[i + 1] + 2;
    assert num[..] == Split(c[m := c[m] - 1], i);
    total', place := total - 1, i;
  }

  // ----- the histogram of a Huffman tree

  /** The histogram of code sizes up to 32. */
  ghost predicate HistogramOf(c: seq<int>, lens: seq<nat>) {
    |c| == MAX_SUPPORTED + 1 && forall d :: 0 <= d <= MAX_SUPPORTED ==> c[d] == Count(lens, d)
  }

  lemma {:induction false} HistogramTaken(c: seq<int>, lens: seq<nat>, i: nat)
    requires HistogramOf(c, lens) && 1 <= i <= MAX_SUPPORTED
    ensures Taken(c, i) == First(lens, i) + Count(lens, i)
  {
    hide Count;
    assert Taken(c, 0) == 0;
    if i > 1 {
      HistogramTaken(c, lens, i - 1);
      FirstStep(lens, i - 1);
    } else {
      FirstOne(lens);
    }
  }

  lemma {:induction false} HistogramCodes(c: seq<int>, lens: seq<nat>, i: nat)
    requires HistogramOf(c, lens) && i <= MAX_SUPPORTED && Count(lens, 0) == 0
    ensures Codes(c, i) == Below(lens, i + 1)
  {
    hide Count;
    if i > 0 { HistogramCodes(c, lens, i - 1); } else { BelowStep(lens, 0); }
  }

  /** The sizes of a Huffman tree pass on to the limiter just what it asks for. */
  lemma TreeHistogram(taken: seq<nat>, lens: seq<nat>, c: seq<int>)
    requires LeafDepths(taken, lens) && HistogramOf(c, lens) && forall i :: 0 <= i < |lens| ==> lens[i] <= 22
    ensures Counts(c) && Codes(c, MAX_SUPPORTED) == |lens| && Taken(c, MAX_SUPPORTED) == Pow2(MAX_SUPPORTED)
  {
    hide Count, Pow2, First, Below, Taken, Codes, Shaped, LeafAt;
    KraftEqual(taken, lens, MAX_SUPPORTED);
    HistogramTaken(c, lens, MAX_SUPPORTED);
    forall i | 0 <= i < |lens| ensures lens[i] >= 1 { LeafRange(taken, lens, i, 1); }
    CountNone(lens, 0);
    HistogramCodes(c, lens, MAX_SUPPORTED);
    BelowAll(lens, MAX_SUPPORTED + 1);
  }

  lemma {:induction false} CountNone(lens: seq<nat>, d: nat)
    requires forall i :: 0 <= i < |lens| ==> lens[i] != d
    ensures Count(lens, d) == 0
  {
    if lens != [] { CountNone(lens[..|lens| - 1], d); }
  }

  lemma {:induction false} CountUpdate(lens: seq<nat>, k: nat, v: nat, d: nat)
    requires k < |lens|
    ensures Count(lens[k := v], d) == Count(lens, d) - (if lens[k] == d then 1 else 0) + (if v == d then 1 else 0)
  {
    var n := |lens| - 1;
    if k < n {
      CountUpdate(lens[..n], k, v, d);
      assert lens[k := v][..n] == lens[..n][k := v];
    } else {
      assert lens[k := v][..n] == lens[..n];
    }
  }

  /** Code sizes with the limited histogram make a complete code. */
  lemma {:induction false} LimitedFirst(c: seq<int>, lens: seq<nat>, m: nat, i: nat)
    requires |c| == MAX_SUPPORTED + 1 && 1 <= m <= 15 && 1 <= i <= 15
    requires forall d :: 1 <= d <= 15 ==> Count(lens, d) == if d <= m then c[d] else 0
    ensures First(lens, i) + Count(lens, i) == if i <= m then Taken(c, i) else Shl(First(lens, m) + Count(lens, m), i - m)
  {
    hide Count;
    assert Taken(c, 0) == 0;
    if i > 1 {
      LimitedFirst(c, lens, m, i - 1);
      FirstStep(lens, i - 1);
    } else {
      FirstOne(lens);
    }
  }

  lemma LimitedComplete(c: seq<int>, lens: seq<nat>, m: nat)
    requires |c| == MAX_SUPPORTED + 1 && 1 <= m <= 15 && Taken(c, m) == Pow2(m) && forall i :: 0 <= i < |lens| ==> lens[i] <= m
    requires forall d :: 1 <= d <= m ==> Count(lens, d) == c[d]
    ensures Complete(lens)
  {
    hide Count, Taken, First, Pow2;
    forall d | m < d <= 15 ensures Count(lens, d) == 0 { CountNone(lens, d); }
    LimitedFirst(c, lens, m, m);
    LimitedFirst(c, lens, m, 15);
    ShlPow2(m, 15 - m);
    FirstStep(lens, 15);
    Pow2Values();
  }
}
