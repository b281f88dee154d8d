/** `tdefl_radix_sort_syms`: symbols sorted by 16-bit frequency, one byte at a time, least significant byte first. */
module RadixSort {
  import opened Canonical

  /** `tdefl_sym_freq` */
  datatype SymFreq = SymFreq(key: nat, sym: nat)

  function Digit(key: nat, pass: nat): (d: nat)
    ensures d < 256
  {
    if pass == 0 then key % 256 else key / 256 % 256
  }

  function Digits(s: seq<SymFreq>, pass: nat): (ds: seq<nat>)
    ensures |ds| == |s| && forall i :: 0 <= i < |s| ==> ds[i] == Digit(s[i].key, pass)
  {
    seq(|s|, i requires 0 <= i < |s| => Digit(s[i].key, pass))
  }

  // ----- where a pass puts each element

  /** How many digits are below `b`: where bucket `b` begins. */
  function Below(ds: seq<nat>, b: nat): nat {
    if b == 0 then 0 else Below(ds, b - 1) + Count(ds, b - 1)
  }

  function Pos(ds: seq<nat>, i: nat): nat
    requires i < |ds|
  {
    Below(ds, ds[i]) + Count(ds[..i], ds[i])
  }

  lemma {:induction false} BelowMono(ds: seq<nat>, a: nat, b: nat)
    requires a <= b
    ensures Below(ds, a) <= Below(ds, b)
  {
    if a < b { BelowMono(ds, a, b - 1); }
  }

  /** Every digit is in some bucket. */
  lemma {:induction false} BelowSplit(ds: seq<nat>, b: nat)
    requires ds != []
    ensures Below(ds, b) == Below(ds[..|ds| - 1], b) + (if ds[|ds| - 1] < b then 1 else 0)
  {
    if b > 0 { BelowSplit(ds, b - 1); }
  }

  lemma {:induction false} BelowAll(ds: seq<nat>, b: nat)
    requires forall i :: 0 <= i < |ds| ==> ds[i] < b
    ensures Below(ds, b) == |ds|
  {
    if ds == [] {
      BelowNone(b);
    } else {
      BelowSplit(ds, b);
      BelowAll(ds[..|ds| - 1], b);
    }
  }

  lemma {:induction false} BelowNone(b: nat)
    ensures Below([], b) == 0
  {
    if b > 0 { BelowNone(b - 1); }
  }

  /** Elements go to places in the order of their digits, and of their old places among equal digits. */
  ghost predicate Sooner(ds: seq<nat>, i: nat, k: nat)
    requires i < |ds| && k < |ds|
  {
    ds[i] < ds[k] || (ds[i] == ds[k] && i < k)
  }

  lemma PosOrder(ds: seq<nat>, i: nat, k: nat)
    requires i < |ds| && k < |ds| && Sooner(ds, i, k)
    ensures Pos(ds, i) < Pos(ds, k)
  {
    if ds[i] == ds[k] {
      RankIncreases(ds, i, k);
    } else {
      RankBelowCount(ds, i);
      BelowMono(ds, ds[i] + 1, ds[k]);
    }
  }

  lemma PosBound(ds: seq<nat>, i: nat)
    requires i < |ds| && forall j :: 0 <= j < |ds| ==> ds[j] < 256
    ensures Pos(ds, i) < |ds|
  {
    RankBelowCount(ds, i);
    BelowMono(ds, ds[i] + 1, 256);
    BelowAll(ds, 256);
  }

  /** Every place is taken by some element. */
  lemma PosAt(ds: seq<nat>, p: nat) returns (i: nat)
    requires p < |ds| && forall j :: 0 <= j < |ds| ==> ds[j] < 256
    ensures i < |ds| && Pos(ds, i) == p
  {
    BelowAll(ds, 256);
    var b := 0;
    while Below(ds, b + 1) <= p
      invariant b < 256 && Below(ds, b) <= p
      decreases 256 - b
    {
      BelowMono(ds, 0, b + 1);
      if b == 255 {
        assert false;
      }
      b := b + 1;
    }
    i := SymbolOfRank(ds, b, p - Below(ds, b));
  }

  // ----- what sorting means

  /** `t` is `s` rearranged, `at[p]` being the old place of `t[p]`. */
  ghost predicate Rearranged(s: seq<SymFreq>, t: seq<SymFreq>, at: seq<nat>) {
    |s| == |t| == |at| && forall p :: 0 <= p < |at| ==> at[p] < |s| && t[p] == s[at[p]]
  }

  ghost predicate StableBy(s: seq<SymFreq>, t: seq<SymFreq>, at: seq<nat>, pass: nat) {
    Rearranged(s, t, at) && forall p, q :: 0 <= p < q < |at| ==> Sooner(Digits(s, pass), at[p], at[q])
  }

  ghost predicate Before(s: seq<SymFreq>, i: nat, k: nat)
    requires i < |s| && k < |s|
  {
    s[i].key < s[k].key || (s[i].key == s[k].key && i < k)
  }

  /** By key, and in the old order among equal keys.  The order is strict, so no place of `s` is used twice. */
  ghost predicate StableSorted(s: seq<SymFreq>, t: seq<SymFreq>, at: seq<nat>) {
    Rearranged(s, t, at) && forall p, q :: 0 <= p < q < |at| ==> Before(s, at[p], at[q])
  }

  /** Two passes, low byte first, sort by the whole key. */
  lemma TwoPasses(s: seq<SymFreq>, t: seq<SymFreq>, u: seq<SymFreq>, at0: seq<nat>, at1: seq<nat>) returns (at: seq<nat>)
    requires forall i :: 0 <= i < |s| ==> s[i].key < 65536
    requires StableBy(s, t, at0, 0) && StableBy(t, u, at1, 1)
    ensures StableSorted(s, u, at)
  {
    at := seq(|s|, p requires 0 <= p < |s| => at0[at1[p]]);
    forall p, q | 0 <= p < q < |s| ensures Before(s, at[p], at[q]) {
      var j, k := at1[p], at1[q];
      assert Sooner(Digits(t, 1), j, k);
      KeyOrder(s[at[p]].key, s[at[q]].key);
      if j < k { assert Sooner(Digits(s, 0), at0[j], at0[k]); }
    }
  }

  lemma KeyOrder(a: nat, b: nat)
    requires a < 65536 && b < 65536
    ensures Digit(a, 1) < Digit(b, 1) ==> a < b
    ensures Digit(a, 1) == Digit(b, 1) && Digit(a, 0) < Digit(b, 0) ==> a < b
    ensures Digit(a, 1) == Digit(b, 1) && Digit(a, 0) == Digit(b, 0) ==> a == b
  {
  }

  /** When every high byte is 0 one pass is enough. */
  lemma OnePass(s: seq<SymFreq>, t: seq<SymFreq>, at: seq<nat>)
    requires forall i :: 0 <= i < |s| ==> s[i].key < 65536 && Digit(s[i].key, 1) == 0
    requires StableBy(s, t, at, 0)
    ensures StableSorted(s, t, at)
  {
    forall p, q | 0 <= p < q < |at| ensures Before(s, at[p], at[q]) {
      assert Sooner(Digits(s, 0), at[p], at[q]);
      KeyOrder(s[at[p]].key, s[at[q]].key);
    }
  }

  lemma {:induction false} CountAll(ds: seq<nat>, b: nat)
    requires Count(ds, b) == |ds|
    ensures forall i :: 0 <= i < |ds| ==> ds[i] == b
  {
    if ds != [] { CountAll(ds[..|ds| - 1], b); }
  }

  lemma {:induction false} CountRearranged(ds: seq<nat>, es: seq<nat>, at: seq<nat>, b: nat)
    requires |ds| == |es| == |at| && (forall p :: 0 <= p < |at| ==> at[p] < |ds| && es[p] == ds[at[p]])
    requires forall p, q :: 0 <= p < q < |at| ==> at[p] != at[q]
    ensures Count(ds, b) == Count(es, b)
  {
    hide Count;
    if ds == [] {
      assert es == ds;
    } else {
      var k := |ds| - 1;
      var i := at[k];
      var fewer := ds[..i] + ds[i + 1..];
      CountRearranged(fewer, es[..k], Closed(at), b);
      CountInsert(ds, i, b);
      CountStep(es, b, k);
      assert es[..k + 1] == es;
    }
  }

  /** The other places, once the last element's old place is closed up. */
  ghost function Closed(at: seq<nat>): (r: seq<nat>)
    requires at != [] && forall p, q :: 0 <= p < q < |at| ==> at[p] != at[q]
    ensures |r| == |at| - 1 && forall p :: 0 <= p < |r| ==> r[p] == if at[p] < at[|at| - 1] then at[p] else at[p] - 1
  {
    seq(|at| - 1, p requires 0 <= p < |at| - 1 => if at[p] < at[|at| - 1] then at[p] else at[p] - 1)
  }

  lemma CountInsert(ds: seq<nat>, i: nat, b: nat)
    requires i < |ds|
    ensures Count(ds, b) == Count(ds[..i] + ds[i + 1..], b) + (if ds[i] == b then 1 else 0)
  {
    hide Count;
    assert ds == ds[..i] + ([ds[i]] + ds[i + 1..]);
    CountConcat(ds[..i], [ds[i]] + ds[i + 1..], b);
    CountConcat([ds[i]], ds[i + 1..], b);
    CountConcat(ds[..i], ds[i + 1..], b);
    CountOne(ds[i], b);
  }

  lemma CountOne(d: nat, b: nat)
    ensures Count([d], b) == if d == b then 1 else 0
  {
    assert [d][..0] == [];
  }

  // ----- the sort

  /** One pass: elements go to their buckets in order. */
  method Scatter(n: nat, cur: array<SymFreq>, dest: array<SymFreq>, hist: seq<nat>, pass: nat) returns (ghost at: seq<nat>)
    requires n <= cur.Length && n <= dest.Length && cur != dest && |hist| == 256
    requires forall b :: 0 <= b < 256 ==> hist[b] == Count(Digits(cur[..n], pass), b)
    modifies dest
    ensures StableBy(cur[..n], dest[..n], at, pass)
  {
    hide Digit, Below, Count;
    ghost var s := cur[..n];
    ghost var ds := Digits(s, pass);
    var offsets := new nat[256];
    var curOfs: nat := 0;
    BelowNoneBelow(ds);
    for i := 0 to 256
      invariant curOfs == Below(ds, i)
      invariant forall b :: 0 <= b < i ==> offsets[b] == Below(ds, b)
    {
      BelowStep(ds, i);
      offsets[i] := curOfs;
      curOfs := curOfs + hist[i];
    }
    forall b ensures Count(ds[..0], b) == 0 { CountEmpty(ds, b); }
    for i := 0 to n
      invariant forall b :: 0 <= b < 256 ==> offsets[b] == Below(ds, b) + Count(ds[..i], b)
      invariant forall j :: 0 <= j < i ==> Pos(ds, j) < n && dest[Pos(ds, j)] == s[j]
    {
      forall b ensures Count(ds[..i + 1], b) == Count(ds[..i], b) + (if ds[i] == b then 1 else 0) { CountStep(ds, b, i); }
      forall j | 0 <= j < i ensures Pos(ds, j) != Pos(ds, i) {
        if Sooner(ds, j, i) { PosOrder(ds, j, i); } else { PosOrder(ds, i, j); }
      }
      PosBound(ds, i);
      var d := Digit(cur[i].key, pass);
      dest[offsets[d]] := cur[i];
      offsets[d] := offsets[d] + 1;
    }
    at := Places(s, dest[..n], pass);
  }

  lemma BelowNoneBelow(ds: seq<nat>)
    ensures Below(ds, 0) == 0
  {
  }

  lemma BelowStep(ds: seq<nat>, b: nat)
    ensures Below(ds, b + 1) == Below(ds, b) + Count(ds, b)
  {
  }

  lemma CountEmpty(ds: seq<nat>, b: nat)
    ensures Count(ds[..0], b) == 0
  {
  }

  /** The old places, read off the new ones. */
  lemma Places(s: seq<SymFreq>, t: seq<SymFreq>, pass: nat) returns (at: seq<nat>)
    requires |s| == |t|
    requires forall j :: 0 <= j < |s| ==> Pos(Digits(s, pass), j) < |s| && t[Pos(Digits(s, pass), j)] == s[j]
    ensures StableBy(s, t, at, pass)
  {
    hide Digit, Below, Count, Pos;
    var ds := Digits(s, pass);
    at := [];
    while |at| < |s|
      invariant |at| <= |s|
      invariant forall p :: 0 <= p < |at| ==> at[p] < |s| && Pos(ds, at[p]) == p
    {
      var i := PosAt(ds, |at|);
      at := at + [i];
    }
    forall p, q | 0 <= p < q < |at| ensures Sooner(ds, at[p], at[q]) {
      if !Sooner(ds, at[p], at[q]) && at[p] != at[q] { PosOrder(ds, at[q], at[p]); }
    }
  }

  /** The histograms of both bytes. */
  method Histograms(n: nat, syms: array<SymFreq>) returns (hist: array<nat>)
    requires n <= syms.Length
    ensures fresh(hist) && hist.Length == 512
    ensures forall b :: 0 <= b < 256 ==> hist[b] == Count(Digits(syms[..n], 0), b) && hist[256 + b] == Count(Digits(syms[..n], 1), b)
  {
    hide Digit, Count;
    ghost var d0, d1 := Digits(syms[..n], 0), Digits(syms[..n], 1);
    hist := new nat[512](_ => 0);
    forall b ensures Count(d0[..0], b) == 0 && Count(d1[..0], b) == 0 {
      CountEmpty(d0, b);
      CountEmpty(d1, b);
    }
    for i := 0 to n
      invariant forall b :: 0 <= b < 256 ==> hist[b] == Count(d0[..i], b)
      invariant forall b :: 256 <= b < 512 ==> hist[b] == Count(d1[..i], b - 256)
    {
      forall b: nat ensures Count(d0[..i + 1], b) == Count(d0[..i], b) + (if d0[i] == b then 1 else 0)
                    && Count(d1[..i + 1], b) == Count(d1[..i], b) + (if d1[i] == b then 1 else 0)
      {
        CountStep(d0, b, i);
        CountStep(d1, b, i);
      }
      var freq := syms[i].key;
      assert Digit(freq, 0) == d0[i] && Digit(freq, 1) == d1[i];
      hist[Digit(freq, 0)] := hist[Digit(freq, 0)] + 1;
      hist[256 + Digit(freq, 1)] := hist[256 + Digit(freq, 1)] + 1;
    }
    assert d0[..n] == d0 && d1[..n] == d1;
  }

  /** `tdefl_radix_sort_syms` returns whichever array holds the result. */
  method SortSyms(n: nat, syms0: array<SymFreq>, syms1: array<SymFreq>) returns (sorted: array<SymFreq>, ghost at: seq<nat>)
    requires n <= syms0.Length && n <= syms1.Length && syms0 != syms1
    requires forall i :: 0 <= i < n ==> syms0[i].key < 65536
    modifies syms0, syms1
    ensures sorted == syms0 || sorted == syms1
    ensures StableSorted(old(syms0[..n]), sorted[..n], at)
  {
    hide Digit, Count, StableBy, StableSorted;
    var hist := Histograms(n, syms0);
    ghost var s := syms0[..n];
    var h0, h1 := hist[..256], hist[256..];
    ghost var at0 := Scatter(n, syms0, syms1, h0, 0);
    if n == h1[0] {
      CountAll(Digits(s, 1), 0);
      OnePass(s, syms1[..n], at0);
      return syms1, at0;
    }
    ghost var t := syms1[..n];
    SameCounts(s, t, at0);
    ghost var at1 := Scatter(n, syms1, syms0, h1, 1);
    at := TwoPasses(s, t, syms0[..n], at0, at1);
    return syms0, at;
  }

  /** A pass does not change the histogram of the other byte. */
  lemma SameCounts(s: seq<SymFreq>, t: seq<SymFreq>, at: seq<nat>)
    requires StableBy(s, t, at, 0)
    ensures forall b :: Count(Digits(s, 1), b) == Count(Digits(t, 1), b)
  {
    forall p, q | 0 <= p < q < |at| ensures at[p] != at[q] { assert Sooner(Digits(s, 0), at[p], at[q]); }
    forall b ensures Count(Digits(s, 1), b) == Count(Digits(t, 1), b) { CountRearranged(Digits(s, 1), Digits(t, 1), at, b); }
  }
}
