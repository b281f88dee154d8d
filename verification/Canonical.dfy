/** Canonical prefix codes (section 3.2.2 of RFC 1951): the reference both sides of the codec are compared with.

    A code is given by its code sizes only, one per symbol, 0 meaning that the symbol is unused. */
module Canonical {
  import opened Bits

  const MAX_CODE_SIZE := 15

  /** The number of symbols with code size `l`. */
  function Count(lens: seq<nat>, l: nat): (c: nat)
    ensures c <= |lens|
  {
    if lens == [] then 0
    else Count(lens[..|lens| - 1], l) + (if lens[|lens| - 1] == l then 1 else 0)
  }

  /** The first code of size `l`, shorter codes coming first. */
  function First(lens: seq<nat>, l: nat): nat {
    if l <= 1 then 0 else 2 * (First(lens, l - 1) + Count(lens, l - 1))
  }

  lemma FirstOne(lens: seq<nat>)
    ensures First(lens, 1) == 0
  {
  }

  lemma FirstStep(lens: seq<nat>, l: nat)
    requires l >= 1
    ensures First(lens, l + 1) == 2 * (First(lens, l) + Count(lens, l))
  {
  }

  predicate Used(lens: seq<nat>, s: nat) {
    s < |lens| && lens[s] > 0
  }

  function Code(lens: seq<nat>, s: nat): nat
    requires s < |lens|
  {
    First(lens, lens[s]) + Count(lens[..s], lens[s])
  }

  /** The bits sent for symbol `s`: its code, most significant bit first. */
  function CodeBits(lens: seq<nat>, s: nat): (b: Bits)
    requires s < |lens|
    ensures |b| == lens[s]
  {
    Msb(Code(lens, s), lens[s])
  }

  predicate Sized(lens: seq<nat>) {
    forall s :: 0 <= s < |lens| ==> lens[s] <= MAX_CODE_SIZE
  }

  /** The code sizes leave room for every code: their Kraft sum is at most 1. */
  predicate Fits(lens: seq<nat>) {
    Sized(lens) && First(lens, 16) <= 65536
  }

  /** Kraft sum exactly 1. */
  predicate Complete(lens: seq<nat>) {
    Sized(lens) && First(lens, 16) == 65536
  }

  /** The next bits of the stream are the code of `s`. */
  predicate Starts(lens: seq<nat>, s: nat, bits: Bits) {
    Used(lens, s) && CodeBits(lens, s) <= bits
  }

  /** The code of symbol `s` agrees with the bits in hand as far as both go. */
  ghost predicate Agrees(lens: seq<nat>, s: nat, bits: Bits) {
    Used(lens, s) && (CodeBits(lens, s) <= bits || bits <= CodeBits(lens, s))
  }

  /** The bits in hand are only part of some code. */
  ghost predicate Partial(lens: seq<nat>, bits: Bits) {
    exists s: nat :: Used(lens, s) && bits < CodeBits(lens, s)
  }

  // ----- counting

  lemma {:induction false} CountPrefix(lens: seq<nat>, l: nat, k: nat)
    requires k <= |lens|
    ensures Count(lens[..k], l) <= Count(lens, l)
  {
    if k < |lens| {
      var init := lens[..|lens| - 1];
      assert init[..k] == lens[..k];
      CountPrefix(init, l, k);
    } else {
      assert lens[..k] == lens;
    }
  }

  lemma CountStep(lens: seq<nat>, l: nat, k: nat)
    requires k < |lens|
    ensures Count(lens[..k + 1], l) == Count(lens[..k], l) + (if lens[k] == l then 1 else 0)
  {
    assert lens[..k + 1][..k] == lens[..k];
  }

  lemma RankBelowCount(lens: seq<nat>, s: nat)
    requires s < |lens|
    ensures Count(lens[..s], lens[s]) < Count(lens, lens[s])
  {
    CountStep(lens, lens[s], s);
    CountPrefix(lens, lens[s], s + 1);
  }

  lemma RankIncreases(lens: seq<nat>, s: nat, t: nat)
    requires s < t < |lens| && lens[s] == lens[t]
    ensures Count(lens[..s], lens[s]) < Count(lens[..t], lens[t])
  {
    CountStep(lens, lens[s], s);
    CountPrefix(lens[..t], lens[s], s + 1);
    assert lens[..t][..s + 1] == lens[..s + 1];
  }

  lemma {:induction false} SymbolOfRank(lens: seq<nat>, l: nat, r: nat) returns (s: nat)
    requires r < Count(lens, l)
    ensures s < |lens| && lens[s] == l && Count(lens[..s], l) == r
  {
    var k := |lens| - 1;
    if Count(lens[..k], l) > r {
      s := SymbolOfRank(lens[..k], l, r);
      assert lens[..k][..s] == lens[..s];
    } else {
      s := k;
    }
  }

  // ----- the ranges of codes of each size

  lemma {:induction false} FirstGrows(lens: seq<nat>, l: nat, m: nat)
    requires 1 <= l < m
    ensures First(lens, m) >= Shl(First(lens, l) + Count(lens, l), m - l)
  {
    if m > l + 1 {
      FirstGrows(lens, l, m - 1);
      assert Shl(First(lens, l) + Count(lens, l), m - l) == 2 * Shl(First(lens, l) + Count(lens, l), m - 1 - l);
    } else {
      assert Shl(First(lens, l) + Count(lens, l), 1) == 2 * Shl(First(lens, l) + Count(lens, l), 0);
    }
  }

  lemma RangeFits(lens: seq<nat>, l: nat)
    requires Fits(lens) && 1 <= l <= 15
    ensures First(lens, l) + Count(lens, l) <= Pow2(l)
  {
    hide First, Pow2, Shl;
    FirstGrows(lens, l, 16);
    Pow2Values();
    ShlPow2(l, 16 - l);
    ShlCancel(First(lens, l) + Count(lens, l), Pow2(l), 16 - l);
  }

  lemma CodeInRange(lens: seq<nat>, s: nat)
    requires Fits(lens) && Used(lens, s)
    ensures First(lens, lens[s]) <= Code(lens, s) < First(lens, lens[s]) + Count(lens, lens[s])
    ensures Code(lens, s) < Pow2(lens[s])
  {
    RankBelowCount(lens, s);
    RangeFits(lens, lens[s]);
  }

  // ----- prefix freedom and completeness

  /** No code is a prefix of the code of another symbol. */
  lemma PrefixFree(lens: seq<nat>, s: nat, t: nat)
    requires Fits(lens) && Used(lens, s) && Used(lens, t)
    requires CodeBits(lens, s) <= CodeBits(lens, t)
    ensures s == t
  {
    hide First, Count, Shl, Pow2, Msb;
    var m, n := lens[s], lens[t];
    CodeInRange(lens, s);
    CodeInRange(lens, t);
    var a, b := Code(lens, s), Code(lens, t);
    MsbPrefix(b, n, m);
    assert Msb(b, n)[..m] == Msb(a, m);
    ShrBound(b, m, n - m);
    MsbInjective(a, Shr(b, n - m), m);
    if m == n {
      if s < t { RankIncreases(lens, s, t); } else if t < s { RankIncreases(lens, t, s); }
    } else {
      FirstGrows(lens, m, n);
      ShlMono(a + 1, First(lens, m) + Count(lens, m), n - m);
      ShlShr(b, n - m);
      assert false;
    }
  }

  /** At most one symbol can come next. */
  lemma StartsUnique(lens: seq<nat>, s: nat, t: nat, bits: Bits)
    requires Fits(lens) && Starts(lens, s, bits) && Starts(lens, t, bits)
    ensures s == t
  {
    if lens[s] <= lens[t] {
      assert CodeBits(lens, s) == bits[..lens[s]] == CodeBits(lens, t)[..lens[s]];
      PrefixFree(lens, s, t);
    } else {
      assert CodeBits(lens, t) == bits[..lens[t]] == CodeBits(lens, s)[..lens[t]];
      PrefixFree(lens, t, s);
    }
  }

  /** In a complete code some symbol comes next, whatever the bits are. */
  lemma CompleteStarts(lens: seq<nat>, v: nat) returns (s: nat)
    requires Complete(lens) && v < Pow2(15)
    ensures Starts(lens, s, Msb(v, 15))
  {
    Pow2Values();
    hide Pow2, Count, Msb;
    var l := 1;
    while Shr(v, 15 - l) >= First(lens, l) + Count(lens, l)
      invariant 1 <= l <= 15
      invariant First(lens, l) <= Shr(v, 15 - l)
      decreases 15 - l
    {
      assert First(lens, 16) == 2 * (First(lens, 15) + Count(lens, 15));
      if l == 15 {
        assert false;
      }
      ShrSucc(v, 15 - (l + 1));
      l := l + 1;
    }
    s := SymbolOfRank(lens, l, Shr(v, 15 - l) - First(lens, l));
    MsbPrefix(v, 15, l);
  }

  // ----- runs of equal code sizes

  function Rep(v: nat, n: nat): seq<nat> {
    seq(n, _ => v)
  }

  lemma {:induction false} CountRep(v: nat, n: nat, l: nat)
    ensures Count(Rep(v, n), l) == if v == l then n else 0
  {
    if n > 0 {
      CountRep(v, n - 1, l);
      assert Rep(v, n)[..n - 1] == Rep(v, n - 1);
    }
  }

  lemma {:induction false} CountConcat(a: seq<nat>, b: seq<nat>, l: nat)
    ensures Count(a + b, l) == Count(a, l) + Count(b, l)
  {
    if b == [] {
      assert a + b == a;
    } else {
      var k := |b| - 1;
      assert (a + b)[..|a + b| - 1] == a + b[..k];
      CountConcat(a, b[..k], l);
    }
  }

  // ----- how many inner nodes the tree of a code has

  /** The number of symbols with a code size above `d`. */
  function Longer(lens: seq<nat>, d: nat): (c: nat)
    ensures c <= |lens|
  {
    if lens == [] then 0
    else Longer(lens[..|lens| - 1], d) + (if lens[|lens| - 1] > d then 1 else 0)
  }

  /** A table is built only for complete codes and for codes of at most one symbol. */
  predicate Buildable(lens: seq<nat>) {
    Sized(lens) && (First(lens, 16) == 65536 || Longer(lens, 0) <= 1)
  }

  lemma {:induction false} LongerStep(lens: seq<nat>, d: nat)
    ensures Longer(lens, d) == Longer(lens, d + 1) + Count(lens, d + 1)
  {
    if lens != [] { LongerStep(lens[..|lens| - 1], d); }
  }

  lemma {:induction false} LongerSized(lens: seq<nat>, d: nat)
    requires forall s :: 0 <= s < |lens| ==> lens[s] <= d
    ensures Longer(lens, d) == 0
  {
    if lens != [] { LongerSized(lens[..|lens| - 1], d); }
  }

  lemma {:induction false} LongerPositive(lens: seq<nat>, s: nat, d: nat)
    requires s < |lens| && lens[s] > d
    ensures Longer(lens, d) > 0
    ensures Longer(lens, d) == 1 ==> forall t :: 0 <= t < |lens| && lens[t] > d ==> t == s
  {
    var k := |lens| - 1;
    if s < k {
      LongerPositive(lens[..k], s, d);
    } else {
      forall t | 0 <= t < k && lens[t] > d ensures Longer(lens, d) > 1 { LongerPositive(lens[..k], t, d); }
    }
  }

  lemma {:induction false} SparseRange(lens: seq<nat>, l: nat)
    requires 1 <= l && Longer(lens, 0) <= 1
    ensures First(lens, l) + Count(lens, l) <= Pow2(l - 1)
    ensures Longer(lens, l) == Longer(lens, 0) ==> First(lens, l) + Count(lens, l) == 0
    ensures Longer(lens, l) <= Longer(lens, 0)
  {
    LongerStep(lens, l - 1);
    if l > 1 { SparseRange(lens, l - 1); }
  }

  lemma BuildableFits(lens: seq<nat>)
    requires Buildable(lens)
    ensures Fits(lens)
  {
    if First(lens, 16) != 65536 {
      SparseRange(lens, 15);
      Pow2Values();
      Pow2Mono(14, 15);
    }
  }

  /** The number of inner nodes at depth `d` of the tree of a code: the prefixes not covered by codes of size up to `d`. */
  function Inner(lens: seq<nat>, d: nat): int {
    Pow2(d) - First(lens, d) - Count(lens, d)
  }

  function InnerFrom(lens: seq<nat>, d: nat): int
    decreases 15 - d
  {
    if d >= 15 then 0 else Inner(lens, d) + InnerFrom(lens, d + 1)
  }

  /** Below depth `d` a complete code has fewer inner nodes than it has symbols there. */
  lemma {:induction false} InnerTotal(lens: seq<nat>, d: nat)
    requires Complete(lens) && 1 <= d <= 15
    ensures InnerFrom(lens, d) + Inner(lens, d) == Longer(lens, d)
    decreases 15 - d
  {
    if d == 15 {
      LongerSized(lens, 15);
      Pow2Values();
      assert First(lens, 16) == 2 * (First(lens, 15) + Count(lens, 15));
    } else {
      InnerTotal(lens, d + 1);
      LongerStep(lens, d);
      assert First(lens, d + 1) == 2 * (First(lens, d) + Count(lens, d));
      assert Pow2(d + 1) == 2 * Pow2(d);
    }
  }

  /** A proper prefix of a code lies in the range of inner nodes of its depth. */
  lemma PrefixInRange(lens: seq<nat>, s: nat, p: Bits) returns (v: nat)
    requires Fits(lens) && Used(lens, s) && 0 < |p| && p < CodeBits(lens, s)
    ensures First(lens, |p|) + Count(lens, |p|) <= v < Pow2(|p|) && p == Msb(v, |p|)
  {
    hide First, Count, Msb, Pow2, Shl;
    var d, n := |p|, lens[s];
    v := Shr(Code(lens, s), n - d);
    CodeInRange(lens, s);
    MsbPrefix(Code(lens, s), n, d);
    ShrBound(Code(lens, s), d, n - d);
    FirstGrows(lens, d, n);
    ShlShr(Code(lens, s), n - d);
    if v < First(lens, d) + Count(lens, d) {
      ShlMono(v + 1, First(lens, d) + Count(lens, d), n - d);
    }
  }

  // ----- the loop that turns a code around for sending, the same on both sides

  /** Reverses the low `size` bits of `code`: the number whose low bits, least significant first, are the code as sent. */
  method ReverseCode(code: nat, size: nat) returns (rev: nat)
    ensures rev == Val(Msb(code, size))
  {
    rev := 0;
    var c := code;
    for l := 0 to size
      invariant c == Shr(code, l)
      invariant rev == Val(Msb(code, l))
    {
      MsbHead(code, l);
      assert Msb(code, l + 1)[1..] == Msb(code, l);
      ShrSucc(code, l);
      rev := rev * 2 + c % 2;
      c := c / 2;
    }
  }
}
