/** How many bits the literals and matches of a block take: by counts, with the fixed codes, and with the block's own. */
module BlockSize {
  import opened Bits
  import opened Canonical
  import opened Format
  import opened LzCodes
  import opened TreeCode
  import opened LimitCost
  import opened SymbolCost
  import opened CodeSizes
  import opened LzBuffer

  // ----- from symbol counts to bits

  function ExtraBits(t: Token): nat {
    if t.Match? && Recordable(t) then LenExtraBits(t.len - 3) + DistExtraBits(t.dist - 1) else 0
  }

  function Extras(tokens: seq<Token>): nat {
    if tokens == [] then 0 else Extras(tokens[..|tokens| - 1]) + ExtraBits(tokens[|tokens| - 1])
  }

  lemma TokenSize(codes: Codes, t: Token)
    requires |codes.lit| == 288 && |codes.dist| == 32 && Recordable(t)
    ensures |TokenBits(codes, t)| == codes.lit[LitSym(t)] + (if t.Match? then codes.dist[MatchSym(t)] else 0) + ExtraBits(t)
  {
    hide LitSym, MatchSym, LenSym, DistSym, CodeBits, Lsb, LenExtraBits, DistExtraBits;
    LitSymIs(t);
  }

  lemma {:induction false} DotUpdate(c: seq<nat>, ls: seq<nat>, k: nat, n: nat)
    requires k < |c| && n <= |c| && n <= |ls|
    ensures Dot(c[k := c[k] + 1], ls, 0, n) == Dot(c, ls, 0, n) + (if k < n then ls[k] else 0)
  {
    if n > 0 {
      DotUpdate(c, ls, k, n - 1);
      if k == n - 1 { assert (c[k] + 1) * ls[k] == c[k] * ls[k] + ls[k]; }
    }
  }

  lemma {:induction false} DotZero(c: seq<nat>, ls: seq<nat>, n: nat)
    requires n <= |c| && n <= |ls| && forall i :: 0 <= i < n ==> c[i] == 0
    ensures Dot(c, ls, 0, n) == 0
  {
    if n > 0 { DotZero(c, ls, n - 1); }
  }

  /** The size of a block is what its symbol counts say, and the extra bits. */
  lemma {:induction false} TokensCost(codes: Codes, tokens: seq<Token>)
    requires |codes.lit| == 288 && |codes.dist| == 32 && forall k :: 0 <= k < |tokens| ==> Recordable(tokens[k])
    ensures |TokensBits(codes, tokens)| == Dot(LitCounts(tokens), codes.lit, 0, 288) + Dot(DistCounts(tokens), codes.dist, 0, 32) + Extras(tokens)
  {
    hide Dot, TokenBits, ExtraBits, LitSym, MatchSym, Recordable;
    if tokens == [] {
      DotZero(LitCounts(tokens), codes.lit, 288);
      DotZero(DistCounts(tokens), codes.dist, 32);
    } else {
      var init, t := tokens[..|tokens| - 1], tokens[|tokens| - 1];
      TokensCost(codes, init);
      TokenSize(codes, t);
      DotUpdate(LitCounts(init), codes.lit, LitSym(t), 288);
      DotUpdate(DistCounts(init), codes.dist, MatchSym(t), 32);
    }
  }

  // ----- the fixed codes

  lemma FixedTokenBits(t: Token)
    requires Recordable(t)
    ensures 100 * |TokenBits(Codes(FixedLit(), FixedDist()), t)| + 90 <= 128 * (8 * Size(t) + 1)
  {
    hide CodeBits, LenSym, DistSym, LengthBits, LengthBase, DistBits, DistBase, Lsb, LenExtraBits, DistExtraBits, Pow2;
    if t.Match? {
      LenCoded(t.len - 3);
      DistCoded(t.dist - 1);
    }
  }

  /** The fixed codes need less than 1.28 bits for every bit in the buffer of literals and matches, with 0.9 bits to spare for each
      of these. */
  lemma {:induction false} FixedTokensBits(tokens: seq<Token>)
    requires forall k :: 0 <= k < |tokens| ==> Recordable(tokens[k])
    ensures 100 * |TokensBits(Codes(FixedLit(), FixedDist()), tokens)| + 90 * |tokens| <= 128 * (8 * Offset(tokens) - 8 + |tokens| % 8)
  {
    hide TokenBits, FixedLit, FixedDist, Recordable;
    if tokens != [] {
      FixedTokensBits(tokens[..|tokens| - 1]);
      FixedTokenBits(tokens[|tokens| - 1]);
      NextInGroup(|tokens| - 1);
    }
  }

  lemma {:induction false} SumSame(s: seq<nat>, a: nat, b: nat, v: nat)
    requires a <= b <= |s| && forall i :: a <= i < b ==> s[i] == v
    ensures Sum(s, a, b) == (b - a) * v
  {
    if a < b {
      SumSame(s, a, b - 1, v);
      assert (b - a) * v == (b - 1 - a) * v + v;
    }
  }

  lemma FixedSizes(s: nat)
    requires s < 288
    ensures FixedLit()[s] == if s < 144 then 8 else if s < 256 then 9 else if s < 280 then 7 else 8
    ensures s < 32 ==> FixedDist()[s] == 5
  {
  }

  /** The fixed codes fill the code space. */
  lemma FixedFitting()
    ensures Fitting(FixedLit(), 9) && Fitting(FixedDist(), 5)
  {
    hide Sum, Pow2, FixedLit, FixedDist;
    SmallPowers();
    forall s | 0 <= s < 288 ensures FixedLit()[s] == if s < 144 then 8 else if s < 256 then 9 else if s < 280 then 7 else 8 { FixedSizes(s); }
    var u := Units(FixedLit(), 9);
    SumSame(u, 0, 144, 2);
    SumSame(u, 144, 256, 1);
    SumSame(u, 256, 280, 4);
    SumSame(u, 280, 288, 2);
    SumSplit(u, 0, 144, 288);
    SumSplit(u, 144, 256, 288);
    SumSplit(u, 256, 280, 288);
    forall s | 0 <= s < 32 ensures FixedDist()[s] == 5 { FixedSizes(s); }
    SumSame(Units(FixedDist(), 5), 0, 32, 1);
  }

  lemma SmallPowers()
    ensures Pow2(0) == 1 && Pow2(1) == 2 && Pow2(2) == 4 && Pow2(5) == 32 && Pow2(9) == 512
  {
  }

  // ----- the block's own codes

  /** The counts of a block's symbols, the one that ends the block among them. */
  ghost function BlockCounts(tokens: seq<Token>): (c: seq<nat>)
    ensures |c| == MAX_SYMBOLS
  {
    LitCounts(tokens)[256 := LitCounts(tokens)[256] + 1]
  }

  /** With the codes made for it a block is hardly longer than with the fixed ones. */
  lemma OwnCost(codes: Codes, tokens: seq<Token>)
    requires |codes.lit| == 288 && |codes.dist| == 32 && forall k :: 0 <= k < |tokens| ==> Recordable(tokens[k])
    requires NearBest(BlockCounts(tokens), codes.lit) && NearBest(DistCounts(tokens)[..32], codes.dist)
    requires Sum(LitCounts(tokens), 0, 288) == |tokens| && Sum(DistCounts(tokens)[..32], 0, 32) <= |tokens|
    ensures 100 * (|TokensBits(codes, tokens)| + codes.lit[256]) <= 100 * (|TokensBits(Codes(FixedLit(), FixedDist()), tokens)| + 7) + 90 * |tokens| + 80
  {
    hide Sum, Dot, TokensBits, LitCounts, DistCounts, Recordable, FixedLit, FixedDist, Fitting;
    var fixed := Codes(FixedLit(), FixedDist());
    FixedFitting();
    FixedSizes(256);
    TokensCost(codes, tokens);
    TokensCost(fixed, tokens);
    DotUpdate(LitCounts(tokens), codes.lit, 256, 288);
    DotUpdate(LitCounts(tokens), fixed.lit, 256, 288);
    SumUpdate(LitCounts(tokens), 256, LitCounts(tokens)[256] + 1, 288);
    assert NearTo(BlockCounts(tokens), codes.lit, fixed.lit);
    var few := DistCounts(tokens)[..32];
    assert NearTo(few, codes.dist, fixed.dist);
    DotPrefix(few, DistCounts(tokens), codes.dist, 32);
    DotPrefix(few, DistCounts(tokens), fixed.dist, 32);
  }

  lemma {:induction false} DotPrefix(s: seq<nat>, t: seq<nat>, ls: seq<nat>, k: nat)
    requires k <= |s| && k <= |t| && k <= |ls| && forall i :: 0 <= i < k ==> s[i] == t[i]
    ensures Dot(s, ls, 0, k) == Dot(t, ls, 0, k)
  {
    if k > 0 { DotPrefix(s, t, ls, k - 1); }
  }

  /** How large the literals and matches of a block and its end can get with either kind of code. */
  ghost predicate Compact(codes: Codes, tokens: seq<Token>) {
    |codes.lit| == 288 && |TokensBits(codes, tokens)| + codes.lit[256] <= 671085
  }

  lemma OwnCompact(codes: Codes, tokens: seq<Token>)
    requires |codes.lit| == 288 && |codes.dist| == 32 && (forall k :: 0 <= k < |tokens| ==> Recordable(tokens[k])) && Offset(tokens) < LZ_CODE_BUF_SIZE
    requires NearBest(BlockCounts(tokens), codes.lit) && NearBest(DistCounts(tokens)[..32], codes.dist)
    requires Sum(LitCounts(tokens), 0, 288) == |tokens| && Sum(DistCounts(tokens)[..32], 0, 32) <= |tokens|
    ensures Compact(codes, tokens)
  {
    hide Sum, TokensBits, LitCounts, DistCounts, Recordable, FixedLit, FixedDist, NearBest, Offset, BlockCounts;
    FixedTokensBits(tokens);
    OwnCost(codes, tokens);
  }
}
