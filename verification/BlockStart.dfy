/** How a block begins once its literals and matches are known: with the fixed codes, or with codes made for it. */
module BlockStart {
  import opened Bits
  import opened Canonical
  import opened Format
  import opened LzCodes
  import opened TreeCode
  import opened CodeSizes
  import opened BitOutput
  import opened CodeLengths
  import opened DynamicBlocks
  import opened LzBuffer

  // ----- unused symbols at the end of a table change no code

  ghost predicate ZeroFrom(lens: seq<nat>, k: nat) {
    k <= |lens| && forall s :: k <= s < |lens| ==> lens[s] == 0
  }

  lemma {:induction false} FirstTrim(lens: seq<nat>, k: nat, l: nat)
    requires ZeroFrom(lens, k)
    ensures First(lens[..k], l) == First(lens, l)
  {
    hide Count;
    if l > 1 {
      FirstTrim(lens, k, l - 1);
      CountTail(lens, k, l - 1);
    }
  }

  lemma {:induction false} LongerTrim(lens: seq<nat>, k: nat)
    requires ZeroFrom(lens, k)
    ensures Longer(lens[..k], 0) == Longer(lens, 0)
  {
    if k < |lens| {
      LongerTrim(lens[..|lens| - 1], k);
      assert lens[..|lens| - 1][..k] == lens[..k];
    } else {
      assert lens[..k] == lens;
    }
  }

  lemma BuildableTrim(lens: seq<nat>, k: nat)
    requires ZeroFrom(lens, k) && Buildable(lens)
    ensures Buildable(lens[..k])
  {
    hide First, Longer;
    FirstTrim(lens, k, 16);
    LongerTrim(lens, k);
  }

  /** The code of a symbol does not depend on how many unused symbols follow. */
  lemma SymBitsTrim(lens: seq<nat>, k: nat, s: nat)
    requires ZeroFrom(lens, k)
    ensures SymBits(lens[..k], s) == SymBits(lens, s) && (Used(lens[..k], s) <==> Used(lens, s))
  {
    hide First, Count, Msb;
    if s < k {
      FirstTrim(lens, k, lens[s]);
      assert lens[..k][..s] == lens[..s];
    } else if s < |lens| {
      assert |CodeBits(lens, s)| == 0;
    }
  }

  ghost predicate Trimmed(full: Codes, codes: Codes) {
    && |codes.lit| <= |full.lit| && |codes.dist| <= |full.dist|
    && codes.lit == full.lit[..|codes.lit|] && codes.dist == full.dist[..|codes.dist|] && ZeroFrom(full.lit, |codes.lit|) && ZeroFrom(full.dist, |codes.dist|)
  }

  lemma TokenTrim(full: Codes, codes: Codes, t: Token)
    requires Trimmed(full, codes)
    ensures TokenBits(codes, t) == TokenBits(full, t) && (Covers(full, t) ==> Covers(codes, t))
  {
    hide SymBits, LenSym, DistSym, Lsb, LenExtraBits, DistExtraBits;
    if t.Lit? {
      SymBitsTrim(full.lit, |codes.lit|, t.byte);
    } else if Recordable(t) {
      SymBitsTrim(full.lit, |codes.lit|, LenSym(t.len - 3));
      SymBitsTrim(full.dist, |codes.dist|, DistSym(t.dist - 1));
    }
  }

  lemma {:induction false} TokensTrim(full: Codes, codes: Codes, tokens: seq<Token>)
    requires Trimmed(full, codes)
    ensures TokensBits(codes, tokens) == TokensBits(full, tokens)
  {
    hide Trimmed, TokenBits;
    if tokens != [] {
      TokensTrim(full, codes, tokens[..|tokens| - 1]);
      TokenTrim(full, codes, tokens[|tokens| - 1]);
    }
  }

  // ----- the fixed codes

  /** `tdefl_start_static_block` */
  method StartStatic(lz: LzBuffer, o: BitOutput)
    requires lz.Closed() && lz.Separate() && lz.Apart(o) && o.Valid() && forall k :: 0 <= k < |lz.tokens| ==> Recordable(lz.tokens[k])
    modifies lz.lit.sizes, lz.lit.codes, lz.dist.sizes, lz.dist.codes, o`cur, o`bitBuffer, o`bitsIn, o`bits, o.buf
    ensures lz.Ready() && lz.BlockCodes() == Codes(FixedLit(), FixedDist())
    ensures o.Valid() && o.Extends() && o.bits == old(o.bits) + Lsb(1, 2)
  {
    hide LzBuffer.Closed, BitOutput.Valid, Lsb, LenSym, DistSym, CodeTable.Coded, CodeBits, Val;
    for i := 0 to 288
      invariant forall s :: 0 <= s < i ==> lz.lit.sizes[s] == FixedSize(s)
      invariant lz.Closed() && unchanged(o) && unchanged(o.buf)
    {
      lz.lit.sizes[i] := if i <= 143 then 8 else if i <= 255 then 9 else if i <= 279 then 7 else 8;
    }
    assert lz.lit.sizes[..288] == FixedLit();
    forall s | 0 <= s < 32 { lz.dist.sizes[s] := 5; }
    assert lz.dist.sizes[..32] == FixedDist();
    lz.lit.CodeStatic(288);
    lz.dist.CodeStatic(32);
    assert lz.Covered() by {
      forall k | 0 <= k < |lz.tokens| ensures Covers(lz.BlockCodes(), lz.tokens[k]) { FixedCovers(lz.tokens[k]); }
    }
    TwoBits();
    o.PutBits(1, 2);
  }

  function FixedSize(s: nat): nat {
    if s <= 143 then 8 else if s <= 255 then 9 else if s <= 279 then 7 else 8
  }

  lemma TwoBits()
    ensures Pow2(2) == 4
  {
  }

  lemma FixedCovers(t: Token)
    requires Recordable(t)
    ensures Covers(Codes(FixedLit(), FixedDist()), t)
  {
    hide LenSym, DistSym, LengthBits, LengthBase, DistBits, DistBase;
    if t.Match? {
      LenCoded(t.len - 3);
      DistCoded(t.dist - 1);
    }
  }
}
