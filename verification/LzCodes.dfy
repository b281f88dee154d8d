/** Literals and matches: how they are recorded in `m_lz_code_buf`, which bits are written for them, and that the reference machine
    reads those bits back as the same literals and matches. */
module LzCodes {
  import opened Bits
  import opened Canonical
  import opened Format
  import opened Writing

  const MIN_MATCH_LEN := 3
  const MAX_MATCH_LEN := 258
  const LZ_DICT_SIZE := 32768

  datatype Token = Lit(byte: u8) | Match(len: nat, dist: nat)

  predicate Recordable(t: Token) {
    t.Match? ==> MIN_MATCH_LEN <= t.len <= MAX_MATCH_LEN && 1 <= t.dist <= LZ_DICT_SIZE
  }

  // ----- what tokens stand for

  function Bytes(t: Token): (n: nat) { if t.Lit? then 1 else t.len }

  function Produce(out: seq<u8>, t: Token): (r: seq<u8>)
    requires t.Match? ==> 1 <= t.dist <= |out|
    ensures |r| == |out| + Bytes(t) && out <= r
  {
    if t.Lit? then out + [t.byte] else CopyMatch(out, t.len, t.dist)
  }

  /** Every match reaches back only as far as there is output. */
  predicate Backed(out: seq<u8>, tokens: seq<Token>)
    decreases |tokens|, 0
  {
    tokens == [] ||
    (Backed(out, tokens[..|tokens| - 1]) && Recordable(tokens[|tokens| - 1])
     && (tokens[|tokens| - 1].Match? ==> tokens[|tokens| - 1].dist <= |Expand(out, tokens[..|tokens| - 1])|))
  }

  /** The output after the tokens. */
  function Expand(out: seq<u8>, tokens: seq<Token>): (r: seq<u8>)
    requires Backed(out, tokens)
    ensures out <= r
    decreases |tokens|, 1
  {
    if tokens == [] then out else Produce(Expand(out, tokens[..|tokens| - 1]), tokens[|tokens| - 1])
  }

  lemma ExpandSnoc(out: seq<u8>, tokens: seq<Token>, t: Token)
    requires Backed(out, tokens) && Recordable(t) && (t.Match? ==> t.dist <= |Expand(out, tokens)|)
    ensures Backed(out, tokens + [t]) && Expand(out, tokens + [t]) == Produce(Expand(out, tokens), t)
  {
    assert (tokens + [t])[..|tokens|] == tokens;
  }

  // ----- the symbol tables of the source, as formulas; `l` is a length less 3, and `d` a distance less 1

  function LenSym(l: nat): nat {
    if l < 8 then 257 + l
    else if l < 16 then 265 + (l - 8) / 2
    else if l < 32 then 269 + (l - 16) / 4
    else if l < 64 then 273 + (l - 32) / 8
    else if l < 128 then 277 + (l - 64) / 16
    else if l < 255 then 281 + (l - 128) / 32
    else 285
  }

  function LenExtraBits(l: nat): nat {
    if l < 8 then 0 else if l < 16 then 1 else if l < 32 then 2 else if l < 64 then 3 else if l < 128 then 4 else if l < 255 then 5 else 0
  }

  function SmallDistSym(d: nat): nat {
    if d < 4 then d
    else if d < 8 then 4 + (d - 4) / 2
    else if d < 16 then 6 + (d - 8) / 4
    else if d < 32 then 8 + (d - 16) / 8
    else if d < 64 then 10 + (d - 32) / 16
    else if d < 128 then 12 + (d - 64) / 32
    else if d < 256 then 14 + (d - 128) / 64
    else 16 + (d - 256) / 128
  }

  function SmallDistExtra(d: nat): nat {
    if d < 4 then 0 else if d < 8 then 1 else if d < 16 then 2 else if d < 32 then 3 else if d < 64 then 4 else if d < 128 then 5 else if d < 256 then 6 else 7
  }

  function LargeDistSym(h: nat): nat {
    if h < 2 then 0
    else if h < 4 then 18 + (h - 2)
    else if h < 8 then 20 + (h - 4) / 2
    else if h < 16 then 22 + (h - 8) / 4
    else if h < 32 then 24 + (h - 16) / 8
    else if h < 64 then 26 + (h - 32) / 16
    else 28 + (h - 64) / 32
  }

  function LargeDistExtra(h: nat): nat {
    if h < 2 then 0 else if h < 4 then 8 else if h < 8 then 9 else if h < 16 then 10 else if h < 32 then 11 else if h < 64 then 12 else 13
  }

  function DistSym(d: nat): nat { if d < 512 then SmallDistSym(d) else LargeDistSym(d / 256) }

  function DistExtraBits(d: nat): nat { if d < 512 then SmallDistExtra(d) else LargeDistExtra(d / 256) }

  /** The length symbol and its extra bits give the length back. */
  lemma LenCoded(l: nat)
    requires l < 256
    ensures 257 <= LenSym(l) <= 285 && LenExtraBits(l) == LengthBits(LenSym(l)) <= 5
    ensures LengthBase(LenSym(l)) + l % Pow2(LenExtraBits(l)) == l + 3
  {
    if l < 32 { ShortLenCoded(l); } else { LongLenCoded(l); }
  }

  lemma ShortLenCoded(l: nat)
    requires l < 32
    ensures 257 <= LenSym(l) <= 272 && LenExtraBits(l) == LengthBits(LenSym(l)) <= 2
    ensures LengthBase(LenSym(l)) + l % Pow2(LenExtraBits(l)) == l + 3
  {
    hide Pow2;
    DistPowers();
  }

  lemma LongLenCoded(l: nat)
    requires 32 <= l < 256
    ensures 273 <= LenSym(l) <= 285 && LenExtraBits(l) == LengthBits(LenSym(l)) <= 5
    ensures LengthBase(LenSym(l)) + l % Pow2(LenExtraBits(l)) == l + 3
  {
    hide Pow2;
    DistPowers();
  }

  lemma DistCoded(d: nat)
    requires d < 32768
    ensures DistSym(d) < 30 && DistExtraBits(d) == DistBits(DistSym(d)) <= 13
    ensures DistBase(DistSym(d)) + d % Pow2(DistExtraBits(d)) == d + 1
  {
    DistPowers();
    if d < 512 { SmallDistCoded(d); } else { LargeDistCoded(d); }
  }

  lemma DistPowers()
    ensures Pow2(0) == 1 && Pow2(1) == 2 && Pow2(2) == 4 && Pow2(3) == 8 && Pow2(4) == 16 && Pow2(5) == 32 && Pow2(6) == 64 && Pow2(7) == 128
    ensures Pow2(8) == 256 && Pow2(9) == 512 && Pow2(10) == 1024 && Pow2(11) == 2048 && Pow2(12) == 4096 && Pow2(13) == 8192
  {
  }

  lemma SmallDistCoded(d: nat)
    requires d < 512
    ensures SmallDistSym(d) < 18 && SmallDistExtra(d) == DistBits(SmallDistSym(d)) <= 7
    ensures DistBase(SmallDistSym(d)) + d % Pow2(SmallDistExtra(d)) == d + 1
  {
    hide Pow2;
    DistPowers();
  }

  lemma LargeDistCoded(d: nat)
    requires 512 <= d < 32768
    ensures 18 <= LargeDistSym(d / 256) < 30 && LargeDistExtra(d / 256) == DistBits(LargeDistSym(d / 256)) <= 13
    ensures DistBase(LargeDistSym(d / 256)) + d % Pow2(LargeDistExtra(d / 256)) == d + 1
  {
    hide Pow2;
    DistPowers();
  }

  // ----- the bits of a block

  function SymBits(lens: seq<nat>, s: nat): Bits {
    if s < |lens| then CodeBits(lens, s) else []
  }

  /** The code has what is needed to write the token. */
  predicate Covers(codes: Codes, t: Token) {
    if t.Lit? then Used(codes.lit, t.byte)
    else Recordable(t) && Used(codes.lit, LenSym(t.len - 3)) && Used(codes.dist, DistSym(t.dist - 1))
  }

  /** Section 3.2.5 of RFC 1951. */
  function TokenBits(codes: Codes, t: Token): Bits {
    if t.Lit? then SymBits(codes.lit, t.byte)
    else if !Recordable(t) then []
    else SymBits(codes.lit, LenSym(t.len - 3)) + Lsb(t.len - 3, LenExtraBits(t.len - 3))
         + SymBits(codes.dist, DistSym(t.dist - 1)) + Lsb(t.dist - 1, DistExtraBits(t.dist - 1))
  }

  function TokensBits(codes: Codes, tokens: seq<Token>): Bits {
    if tokens == [] then [] else TokensBits(codes, tokens[..|tokens| - 1]) + TokenBits(codes, tokens[|tokens| - 1])
  }

  lemma {:induction false} LowMod(w: nat, n: nat)
    ensures Low(w, n) == w % Pow2(n)
  {
    if n > 0 {
      LowMod(w / 2, n - 1);
      ModDouble(w, Pow2(n - 1));
    }
  }

  lemma ModDouble(w: nat, p: nat)
    requires p > 0
    ensures w % (2 * p) == w % 2 + 2 * (w / 2 % p)
  {
    var q, r := w / 2 / p, w / 2 % p;
    assert w / 2 == p * q + r;
    assert w == (w % 2 + 2 * r) + 2 * p * q;
    ModUnique(w, w % 2 + 2 * r, q, 2 * p);
  }

  /** Only the low bits count, so masking first changes nothing. */
  lemma LsbMod(w: nat, n: nat)
    ensures Lsb(w, n) == Lsb(w % Pow2(n), n) && w % Pow2(n) < Pow2(n)
  {
    LowMod(w, n);
    LsbOfLow(w, n);
  }

  // ----- reading it back

  ghost predicate Fits32K(m: Mode) {
    m.wrapping ==> m.ring >= LZ_DICT_SIZE
  }

  lemma LiteralStands(m: Mode, s: Bits, c: Config, codes: Codes, b: u8)
    requires Stands(m, s, c) && c.phase == Symbol(codes) && CodesOk(codes) && Used(codes.lit, b)
    ensures Stands(m, s + SymBits(codes.lit, b), c.(pos := c.pos + codes.lit[b], out := c.out + [b]))
  {
    hide CodeBits, Buildable, Reaches, Step;
    StandsOk(m, s, c);
    var c1 := c.(phase := Literal(codes, b), pos := c.pos + codes.lit[b]);
    StandSymbol(m, s, c, codes.lit, b, c1);
    StandLiteral(m, s + CodeBits(codes.lit, b), c1);
  }

  /** The length part of a match. */
  lemma LengthStands(m: Mode, s: Bits, c: Config, codes: Codes, len: nat)
    requires Stands(m, s, c) && c.phase == Symbol(codes) && CodesOk(codes) && 3 <= len <= 258 && Used(codes.lit, LenSym(len - 3))
    ensures Stands(m, s + SymBits(codes.lit, LenSym(len - 3)) + Lsb(len - 3, LenExtraBits(len - 3)),
                   c.(phase := DistSymbol(codes, len), pos := c.pos + codes.lit[LenSym(len - 3)] + LenExtraBits(len - 3)))
  {
    hide CodeBits, Buildable, Reaches, Step, LenSym, LenExtraBits, LengthBits, LengthBase, Lsb, Pow2;
    var l := len - 3;
    var sym := LenSym(l);
    LenCoded(l);
    StandsOk(m, s, c);
    var c1 := c.(phase := LengthExtra(codes, sym), pos := c.pos + codes.lit[sym]);
    StandSymbol(m, s, c, codes.lit, sym, c1);
    LsbMod(l, LenExtraBits(l));
    StandLength(m, s + CodeBits(codes.lit, sym), c1, l % Pow2(LenExtraBits(l)));
  }

  /** The distance part, and the copy. */
  lemma DistanceStands(m: Mode, s: Bits, c: Config, codes: Codes, len: nat, dist: nat)
    requires Stands(m, s, c) && c.phase == DistSymbol(codes, len) && CodesOk(codes) && 3 <= len <= 258 && Fits32K(m)
    requires 1 <= dist <= LZ_DICT_SIZE && dist <= |c.out| && Used(codes.dist, DistSym(dist - 1))
    ensures Stands(m, s + SymBits(codes.dist, DistSym(dist - 1)) + Lsb(dist - 1, DistExtraBits(dist - 1)),
                   c.(phase := Symbol(codes), pos := c.pos + codes.dist[DistSym(dist - 1)] + DistExtraBits(dist - 1), out := CopyMatch(c.out, len, dist)))
  {
    hide CodeBits, Buildable, Reaches, Step, DistSym, DistExtraBits, DistBits, DistBase, Lsb, Pow2, CopyMatch;
    var d := dist - 1;
    var sym := DistSym(d);
    DistCoded(d);
    StandsOk(m, s, c);
    var c1 := c.(phase := Phase.DistExtra(codes, len, sym), pos := c.pos + codes.dist[sym]);
    StandSymbol(m, s, c, codes.dist, sym, c1);
    var s1 := s + CodeBits(codes.dist, sym);
    LsbMod(d, DistExtraBits(d));
    var c2 := c1.(phase := Copy(codes, len, dist), pos := c1.pos + DistExtraBits(d));
    StandDist(m, s1, c1, d % Pow2(DistExtraBits(d)), c2);
    StandCopy(m, s1 + Lsb(d, DistExtraBits(d)), c2);
  }

  lemma TokenStands(m: Mode, s: Bits, c: Config, codes: Codes, t: Token)
    requires Stands(m, s, c) && c.phase == Symbol(codes) && CodesOk(codes) && Fits32K(m)
    requires Covers(codes, t) && (t.Match? ==> t.dist <= |c.out|)
    ensures Stands(m, s + TokenBits(codes, t), c.(pos := c.pos + |TokenBits(codes, t)|, out := Produce(c.out, t)))
  {
    hide CodeBits, Buildable, Stands, LenSym, LenExtraBits, DistSym, DistExtraBits, Lsb, CopyMatch;
    if t.Lit? {
      LiteralStands(m, s, c, codes, t.byte);
    } else {
      var a := SymBits(codes.lit, LenSym(t.len - 3)) + Lsb(t.len - 3, LenExtraBits(t.len - 3));
      var b := SymBits(codes.dist, DistSym(t.dist - 1)) + Lsb(t.dist - 1, DistExtraBits(t.dist - 1));
      LengthStands(m, s, c, codes, t.len);
      assert s + SymBits(codes.lit, LenSym(t.len - 3)) + Lsb(t.len - 3, LenExtraBits(t.len - 3)) == s + a;
      var c1 := c.(phase := DistSymbol(codes, t.len), pos := c.pos + codes.lit[LenSym(t.len - 3)] + LenExtraBits(t.len - 3));
      DistanceStands(m, s + a, c1, codes, t.len, t.dist);
      assert s + a + SymBits(codes.dist, DistSym(t.dist - 1)) + Lsb(t.dist - 1, DistExtraBits(t.dist - 1)) == s + (a + b);
      assert TokenBits(codes, t) == a + b;
    }
  }

  /** Block round trip: whatever literals and matches are written, the machine reads them back, and its output is what they expand to. */
  lemma {:induction false} TokensStand(m: Mode, s: Bits, c: Config, codes: Codes, tokens: seq<Token>)
    requires Stands(m, s, c) && c.phase == Symbol(codes) && CodesOk(codes) && Fits32K(m)
    requires Backed(c.out, tokens) && forall k :: 0 <= k < |tokens| ==> Covers(codes, tokens[k])
    ensures Stands(m, s + TokensBits(codes, tokens), c.(pos := c.pos + |TokensBits(codes, tokens)|, out := Expand(c.out, tokens)))
    decreases |tokens|
  {
    hide Stands, TokenBits, CodesOk, Covers;
    if tokens == [] {
      assert s + [] == s;
    } else {
      var init, t := tokens[..|tokens| - 1], tokens[|tokens| - 1];
      TokensStand(m, s, c, codes, init);
      var c1 := c.(pos := c.pos + |TokensBits(codes, init)|, out := Expand(c.out, init));
      TokenStands(m, s + TokensBits(codes, init), c1, codes, t);
      assert s + TokensBits(codes, init) + TokenBits(codes, t) == s + TokensBits(codes, tokens);
    }
  }

  /** The end of the block, with the padding after the last one. */
  lemma EndStands(m: Mode, s: Bits, c: Config, codes: Codes, pad: Bits)
    requires Stands(m, s, c) && c.phase == Symbol(codes) && CodesOk(codes) && Used(codes.lit, 256)
    requires AfterBlock(m, c.(pos := c.pos + codes.lit[256])).pos == c.pos + codes.lit[256] + |pad|
    ensures Stands(m, s + SymBits(codes.lit, 256) + pad, AfterBlock(m, c.(pos := c.pos + codes.lit[256])))
  {
    hide CodeBits, Buildable, Reaches, AfterBlock, Decode;
    StandsOk(m, s, c);
    var b := CodeBits(codes.lit, 256) + pad;
    assert (s + b)[|s|..] == b;
    DecodeIs(codes.lit, b, 256);
    StandStep(m, s, b, c, AfterBlock(m, c.(pos := c.pos + codes.lit[256])));
    assert s + SymBits(codes.lit, 256) + pad == s + b;
  }
}
