/** Whole blocks, and what comes after the last one, as bits that lead the reference machine on. */
module BlockWriter {
  import opened Bits
  import opened Canonical
  import opened Format
  import opened Writing
  import opened LzCodes
  import opened CodeSizes
  import opened BitOutput
  import opened CodeLengths
  import opened Blocks
  import opened DynamicBlocks
  import opened LzBuffer
  import opened BlockStart
  import opened BlockSize
  import opened DynamicStart

  /** The machine is about to read the header of a block, and its output so far is `out`. */
  ghost predicate Between(m: Mode, s: Bits, out: seq<u8>) {
    Stands(m, s, Config(Header, false, |s|, out))
  }

  function Pad(final: bool, n: nat): (p: nat) {
    if final then Align(n) - n else 0
  }

  /** A block has just ended; after the last one the bits up to the byte boundary still have to come. */
  ghost predicate Ended(m: Mode, final: bool, s: Bits, out: seq<u8>) {
    Stands(m, s + Zeros(Pad(final, |s|)), AfterBlock(m, Config(Header, final, |s|, out)))
  }

  lemma PadIs(final: bool, n: nat)
    ensures Pad(final, n) < 8
    ensures AfterBlockPos(final, n) == n + Pad(final, n)
  {
  }

  function AfterBlockPos(final: bool, n: nat): nat {
    if final then Align(n) else n
  }

  lemma AfterBlockIs(m: Mode, c: Config)
    ensures AfterBlock(m, c).pos == AfterBlockPos(c.final, c.pos)
    ensures !c.final ==> AfterBlock(m, c) == c.(phase := Header)
    ensures c.final ==> AfterBlock(m, c) == c.(phase := if m.zlib then Trailer(0, 0) else Done(0), pos := Align(c.pos))
  {
  }

  lemma NextBlock(m: Mode, s: Bits, out: seq<u8>)
    requires Ended(m, false, s, out)
    ensures Between(m, s, out)
  {
    hide Stands, AfterBlock;
    AfterBlockIs(m, Config(Header, false, |s|, out));
    assert s + Zeros(0) == s;
  }

  // ----- stored blocks

  lemma StoredEnds(m: Mode, s: Bits, out: seq<u8>, final: bool, pad: nat, bytes: seq<u8>)
    requires Between(m, s, out) && |bytes| < 65536 && pad < 8 && Whole(|s| + 3 + pad)
    ensures Ended(m, final, s + HeaderBits(final, 0) + Zeros(pad) + RawLength(|bytes|) + OfBytes(bytes), out + bytes)
  {
    hide Stands, AfterBlock, RawLength, HeaderBits, Lsb, OfBytes, Ended, Whole, Align, Zeros;
    var c := Config(Header, false, |s|, out);
    StoredStands(m, s, c, final, Zeros(pad), bytes);
    var s1 := s + (HeaderBits(final, 0) + Zeros(pad));
    var t := s1 + RawLength(|bytes|) + OfBytes(bytes);
    HeaderSize(final, 0);
    assert s + HeaderBits(final, 0) + Zeros(pad) == s1;
    WholeLater(|s| + 3 + pad, 4 + |bytes|);
    assert |t| == |s| + 35 + pad + 8 * |bytes|;
    EndedAligned(m, final, t, out + bytes);
  }

  lemma EndedAligned(m: Mode, final: bool, s: Bits, out: seq<u8>)
    requires Align(|s|) == |s| && Stands(m, s, AfterBlock(m, Config(Header, final, |s|, out)))
    ensures Ended(m, final, s, out)
  {
    hide Stands, AfterBlock;
    assert s + Zeros(Pad(final, |s|)) == s;
  }

  lemma HeaderSize(final: bool, kind: nat)
    ensures |HeaderBits(final, kind)| == 3
  {
  }

  lemma WholeLater(p: nat, k: nat)
    requires Whole(p)
    ensures Align(p + 8 * k) == p + 8 * k
  {
  }

  // ----- compressed blocks

  lemma CodesEnd(m: Mode, s: Bits, codes: Codes, final: bool, out: seq<u8>, tokens: seq<Token>)
    requires Stands(m, s, Config(Symbol(codes), final, |s|, out)) && CodesOk(codes) && Fits32K(m) && Used(codes.lit, 256)
    requires Backed(out, tokens) && forall k :: 0 <= k < |tokens| ==> Covers(codes, tokens[k])
    ensures Ended(m, final, s + TokensBits(codes, tokens) + SymBits(codes.lit, 256), Expand(out, tokens))
  {
    hide Stands, AfterBlock, CodesOk, Covers, Backed, Expand, TokensBits, CodeBits, Align;
    var c := Config(Symbol(codes), final, |s|, out);
    TokensStand(m, s, c, codes, tokens);
    var s1 := s + TokensBits(codes, tokens);
    var c1 := Config(Symbol(codes), final, |s1|, Expand(out, tokens));
    var n := |s1| + codes.lit[256];
    PadIs(final, n);
    AfterBlockIs(m, c1.(pos := n));
    EndStands(m, s1, c1, codes, Zeros(Pad(final, n)));
    AfterBlockPhase(m, c1.(pos := n), Header);
    assert |s1 + SymBits(codes.lit, 256)| == n;
  }

  lemma FixedEnds(m: Mode, s: Bits, out: seq<u8>, final: bool, tokens: seq<Token>)
    requires Between(m, s, out) && Fits32K(m) && Backed(out, tokens) && forall k :: 0 <= k < |tokens| ==> Recordable(tokens[k])
    ensures var codes := Codes(FixedLit(), FixedDist());
      Ended(m, final, s + HeaderBits(final, 1) + TokensBits(codes, tokens) + SymBits(codes.lit, 256), Expand(out, tokens))
  {
    hide Stands, AfterBlock, CodesOk, Covers, Backed, Expand, TokensBits, SymBits, HeaderBits, FixedLit, FixedDist, AfterHeader, Ended, Between;
    var codes := Codes(FixedLit(), FixedDist());
    FixedOk();
    FixedStart(m, s, out, final);
    forall k | 0 <= k < |tokens| ensures Covers(codes, tokens[k]) { FixedCovers(tokens[k]); }
    FixedEnd();
    CodesEnd(m, s + HeaderBits(final, 1), codes, final, out, tokens);
  }

  lemma FixedEnd()
    ensures Used(FixedLit(), 256) && FixedLit()[256] == 7
  {
  }

  lemma FixedStart(m: Mode, s: Bits, out: seq<u8>, final: bool)
    requires Between(m, s, out)
    ensures Stands(m, s + HeaderBits(final, 1), Config(Symbol(Codes(FixedLit(), FixedDist())), final, |s + HeaderBits(final, 1)|, out))
  {
    hide Stands, HeaderBits, AfterHeader, FixedLit, FixedDist;
    HeaderSize(final, 1);
    var c := Config(Header, false, |s|, out);
    FixedHeader(c, final);
    HeaderStands(m, s, c, final, 1, []);
    assert s + (HeaderBits(final, 1) + []) == s + HeaderBits(final, 1);
  }

  lemma FixedHeader(c: Config, final: bool)
    ensures AfterHeader(c, (if final then 1 else 0) + 2 * 1) == c.(final := final, pos := c.pos + 3, phase := Symbol(Codes(FixedLit(), FixedDist())))
    ensures AfterHeader(c, (if final then 1 else 0) + 2 * 2) == c.(final := final, pos := c.pos + 3, phase := TableSizes([]))
  {
    hide FixedLit, FixedDist;
  }

  lemma DynamicHeader(m: Mode, s: Bits, out: seq<u8>, final: bool)
    requires Between(m, s, out)
    ensures Stands(m, s + HeaderBits(final, 2), Config(TableSizes([]), final, |s + HeaderBits(final, 2)|, out))
  {
    hide Stands, HeaderBits, AfterHeader;
    HeaderSize(final, 2);
    var c := Config(Header, false, |s|, out);
    FixedHeader(c, final);
    HeaderStands(m, s, c, final, 2, []);
    assert s + (HeaderBits(final, 2) + []) == s + HeaderBits(final, 2);
  }

  lemma DynamicEnds(m: Mode, s: Bits, out: seq<u8>, final: bool, tokens: seq<Token>, sizes: seq<nat>, lens2: seq<nat>, items: seq<Item>, full: Codes, codes: Codes)
    requires Between(m, s, out) && Fits32K(m) && Backed(out, tokens) && (forall k :: 0 <= k < |tokens| ==> Covers(full, tokens[k])) && Used(full.lit, 256)
    requires Tables(sizes, lens2, items, codes) && Trimmed(full, codes)
    ensures Ended(m, final, s + HeaderBits(final, 2) + TableBits(sizes, lens2, items) + TokensBits(full, tokens) + SymBits(full.lit, 256), Expand(out, tokens))
  {
    hide Stands, AfterBlock, CodesOk, Covers, Backed, Expand, TokensBits, SymBits, HeaderBits, AfterHeader, Ended, TableBits, Trimmed, ItemsOk, Unpack, Used, Between;
    var s1, c1 := s + HeaderBits(final, 2), Config(TableSizes([]), final, |s + HeaderBits(final, 2)|, out);
    DynamicHeader(m, s, out, final);
    TableStands(m, s1, c1, sizes, lens2, items, codes);
    forall k | 0 <= k < |tokens| ensures Covers(codes, tokens[k]) { TokenTrim(full, codes, tokens[k]); }
    EndTrim(full, codes);
    TokensTrim(full, codes, tokens);
    CodesEnd(m, s1 + TableBits(sizes, lens2, items), codes, final, out, tokens);
  }

  lemma EndTrim(full: Codes, codes: Codes)
    requires Trimmed(full, codes)
    ensures SymBits(codes.lit, 256) == SymBits(full.lit, 256) && (Used(codes.lit, 256) <==> Used(full.lit, 256))
  {
    SymBitsTrim(full.lit, |codes.lit|, 256);
  }

  // ----- how much room a block needs

  /** A compressed block has been written, and with it no more bits than the output buffer has room for. */
  ghost predicate Modest(before: Bits, after: Bits) {
    |after| <= |before| + 673407
  }

  /** So what has been written ends below the limit of the output buffer, with room for the end of the stream. */
  lemma ModestFits(before: Bits, after: Bits, cur0: nat, bitsIn0: nat, cur: nat, bitsIn: nat)
    requires Modest(before, after) && cur0 <= 3 && bitsIn0 < 8 && 8 * cur + bitsIn <= 8 * cur0 + bitsIn0 + (|after| - |before|)
    ensures cur <= 84190
  {
  }

  lemma FixedModest(tokens: seq<Token>, s: Bits, b: Bits)
    requires (forall k :: 0 <= k < |tokens| ==> Recordable(tokens[k])) && Offset(tokens) < LZ_CODE_BUF_SIZE && |b| == 2
    ensures Modest(s, s + b + TokensBits(Codes(FixedLit(), FixedDist()), tokens) + SymBits(FixedLit(), 256))
  {
    hide TokensBits, FixedLit, FixedDist, CodeBits, Recordable, Offset;
    FixedTokensBits(tokens);
    FixedEnd();
  }

  lemma OwnModest(codes: Codes, tokens: seq<Token>, sizes: seq<nat>, lens2: seq<nat>, items: seq<Item>, tables: Codes, s: Bits, b: Bits)
    requires Compact(codes, tokens) && Tables(sizes, lens2, items, tables) && |b| == 2
    ensures Modest(s, s + b + TableBits(sizes, lens2, items) + TokensBits(codes, tokens) + SymBits(codes.lit, 256))
  {
    hide TokensBits, TableBits, CodeBits, Buildable, ItemsOk, Unpack, CodesOk;
    TableRoom(sizes, lens2, items, tables);
  }

  // ----- writing

  /** `tdefl_compress_block` with the fixed codes. */
  method WriteFixed(lz: LzBuffer, o: BitOutput, ghost m: Mode, ghost s: Bits, ghost out: seq<u8>, ghost final: bool) returns (ok: bool)
    requires lz.Closed() && lz.Separate() && lz.Apart(o) && o.Valid() && Backed(out, lz.tokens)
    requires Fits32K(m) && Between(m, s, out) && o.bits == s + [final]
    modifies lz.lit.sizes, lz.lit.codes, lz.dist.sizes, lz.dist.codes, o`cur, o`bitBuffer, o`bitsIn, o`bits, o.buf
    ensures o.Valid() && o.Extends() && ok == (o.cur < o.END) && Ended(m, final, o.bits, Expand(out, lz.tokens))
    ensures Modest(old(o.bits), o.bits)
  {
    hide BitOutput.Valid, Lsb, LzBuffer.Closed, Stands, Expand, Backed, TokensBits, FixedLit, FixedDist, Between, Ended, CodeBits, Recordable, Modest;
    BackedRecordable(out, lz.tokens);
    StartStatic(lz, o);
    ghost var codes := lz.BlockCodes();
    assert s + [final] + Lsb(1, 2) == s + HeaderBits(final, 1);
    ok := lz.WriteCodes(o);
    FixedEnds(m, s, out, final, lz.tokens);
    ClosedSmall(lz);
    FixedModest(lz.tokens, s + [final], Lsb(1, 2));
  }

  lemma ClosedSmall(lz: LzBuffer)
    requires lz.Closed()
    ensures Offset(lz.tokens) < LZ_CODE_BUF_SIZE
  {
  }

  lemma {:induction false} BackedRecordable(out: seq<u8>, tokens: seq<Token>)
    requires Backed(out, tokens)
    ensures forall k :: 0 <= k < |tokens| ==> Recordable(tokens[k])
  {
    if tokens != [] { BackedRecordable(out, tokens[..|tokens| - 1]); }
  }

  /** `tdefl_compress_block` with codes made for the block. */
  method WriteDynamic(lz: LzBuffer, o: BitOutput, t2: CodeTable, ghost m: Mode, ghost s: Bits, ghost out: seq<u8>, ghost final: bool) returns (ok: bool)
    requires lz.Closed() && lz.Separate() && lz.Apart(o) && o.Valid() && CountsFit(lz.lit.count[..], lz.dist.count[..], lz.tokens) && Backed(out, lz.tokens)
    requires t2.Shape() && (forall s :: 19 <= s < 288 ==> t2.count[s] == 0) && Alone(t2, lz, o)
    requires Fits32K(m) && Between(m, s, out) && o.bits == s + [final]
    modifies lz.lit.count, lz.lit.sizes, lz.lit.codes, lz.dist.sizes, lz.dist.codes, t2.count, t2.sizes, t2.codes
    modifies o`cur, o`bitBuffer, o`bitsIn, o`bits, o.buf
    ensures o.Valid() && o.Extends() && ok == (o.cur < o.END) && Ended(m, final, o.bits, Expand(out, lz.tokens))
    ensures Modest(old(o.bits), o.bits) && forall s :: 19 <= s < 288 ==> t2.count[s] == 0
  {
    hide Modest, Compact, BitOutput.Valid, Lsb, LzBuffer.Closed, Stands, Expand, Backed, TokensBits, Between, Ended, CodeBits, TableBits, Tables, Trimmed, CountsFit, Covers, CodeTable.Coded;
    ghost var sizes, lens2, items, codes := StartDynamic(lz, o, t2);
    assert s + [final] + Lsb(2, 2) == s + HeaderBits(final, 2);
    ok := lz.WriteCodes(o);
    DynamicEnds(m, s, out, final, lz.tokens, sizes, lens2, items, lz.BlockCodes(), codes);
    OwnModest(lz.BlockCodes(), lz.tokens, sizes, lens2, items, codes, s + [final], Lsb(2, 2));
  }

  /** `tdefl_compress_block` */
  method CompressBlock(lz: LzBuffer, o: BitOutput, t2: CodeTable, isStatic: bool, ghost m: Mode, ghost s: Bits, ghost out: seq<u8>, ghost final: bool) returns (ok: bool)
    requires lz.Closed() && lz.Separate() && lz.Apart(o) && o.Valid() && CountsFit(lz.lit.count[..], lz.dist.count[..], lz.tokens) && Backed(out, lz.tokens)
    requires t2.Shape() && (forall s :: 19 <= s < 288 ==> t2.count[s] == 0) && Alone(t2, lz, o)
    requires Fits32K(m) && Between(m, s, out) && o.bits == s + [final]
    modifies lz.lit.count, lz.lit.sizes, lz.lit.codes, lz.dist.sizes, lz.dist.codes, t2.count, t2.sizes, t2.codes
    modifies o`cur, o`bitBuffer, o`bitsIn, o`bits, o.buf
    ensures o.Valid() && o.Extends() && ok == (o.cur < o.END) && Ended(m, final, o.bits, Expand(out, lz.tokens))
    ensures Modest(old(o.bits), o.bits) && forall s :: 19 <= s < 288 ==> t2.count[s] == 0
  {
    hide Modest, BitOutput.Valid, LzBuffer.Closed, Stands, Expand, Backed, Between, Ended, CountsFit;
    if isStatic {
      ok := WriteFixed(lz, o, m, s, out, final);
    } else {
      ok := WriteDynamic(lz, o, t2, m, s, out, final);
    }
  }
}
