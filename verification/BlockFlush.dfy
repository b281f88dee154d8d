/** One block from what is recorded: compressed, or stored if that is shorter, or with the fixed codes if its own do not fit. */
module BlockFlush {
  import opened Bits
  import opened Format
  import opened Writing
  import opened LzCodes
  import opened CodeSizes
  import opened BitOutput
  import opened Blocks
  import opened BlockWriter
  import opened BlockEnds
  import opened LzBuffer
  import opened DynamicStart
  import opened Dictionary

  /** The dictionary's arrays are not among those that writing a block changes. */
  ghost predicate Aside(win: Dictionary, lz: LzBuffer, o: BitOutput, t2: CodeTable) {
    var mine: set<object> := {win.dict as object, win.hash, win.next};
    mine !! {lz.buf as object, lz.lit.count, lz.lit.codes, lz.lit.sizes, lz.dist.count, lz.dist.codes, lz.dist.sizes, o.buf, t2.count, t2.codes, t2.sizes}
  }

  /** What is recorded stands for the source from `dictPos` on. */
  ghost predicate Parsed(lz: LzBuffer, win: Dictionary, dictPos: nat)
    reads lz`tokens, lz`total, win`src, win`pos
  {
    && dictPos + lz.total <= win.pos <= |win.src| && Backed(win.src[..dictPos], lz.tokens)
    && Expand(win.src[..dictPos], lz.tokens) == win.src[..dictPos + lz.total]
  }

  /** A stored block: the source bytes themselves, from the dictionary. */
  method PutStored(o: BitOutput, win: Dictionary, dictPos: nat, total: nat, ghost m: Mode, ghost s: Bits, ghost final: bool)
    requires o.Valid() && win.Valid() && o.buf as object !in {win.dict as object, win.hash, win.next} && total < 65536
    requires win.pos - dictPos <= win.size && dictPos + total <= win.pos && Between(m, s, win.src[..dictPos]) && o.bits == s + [final]
    modifies o`cur, o`bitBuffer, o`bitsIn, o`bits, o.buf
    ensures o.Valid() && o.Extends() && Ended(m, final, o.bits, win.src[..dictPos + total]) && |o.bits| <= |old(o.bits)| + 41 + 8 * total
  {
    hide BitOutput.Valid, Lsb, RawLength, OfBytes, Between, Ended, Dictionary.Valid, Slot;
    win.Facts();
    OneBitIs(final);
    o.PutBits(0, 2);
    assert s + [final] + Lsb(0, 2) == s + HeaderBits(final, 0);
    HeaderSize(final, 0);
    ghost var pad := PutLength(o, total);
    ghost var bytes := win.src[dictPos..dictPos + total];
    PutBytes(o, win, dictPos, total);
    assert win.src[..dictPos] + bytes == win.src[..dictPos + total];
    StoredEnds(m, s, win.src[..dictPos], final, pad, bytes);
  }

  /** Source bytes from the dictionary. */
  method PutBytes(o: BitOutput, win: Dictionary, dictPos: nat, total: nat)
    requires o.Valid() && win.Valid() && o.buf as object !in {win.dict as object, win.hash, win.next}
    requires win.pos - dictPos <= win.size && dictPos + total <= win.pos <= |win.src|
    modifies o`cur, o`bitBuffer, o`bitsIn, o`bits, o.buf
    ensures o.Valid() && o.Extends() && o.bits == old(o.bits) + OfBytes(win.src[dictPos..dictPos + total])
  {
    hide BitOutput.Valid, Lsb, OfBytes, Dictionary.Valid, Slot;
    win.Facts();
    OneBitIs(true);
    ghost var base, bytes := o.bits, win.src[dictPos..dictPos + total];
    NoBytes();
    assert bytes[..0] == [] && base + [] == base;
    for i := 0 to total
      invariant o.Valid() && o.Extends() && win.Valid() && o.bits == base + OfBytes(bytes[..i])
    {
      win.ByteAt(dictPos + i, 0);
      var b := win.dict[Slot(dictPos + i)];
      assert bytes[..i + 1] == bytes[..i] + [b];
      OfBytesPush(bytes[..i], b);
      o.PutBits(b, 8);
      assert base + OfBytes(bytes[..i]) + Lsb(b, 8) == base + OfBytes(bytes[..i + 1]);
    }
    assert bytes[..total] == bytes;
  }

  /** The part of `tdefl_flush_block` that chooses how to write the block. */
  method EmitBlock(lz: LzBuffer, o: BitOutput, t2: CodeTable, win: Dictionary, dictPos: nat, useRaw: bool, isStatic: bool, ghost m: Mode, ghost s: Bits, ghost final: bool)
    requires lz.Closed() && lz.Separate() && lz.Apart(o) && Alone(t2, lz, o) && Aside(win, lz, o, t2) && t2.Shape()
    requires o.Valid() && o.cur <= 3 && win.Valid() && CountsFit(lz.lit.count[..], lz.dist.count[..], lz.tokens) && forall s :: 19 <= s < 288 ==> t2.count[s] == 0
    requires Parsed(lz, win, dictPos) && (useRaw ==> win.pos - dictPos <= win.size)
    requires Fits32K(m) && Between(m, s, win.src[..dictPos]) && o.bits == s + [final]
    modifies lz.lit.count, lz.lit.sizes, lz.lit.codes, lz.dist.sizes, lz.dist.codes, t2.count, t2.sizes, t2.codes
    modifies o`cur, o`bitBuffer, o`bitsIn, o`bits, o.buf
    ensures o.Valid() && Ended(m, final, o.bits, win.src[..dictPos + lz.total]) && o.cur <= 84190
    ensures forall s :: 19 <= s < 288 ==> t2.count[s] == 0
  {
    hide BitOutput.Valid, Lsb, Between, Ended, Dictionary.Valid, LzBuffer.Closed, CountsFit, Backed, Expand, Holds, Modest;
    var savedCur, savedBitBuffer, savedBitsIn := o.cur, o.bitBuffer, o.bitsIn;
    SavedHolds(o);
    ghost var bits0, bytes0 := o.bits, o.buf[..o.cur];
    var succeeded := false;
    ghost var compressed := false;
    if !useRaw {
      succeeded := CompressBlock(lz, o, t2, isStatic, m, s, win.src[..dictPos], final);
      compressed := true;
    }
    if (useRaw || (lz.total > 0 && o.cur - savedCur + 1 >= lz.total)) && win.pos - dictPos <= win.size {
      compressed := false;
      o.Restore(savedCur, savedBitBuffer, savedBitsIn, bits0, bytes0);
      win.Facts();
      PutStored(o, win, dictPos, lz.total, m, s, final);
    } else if !succeeded {
      o.Restore(savedCur, savedBitBuffer, savedBitsIn, bits0, bytes0);
      succeeded := WriteFixed(lz, o, m, s, win.src[..dictPos], final);
      compressed := true;
    }
    if compressed { ModestFits(bits0, o.bits, savedCur, savedBitsIn, o.cur, o.bitsIn); }
  }

  lemma SavedHolds(o: BitOutput)
    requires o.Valid() && o.cur < o.END
    ensures Holds(o.sent + o.buf[..o.cur], o.bits, o.bitBuffer, o.bitsIn) && o.bitsIn < 8 && o.bitBuffer < Pow2(o.bitsIn) && o.buf.Length == OUT_BUF_SIZE
  {
  }
}
