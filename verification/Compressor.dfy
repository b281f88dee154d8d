/** The compressor: blocks from the parse, the stream around them, and the calls that feed it. */
module Compressor {
  import opened Bits
  import opened Format
  import opened Writing
  import opened Adler
  import opened LzCodes
  import opened CodeSizes
  import opened BitOutput
  import opened Blocks
  import opened BlockWriter
  import opened BlockEnds
  import opened LzBuffer
  import opened DynamicStart
  import opened Dictionary
  import opened BlockFlush
  import opened Parser

  datatype Flush = NoFlush | SyncFlush | FullFlush | Finish

  datatype Status = BadParam | PutBufFailed | Okay | Done

  /** `tdefl_output_buffer` and its putter. */
  class OutputBuffer {
    var data: seq<u8>
    var capacity: nat
    const room: nat
    const expandable: bool

    ghost predicate Valid()
      reads this
    {
      |data| <= capacity && (expandable || capacity == room)
    }

    constructor (room: nat, expandable: bool)
      ensures Valid() && data == [] && this.room == room && this.expandable == expandable
    {
      data, capacity, this.room, this.expandable := [], room, room, expandable;
    }

    /** The bytes are taken if there is room, or room can be made by doubling. */
    method Put(bytes: seq<u8>) returns (ok: bool)
      requires Valid()
      modifies this
      ensures Valid() && ok == (expandable || |old(data)| + |bytes| <= room) && data == old(data) + (if ok then bytes else [])
    {
      var newSize := |data| + |bytes|;
      if newSize > capacity {
        if !expandable { return false; }
        var newCapacity := if 128 >= 2 * capacity then 128 else 2 * capacity;
        while newSize > newCapacity
          invariant newCapacity >= 128
          decreases newSize - newCapacity
        {
          newCapacity := if 128 >= 2 * newCapacity then 128 else 2 * newCapacity;
        }
        capacity := newCapacity;
      }
      data := data + bytes;
      ok := true;
    }
  }

  /** Before the first block of a zlib stream its header is still to come. */
  ghost predicate Opened(m: Mode, blockIndex: nat, bits: Bits, out: seq<u8>) {
    if m.zlib && blockIndex == 0 then bits == [] && out == [] else Between(m, bits, out)
  }

  /** The stream is complete. */
  ghost predicate Complete(m: Mode, bits: Bits, out: seq<u8>) {
    Stands(m, bits, Config(Phase.Done(if m.zlib then Adler32(1, out) else 0), true, |bits|, out))
  }

  lemma ZlibBits(bits: Bits)
    requires bits == []
    ensures bits + Lsb(0x78, 8) + Lsb(0x01, 8) == Lsb(0x78, 8) + Lsb(0x01, 8) && |Lsb(0x78, 8) + Lsb(0x01, 8)| == 16
  {
  }

  lemma HeaderBetween(m: Mode, s: Bits, out: seq<u8>)
    requires m.zlib && Fits32K(m) && s == Lsb(0x78, 8) + Lsb(0x01, 8) && out == []
    ensures Between(m, s, out)
  {
    hide Stands, Lsb;
    ZlibHeaderStands(m);
  }

  lemma StartBetween(m: Mode)
    ensures Opened(m, 0, [], [])
  {
    hide Stands;
    StandsStart(m);
  }

  class Compressor {
    const parser: Parser
    const o: BitOutput
    const t2: CodeTable
    const sink: OutputBuffer
    const options: Options
    ghost const m: Mode
    var blockIndex: nat
    var adler: nat
    var finished: bool
    var wantsToFinish: bool
    var prev: Status

    ghost predicate Wired() {
      && parser.Wired() && t2.Shape() && parser.lz.Apart(o) && Alone(t2, parser.lz, o) && Aside(parser.win, parser.lz, o, t2)
      && m.zlib == options.zlib && parser.options == options && Fits32K(m)
    }

    /** Everything but the checksum and the state of the stream. */
    ghost predicate Working()
      reads parser, parser.lz, parser.lz.buf, parser.lz.lit, parser.lz.dist, parser.lz.lit.count, parser.lz.dist.count
      reads parser.win, parser.win.dict, parser.win.hash, parser.win.next, t2.count
    {
      Wired() && parser.Valid() && forall s :: 19 <= s < 288 ==> t2.count[s] == 0
    }

    /** There is room for what one more round of the parse may record. */
    ghost predicate Parsing()
      reads parser, parser.lz, parser.lz.buf, parser.lz.lit, parser.lz.dist, parser.lz.lit.count, parser.lz.dist.count
      reads parser.win, parser.win.dict, parser.win.hash, parser.win.next, t2.count
    {
      Working() && parser.lz.cur <= LZ_CODE_BUF_SIZE - 8
    }

    /** Whole blocks have been written, and all whole bytes handed on. */
    ghost predicate Streaming()
      reads this`blockIndex, parser`dictPos, parser.win`src, o, o.buf, sink
    {
      && o.Valid() && o.cur == 0 && sink.Valid() && sink.data == o.sent
      && parser.dictPos <= |parser.win.src| && Opened(m, blockIndex, o.bits, parser.win.src[..parser.dictPos])
    }

    constructor (parser: Parser, o: BitOutput, t2: CodeTable, sink: OutputBuffer, ghost m: Mode)
      requires sink.Valid() && sink.data == [] && m.zlib == parser.options.zlib && Fits32K(m)
      requires parser.Valid() && parser.lz.cur == 1 && parser.win.src == [] && parser.dictPos == 0
      requires t2.Shape() && parser.lz.Apart(o) && Alone(t2, parser.lz, o) && Aside(parser.win, parser.lz, o, t2) && forall s :: 0 <= s < 288 ==> t2.count[s] == 0
      requires o.Valid() && o.cur == 0 && o.sent == [] && o.bits == []
      ensures Parsing() && Streaming() && prev == Okay && !finished && !wantsToFinish && blockIndex == 0 && adler == 1
      ensures options == parser.options && this.parser == parser && this.o == o && this.t2 == t2 && this.sink == sink && this.m == m
    {
      hide BitOutput.Valid, Parser.Valid;
      this.parser, this.o, this.t2, this.sink, this.m := parser, o, t2, sink, m;
      options := parser.options;
      blockIndex, adler, finished, wantsToFinish, prev := 0, 1, false, false, Okay;
      new;
      StartBetween(m);
      parser.Parts();
    }

    /** The arrays that the compressor works on. */
    ghost function Arrays(): set<object> {
      {parser.lz.buf as object, parser.lz.lit.count, parser.lz.lit.codes, parser.lz.lit.sizes, parser.lz.dist.count, parser.lz.dist.codes, parser.lz.dist.sizes,
       parser.win.dict, parser.win.hash, parser.win.next, o.buf, t2.count, t2.codes, t2.sizes}
    }

    // ----- one block

    /** The beginning of `tdefl_flush_block`. */
    method OpenBlock(final: bool) returns (ghost s: Bits)
      requires Working() && Streaming()
      modifies parser.lz`cur, parser.lz.buf, o`cur, o`bitBuffer, o`bitsIn, o`bits, o.buf
      ensures parser.lz.Closed() && o.Valid() && o.cur <= 3 && Between(m, s, parser.win.src[..parser.dictPos]) && o.bits == s + [final]
    {
      hide BitOutput.Valid, Lsb, Between, LzBuffer.Valid, LzBuffer.Closed, Dictionary.Valid, Stand, Saved;
      BitsFew(o);
      parser.lz.Close();
      OneBitIs(final);
      s := o.bits;
      if options.zlib && blockIndex == 0 {
        ZlibBits(o.bits);
        o.PutBits(0x78, 8);
        o.PutBits(0x01, 8);
        s := o.bits;
        HeaderBetween(m, s, parser.win.src[..parser.dictPos]);
      }
      o.PutBits(OneBit(final), 1);
    }

    /** Header, block and what the kind of flush adds. */
    method WriteBlock(flush: Flush)
      requires Working() && Streaming() && adler < 0x1_0000_0000
      requires flush.Finish? ==> parser.Recorded() == |parser.win.src| && (m.zlib ==> adler == Adler32(1, parser.win.src))
      modifies parser.lz`cur, parser.lz.buf, parser.lz.lit.count, parser.lz.lit.sizes, parser.lz.lit.codes, parser.lz.dist.sizes, parser.lz.dist.codes
      modifies t2.count, t2.sizes, t2.codes, o`cur, o`bitBuffer, o`bitsIn, o`bits, o.buf
      ensures o.Valid() && o.cur < o.END && Flushed(m, flush, o.bits, Until(parser.win.src, parser.Recorded())) && (!flush.NoFlush? ==> o.bitsIn == 0)
      ensures parser.win.Valid() && (forall s :: 19 <= s < 288 ==> t2.count[s] == 0) && forall s :: 32 <= s < MAX_SYMBOLS ==> parser.lz.dist.count[s] == 0
    {
      hide BitOutput.Valid, Between, Ended, LzBuffer.Valid, LzBuffer.Closed, Dictionary.Valid, CountsFit, Adler32, Flushed, Parsed, Streaming, Parser.Valid;
      BlockReady();
      var useRaw := options.forceRaw && parser.win.pos - parser.dictPos <= parser.win.size;
      ghost var s := OpenBlock(flush.Finish?);
      EmitBlock(parser.lz, o, t2, parser.win, parser.dictPos, useRaw, options.forceStatic || parser.lz.total < 48, m, s, flush.Finish?);
      ghost var out := parser.win.src[..parser.dictPos + parser.lz.total];
      assert flush.Finish? ==> out == parser.win.src;
      PutTrailer(flush, out);
    }

    lemma BlockReady()
      requires Working()
      ensures parser.win.Valid() && parser.lz.Separate() && CountsFit(parser.lz.lit.count[..], parser.lz.dist.count[..], parser.lz.tokens)
      ensures Parsed(parser.lz, parser.win, parser.dictPos) && parser.dictPos + parser.lz.total == parser.Recorded() <= |parser.win.src|
      ensures forall s :: 32 <= s < MAX_SYMBOLS ==> parser.lz.dist.count[s] == 0
    {
      hide LzBuffer.Valid, Dictionary.Valid, Saved, CountsFit, Backed, Expand;
      parser.TotalRecorded();
      CountsKept(parser.lz);
      parser.win.Facts();
    }

    /** What the kind of flush adds. */
    method PutTrailer(flush: Flush, ghost out: seq<u8>)
      requires o.Valid() && Ended(m, flush.Finish?, o.bits, out) && m.zlib == options.zlib && adler < 0x1_0000_0000
      requires flush.Finish? && m.zlib ==> adler == Adler32(1, out)
      modifies o`cur, o`bitBuffer, o`bitsIn, o`bits, o.buf
      ensures o.Valid() && Flushed(m, flush, o.bits, out) && (!flush.NoFlush? ==> o.bitsIn == 0) && o.cur <= old(o.cur) + 6
    {
      hide BitOutput.Valid, Between, Ended, Adler32, Stands;
      BitsFew(o);
      if flush.Finish? {
        PutEnd(o, options.zlib, adler, m, out);
      } else if flush.NoFlush? {
        NextBlock(m, o.bits, out);
      } else {
        SyncMark(o, m, out);
      }
    }

    /** `tdefl_flush_block` */
    method FlushBlock(flush: Flush) returns (r: Status)
      requires Working() && Streaming() && adler < 0x1_0000_0000
      requires flush.Finish? ==> parser.Recorded() == |parser.win.src| && (m.zlib ==> adler == Adler32(1, parser.win.src))
      modifies this`blockIndex, parser`dictPos, parser.lz, parser.lz.buf, parser.lz.lit.count, parser.lz.lit.sizes, parser.lz.lit.codes
      modifies parser.lz.dist.count, parser.lz.dist.sizes, parser.lz.dist.codes, t2.count, t2.sizes, t2.codes, o, o.buf, sink
      ensures r.Okay? || (r.PutBufFailed? && !sink.expandable && Overflows(m, o.bits, sink.room, parser.win.src))
      ensures r.Okay? ==> Parsing() && parser.dictPos == parser.Recorded() && o.Valid() && o.cur == 0 && sink.Valid() && sink.data == o.sent
      ensures r.Okay? ==> (!flush.NoFlush? ==> o.bitsIn == 0) && Flushed(m, flush, o.bits, Until(parser.win.src, parser.dictPos)) && (!flush.Finish? ==> Streaming())
    {
      hide BitOutput.Valid, LzBuffer.Valid, Dictionary.Valid, Saved, CountsFit, Adler32, Flushed, Streaming, Working, Compressor.Wired, Parser.Valid, Parser.Wired, Overflows;
      BeforeFlush();
      WriteBlock(flush);
      // the assertion at the end of `tdefl_flush_block`
      assert o.cur < o.END;
      NewBlock();
      ghost var k := parser.dictPos;
      var ok := HandOn();
      if !ok {
        FlushOverflows(m, flush, o.bits, sink.room, parser.win.src, k);
        return PutBufFailed;
      }
      if !flush.Finish? { AfterFlush(flush); }
      return Okay;
    }

    lemma BeforeFlush()
      requires Working() && Streaming()
      ensures Wired() && parser.Wired() && Saved(parser.win.src, parser.win.pos, parser.savedDist, parser.savedLen, parser.savedLit)
      ensures parser.lz.buf.Length == LZ_CODE_BUF_SIZE && parser.dictPos + parser.lz.total == parser.Recorded() && sink.Valid() && sink.data == o.sent
    {
      hide LzBuffer.Valid, Dictionary.Valid, Saved, CountsFit, Stand;
      parser.TotalRecorded();
      CountsKept(parser.lz);
    }

    lemma AfterFlush(flush: Flush)
      requires o.Valid() && o.cur == 0 && sink.Valid() && sink.data == o.sent && parser.dictPos <= |parser.win.src| && blockIndex > 0
      requires !flush.Finish? && Flushed(m, flush, o.bits, Until(parser.win.src, parser.dictPos))
      ensures Streaming()
    {
      hide BitOutput.Valid, Between;
    }

    /** What was recorded has been written. */
    method NewBlock()
      requires Wired() && parser.Wired() && parser.win.Valid() && Saved(parser.win.src, parser.win.pos, parser.savedDist, parser.savedLen, parser.savedLit)
      requires parser.lz.buf.Length == LZ_CODE_BUF_SIZE && parser.dictPos + parser.lz.total == parser.Recorded()
      requires (forall s :: 32 <= s < MAX_SYMBOLS ==> parser.lz.dist.count[s] == 0) && (forall s :: 19 <= s < 288 ==> t2.count[s] == 0)
      modifies this`blockIndex, parser`dictPos, parser.lz, parser.lz.lit.count, parser.lz.dist.count
      ensures unchanged(o.buf) && Parsing() && parser.dictPos == parser.Recorded() <= |parser.win.src| && blockIndex == old(blockIndex) + 1
    {
      hide LzBuffer.Valid, Dictionary.Valid, Saved, Stand;
      var total := parser.lz.total;
      parser.win.Facts();
      parser.lz.Reset();
      parser.NextBlock(total);
      blockIndex := blockIndex + 1;
    }

    /** The bytes of the block go to the caller's function. */
    method HandOn() returns (ok: bool)
      requires o.Valid() && o.cur < o.END && sink.Valid() && sink.data == o.sent
      modifies o`cur, o`sent, sink
      ensures ok ==> o.Valid() && o.cur == 0 && sink.Valid() && sink.data == o.sent
      ensures !ok ==> !sink.expandable && |o.bits| >= 8 * sink.room + 8
    {
      hide BitOutput.Valid;
      ok := true;
      if o.cur > 0 {
        var bytes := o.Send();
        SentBits(o);
        ok := sink.Put(bytes);
      }
    }

    // ----- feeding it

    /** Whether it is time to write a block. */
    method BlockFull() returns (full: bool)
      ensures !full ==> parser.lz.cur <= LZ_CODE_BUF_SIZE - 8
    {
      var lz := parser.lz;
      full := lz.cur > LZ_CODE_BUF_SIZE - 8 || (lz.total > 31 * 1024 && (lz.cur * 115 / 128 >= lz.total || options.forceRaw));
    }

    /** More source has come in. */
    lemma StreamingLonger(more: seq<u8>)
      requires Streaming()
      ensures parser.dictPos <= |parser.win.src| && (parser.win.src + more)[..parser.dictPos] == parser.win.src[..parser.dictPos]
    {
      hide BitOutput.Valid, Opened;
    }

    /** The body of the loop of `tdefl_compress_normal`, up to the check whether a block is full; it stops when it needs more. */
    method Round(inp: seq<u8>, i: nat, flushing: bool) returns (i': nat, stop: bool)
      requires Parsing() && Streaming() && i <= |inp| && (i < |inp| || (flushing && parser.win.ahead > 0))
      modifies parser`savedDist, parser`savedLen, parser`savedLit, parser.lz, parser.lz.buf, parser.lz.lit.count, parser.lz.dist.count
      modifies parser.win, parser.win.dict, parser.win.hash, parser.win.next
      ensures Working() && Streaming() && i <= i' <= |inp| && parser.win.src == old(parser.win.src) + inp[i..i']
      ensures if stop then Parsing() && !flushing && i' == |inp| else |inp| - i' + parser.win.ahead < |inp| - i + old(parser.win.ahead)
    {
      hide BitOutput.Valid, LzBuffer.Valid, Dictionary.Valid, Parser.Valid, Opened;
      StreamingLonger(inp[i..i + Room(|inp| - i, parser.win.ahead)]);
      i' := parser.Refill(inp, i);
      stop := !flushing && parser.win.ahead < MAX_MATCH_LEN;
      if !stop { parser.Step(); }
    }

    /** `tdefl_compress_normal` */
    method CompressNormal(inp: seq<u8>, flush: Flush) returns (r: Status)
      requires Parsing() && Streaming() && adler < 0x1_0000_0000
      modifies this`blockIndex, parser, parser.lz, parser.lz.buf, parser.lz.lit.count, parser.lz.lit.sizes, parser.lz.lit.codes
      modifies parser.lz.dist.count, parser.lz.dist.sizes, parser.lz.dist.codes, t2.count, t2.sizes, t2.codes, o, o.buf, sink
      modifies parser.win, parser.win.dict, parser.win.hash, parser.win.next
      ensures r.Okay? || (r.PutBufFailed? && !sink.expandable && Overflows(m, o.bits, sink.room, old(parser.win.src) + inp))
      ensures r.Okay? ==> Parsing() && Streaming() && parser.win.src == old(parser.win.src) + inp && (!flush.NoFlush? ==> parser.win.ahead == 0)
    {
      hide BitOutput.Valid, LzBuffer.Valid, Dictionary.Valid, Working, Streaming, Flushed, Overflows;
      var i: nat := 0;
      assert parser.win.src + inp[..0] == parser.win.src;
      while i < |inp| || (!flush.NoFlush? && parser.win.ahead > 0)
        invariant Parsing() && Streaming() && i <= |inp| && parser.win.src == old(parser.win.src) + inp[..i]
        decreases |inp| - i + parser.win.ahead
      {
        ghost var src, k := parser.win.src, i;
        var stop;
        i, stop := Round(inp, i, !flush.NoFlush?);
        assert inp[..k] + inp[k..i] == inp[..i];
        if stop { break; }
        var full := BlockFull();
        if full {
          r := FlushBlock(NoFlush);
          if !r.Okay? {
            OverflowsLonger(m, o.bits, sink.room, parser.win.src, inp[i..]);
            assert parser.win.src + inp[i..] == old(parser.win.src) + inp;
            return;
          }
        }
      }
      assert inp[..|inp|] == inp;
      r := Okay;
    }

    // ----- one call

    /** The checksum of everything that has come in, if one is kept. */
    ghost predicate Summed()
      reads this, parser.win`src
    {
      adler < 0x1_0000_0000 && (options.zlib || options.computeAdler ==> adler == Adler32(1, parser.win.src))
    }

    /** Between calls, as long as none has failed or ended the stream. */
    ghost predicate Valid()
      reads this, parser, parser.lz, parser.lz.buf, parser.lz.lit, parser.lz.dist, parser.lz.lit.count, parser.lz.dist.count
      reads parser.win, parser.win.dict, parser.win.hash, parser.win.next, t2.count, o, o.buf, sink
    {
      prev.Okay? ==> Parsing() && Streaming() && Summed() && !finished
    }

    /** The bytes handed on are the bits written, once these come to whole bytes. */
    lemma AllHandedOn()
      requires o.Valid() && o.cur == 0 && o.bitsIn == 0 && sink.data == o.sent
      ensures o.bits == OfBytes(sink.data)
    {
      hide Pow2;
      assert o.sent + o.buf[..0] == o.sent;
      assert OfBytes(o.sent) + [] == OfBytes(o.sent);
    }

    /** `tdefl_compress` with a function that takes the output, which is `tdefl_compress_buffer`.  (A finished stream is refused by the
        first check, its status being DONE.) */
    method Compress(inp: seq<u8>, flush: Flush) returns (status: Status)
      requires Valid()
      modifies this, parser, parser.lz, parser.lz.buf, parser.lz.lit.count, parser.lz.lit.sizes, parser.lz.lit.codes
      modifies parser.lz.dist.count, parser.lz.dist.sizes, parser.lz.dist.codes, t2.count, t2.sizes, t2.codes, o, o.buf, sink
      modifies parser.win, parser.win.dict, parser.win.hash, parser.win.next
      ensures Valid() && prev == status && wantsToFinish == (old(wantsToFinish) || (!status.BadParam? && flush.Finish?))
      ensures status.BadParam? <==> !old(prev).Okay? || (old(wantsToFinish) && !flush.Finish?)
      ensures status.BadParam? ==> parser.win.src == old(parser.win.src) && sink.data == old(sink.data)
      ensures status.Okay? || status.Done? ==> parser.win.src == old(parser.win.src) + inp && (status.Done? <==> flush.Finish?)
      ensures status.Done? ==> Complete(m, OfBytes(sink.data), parser.win.src) && sink.Valid()
      ensures status.Okay? && !flush.NoFlush? ==> Between(m, OfBytes(sink.data), parser.win.src)
      ensures status.PutBufFailed? ==> !sink.expandable && Overflows(m, o.bits, sink.room, old(parser.win.src) + inp)
    {
      hide BitOutput.Valid, LzBuffer.Valid, Dictionary.Valid, Parser.Valid, Working, Streaming, Adler32, OfBytes, Between, Complete, Overflows;
      if !prev.Okay? || (wantsToFinish && !flush.Finish?) {
        prev := BadParam;
        return BadParam;
      }
      wantsToFinish := wantsToFinish || flush.Finish?;
      status := Feed(inp, flush);
      prev := status;
      if status.Okay? && !flush.NoFlush? && parser.win.ahead == 0 {
        status := FlushAll(flush);
        prev := status;
      }
    }

    /** The input is parsed, and the checksum brought up to date. */
    method Feed(inp: seq<u8>, flush: Flush) returns (status: Status)
      requires Parsing() && Streaming() && Summed()
      modifies this`blockIndex, this`adler, parser, parser.lz, parser.lz.buf, parser.lz.lit.count, parser.lz.lit.sizes, parser.lz.lit.codes
      modifies parser.lz.dist.count, parser.lz.dist.sizes, parser.lz.dist.codes, t2.count, t2.sizes, t2.codes, o, o.buf, sink
      modifies parser.win, parser.win.dict, parser.win.hash, parser.win.next
      ensures status.Okay? || (status.PutBufFailed? && !sink.expandable && Overflows(m, o.bits, sink.room, old(parser.win.src) + inp))
      ensures status.Okay? ==> Parsing() && Streaming() && Summed() && parser.win.src == old(parser.win.src) + inp && (!flush.NoFlush? ==> parser.win.ahead == 0)
    {
      hide Working, Streaming, Adler32, Overflows;
      ghost var src := parser.win.src;
      status := CompressNormal(inp, flush);
      if status.Okay? { UpdateSum(inp, src); }
    }

    method UpdateSum(inp: seq<u8>, ghost before: seq<u8>)
      requires adler < 0x1_0000_0000 && parser.win.src == before + inp && (options.zlib || options.computeAdler ==> adler == Adler32(1, before))
      modifies this`adler
      ensures Summed()
    {
      hide Adler32;
      if options.zlib || options.computeAdler {
        Composes(1, before, inp);
        Composes(1, before + inp, []);
        adler := UpdateAdler32(adler, Bytes(inp));
      }
    }

    /** The flush at the end of a call. */
    method FlushAll(flush: Flush) returns (status: Status)
      requires Parsing() && Streaming() && Summed() && !flush.NoFlush? && parser.win.ahead == 0 && !finished
      modifies this`blockIndex, this`finished, parser`dictPos, parser.lz, parser.lz.buf, parser.lz.lit.count, parser.lz.lit.sizes, parser.lz.lit.codes
      modifies parser.lz.dist.count, parser.lz.dist.sizes, parser.lz.dist.codes, t2.count, t2.sizes, t2.codes, o, o.buf, sink
      modifies parser.win`size, parser.win.hash, parser.win.next
      ensures !status.BadParam? && (status.PutBufFailed? ==> !sink.expandable && Overflows(m, o.bits, sink.room, parser.win.src))
      ensures (status.Done? ==> flush.Finish?) && (status.Okay? ==> !flush.Finish?)
      ensures status.Done? ==> Complete(m, OfBytes(sink.data), parser.win.src) && sink.Valid()
      ensures status.Okay? ==> Parsing() && Streaming() && Summed() && !finished && Between(m, OfBytes(sink.data), parser.win.src)
    {
      hide BitOutput.Valid, LzBuffer.Valid, Dictionary.Valid, Parser.Valid, Working, Streaming, Adler32, OfBytes, Complete, Between, Flushed, Overflows;
      AtEnd();
      status := FlushBlock(flush);
      if !status.Okay? { return; }
      AllHandedOn();
      AtEnd();
      FlushedAll(flush);
      finished := flush.Finish?;
      if flush.FullFlush? { ForgetAll(); }
      if finished { status := Status.Done; }
    }

    lemma FlushedAll(flush: Flush)
      requires Flushed(m, flush, o.bits, Until(parser.win.src, parser.dictPos)) && parser.dictPos == |parser.win.src|
      ensures if flush.Finish? then Complete(m, o.bits, parser.win.src) else Between(m, o.bits, parser.win.src)
    {
      hide Complete, Between;
      assert parser.win.src[..|parser.win.src|] == parser.win.src;
    }

    lemma AtEnd()
      requires Parsing() && parser.win.ahead == 0
      ensures parser.Recorded() == |parser.win.src| && m.zlib == options.zlib
    {
      hide LzBuffer.Valid, Dictionary.Valid, Parser.Valid;
      parser.NothingSaved();
    }

    method ForgetAll()
      requires Parsing() && parser.win.ahead == 0
      modifies parser.win`size, parser.win.hash, parser.win.next
      ensures Parsing()
    {
      hide LzBuffer.Valid, Dictionary.Valid, Stand, Saved;
      parser.Parts();
      parser.win.Forget();
    }
  }

  /** The first `n` bytes. */
  ghost function Until(src: seq<u8>, n: nat): seq<u8> {
    if n <= |src| then src[..n] else src
  }

  /** Where a flush leaves the stream. */
  ghost predicate Flushed(m: Mode, flush: Flush, bits: Bits, out: seq<u8>) {
    if flush.Finish? then Complete(m, bits, out) else Between(m, bits, out)
  }

  lemma CountsKept(lz: LzBuffer)
    requires lz.Valid()
    ensures CountsFit(lz.lit.count[..], lz.dist.count[..], lz.tokens) && lz.buf.Length == LZ_CODE_BUF_SIZE
    ensures forall s :: 32 <= s < MAX_SYMBOLS ==> lz.dist.count[s] == 0
  {
  }

  /** The stream up to some byte of the source takes more bytes than there is room for. */
  ghost predicate Overflows(m: Mode, bits: Bits, room: nat, src: seq<u8>) {
    |bits| >= 8 * room + 8 && exists k :: 0 <= k <= |src| && Reached(m, bits, src, k)
  }

  ghost predicate Reached(m: Mode, bits: Bits, src: seq<u8>, k: nat)
    requires k <= |src|
  {
    Between(m, bits, src[..k]) || Complete(m, bits, src[..k])
  }

  lemma FlushOverflows(m: Mode, flush: Flush, bits: Bits, room: nat, src: seq<u8>, k: nat)
    requires k <= |src| && Flushed(m, flush, bits, Until(src, k)) && |bits| >= 8 * room + 8
    ensures Overflows(m, bits, room, src)
  {
    hide Between, Complete;
    assert Reached(m, bits, src, k);
  }

  lemma OverflowsLonger(m: Mode, bits: Bits, room: nat, src: seq<u8>, more: seq<u8>)
    requires Overflows(m, bits, room, src)
    ensures Overflows(m, bits, room, src + more)
  {
    hide Between, Complete;
    var k :| 0 <= k <= |src| && Reached(m, bits, src, k);
    assert (src + more)[..k] == src[..k];
    assert Reached(m, bits, src + more, k);
  }

  lemma SentBits(o: BitOutput)
    requires o.Valid() && o.cur == 0
    ensures |o.bits| >= 8 * |o.sent|
  {
    assert o.sent + o.buf[..0] == o.sent;
  }

  lemma BitsFew(o: BitOutput)
    requires o.Valid()
    ensures o.bitsIn < 8
  {
  }

  /** `tdefl_init` */
  method Init(options: Options, sink: OutputBuffer, ghost m: Mode) returns (c: Compressor)
    requires sink.Valid() && sink.data == [] && m.zlib == options.zlib && Fits32K(m)
    ensures c.Parsing() && c.Streaming() && c.sink == sink && c.m == m && c.options == options
    ensures c.prev == Okay && !c.finished && !c.wantsToFinish && c.adler == 1 && c.parser.win.src == []
    ensures fresh(c) && fresh(c.parser) && fresh(c.parser.lz) && fresh(c.parser.win) && fresh(c.o) && fresh(c.t2) && fresh(c.Arrays())
  {
    hide LzBuffer.Valid, Dictionary.Valid, BitOutput.Valid, Stand, Saved, Parser.Valid, Compressor.Streaming, Compressor.Working;
    var lz := new LzBuffer();
    var win := new Dictionary();
    win.Facts();
    var parser := new Parser(lz, win, options);
    var o := new BitOutput();
    var t2 := new CodeTable();
    c := new Compressor(parser, o, t2, sink, m);
  }
}
