/** `tinfl_decompress`: the inflater as a resumable coroutine.

    A call takes some input and some output room and runs until it is finished, has failed, or lacks one of the two; the
    place where it stopped and the bits in hand are kept for the next call.  The class below runs the reference machine of
    `Format` beside the program: `cfg` is where that machine stands after reading exactly the bits the program has used. */
module Inflater {
  import opened Bits
  import opened Canonical
  import opened DecodeTable
  import opened HuffTable
  import opened Format
  import opened BitInput
  import opened RingOutput
  import opened Adler

  /** Where the coroutine is, with the numbers of the `TINFL_CR_RETURN` states that stop there. */
  datatype Place =
    | AtStart        // 0
    | AtZlibCmf      // 1
    | AtZlibFlg      // 2
    | AtHeader       // 3
    | AtRawHeader    // 6, 7
    | AtRawBits      // 51
    | AtRawBitsOut   // 52
    | AtRawBytes     // 9, 38
    | AtTableSizes   // 11
    | AtSizeSizes    // 14
    | AtCodeSizes(waiting: bool)    // 16; waiting inside the Huffman macro, or about to enter it
    | AtCodeSizeRun  // 18
    | AtSymbol(waiting: bool)       // 23
    | AtLiteral      // 24
    | AtLengthExtra  // 25
    | AtDistSymbol(waiting: bool)   // 26
    | AtDistExtra    // 27
    | AtCopy
    | AtCopyWait     // 53
    | AtTrailer      // 41, 42
    | AtDone         // 34
    | AtFailed       // 10, 17, 21, 35, 36, 37, 39

  /** How one stretch of the coroutine ends: by going on, or by returning to the caller. */
  datatype Signal = Go | NeedInput | HaveOutput | Fail | Finish

  /** The machine gets lost on these bytes. */
  ghost predicate LeadsAstray(m: Mode, s: seq<u8>) {
    Strays(m, OfBytes(s))
  }

  /** `tinfl_status` */
  datatype Status = CannotMakeProgress | BadParam | Adler32Mismatch | Failed | Done | NeedsMoreInput | HasMoreOutput

  ghost predicate Apart(t: HuffTable, u: HuffTable) {
    t.lookUp != u.lookUp && t.lookUp != u.tree && t.tree != u.lookUp && t.tree != u.tree
  }

  ghost predicate Outside(buf: array<u8>, t: HuffTable) {
    buf as object != t.lookUp && buf as object != t.tree
  }

  class Inflater {
    const mode: Mode
    const input: BitInput
    const output: RingOutput
    const t0: HuffTable
    const t1: HuffTable
    const t2: HuffTable
    /** `TINFL_FLAG_COMPUTE_ADLER32` */
    const summing: bool
    var place: Place
    var final: nat
    var blockType: int
    var dist: nat
    var counter: nat
    var numExtra: nat
    var zhdr0: nat
    var zAdler: nat
    var checkAdler: nat
    var tableSizes: seq<nat>
    var rawHeader: seq<nat>
    var lenCodes: seq<nat>
    var distFromStart: nat
    ghost var lens0: seq<nat>
    ghost var lens1: seq<nat>
    ghost var lens2: seq<nat>
    ghost var laps: nat
    ghost var cfg: Config
    ghost var steps: nat
    /** Set once the stream has gone where the format leaves its meaning open; nothing is claimed of the output after that. */
    ghost var lost: bool
    /** `lost` as it was when the call began. */
    ghost var astray: bool
    /** The bytes that the checksum is of: all that were written, but for those of calls that failed or could not make progress. */
    ghost var counted: seq<u8>

    // ----- the invariant

    ghost predicate Distinct() {
      && t0 != t1 && t0 != t2 && t1 != t2
      && Apart(t0, t1) && Apart(t0, t2) && Apart(t1, t2)
      && Outside(output.buf, t0) && Outside(output.buf, t1) && Outside(output.buf, t2)
      && mode.wrapping == output.wrapping && (mode.wrapping ==> mode.ring == output.buf.Length > 0)
    }

    /** The machine has read `was` and stands at `cfg`. */
    ghost predicate Reached(was: seq<u8>)
      reads `cfg, `steps
    {
      Reaches(mode, OfBytes(was), cfg, steps)
    }

    /** The machine stands at `cfg` after reading `was`, of which `ahead` bytes came with this call.  No byte was taken before
        this call that is not needed: what is in hand came with this call, but for a part of a byte, or does not suffice for
        the next step. */
    ghost predicate Tracked(was: seq<u8>, ahead: nat)
      reads `cfg, `steps, `lost, `astray, input`fed0, input`inp
    {
      && (!lost ==> Reached(was) && (8 * |was| - cfg.pos < 8 + 8 * ahead || Step(mode, cfg, OfBytes(was)).Starved?))
      && (lost && !astray ==> LeadsAstray(mode, input.fed0 + input.inp))
    }

    ghost predicate Valid()
      reads this, input, output, output.buf, t0, t1, t2, t0.lookUp, t0.tree, t1.lookUp, t1.tree, t2.lookUp, t2.tree
    {
      Core() && Local() && (place.AtStart? || place.AtTrailer? || place.AtDone? || zAdler == 1)
    }

    /** Between calls: bytes that the next step does not need have been put back, and the checksum is that of the output. */
    ghost predicate Resting()
      reads this, input, output, output.buf, t0, t1, t2, t0.lookUp, t0.tree, t1.lookUp, t1.tree, t2.lookUp, t2.tree
    {
      Valid() && Tracked(input.fed, 0) && (Sums() ==> checkAdler == Adler32(1, counted))
    }

    predicate Sums() { mode.zlib || summing }

    ghost predicate Core()
      reads this, input, output, output.buf, t0, t1, t2
    {
      && Distinct() && input.Valid() && output.Valid() && Shapes() && Tracked(input.fed, input.inPos)
      && (!lost ==> WellFormed(cfg) && cfg.pos == input.Pos() && cfg.final == (final % 2 == 1) && cfg.out == output.out)
    }

    ghost predicate Shapes()
      reads this, t0, t1, t2
    {
      && t0.Shaped() && t1.Shaped() && t2.Shaped()
      && |rawHeader| == 4 && |tableSizes| == 3 && |lenCodes| == 457 && checkAdler < 0x1_0000_0000
      && (forall k :: 0 <= k < 4 ==> rawHeader[k] < 256)
    }

    /** What holds at each place: what keeps the program inside its arrays whatever the stream is, and what its fields mean
        in terms of the reference machine. */
    ghost predicate Local()
      reads `place, `lost, `cfg, `counter, `dist, `numExtra, `zhdr0, `zAdler, `tableSizes, `rawHeader, `lenCodes, `distFromStart, `lens0, `lens1,
            `lens2, `laps, input`numBits, input`bitBuf, input`fed, output`cur, t2`codeSize, t0.lookUp, t0.tree, t1.lookUp, t1.tree, t2.lookUp, t2.tree
    {
      match place
      case AtStart => LocalStart()
      case AtZlibCmf | AtZlibFlg => LocalZlib()
      case AtHeader => !lost ==> cfg.phase.Header?
      case AtRawHeader => LocalRawHeader()
      case AtRawBits | AtRawBytes => LocalRaw()
      case AtRawBitsOut => LocalRawByte()
      case AtTableSizes => LocalTableSizes()
      case AtSizeSizes => LocalSizeSizes()
      case AtCodeSizes(waiting) => LocalCodeSizes() && (waiting ==> Hungry(lens2))
      case AtCodeSizeRun => LocalCodeSizeRun()
      case AtSymbol(waiting) => LocalSymbol() && (waiting ==> Hungry(lens0))
      case AtLiteral => BlockTables() && LocalLiteral()
      case AtLengthExtra => BlockTables() && LocalLength()
      case AtDistSymbol(waiting) => LocalDistSymbol() && (waiting ==> Hungry(lens1))
      case AtDistExtra => BlockTables() && LocalDist()
      case AtCopy => LocalCopy()
      case AtCopyWait => LocalCopyWait()
      case AtTrailer => LocalTrailer()
      case AtDone => LocalDone()
      case AtFailed => !lost ==> cfg.phase.Bad?
    }

    ghost predicate LocalSymbol()
      reads `lens0, `lens1, `cfg, `lost, t0.lookUp, t0.tree, t1.lookUp, t1.tree
    {
      BlockTables() && (!lost ==> cfg.phase == Phase.Symbol(Codes(lens0, lens1)))
    }

    ghost predicate LocalDistSymbol()
      reads `lens0, `lens1, `cfg, `lost, `counter, t0.lookUp, t0.tree, t1.lookUp, t1.tree
    {
      BlockTables() && (!lost ==> cfg.phase == Phase.DistSymbol(Codes(lens0, lens1), counter))
    }

    ghost predicate LocalCopy()
      reads `lost, `cfg, `counter, `dist, `distFromStart, `laps, `lens0, `lens1, output`cur, t0.lookUp, t0.tree, t1.lookUp, t1.tree
    {
      BlockTables() && SourceSafe() && (!lost ==> counter > 0 && cfg.phase == Phase.Copy(Codes(lens0, lens1), counter, dist))
    }

    ghost predicate LocalCopyWait()
      reads `lost, `cfg, `counter, `dist, `distFromStart, `laps, `lens0, `lens1, output`cur, t0.lookUp, t0.tree, t1.lookUp, t1.tree
    {
      BlockTables() && SourceSafe() && (!lost ==> cfg.phase == Phase.Copy(Codes(lens0, lens1), counter + 1, dist))
    }

    /** The call that ended here wanted a byte to complete a code. */
    ghost predicate Hungry(lens: seq<nat>)
      reads input`numBits, input`bitBuf
    {
      input.numBits < 15 && NoneStarts(lens, Lsb(input.bitBuf, input.numBits))
    }

    ghost predicate LocalStart()
      reads `lost, `cfg, input`fed, input`numBits
    {
      !lost && cfg == Start(mode) && input.fed == [] && input.numBits == 0
    }

    ghost predicate LocalZlib()
      reads `place, `lost, `cfg, `zhdr0, input`numBits
    {
      && input.numBits == 0
      && (place.AtZlibFlg? ==> zhdr0 < 256)
      && (!lost ==> cfg.phase == if place.AtZlibFlg? then Phase.ZlibFlg(zhdr0) else Phase.ZlibCmf)
    }

    ghost predicate LocalRawHeader()
      reads `lost, `cfg, `counter, `rawHeader
    {
      counter < 4 == |rawHeader| && (!lost ==> cfg.phase == Phase.RawHeader(rawHeader[..counter]))
    }

    ghost predicate LocalRaw()
      reads `place, `lost, `cfg, `counter, input`numBits
    {
      counter < 65536 && (place.AtRawBytes? && counter > 0 ==> input.numBits == 0) && (!lost ==> cfg.phase == Phase.RawBody(counter))
    }

    ghost predicate LocalRawByte()
      reads `lost, `cfg, `counter, `dist
    {
      0 < counter < 65536 && dist < 256 && (!lost ==> cfg.phase == Phase.RawByte(dist, counter))
    }

    ghost predicate LocalTableSizes()
      reads `lost, `cfg, `counter, `tableSizes
    {
      counter < 3 == |tableSizes| && SizesOk(tableSizes[..counter]) && (!lost ==> cfg.phase == Phase.TableSizes(tableSizes[..counter]))
    }

    ghost predicate LocalSizeSizes()
      reads `lost, `cfg, `counter, `tableSizes, t2`codeSize
    {
      && |tableSizes| == 3 && |t2.codeSize| == 288 && SizesOk(tableSizes) && counter <= tableSizes[2] && Sized(t2.codeSize[..19])
      && (!lost ==> cfg.phase == Phase.SizeSizes(tableSizes, t2.codeSize[..19], counter))
    }

    ghost predicate LocalCodeSizes()
      reads `lost, `cfg, `counter, `tableSizes, `lenCodes, `lens2, t2.lookUp, t2.tree
    {
      && |tableSizes| == 3 && |lenCodes| == 457 && SizesOk(tableSizes[..2]) && counter <= 457 && Sized(lenCodes[..counter]) && |lens2| == 19 && t2.Ready(lens2)
      && (!lost ==> cfg.phase.CodeSizes? && SizesAre(cfg.phase.sizes) && cfg.phase.lens2 == lens2 && cfg.phase.acc == lenCodes[..counter])
    }

    ghost predicate SizesAre(sizes: seq<nat>)
      requires |tableSizes| == 3
      reads `tableSizes
    {
      |sizes| == 3 && sizes[0] == tableSizes[0] && sizes[1] == tableSizes[1]
    }

    ghost predicate LocalCodeSizeRun()
      reads `lost, `cfg, `counter, `dist, `numExtra, `tableSizes, `lenCodes, `lens2, t2.lookUp, t2.tree
    {
      && |tableSizes| == 3 && |lenCodes| == 457 && SizesOk(tableSizes[..2]) && counter < 320 && Sized(lenCodes[..counter]) && |lens2| == 19 && t2.Ready(lens2)
      && 16 <= dist <= 18 && (dist == 16 ==> counter > 0) && numExtra == RunExtra(dist)
      && (!lost ==> cfg.phase.CodeSizeRun? && SizesAre(cfg.phase.sizes) && cfg.phase.lens2 == lens2 && cfg.phase.acc == lenCodes[..counter] && cfg.phase.sym == dist)
    }

    /** The tables of the block are those of its two codes. */
    ghost predicate BlockTables()
      reads `lens0, `lens1, t0.lookUp, t0.tree, t1.lookUp, t1.tree
    {
      |lens1| <= 32 && t0.Ready(lens0) && t1.Ready(lens1)
    }

    ghost predicate LocalLiteral()
      reads `lost, `cfg, `counter, `lens0, `lens1
    {
      counter < 256 && (!lost ==> cfg.phase == Phase.Literal(Codes(lens0, lens1), counter))
    }

    ghost predicate LocalLength()
      reads `lost, `cfg, `counter, `numExtra, `lens0, `lens1
    {
      && numExtra <= 5
      && (!lost ==> cfg.phase.LengthExtra? && cfg.phase.codes == Codes(lens0, lens1) && 257 <= cfg.phase.sym <= 287
                    && counter == LengthBase(cfg.phase.sym) && numExtra == LengthBits(cfg.phase.sym))
    }

    ghost predicate LocalDist()
      reads `lost, `cfg, `counter, `dist, `numExtra, `lens0, `lens1
    {
      && numExtra <= 13
      && (!lost ==> cfg.phase.DistExtra? && cfg.phase.codes == Codes(lens0, lens1) && cfg.phase.len == counter && cfg.phase.sym < 32
                    && dist == DistBase(cfg.phase.sym) && numExtra == DistBits(cfg.phase.sym))
    }

    /** The copy reads inside the buffer. */
    ghost predicate SourceSafe()
      reads `lost, `dist, `distFromStart, `laps, output`cur
    {
      && distFromStart == output.cur + laps * output.buf.Length
      && (if mode.wrapping then !lost ==> dist <= mode.ring else laps == 0 && dist <= distFromStart)
    }

    ghost predicate LocalTrailer()
      reads `lost, `cfg, `counter, `zAdler, input`numBits
    {
      && counter < 4 && zAdler < 0x1_0000_0000
      && (!lost ==> mode.zlib && input.numBits == 0 && cfg.phase.Trailer? && cfg.phase.k == counter && cfg.phase.sum < Lead(counter) && zAdler == cfg.phase.sum + Lead(counter))
    }

    /** Once done the program has read no byte past the end of the stream. */
    ghost predicate LocalDone()
      reads `lost, `cfg, `zAdler, input`numBits
    {
      !lost ==> input.numBits == 0 && cfg.phase.Done? && (mode.zlib ==> cfg.phase.sum == zAdler)
    }

    // ----- what `Local` is at each place, for proofs that do not unfold it

    lemma StartIs()
      ensures place.AtStart? ==> (Local() <==> LocalStart())
    {
    }

    lemma ZlibIs()
      ensures (place.AtZlibCmf? || place.AtZlibFlg?) ==> (Local() <==> LocalZlib())
    {
    }

    lemma HeaderIs()
      ensures place.AtHeader? ==> (Local() <==> (!lost ==> cfg.phase.Header?))
    {
    }

    lemma RawHeaderIs()
      ensures place.AtRawHeader? ==> (Local() <==> LocalRawHeader())
    {
    }

    lemma RawIs()
      ensures (place.AtRawBits? || place.AtRawBytes?) ==> (Local() <==> LocalRaw())
    {
    }

    lemma RawByteIs()
      ensures place.AtRawBitsOut? ==> (Local() <==> LocalRawByte())
    {
    }

    lemma TableSizesIs()
      ensures place.AtTableSizes? ==> (Local() <==> LocalTableSizes())
    {
    }

    lemma SizeSizesIs()
      ensures place.AtSizeSizes? ==> (Local() <==> LocalSizeSizes())
    {
    }

    lemma CodeSizesIs()
      ensures place.AtCodeSizes? ==> (Local() <==> LocalCodeSizes() && (place.waiting ==> Hungry(lens2)))
    {
    }

    lemma CodeSizeRunIs()
      ensures place.AtCodeSizeRun? ==> (Local() <==> LocalCodeSizeRun())
    {
    }

    lemma SymbolIs()
      ensures place.AtSymbol? ==> (Local() <==> LocalSymbol() && (place.waiting ==> Hungry(lens0)))
    {
    }

    lemma LiteralIs()
      ensures place.AtLiteral? ==> (Local() <==> BlockTables() && LocalLiteral())
    {
    }

    lemma LengthIs()
      ensures place.AtLengthExtra? ==> (Local() <==> BlockTables() && LocalLength())
    {
    }

    lemma DistSymbolIs()
      ensures place.AtDistSymbol? ==> (Local() <==> LocalDistSymbol() && (place.waiting ==> Hungry(lens1)))
    {
    }

    lemma DistIs()
      ensures place.AtDistExtra? ==> (Local() <==> BlockTables() && LocalDist())
    {
    }

    lemma CopyIs()
      ensures place.AtCopy? ==> (Local() <==> LocalCopy())
    {
    }

    lemma CopyWaitIs()
      ensures place.AtCopyWait? ==> (Local() <==> LocalCopyWait())
    {
    }

    lemma TrailerIs()
      ensures place.AtTrailer? ==> (Local() <==> LocalTrailer())
    {
    }

    lemma DoneIs()
      ensures place.AtDone? ==> (Local() <==> LocalDone())
    {
    }

    lemma FailedIs()
      ensures place.AtFailed? ==> (Local() <==> (!lost ==> cfg.phase.Bad?))
    {
    }

    constructor (zlib: bool, wrapping: bool, summing: bool, buf: array<u8>, wide: bool)
      requires wrapping ==> buf.Length > 0
      ensures Resting() && place.AtStart? && mode == Mode(zlib, wrapping, buf.Length) && output.buf == buf && this.summing == summing && !lost
      ensures input.fed == [] && output.out == [] && output.cur == 0 && checkAdler == 1
      ensures counted == [] && fresh(this) && fresh(input) && fresh(output) && fresh(t0) && fresh(t1) && fresh(t2)
      ensures fresh(t0.lookUp) && fresh(t0.tree) && fresh(t1.lookUp) && fresh(t1.tree) && fresh(t2.lookUp) && fresh(t2.tree)
    {
      hide Resting, Start, BitInput.Valid, RingOutput.Valid, HuffTable.Shaped;
      mode, this.summing := Mode(zlib, wrapping, buf.Length), summing;
      input := new BitInput(wide);
      output := new RingOutput(buf, wrapping);
      t0 := new HuffTable();
      t1 := new HuffTable();
      t2 := new HuffTable();
      place := AtStart;
      final, blockType, dist, counter, numExtra, zhdr0, zAdler, checkAdler, distFromStart := 0, 0, 0, 0, 0, 0, 1, 1, 0;
      tableSizes, rawHeader, lenCodes := seq(3, _ => 0), seq(4, _ => 0), seq(457, _ => 0);
      lens0, lens1, lens2, laps, steps, lost, astray, counted := [], [], [], 0, 0, false, false, [];
      cfg := Start(Mode(zlib, wrapping, buf.Length));
      new;
      Initially();
    }

    lemma Initially()
      requires Distinct() && input.Valid() && output.Valid() && Shapes() && place.AtStart? && !lost && final == 0 && checkAdler == 1 && counted == []
      requires input.fed == [] && output.out == [] && input.numBits == 0 && cfg == Start(mode) && steps == 0
      ensures Resting()
    {
      hide Step, Local, BitInput.Valid, RingOutput.Valid, HuffTable.Shaped;
      StartOk(mode);
      StartIs();
      FoldNone(Split(1));
    }

    // ----- moving the reference machine along

    /** One step of the reference machine, on the input as far as it has been taken by now. */
    ghost method Advance(was: seq<u8>, ahead: nat)
      requires input.Valid() && Tracked(was, ahead) && Taken(was, ahead)
      requires !lost ==> cfg.pos <= |input.Stream()| && WellFormed(cfg) && (Step(mode, cfg, input.Stream()).Next? || Step(mode, cfg, input.Stream()).Lost?)
      modifies this`cfg, this`steps, this`lost
      ensures Tracked(input.fed, input.inPos) && (old(lost) ==> lost)
      ensures !lost ==> old(Step(mode, cfg, input.Stream())) == Next(cfg) && WellFormed(cfg)
      ensures !old(lost) && old(Step(mode, cfg, input.Stream())).Next? ==> !lost
    {
      hide Runs, Step, WellFormed, OfBytes, Start;
      StartOk(mode);
      if !lost {
        var s := OfBytes(input.fed);
        Extend(was);
        var o := Step(mode, cfg, s);
        if o.Next? {
          StepAdvances(mode, cfg, s);
          AdvanceTight(was, ahead, o.config);
          RunsSnoc(mode, s, Start(mode), cfg, steps);
          cfg, steps := o.config, steps + 1;
        } else {
          Strayed();
          lost := true;
        }
      }
    }

    /** `was` is what had been taken when `ahead` bytes of this call's input had been. */
    ghost predicate Taken(was: seq<u8>, ahead: nat)
      reads input
    {
      was <= input.fed && |input.fed| - |was| == input.inPos - ahead
    }

    /** The machine waits for input that the call does not have. */
    ghost method Wait(was: seq<u8>, ahead: nat)
      requires input.Valid() && Tracked(was, ahead) && Taken(was, ahead)
      requires !lost ==> cfg.pos <= |input.Stream()| && WellFormed(cfg) && (Step(mode, cfg, input.Stream()).Starved? || Step(mode, cfg, input.Stream()).Lost?)
      modifies this`lost
      ensures Tracked(input.fed, input.inPos) && (old(lost) ==> lost)
      ensures !lost ==> Step(mode, cfg, input.Stream()).Starved?
      ensures !old(lost) && Step(mode, cfg, input.Stream()).Starved? ==> !lost
    {
      hide Runs, Step, WellFormed, OfBytes, Start;
      if !lost {
        Extend(was);
        if Step(mode, cfg, OfBytes(input.fed)).Lost? {
          Strayed();
          lost := true;
        }
      }
    }

    ghost method WaitField(was: seq<u8>, ahead: nat)
      requires input.Valid() && Tracked(was, ahead) && Taken(was, ahead)
      requires !lost ==> cfg.pos == input.Pos() && WellFormed(cfg) && input.numBits < FieldBits(cfg)
      modifies this`lost
      ensures Tracked(input.fed, input.inPos) && lost == old(lost)
      ensures !lost ==> Step(mode, cfg, input.Stream()).Starved?
    {
      hide Runs, Step, WellFormed, OfBytes, FieldBits;
      if !lost {
        FieldStarved(mode, cfg, OfBytes(input.fed));
      }
      Wait(was, ahead);
    }

    lemma Strayed()
      requires input.Valid() && Reached(input.fed) && Step(mode, cfg, OfBytes(input.fed)).Lost?
      ensures LeadsAstray(mode, input.fed0 + input.inp)
    {
      hide Step, OfBytes, Runs;
      assert StraysAt(mode, OfBytes(input.fed), cfg, steps);
      assert input.fed0 + input.inp == input.fed + input.inp[input.inPos..];
      OfBytesAppend(input.fed, input.inp[input.inPos..]);
      StraysLonger(mode, OfBytes(input.fed), OfBytes(input.fed0 + input.inp));
    }

    lemma Extend(was: seq<u8>)
      requires Reached(was) && was <= input.fed
      ensures Reached(input.fed)
    {
      hide Runs, WellFormed, OfBytes, Start;
      StartOk(mode);
      OfBytesPrefix(input.fed, |was|);
      assert input.fed[..|was|] == was;
      SameTaken(OfBytes(was), OfBytes(input.fed), cfg.pos);
      RunsLocal(mode, OfBytes(was), OfBytes(input.fed), Start(mode), cfg, steps);
    }

    lemma AdvanceTight(was: seq<u8>, ahead: nat, d: Config)
      requires Tracked(was, ahead) && !lost && Taken(was, ahead) && Reached(input.fed)
      requires Step(mode, cfg, OfBytes(input.fed)) == Next(d) && cfg.pos <= d.pos <= 8 * |input.fed|
      ensures 8 * |input.fed| - d.pos < 8 + 8 * input.inPos
    {
      hide Runs, WellFormed, OfBytes, Step;
      if Step(mode, cfg, OfBytes(was)).Starved? && d.pos <= 8 * |was| {
        OfBytesPrefix(input.fed, |was|);
        assert input.fed[..|was|] == was;
        SameTaken(OfBytes(was), OfBytes(input.fed), d.pos);
        StepLocal(mode, cfg, OfBytes(input.fed), OfBytes(was));
      }
    }

    // ----- what every stretch of the coroutine promises

    twostate predicate Kept()
      reads this, input, output
    {
      && input.inp == old(input.inp) && input.fed0 == old(input.fed0) && output.end == old(output.end) && output.base == old(output.base)
      && checkAdler == old(checkAdler) && counted == old(counted) && astray == old(astray)
      && (old(lost) ==> lost) && old(output.out) <= output.out
    }

    /** Bits not yet used and room not yet filled: no stretch adds to it. */
    ghost function Work(): int
      reads input, output
    {
      8 * (|input.inp| - input.inPos) + input.numBits + output.end - output.cur
    }

    ghost function Rank(): int
      reads this
    {
      match place
      case AtStart => 2000
      case AtTableSizes => 1990
      case AtSizeSizes => 1900 - counter
      case AtCodeSizeRun => 1100 - counter
      case AtCodeSizes(_) => 1000 - counter
      case AtRawHeader => 100
      case AtLengthExtra => 90
      case AtDistSymbol(_) => 80
      case AtDistExtra => 70
      case AtCopy => 60
      case AtCopyWait => 55
      case AtLiteral => 48
      case AtSymbol(_) => 50
      case AtRawBitsOut => 45
      case AtRawBits => 40
      case AtRawBytes => 30
      case AtZlibCmf | AtZlibFlg => 20
      case AtHeader => 10
      case AtTrailer => 5
      case AtDone | AtFailed => 0
    }

    twostate predicate Shrinks()
      reads this, input, output
    {
      Work() < old(Work()) || (Work() == old(Work()) && Rank() < old(Rank()))
    }

    /** All input is used, and the machine needs more. */
    ghost predicate Starving()
      reads `cfg, `lost, input
    {
      input.inPos == |input.inp| && (!lost ==> WellFormed(cfg) && cfg.pos <= |input.Stream()| && Step(mode, cfg, input.Stream()).Starved?)
    }

    /** All room is used, and the machine is about to write. */
    ghost predicate Full()
      reads `cfg, `lost, output
    {
      output.cur == output.end && (!lost ==> Writes(cfg.phase))
    }

    /** What may be said when the coroutine returns. */
    ghost predicate Signalled(sig: Signal)
      reads this, input, output
    {
      match sig
      case Go => true
      case NeedInput => Starving()
      case HaveOutput => Full() && (place.AtLiteral? || place.AtRawBitsOut? || place.AtRawBytes? || place.AtCopyWait?)
      case Fail => place.AtFailed?
      case Finish => place.AtDone?
    }

    lemma SignalIs()
      ensures Starving() ==> Signalled(NeedInput)
      ensures Full() && (place.AtLiteral? || place.AtRawBitsOut? || place.AtRawBytes? || place.AtCopyWait?) ==> Signalled(HaveOutput)
      ensures place.AtFailed? ==> Signalled(Fail)
      ensures place.AtDone? ==> Signalled(Finish)
    {
    }

    // ----- block headers

    /** In the middle of a step: bits have been taken that the machine has not been told of yet. */
    ghost predicate Mid(was: seq<u8>, ahead: nat)
      reads this, input, output, output.buf, t0, t1, t2
    {
      && Distinct() && input.Valid() && output.Valid() && Shapes() && Tracked(was, ahead) && Taken(was, ahead)
      && (!lost ==> WellFormed(cfg) && cfg.pos <= |input.Stream()| && cfg.final == (final % 2 == 1) && cfg.out == output.out)
    }

    /** `TINFL_GET_BITS`: `n` bits, or a wait for input. */
    method ReadField(n: nat) returns (ok: bool, v: nat, ghost was: seq<u8>, ghost ahead: nat)
      requires Core() && n <= 16 && (!lost ==> FieldBits(cfg) == n)
      modifies `lost, input`numBits, input`bitBuf, input`inPos, input`fed
      ensures lost == old(lost) && input.Valid() && v < Pow2(n) && input.numBits == old(input.numBits) + 8 * (input.inPos - old(input.inPos)) - (if ok then n else 0)
      ensures ok && input.inPos > old(input.inPos) ==> input.numBits < 8
      ensures !ok ==> Core() && Starving() && old(input.fed) <= input.fed && input.numBits < n
      ensures ok ==> Mid(was, ahead)
      ensures ok && !lost ==> input.Pos() == cfg.pos + n <= |input.Stream()| && v == Field(input.Stream(), cfg.pos, n)
    {
      hide Step, WellFormed, OfBytes, BitInput.Valid, RingOutput.Valid, HuffTable.Shaped, Field, Pow2, FieldBits, Tracked, Distinct, BitInput.Stream;
      was, ahead, v := input.fed, input.inPos, 0;
      PowPositive(n);
      ok := input.Need(n);
      if ok {
        v := input.Take(n);
      } else {
        WaitField(was, ahead);
      }
    }

    /** The machine takes the step whose bits have been read. */
    ghost method Commit(was: seq<u8>, ahead: nat)
      requires Mid(was, ahead)
      requires !lost ==> var o := Step(mode, cfg, input.Stream()); o.Lost? || (o.Next? && o.config.pos == input.Pos() && o.config.final == cfg.final && o.config.out == cfg.out)
      modifies `cfg, `steps, `lost
      ensures Core() && (old(lost) ==> lost)
      ensures !lost ==> old(Step(mode, cfg, input.Stream())) == Next(cfg)
      ensures !old(lost) && old(Step(mode, cfg, input.Stream())).Next? ==> !lost
    {
      hide Step, WellFormed, OfBytes, BitInput.Valid, RingOutput.Valid, HuffTable.Shaped, Tracked, Distinct, BitInput.Stream;
      Advance(was, ahead);
    }

    method Set(p: Place, c: nat, d: nat, e: nat)
      requires Core()
      modifies `place, `counter, `dist, `numExtra
      ensures Core() && place == p && counter == c && dist == d && numExtra == e
    {
      hide Step, WellFormed, OfBytes, BitInput.Valid, RingOutput.Valid, HuffTable.Shaped, Tracked, Distinct, BitInput.Stream;
      place, counter, dist, numExtra := p, c, d, e;
    }

    /** The three header bits become `m_final` and `m_type`; a stored block skips to the byte boundary. */
    method TakeHeader(v: nat, ghost was: seq<u8>, ghost ahead: nat)
      requires Mid(was, ahead) && (!lost ==> cfg.phase.Header? && input.Pos() == cfg.pos + 3 <= |input.Stream()| && v == Field(input.Stream(), cfg.pos, 3))
      modifies `cfg, `steps, `lost, `final, `blockType, input`numBits, input`bitBuf
      ensures Core() && (old(lost) ==> lost) && blockType == v / 2 && input.numBits <= old(input.numBits)
      ensures !lost ==> !old(lost) && v < 8 && cfg == AfterHeader(old(cfg), v)
    {
      hide Step, WellFormed, OfBytes, BitInput.Valid, RingOutput.Valid, HuffTable.Shaped, Tracked, Distinct, BitInput.Stream, Field, FixedLit, FixedDist, Align;
      if !lost { HeaderNext(mode, cfg, input.Stream()); }
      Advance(was, ahead);
      final, blockType := v, v / 2;
      if blockType == 0 { input.SkipToByte(); }
    }

    method DoHeader() returns (sig: Signal)
      requires Valid() && place.AtHeader?
      modifies this, input, t0, t1, t0.lookUp, t0.tree, t1.lookUp, t1.tree
      ensures Valid() && Kept() && (sig.Go? || Signalled(sig)) && (sig.Go? ==> Shrinks())
    {
      hide Local, Signalled, Starving, Core, Mid, Step, WellFormed, Field, Pow2, FixedLit, FixedDist, OfBytes, Align, BitInput.Valid, BlockTables, BitInput.Stream;
      HeaderIs();
      var ok, v, was, ahead := ReadField(3);
      if !ok {
        HeaderIs();
        SignalIs();
        return NeedInput;
      }
      ghost var c := cfg;
      TakeHeader(v, was, ahead);
      sig := EnterBlock(v, c);
      SignalIs();
    }

    method EnterBlock(v: nat, ghost c: Config) returns (sig: Signal)
      requires Core() && blockType == v / 2 && (!lost ==> v < 8 && cfg == AfterHeader(c, v))
      modifies `place, `counter, `dist, `numExtra, `tableSizes, `lens0, `lens1, t0`codeSize, t1`codeSize, t0.lookUp, t0.tree, t1.lookUp, t1.tree
      ensures Core() && Local() && (sig.Go? || (sig.Fail? && place.AtFailed?))
    {
      hide Local, Core, Step, WellFormed, FixedLit, FixedDist, Align, BlockTables;
      if blockType == 0 {
        Set(AtRawHeader, 0, dist, numExtra);
        RawHeaderIs();
        StartsRawHeader();
        return Go;
      } else if blockType == 3 {
        Set(AtFailed, counter, dist, numExtra);
        FailedIs();
        return Fail;
      } else if blockType == 1 {
        FixedTables();
        Set(AtSymbol(false), counter, dist, numExtra);
        SymbolIs();
        return Go;
      }
      Set(AtTableSizes, 0, dist, numExtra);
      TableSizesIs();
      StartsTableSizes();
      return Go;
    }

    lemma StartsRawHeader()
      requires Core() && counter == 0 && (!lost ==> cfg.phase == Phase.RawHeader([]))
      ensures LocalRawHeader()
    {
      hide Distinct, BitInput.Valid, RingOutput.Valid, WellFormed, Tracked;
      assert rawHeader[..0] == [];
    }

    lemma StartsTableSizes()
      requires Core() && counter == 0 && (!lost ==> cfg.phase == Phase.TableSizes([]))
      ensures LocalTableSizes()
    {
      hide Distinct, BitInput.Valid, RingOutput.Valid, WellFormed, Tracked;
      assert tableSizes[..0] == [];
    }

    /** The fixed codes of section 3.2.6 of RFC 1951. */
    method FixedTables()
      requires Core()
      modifies this`tableSizes, this`lens0, this`lens1, t0`codeSize, t1`codeSize, t0.lookUp, t0.tree, t1.lookUp, t1.tree
      ensures Core() && lens0 == FixedLit() && lens1 == FixedDist() && BlockTables()
    {
      hide Decodes, Buildable, Fits, Complete, BitInput.Valid, RingOutput.Valid, Tracked, WellFormed, OfBytes, BitInput.Stream;
      tableSizes := tableSizes[0 := 288][1 := 32];
      t0.codeSize := Rep(8, 144) + Rep(9, 112) + Rep(7, 24) + Rep(8, 8);
      t1.codeSize := Rep(5, 32) + t1.codeSize[32..];
      lens0, lens1 := FixedLit(), FixedDist();
      assert t0.codeSize[..288] == lens0 && t1.codeSize[..32] == lens1;
      FixedOk();
      var ok := BuildCodes();
    }

    /** The loop over `m_type`: the table for distances, then the one for literals and lengths. */
    method BuildCodes() returns (ok: bool)
      requires Distinct() && Shapes() && 0 < tableSizes[0] <= 288 && 0 < tableSizes[1] <= 32
      requires Sized(t0.codeSize[..tableSizes[0]]) && Sized(t1.codeSize[..tableSizes[1]])
      modifies t0.lookUp, t0.tree, t1.lookUp, t1.tree
      ensures ok <==> Buildable(t0.codeSize[..tableSizes[0]]) && Buildable(t1.codeSize[..tableSizes[1]])
      ensures ok ==> t0.Ready(t0.codeSize[..tableSizes[0]]) && t1.Ready(t1.codeSize[..tableSizes[1]])
    {
      hide Decodes, Buildable;
      ok := t1.Build(tableSizes[1]);
      if ok { ok := t0.Build(tableSizes[0]); }
    }

    // ----- the zlib header

    method DoStart() returns (sig: Signal)
      requires Valid() && place.AtStart?
      modifies this
      ensures Valid() && Kept() && Signalled(sig) && Shrinks() && sig.Go?
    {
      hide Core, Step, WellFormed, OfBytes;
      Set(if mode.zlib then AtZlibCmf else AtHeader, 0, 0, 0);
      SetAdler(1);
      return Go;
    }

    method SetAdler(z: nat)
      requires Core()
      modifies `zAdler
      ensures Core() && zAdler == z
    {
      hide Step, WellFormed, OfBytes, BitInput.Valid, RingOutput.Valid, HuffTable.Shaped, Tracked, Distinct, BitInput.Stream;
      zAdler := z;
    }

    method DoZlibCmf() returns (sig: Signal)
      requires Valid() && place.AtZlibCmf?
      modifies this, input
      ensures Valid() && Kept() && (sig.Go? || Signalled(sig)) && (sig.Go? ==> Shrinks())
    {
      hide Local, Signalled, Starving, Core, Mid, Step, WellFormed, Field, Pow2, FixedLit, FixedDist, OfBytes, Align, BitInput.Valid, BitInput.Stream, BlockTables, Tracked, Distinct, RingOutput.Valid, HuffTable.Shaped, Reached;
      ZlibIs();
      var ok, v, was, ahead := ReadField(8);
      if !ok {
        ZlibIs();
        SignalIs();
        return NeedInput;
      }
      ZlibByte(v, was, ahead);
      SetCmf(v);
      Set(AtZlibFlg, counter, dist, numExtra);
      ZlibIs();
      return Go;
    }

    method DoZlibFlg() returns (sig: Signal)
      requires Valid() && place.AtZlibFlg?
      modifies this, input
      ensures Valid() && Kept() && (sig.Go? || Signalled(sig)) && (sig.Go? ==> Shrinks())
    {
      hide Local, Signalled, Starving, Core, Mid, Step, WellFormed, Field, Pow2, FixedLit, FixedDist, OfBytes, Align, BitInput.Valid, BitInput.Stream, BlockTables, BadZlibHeader;
      ZlibIs();
      var ok, v, was, ahead := ReadField(8);
      if !ok {
        ZlibIs();
        SignalIs();
        return NeedInput;
      }
      ZlibByte(v, was, ahead);
      var bad := BadZlibHeader(mode, zhdr0, v);
      Set(if bad then AtFailed else AtHeader, counter, dist, numExtra);
      FailedIs();
      HeaderIs();
      SignalIs();
      return if bad then Fail else Go;
    }

    method SetCmf(v: nat)
      requires Core()
      modifies `zhdr0
      ensures Core() && zhdr0 == v
    {
      hide Step, WellFormed, OfBytes, BitInput.Valid, RingOutput.Valid, HuffTable.Shaped, Tracked, Distinct, BitInput.Stream;
      zhdr0 := v;
    }

    ghost method ZlibByte(v: nat, was: seq<u8>, ahead: nat)
      requires Mid(was, ahead) && v < Pow2(8) && (!lost ==> cfg.phase.ZlibCmf? || cfg.phase.ZlibFlg?)
      requires !lost ==> input.Pos() == cfg.pos + 8 <= |input.Stream()| && v == Field(input.Stream(), cfg.pos, 8)
      modifies `cfg, `steps, `lost
      ensures Core() && v < 256 && lost == old(lost)
      ensures !lost ==> cfg == old(cfg).(pos := old(cfg).pos + 8, phase := if old(cfg).phase.ZlibCmf? then Phase.ZlibFlg(v)
                                      else if BadZlibHeader(mode, old(cfg).phase.cmf, v) then Bad else Phase.Header)
    {
      hide Step, WellFormed, Field, Pow2, OfBytes, BitInput.Valid, RingOutput.Valid, HuffTable.Shaped, BitInput.Stream, BadZlibHeader, Tracked, Distinct;
      Pow2Values();
      if !lost { ByteNext(mode, cfg, input.Stream()); }
      Commit(was, ahead);
    }

    // ----- stored blocks

    method DoRawHeader() returns (sig: Signal)
      requires Valid() && place.AtRawHeader?
      modifies this, input
      ensures Valid() && Kept() && (sig.Go? || Signalled(sig)) && (sig.Go? ==> Shrinks())
    {
      hide Local, Signalled, Starving, Core, Mid, Step, WellFormed, Field, Pow2, FixedLit, FixedDist, OfBytes, Align, BitInput.Valid, BitInput.Stream, BlockTables, AfterRawHeader;
      RawHeaderIs();
      var ok, v, was, ahead := ReadField(8);
      if !ok {
        RawHeaderIs();
        SignalIs();
        return NeedInput;
      }
      ghost var head := rawHeader[..counter];
      ghost var c := cfg.(pos := cfg.pos + 8);
      RawHeaderByte(v, was, ahead);
      sig := StoreRawHeader(v, c, head);
      SignalIs();
    }

    ghost method RawHeaderByte(v: nat, was: seq<u8>, ahead: nat)
      requires Mid(was, ahead) && v < Pow2(8) && (!lost ==> cfg.phase.RawHeader?)
      requires !lost ==> input.Pos() == cfg.pos + 8 <= |input.Stream()| && v == Field(input.Stream(), cfg.pos, 8)
      modifies `cfg, `steps, `lost
      ensures Core() && v < 256 && lost == old(lost)
      ensures !lost ==> cfg == AfterRawHeader(old(cfg).(pos := old(cfg).pos + 8), old(cfg).phase.head + [v])
    {
      hide Step, WellFormed, OfBytes, BitInput.Valid, RingOutput.Valid, HuffTable.Shaped, Tracked, Distinct, BitInput.Stream, Field, Pow2;
      Pow2Values();
      if !lost { ByteNext(mode, cfg, input.Stream()); }
      Commit(was, ahead);
    }

    /** The length is compared with its complement once all four bytes are there. */
    method StoreRawHeader(v: nat, ghost c: Config, ghost head: seq<nat>) returns (sig: Signal)
      requires Core() && counter < 4 && v < 256 && head == rawHeader[..counter] && |head| == counter && (!lost ==> cfg == AfterRawHeader(c, head + [v]))
      requires place.AtRawHeader?
      modifies `rawHeader, `place, `counter, `dist, `numExtra
      ensures Core() && Local() && (sig.Go? || (sig.Fail? && place.AtFailed?))
    {
      hide Local, Core, Mid, Step, WellFormed, Field, Pow2, FixedLit, FixedDist, OfBytes, Align, BitInput.Valid, BitInput.Stream, BlockTables, AfterRawHeader;
      SetRawHeader(counter, v);
      assert rawHeader[..counter + 1] == head + [v];
      if counter + 1 < 4 {
        PartialRawHeader(c, head + [v]);
        Set(AtRawHeader, counter + 1, dist, numExtra);
        RawHeaderIs();
        return Go;
      }
      assert rawHeader == head + [v];
      sig := EndRawHeader(c);
    }

    lemma PartialRawHeader(c: Config, head: seq<nat>)
      requires |head| < 4
      ensures AfterRawHeader(c, head).phase == Phase.RawHeader(head)
    {
    }

    method EndRawHeader(ghost c: Config) returns (sig: Signal)
      requires Core() && |rawHeader| == 4 && (forall i :: 0 <= i < 4 ==> rawHeader[i] < 256) && (!lost ==> cfg == AfterRawHeader(c, rawHeader))
      modifies `place, `counter, `dist, `numExtra
      ensures Core() && Local() && (sig.Go? || (sig.Fail? && place.AtFailed?)) && (sig.Go? ==> place.AtRawBits?)
    {
      hide Local, Core, Mid, Step, WellFormed, Field, Pow2, FixedLit, FixedDist, OfBytes, Align, BitInput.Valid, BitInput.Stream, BlockTables;
      var len := rawHeader[0] + 256 * rawHeader[1];
      if len + (rawHeader[2] + 256 * rawHeader[3]) != 0xFFFF {
        Set(AtFailed, counter, dist, numExtra);
        FailedIs();
        return Fail;
      }
      Set(AtRawBits, len, dist, numExtra);
      RawIs();
      return Go;
    }

    method SetRawHeader(k: nat, v: nat)
      requires Core() && k < 4 && v < 256
      modifies `rawHeader
      ensures Core() && |old(rawHeader)| == 4 && rawHeader == old(rawHeader)[k := v] && forall i :: 0 <= i < 4 ==> rawHeader[i] < 256
    {
      hide Step, WellFormed, OfBytes, BitInput.Valid, RingOutput.Valid, HuffTable.Shaped, Tracked, Distinct, BitInput.Stream;
      rawHeader := rawHeader[k := v];
    }

    /** Bytes of a stored block that are still in the bit buffer. */
    method DoRawBits() returns (sig: Signal)
      requires Valid() && place.AtRawBits?
      modifies this, input
      ensures Valid() && Kept() && (sig.Go? || Signalled(sig)) && (sig.Go? ==> Shrinks())
    {
      hide Local, Signalled, Starving, Core, Mid, Step, WellFormed, Field, Pow2, FixedLit, FixedDist, OfBytes, Align, BitInput.Valid, BitInput.Stream, BlockTables;
      RawIs();
      if counter == 0 || input.numBits == 0 {
        Set(AtRawBytes, counter, dist, numExtra);
        RawIs();
        return Go;
      }
      var ok, v, was, ahead := ReadField(8);
      if !ok {
        RawIs();
        SignalIs();
        return NeedInput;
      }
      RawBodyByte(v, was, ahead);
      Set(AtRawBitsOut, counter, v, numExtra);
      RawByteIs();
      return Go;
    }

    ghost method RawBodyByte(v: nat, was: seq<u8>, ahead: nat)
      requires Mid(was, ahead) && v < Pow2(8) && (!lost ==> cfg.phase.RawBody? && cfg.phase.left > 0)
      requires !lost ==> input.Pos() == cfg.pos + 8 <= |input.Stream()| && v == Field(input.Stream(), cfg.pos, 8)
      modifies `cfg, `steps, `lost
      ensures Core() && v < 256 && lost == old(lost)
      ensures !lost ==> cfg == old(cfg).(phase := Phase.RawByte(v, old(cfg).phase.left), pos := old(cfg).pos + 8)
    {
      hide Step, WellFormed, OfBytes, BitInput.Valid, RingOutput.Valid, HuffTable.Shaped, Tracked, Distinct, BitInput.Stream, Field, Pow2;
      Pow2Values();
      if !lost { ByteNext(mode, cfg, input.Stream()); }
      Commit(was, ahead);
    }

    method DoRawBitsOut() returns (sig: Signal)
      requires Valid() && place.AtRawBitsOut?
      modifies this, output`cur, output`out, output.buf
      ensures Valid() && Kept() && (sig.Go? || Signalled(sig)) && (sig.Go? ==> Shrinks())
    {
      hide Local, Signalled, Starving, Core, Mid, Step, WellFormed, Field, Pow2, FixedLit, FixedDist, OfBytes, Align, BitInput.Valid, BitInput.Stream, BlockTables;
      RawByteIs();
      if output.cur >= output.end {
        AtEnd();
        SignalIs();
        return HaveOutput;
      }
      if !lost { RawByteStep(); }
      Emit(dist);
      Set(AtRawBits, counter - 1, dist, numExtra);
      RawIs();
      return Go;
    }

    lemma AtEnd()
      requires Core()
      ensures output.cur <= output.end && input.inPos <= |input.inp|
    {
      hide Step, WellFormed, OfBytes, HuffTable.Shaped, Tracked, Distinct, BitInput.Stream;
    }

    lemma RawByteStep()
      requires Core() && !lost && cfg.phase.RawByte?
      ensures cfg.pos <= |input.Stream()| && WellFormed(cfg)
      ensures Step(mode, cfg, input.Stream()) == Next(cfg.(phase := Phase.RawBody(cfg.phase.left - 1), out := cfg.out + [cfg.phase.byte]))
    {
      hide Step, Tracked, Distinct, BitInput.Stream, RingOutput.Valid, HuffTable.Shaped, OfBytes;
      RawByteNext(mode, cfg, input.Stream());
    }

    /** `*pOut_buf_cur++ = b`, which is a step of the machine. */
    method Emit(b: u8)
      requires Core() && output.cur < output.end
      requires !lost ==> cfg.pos <= |input.Stream()| && WellFormed(cfg) && Emits(Step(mode, cfg, input.Stream()), b)
      modifies `cfg, `steps, `lost, output`cur, output`out, output.buf
      ensures Core() && lost == old(lost) && output.cur == old(output.cur) + 1 && output.out == old(output.out) + [b]
      ensures !lost ==> old(Step(mode, cfg, input.Stream())) == Next(cfg)
    {
      hide Step, WellFormed, OfBytes, BitInput.Valid, RingOutput.Valid, HuffTable.Shaped, Tracked, BitInput.Stream, Apart;
      Advance(input.fed, input.inPos);
      output.Write(b);
    }

    /** The step writes `b` and changes nothing else but the phase. */
    ghost predicate Emits(o: Outcome, b: u8)
      reads `cfg
    {
      o.Next? && o.config.pos == cfg.pos && o.config.final == cfg.final && o.config.out == cfg.out + [b]
    }

    /** The bulk copy of a stored block, as far as input and room go. */
    method DoRawBytes() returns (sig: Signal)
      requires Valid() && place.AtRawBytes?
      modifies this, input, output`cur, output`out, output.buf
      ensures Valid() && Kept() && (sig.Go? || Signalled(sig)) && (sig.Go? ==> Shrinks())
    {
      hide Local, Signalled, Starving, Core, Mid, Step, WellFormed, Field, Pow2, FixedLit, FixedDist, OfBytes, Align, BitInput.Valid, BitInput.Stream, BlockTables, AfterBlock, FieldBits;
      RawIs();
      AtEnd();
      if counter == 0 {
        if !lost { RawEndStep(); }
        CoreIsMid();
        sig := EndBlock(input.fed, input.inPos);
        SignalIs();
        return sig;
      }
      if output.cur >= output.end {
        SignalIs();
        return HaveOutput;
      }
      if input.inPos >= |input.inp| {
        RawStarved();
        SignalIs();
        return NeedInput;
      }
      var n := Min(Min(output.end - output.cur, |input.inp| - input.inPos), counter);
      CopyStored(n);
      RawIs();
      return Go;
    }

    lemma RawStarved()
      requires Core() && input.numBits == 0 && (!lost ==> cfg.phase.RawBody? && cfg.phase.left > 0)
      ensures input.inPos >= |input.inp| ==> Starving()
    {
      hide Step, Tracked, Distinct, RingOutput.Valid, HuffTable.Shaped, OfBytes;
      if !lost { FieldStarved(mode, cfg, input.Stream()); }
    }

    lemma RawEndStep()
      requires Core() && !lost && cfg.phase == Phase.RawBody(0)
      ensures cfg.pos <= |input.Stream()| && WellFormed(cfg) && Step(mode, cfg, input.Stream()) == Next(AfterBlock(mode, cfg))
    {
      hide Step, Tracked, Distinct, RingOutput.Valid, HuffTable.Shaped, OfBytes;
      RawEnd(mode, cfg, input.Stream());
    }

    lemma CoreIsMid()
      requires Core()
      ensures Mid(input.fed, input.inPos) && (!lost ==> cfg == cfg.(pos := input.Pos()))
    {
      hide Step, WellFormed, OfBytes, RingOutput.Valid, HuffTable.Shaped, Tracked, Distinct;
    }

    /** The loop condition `!(m_final & 1)`: on to the next block; or, after the last one, to the byte boundary, with whole bytes
        that were read ahead put back. */
    method EndBlock(ghost was: seq<u8>, ghost ahead: nat) returns (sig: Signal)
      requires Mid(was, ahead) && zAdler == 1
      requires !lost ==> Step(mode, cfg, input.Stream()).Lost? || Step(mode, cfg, input.Stream()) == Next(AfterBlock(mode, cfg.(pos := input.Pos())))
      modifies `cfg, `steps, `lost, `place, `counter, `dist, `numExtra, input`numBits, input`bitBuf, input`inPos, input`fed
      ensures Core() && Local() && (old(lost) ==> lost) && input.inPos <= old(input.inPos)
      ensures 8 * (|input.inp| - input.inPos) + input.numBits <= old(8 * (|input.inp| - input.inPos) + input.numBits)
      ensures (sig.Go? && (place.AtHeader? || place.AtTrailer?)) || (sig.Finish? && place.AtDone?)
    {
      hide Local, Core, Mid, Step, WellFormed, Field, Pow2, FixedLit, FixedDist, OfBytes, Align, BitInput.Valid, BitInput.Stream, BlockTables;
      if final % 2 == 0 {
        MidFinal(was, ahead);
        Commit(was, ahead);
        Set(AtHeader, counter, dist, numExtra);
        HeaderIs();
        return Go;
      }
      SkipMid(was, ahead);
      MidFinal(was, ahead);
      Commit(was, ahead);
      sig := EndStream();
    }

    method EndStream() returns (sig: Signal)
      requires Core() && zAdler == 1 && (!lost ==> cfg.phase == if mode.zlib then Phase.Trailer(0, 0) else Phase.Done(0)) && input.numBits % 8 == 0
      modifies `place, `counter, `dist, `numExtra, input`numBits, input`bitBuf, input`inPos, input`fed
      ensures Core() && Local() && input.inPos <= old(input.inPos)
      ensures 8 * (|input.inp| - input.inPos) + input.numBits == old(8 * (|input.inp| - input.inPos) + input.numBits)
      ensures (sig.Go? && place.AtTrailer?) || (sig.Finish? && place.AtDone?)
    {
      hide Local, Core, Mid, Step, WellFormed, Field, Pow2, FixedLit, FixedDist, OfBytes, Align, BitInput.Valid, BitInput.Stream, BlockTables;
      ReturnBytes();
      Set(if mode.zlib then AtTrailer else AtDone, 0, dist, numExtra);
      TrailerIs();
      DoneIs();
      return if mode.zlib then Go else Finish;
    }

    lemma MidFinal(was: seq<u8>, ahead: nat)
      requires Mid(was, ahead)
      ensures !lost ==> cfg.final == (final % 2 == 1) && cfg.pos <= |input.Stream()| && WellFormed(cfg)
    {
      hide Step, WellFormed, OfBytes, BitInput.Valid, RingOutput.Valid, HuffTable.Shaped, Tracked, Distinct, BitInput.Stream;
    }

    method SkipMid(ghost was: seq<u8>, ghost ahead: nat)
      requires Mid(was, ahead)
      modifies input`numBits, input`bitBuf
      ensures Mid(was, ahead) && input.Pos() == Align(old(input.Pos())) && input.numBits <= old(input.numBits) && input.numBits % 8 == 0
    {
      hide Step, WellFormed, OfBytes, BitInput.Valid, RingOutput.Valid, HuffTable.Shaped, Tracked, Distinct, BitInput.Stream, Align;
      input.SkipToByte();
    }

    /** Whole bytes in the bit buffer that came with this call go back. */
    method ReturnBytes()
      requires Core() && (!lost ==> Settled(cfg.phase))
      modifies input`numBits, input`bitBuf, input`inPos, input`fed
      ensures Core() && (!lost ==> input.numBits < 8) && input.inPos <= old(input.inPos) && (input.numBits < 8 || input.inPos == 0)
      ensures 8 * (|input.inp| - input.inPos) + input.numBits == old(8 * (|input.inp| - input.inPos) + input.numBits)
    {
      hide Step, WellFormed, OfBytes, BitInput.Valid, RingOutput.Valid, HuffTable.Shaped, Tracked, Distinct, BitInput.Stream, Settled;
      ghost var was, ahead, pos := input.fed, input.inPos, input.Pos();
      input.PutBack();
      Shrunk(was, ahead);
    }

    lemma Shrunk(was: seq<u8>, ahead: nat)
      requires Tracked(was, ahead) && input.Valid() && (!lost ==> Settled(cfg.phase) && cfg.pos == input.Pos())
      requires input.fed <= was && |was| - |input.fed| == ahead - input.inPos && (input.numBits < 8 || input.inPos == 0)
      ensures Tracked(input.fed, input.inPos) && (!lost ==> input.numBits < 8)
    {
      hide Step, WellFormed, OfBytes, Runs, Start, Settled;
      if lost { return; }
      StartOk(mode);
      OfBytesPrefix(was, |input.fed|);
      assert was[..|input.fed|] == input.fed;
      SameTaken(OfBytes(input.fed), OfBytes(was), cfg.pos);
      RunsLocal(mode, OfBytes(was), OfBytes(input.fed), Start(mode), cfg, steps);
      if Step(mode, cfg, OfBytes(was)).Starved? { SettledStarved(mode, cfg, OfBytes(was)); }
    }

    method CopyStored(n: nat)
      requires Core() && n <= counter && input.numBits == 0 && input.inPos + n <= |input.inp| && output.cur + n <= output.end
      requires !lost ==> cfg.phase == Phase.RawBody(counter)
      modifies `cfg, `steps, `lost, `counter, input`inPos, input`fed, output`cur, output`out, output.buf
      ensures Core() && (old(lost) ==> lost) && (!lost ==> cfg.phase == Phase.RawBody(counter)) && counter == old(counter) - n
      ensures input.inPos == old(input.inPos) + n && output.cur == old(output.cur) + n && old(output.out) <= output.out
    {
      hide Core, Mid, Step, WellFormed, Field, Pow2, OfBytes, BitInput.Valid, BitInput.Stream;
      for i := 0 to n
        invariant Core() && (old(lost) ==> lost) && (!lost ==> cfg.phase == Phase.RawBody(counter)) && counter == old(counter) - i
        invariant input.inPos == old(input.inPos) + i && output.cur == old(output.cur) + i && old(output.out) <= output.out
      {
        CopyStoredByte();
      }
    }

    method CopyStoredByte()
      requires Core() && counter > 0 && input.numBits == 0 && input.inPos < |input.inp| && output.cur < output.end
      requires !lost ==> cfg.phase == Phase.RawBody(counter)
      modifies `cfg, `steps, `lost, `counter, input`inPos, input`fed, output`cur, output`out, output.buf
      ensures Core() && (old(lost) ==> lost) && (!lost ==> cfg.phase == Phase.RawBody(counter)) && counter == old(counter) - 1
      ensures input.inPos == old(input.inPos) + 1 && output.cur == old(output.cur) + 1 && |output.out| == |old(output.out)| + 1 && old(output.out) <= output.out
    {
      hide Core, Mid, Step, WellFormed, Field, Pow2, OfBytes, BitInput.Valid, BitInput.Stream;
      var v, was, ahead := ReadRaw();
      RawBodyByte(v, was, ahead);
      if !lost { RawByteStep(); }
      Emit(v);
      Count(counter - 1);
    }

    method Count(c: nat)
      requires Core()
      modifies `counter
      ensures Core() && counter == c
    {
      hide Step, WellFormed, OfBytes, BitInput.Valid, RingOutput.Valid, HuffTable.Shaped, Tracked, Distinct, BitInput.Stream;
      counter := c;
    }

    method ReadRaw() returns (v: u8, ghost was: seq<u8>, ghost ahead: nat)
      requires Core() && input.numBits == 0 && input.inPos < |input.inp|
      modifies input`inPos, input`fed
      ensures Mid(was, ahead) && v < Pow2(8) && input.inPos == old(input.inPos) + 1
      ensures !lost ==> input.Pos() == cfg.pos + 8 <= |input.Stream()| && v == Field(input.Stream(), cfg.pos, 8)
    {
      hide Step, WellFormed, OfBytes, BitInput.Valid, RingOutput.Valid, HuffTable.Shaped, Tracked, Distinct, BitInput.Stream, Field, Pow2;
      was, ahead := input.fed, input.inPos;
      Pow2Values();
      v := input.TakeByte();
    }

    // ----- the zlib trailer

    method DoTrailer() returns (sig: Signal)
      requires Valid() && place.AtTrailer?
      modifies this, input
      ensures Valid() && Kept() && (sig.Go? || Signalled(sig)) && (sig.Go? ==> Shrinks())
    {
      hide Local, Signalled, Starving, Core, Mid, Step, WellFormed, Field, Pow2, FixedLit, FixedDist, OfBytes, Align, BitInput.Valid, BitInput.Stream, BlockTables, AfterTrailer;
      TrailerIs();
      var ok, v, was, ahead := ReadField(8);
      if !ok {
        TrailerIs();
        SignalIs();
        return NeedInput;
      }
      ghost var sum := if lost then 0 else cfg.phase.sum * 256 + v;
      TrailerByte(v, was, ahead);
      sig := KeepTrailer((zAdler * 256 + v) % 0x1_0000_0000, sum);
      SignalIs();
    }

    method KeepTrailer(z: nat, ghost sum: nat) returns (sig: Signal)
      requires Core() && counter < 4 && z < 0x1_0000_0000
      requires !lost ==> mode.zlib && input.numBits == 0
      requires !lost && counter < 3 ==> cfg.phase == Phase.Trailer(counter + 1, sum) && sum < Lead(counter + 1) && z == sum + Lead(counter + 1)
      requires !lost && counter == 3 ==> cfg.phase == Phase.Done(z)
      modifies `zAdler, `place, `counter, `dist, `numExtra
      ensures Core() && Local() && if place.AtDone? then sig.Finish? else place.AtTrailer? && sig.Go?
    {
      hide Local, Core, Mid, Step, WellFormed, Field, Pow2, FixedLit, FixedDist, OfBytes, Align, BitInput.Valid, BitInput.Stream, BlockTables, Lead;
      SetAdler(z);
      Set(if counter == 3 then AtDone else AtTrailer, counter + 1, dist, numExtra);
      DoneIs();
      TrailerIs();
      return if place.AtDone? then Finish else Go;
    }

    ghost method TrailerByte(v: nat, was: seq<u8>, ahead: nat)
      requires Mid(was, ahead) && v < Pow2(8)
      requires !lost ==> cfg.phase.Trailer? && cfg.phase.k == counter < 4 && cfg.phase.sum < Lead(counter) && zAdler == cfg.phase.sum + Lead(counter)
      requires !lost ==> input.Pos() == cfg.pos + 8 <= |input.Stream()| && v == Field(input.Stream(), cfg.pos, 8)
      modifies `cfg, `steps, `lost
      ensures Core() && v < 256 && lost == old(lost)
      ensures !lost && counter < 3 ==> cfg.phase == Phase.Trailer(counter + 1, old(cfg).phase.sum * 256 + v) && old(cfg).phase.sum * 256 + v < Lead(counter + 1)
      ensures !lost && counter < 3 ==> (zAdler * 256 + v) % 0x1_0000_0000 == old(cfg).phase.sum * 256 + v + Lead(counter + 1)
      ensures !lost && counter == 3 ==> cfg.phase == Phase.Done((zAdler * 256 + v) % 0x1_0000_0000)
    {
      hide Step, WellFormed, OfBytes, BitInput.Valid, RingOutput.Valid, HuffTable.Shaped, Tracked, Distinct, BitInput.Stream, Field, Pow2;
      Pow2Values();
      if !lost { ByteNext(mode, cfg, input.Stream()); }
      Commit(was, ahead);
    }

    // ----- the code tables of a dynamic block

    method DoTableSizes() returns (sig: Signal)
      requires Valid() && place.AtTableSizes?
      modifies this, input, t2`codeSize
      ensures Valid() && Kept() && (sig.Go? || Signalled(sig)) && (sig.Go? ==> Shrinks())
    {
      hide Local, Signalled, Starving, Core, Mid, Step, WellFormed, Field, Pow2, FixedLit, FixedDist, OfBytes, Align, BitInput.Valid, BitInput.Stream, BlockTables, AfterTableSizes, FieldBits;
      TableSizesIs();
      SizeBitsAre();
      var ok, v, was, ahead := ReadField(SIZE_BITS[counter]);
      if !ok {
        TableSizesIs();
        SignalIs();
        return NeedInput;
      }
      ghost var c := cfg.(pos := cfg.pos + SIZE_BITS[counter]);
      TableSizeRead(v, was, ahead);
      StoreTableSize(v + SIZE_MIN[counter], c);
      return Go;
    }

    lemma SizeBitsAre()
      requires Core() && LocalTableSizes()
      ensures SIZE_BITS[counter] <= 5 && (!lost ==> WellFormed(cfg) && FieldBits(cfg) == SIZE_BITS[counter])
    {
      hide Buildable, WellFormed, BitInput.Valid, RingOutput.Valid, Distinct, Tracked, HuffTable.Shaped;
    }

    ghost method TableSizeRead(v: nat, was: seq<u8>, ahead: nat)
      requires Mid(was, ahead) && LocalTableSizes() && v < Pow2(SIZE_BITS[counter])
      requires !lost ==> input.Pos() == cfg.pos + SIZE_BITS[counter] <= |input.Stream()| && v == Field(input.Stream(), cfg.pos, SIZE_BITS[counter])
      modifies `cfg, `steps, `lost
      ensures Core() && lost == old(lost) && v < (if counter == 2 then 16 else 32) && LocalSizesOk()
      ensures !lost ==> cfg == AfterTableSizes(old(cfg).(pos := old(cfg).pos + SIZE_BITS[counter]), tableSizes[..counter] + [v + SIZE_MIN[counter]])
    {
      hide Step, WellFormed, OfBytes, BitInput.Valid, RingOutput.Valid, HuffTable.Shaped, Tracked, Distinct, BitInput.Stream, Field, Pow2, Rep;
      SmallPowers();
      if !lost { TableSizesNext(mode, cfg, input.Stream()); }
      Commit(was, ahead);
    }

    ghost predicate LocalSizesOk()
      reads `tableSizes, `counter
    {
      |tableSizes| == 3 && counter < 3 && SizesOk(tableSizes[..counter])
    }

    method StoreTableSize(size: nat, ghost c: Config)
      requires Core() && LocalSizesOk() && SIZE_MIN[counter] <= size < SIZE_MIN[counter] + (if counter == 2 then 16 else 32)
      requires !lost ==> cfg == AfterTableSizes(c, tableSizes[..counter] + [size])
      modifies `tableSizes, `place, `counter, `dist, `numExtra, t2`codeSize
      ensures Core() && Local() && if old(counter) < 2 then place.AtTableSizes? && counter == old(counter) + 1 else place.AtSizeSizes? && counter == 0
    {
      hide Local, Core, Mid, Step, WellFormed, Field, Pow2, FixedLit, FixedDist, OfBytes, Align, BitInput.Valid, BitInput.Stream, BlockTables;
      ghost var before := tableSizes[..counter];
      SetTableSize(counter, size);
      assert tableSizes[..counter + 1] == before + [size];
      if counter < 2 {
        Set(AtTableSizes, counter + 1, dist, numExtra);
        TableSizesIs();
      } else {
        assert tableSizes[..3] == tableSizes;
        ClearSizes();
        Set(AtSizeSizes, 0, dist, numExtra);
        SizeSizesIs();
      }
    }

    method SetTableSize(k: nat, v: nat)
      requires Core() && k < 3
      modifies `tableSizes
      ensures Core() && |old(tableSizes)| == 3 && tableSizes == old(tableSizes)[k := v]
    {
      hide Step, WellFormed, OfBytes, BitInput.Valid, RingOutput.Valid, HuffTable.Shaped, Tracked, Distinct, BitInput.Stream;
      tableSizes := tableSizes[k := v];
    }

    method ClearSizes()
      requires Core()
      modifies t2`codeSize
      ensures Core() && t2.codeSize == Rep(0, 288) && t2.codeSize[..19] == Rep(0, 19)
    {
      hide Step, WellFormed, OfBytes, BitInput.Valid, RingOutput.Valid, Tracked, Distinct, BitInput.Stream;
      t2.codeSize := Rep(0, 288);
    }

    method DoSizeSizes() returns (sig: Signal)
      requires Valid() && place.AtSizeSizes?
      modifies this, input, t2`codeSize, t2.lookUp, t2.tree
      ensures Valid() && Kept() && (sig.Go? || Signalled(sig)) && (sig.Go? ==> Shrinks())
    {
      hide Local, Signalled, Starving, Core, Mid, Step, WellFormed, Field, Pow2, FixedLit, FixedDist, OfBytes, Align, BitInput.Valid, BitInput.Stream, BlockTables, Sized, SizesOk, FieldBits;
      SizeSizesIs();
      SizeSizesCount();
      if counter == tableSizes[2] {
        sig := BuildSizes();
        SignalIs();
        return;
      }
      SizeSizesField();
      var ok, v, was, ahead := ReadField(3);
      if !ok {
        SizeSizesIs();
        SignalIs();
        return NeedInput;
      }
      SizeSizeRead(v, was, ahead);
      StoreSizeSize(v);
      return Go;
    }

    lemma SizeSizesCount()
      requires LocalSizeSizes()
      ensures counter <= 19
    {
      hide Buildable, WellFormed, Sized;
    }

    lemma SizeSizesField()
      requires Core() && LocalSizeSizes() && counter < tableSizes[2]
      ensures counter < 19 && (!lost ==> WellFormed(cfg) && FieldBits(cfg) == 3)
    {
      hide Buildable, WellFormed, BitInput.Valid, RingOutput.Valid, Distinct, Tracked, HuffTable.Shaped, Sized;
    }

    ghost predicate SizeSizeTaken(v: nat)
      reads this, t2
    {
      |t2.codeSize| == 288 && counter < 19 && (!lost ==> cfg.phase == Phase.SizeSizes(tableSizes, t2.codeSize[..19][ZIGZAG[counter] := v], counter + 1))
    }

    ghost method SizeSizeRead(v: nat, was: seq<u8>, ahead: nat)
      requires Mid(was, ahead) && LocalSizeSizes() && counter < tableSizes[2] && counter < 19 && |t2.codeSize| == 288 && v < Pow2(3)
      requires !lost ==> input.Pos() == cfg.pos + 3 <= |input.Stream()| && v == Field(input.Stream(), cfg.pos, 3)
      modifies `cfg, `steps, `lost
      ensures Core() && lost == old(lost) && v < 8
      ensures SizeSizeTaken(v)
    {
      hide Step, WellFormed, OfBytes, BitInput.Valid, RingOutput.Valid, HuffTable.Shaped, Tracked, Distinct, BitInput.Stream, Field, Pow2, Sized;
      SmallPowers();
      if !lost { SizeSizesNext(mode, cfg, input.Stream()); }
      Commit(was, ahead);
    }

    method StoreSizeSize(v: nat)
      requires Core() && |tableSizes| == 3 && |t2.codeSize| == 288 && SizesOk(tableSizes) && counter < tableSizes[2] && counter < 19 && Sized(t2.codeSize[..19]) && v < 8
      requires SizeSizeTaken(v)
      modifies `place, `counter, `dist, `numExtra, t2`codeSize
      ensures Core() && Local() && place.AtSizeSizes? && counter == old(counter) + 1
    {
      hide Local, Core, Mid, Step, WellFormed, Field, Pow2, FixedLit, FixedDist, OfBytes, Align, BitInput.Valid, BitInput.Stream, BlockTables, SizesOk;
      SetSizeSize(ZIGZAG[counter], v);
      Set(AtSizeSizes, counter + 1, dist, numExtra);
      SizeSizesIs();
    }

    method SetSizeSize(k: nat, v: nat)
      requires Core() && |t2.codeSize| == 288 && k < 19 && v < 8 && Sized(t2.codeSize[..19])
      modifies t2`codeSize
      ensures Core() && |t2.codeSize| == 288 && t2.codeSize[..19] == old(t2.codeSize[..19])[k := v] && Sized(t2.codeSize[..19])
    {
      hide Step, WellFormed, OfBytes, BitInput.Valid, RingOutput.Valid, Tracked, Distinct, BitInput.Stream;
      t2.codeSize := t2.codeSize[k := v];
    }

    /** The code for code sizes is complete: `m_table_sizes[2] = 19`, and its table is built. */
    method BuildSizes() returns (sig: Signal)
      requires Core() && LocalSizeSizes() && counter == tableSizes[2]
      modifies `cfg, `steps, `lost, `lens2, `tableSizes, `place, `counter, `dist, `numExtra, t2.lookUp, t2.tree
      ensures Core() && Local() && (old(lost) ==> lost) && ((sig.Fail? && place.AtFailed?) || (sig.Go? && place.AtCodeSizes? && counter == 0))
    {
      hide Local, Core, Mid, Step, WellFormed, Field, Pow2, FixedLit, FixedDist, OfBytes, Align, BitInput.Valid, BitInput.Stream, BlockTables, Buildable, Sized;
      SizeSizesStep();
      var ok := BuildTable2();
      SetTableSize(2, 19);
      if !ok {
        Set(AtFailed, counter, dist, numExtra);
        FailedIs();
        return Fail;
      }
      assert lenCodes[..0] == [];
      FirstTwo();
      Set(AtCodeSizes(false), 0, dist, numExtra);
      CodeSizesIs();
      return Go;
    }

    lemma FirstTwo()
      requires Core() && (forall k :: 0 <= k < 2 ==> SIZE_MIN[k] <= tableSizes[k] < SIZE_MIN[k] + 32)
      ensures SizesOk(tableSizes[..2]) && |lenCodes| == 457 && lenCodes[..0] == [] && Sized([])
    {
      hide WellFormed, BitInput.Valid, RingOutput.Valid, Distinct, Tracked, HuffTable.Shaped;
    }

    ghost method SizeSizesStep()
      requires Core() && LocalSizeSizes() && counter == tableSizes[2]
      modifies `cfg, `steps, `lost
      ensures Core() && (old(lost) ==> lost) && LocalSizes3()
      ensures !lost ==> cfg.phase == if Buildable(t2.codeSize[..19]) then Phase.CodeSizes(tableSizes, t2.codeSize[..19], []) else Bad
    {
      hide Step, WellFormed, OfBytes, BitInput.Valid, RingOutput.Valid, HuffTable.Shaped, Tracked, Distinct, BitInput.Stream, Buildable;
      if !lost { SizeSizesEnd(mode, cfg, input.Stream()); }
      CoreIsMid();
      Commit(input.fed, input.inPos);
    }

    ghost predicate LocalSizes3()
      reads `tableSizes, t2
    {
      |tableSizes| == 3 && |t2.codeSize| == 288 && Sized(t2.codeSize[..19]) && forall k :: 0 <= k < 2 ==> SIZE_MIN[k] <= tableSizes[k] < SIZE_MIN[k] + 32
    }

    method BuildTable2() returns (ok: bool)
      requires Core() && LocalSizes3()
      modifies `lens2, t2.lookUp, t2.tree
      ensures Core() && lens2 == t2.codeSize[..19] && (ok <==> Buildable(lens2)) && (ok ==> t2.Ready(lens2))
    {
      hide Step, WellFormed, OfBytes, BitInput.Valid, Tracked, BitInput.Stream, Decodes, Buildable;
      lens2 := t2.codeSize[..19];
      ok := t2.Build(19);
    }

    // ----- symbols

    /** `TINFL_HUFF_DECODE`: a symbol, or a wait for input in the middle of its code.  `next` is where the machine stands after its bits. */
    method ReadSymbol(t: HuffTable, ghost lens: seq<nat>, resuming: bool) returns (ok: bool, sym: nat, ghost next: Config, ghost was: seq<u8>, ghost ahead: nat)
      requires Core() && t.Shaped() && t.Ready(lens) && (resuming ==> Hungry(lens)) && (!lost ==> WellFormed(cfg) && Wants(cfg, lens))
      modifies `lost, input`numBits, input`bitBuf, input`inPos, input`fed
      ensures input.Valid() && (old(lost) ==> lost)
      ensures !ok ==> Core() && Starving() && Hungry(lens) && BitsLeft() == old(BitsLeft())
      ensures ok ==> Mid(was, ahead) && lost == old(lost) && sym < |lens| && (!lost ==> SymbolStep(sym, next))
      ensures ok ==> BitsLeft() <= old(BitsLeft()) && (sym != 0 ==> BitsLeft() < old(BitsLeft()))
    {
      hide Step, WellFormed, OfBytes, BitInput.Valid, RingOutput.Valid, HuffTable.Shaped, Tracked, Distinct, BitInput.Stream, Decodes, NoneStarts, Wants, Read, AfterAny;
      was, ahead, next := input.fed, input.inPos, cfg;
      ghost var len;
      ok, sym, len := input.HuffDecode(t, lens, resuming);
      if ok {
        next := cfg.(pos := cfg.pos + len);
        if !lost { SymbolRead(lens, sym, len); }
      } else {
        if !lost { SymbolStarved(lens); }
        Wait(was, ahead);
      }
    }

    /** Bits that this call has not used yet. */
    ghost function BitsLeft(): int
      reads input
    {
      8 * (|input.inp| - input.inPos) + input.numBits
    }

    /** The step that the machine takes for the symbol just read. */
    ghost predicate SymbolStep(sym: nat, next: Config)
      reads this, input
    {
      && WellFormed(cfg) && cfg.pos <= |input.Stream()| && WellFormed(next) && next == cfg.(pos := next.pos) && next.pos == input.Pos() && (next.phase.CodeSizes? || next.phase.Symbol? || next.phase.DistSymbol?)
      && (Step(mode, cfg, input.Stream()).Lost? || Step(mode, cfg, input.Stream()) == AfterAny(mode, next, sym))
    }

    lemma SymbolRead(lens: seq<nat>, sym: nat, len: nat)
      requires !lost && WellFormed(cfg) && Wants(cfg, lens) && cfg.pos <= |input.Stream()| && input.Pos() == cfg.pos + len
      requires Read(lens, input.Stream(), cfg.pos, sym, len)
      ensures SymbolStep(sym, cfg.(pos := cfg.pos + len))
    {
      hide Step, OfBytes, Decode, Buildable, AfterSizeSymbol, AfterSymbol;
      SymbolNext(mode, cfg, input.Stream(), lens);
    }

    /** None of the bits in hand starts a code, so the machine waits, or is lost. */
    lemma SymbolStarved(lens: seq<nat>)
      requires !lost && WellFormed(cfg) && Wants(cfg, lens) && input.Valid() && cfg.pos == input.Pos() && NoneStarts(lens, Lsb(input.bitBuf, input.numBits))
      ensures cfg.pos <= |input.Stream()| && (Step(mode, cfg, input.Stream()).Starved? || Step(mode, cfg, input.Stream()).Lost?)
    {
      hide Step, WellFormed, OfBytes, Lsb, Wants, Starts;
      SymbolNext(mode, cfg, input.Stream(), lens);
    }

    /** The machine takes the step for a symbol that does not end the block. */
    ghost method TakeSymbolStep(sym: nat, next: Config, was: seq<u8>, ahead: nat)
      requires Mid(was, ahead) && (!lost ==> SymbolStep(sym, next) && (sym == 256 ==> !cfg.phase.Symbol?))
      modifies `cfg, `steps, `lost
      ensures Core() && (old(lost) ==> lost)
      ensures !lost ==> WellFormed(next) && next == old(cfg).(pos := next.pos) && next.pos == input.Pos() && (next.phase.CodeSizes? || next.phase.Symbol? || next.phase.DistSymbol?) && Next(cfg) == AfterAny(mode, next, sym)
    {
      hide Mid, Core, Step, WellFormed, OfBytes, BitInput.Stream;
      Commit(was, ahead);
    }

    // ----- the code sizes of a dynamic block

    method DoCodeSizes() returns (sig: Signal)
      requires Valid() && place.AtCodeSizes?
      modifies this, input, t0`codeSize, t1`codeSize, t0.lookUp, t0.tree, t1.lookUp, t1.tree
      ensures Valid() && Kept() && (sig.Go? || Signalled(sig)) && (sig.Go? ==> Shrinks())
    {
      hide Local, LocalCodeSizes, Signalled, Starving, Core, Mid, Step, WellFormed, Field, Pow2, FixedLit, FixedDist, OfBytes, Align, BitInput.Valid, BitInput.Stream, BlockTables, BitInput.Stream, SymbolStep, Hungry, Buildable, AfterSizeSymbol, Wants;
      CodeSizesIs();
      CodeSizesShape();
      if counter >= tableSizes[0] + tableSizes[1] {
        sig := EndCodeSizes();
        SignalIs();
        return;
      }
      var ok, sym, next, was, ahead := SizeSymbol();
      if !ok {
        SignalIs();
        return NeedInput;
      }
      sig := CodeSizeKnown(sym, next, was, ahead);
      SignalIs();
    }

    method SizeSymbol() returns (ok: bool, sym: nat, ghost next: Config, ghost was: seq<u8>, ghost ahead: nat)
      requires Core() && LocalCodeSizes() && place.AtCodeSizes? && (place.waiting ==> Hungry(lens2)) && |tableSizes| == 3 && counter < tableSizes[0] + tableSizes[1]
      modifies `lost, `place, `counter, `dist, `numExtra, input`numBits, input`bitBuf, input`inPos, input`fed
      ensures (old(lost) ==> lost) && BitsLeft() <= old(BitsLeft()) && place.AtCodeSizes? && counter == old(counter)
      ensures !ok ==> Core() && Local() && Starving()
      ensures ok ==> Mid(was, ahead) && LocalCodeSizes() && sym < 19 && (!lost ==> SymbolStep(sym, next)) && (sym != 0 ==> BitsLeft() < old(BitsLeft()))
    {
      hide Local, Core, Mid, Step, WellFormed, Field, Pow2, OfBytes, Align, BitInput.Valid, BitInput.Stream, BlockTables, SymbolStep, Hungry, Buildable, AfterSizeSymbol, Wants, Starving, Sized, SizesOk, Decodes, HuffTable.Shaped;
      CodeSizesShape();
      CodeSizesWanted();
      ok, sym, next, was, ahead := ReadSymbol(t2, lens2, place.waiting);
      if !ok {
        Set(AtCodeSizes(true), counter, dist, numExtra);
        CodeSizesIs();
      }
    }

    method CodeSizeKnown(sym: nat, ghost next: Config, ghost was: seq<u8>, ghost ahead: nat) returns (sig: Signal)
      requires Mid(was, ahead) && LocalCodeSizes() && counter < 320 && sym < 19 && (!lost ==> SymbolStep(sym, next))
      modifies `cfg, `steps, `lost, `lenCodes, `place, `counter, `dist, `numExtra
      ensures Core() && Local() && (old(lost) ==> lost)
      ensures (sig.Fail? && place.AtFailed?) || (sig.Go? && ((place.AtCodeSizes? && counter == old(counter) + 1) || (place.AtCodeSizeRun? && sym != 0)))
    {
      hide Local, Core, Mid, Step, WellFormed, Field, Pow2, FixedLit, FixedDist, OfBytes, Align, BitInput.Valid, BitInput.Stream, BlockTables, SymbolStep, Wants, Buildable, SizesOk, Sized, AfterSizeSymbol, AfterSymbol, Rep, Decodes;
      TakeSymbolStep(sym, next, was, ahead);
      sig := StoreCodeSize(sym, next);
    }

    lemma CodeSizesShape()
      requires Core() && LocalCodeSizes()
      ensures |tableSizes| == 3 && 257 <= tableSizes[0] < 289 && 1 <= tableSizes[1] < 33 && counter <= 457 && t2.Shaped() && |lens2| == 19 && t2.Ready(lens2)
    {
      hide Buildable, WellFormed, BitInput.Valid, RingOutput.Valid, Distinct, Tracked, Decodes;
    }

    lemma CodeSizesWanted()
      requires Core() && LocalCodeSizes() && |tableSizes| == 3 && counter < tableSizes[0] + tableSizes[1]
      ensures !lost ==> WellFormed(cfg) && Wants(cfg, lens2)
    {
      hide Buildable, WellFormed, BitInput.Valid, RingOutput.Valid, Distinct, Tracked, Decodes, HuffTable.Shaped;
    }

    /** One code size, or the start of a run of them. */
    method StoreCodeSize(sym: nat, ghost next: Config) returns (sig: Signal)
      requires Core() && |tableSizes| == 3 && |lenCodes| == 457 && SizesOk(tableSizes[..2]) && counter < 320 && Sized(lenCodes[..counter]) && |lens2| == 19 && t2.Ready(lens2) && sym < 19
      requires !lost ==> WellFormed(next) && next.phase.CodeSizes? && Next(cfg) == AfterAny(mode, next, sym) && SizesAre(next.phase.sizes) && next.phase.lens2 == lens2 && next.phase.acc == lenCodes[..counter]
      modifies `lenCodes, `place, `counter, `dist, `numExtra
      ensures Core() && Local() && ((sig.Fail? && place.AtFailed?) || (sig.Go? && ((place.AtCodeSizes? && counter == old(counter) + 1) || (place.AtCodeSizeRun? && counter == old(counter) && sym != 0))))
    {
      hide Local, Core, Mid, Step, WellFormed, Field, Pow2, FixedLit, FixedDist, OfBytes, Align, BitInput.Valid, BitInput.Stream, BlockTables, BitInput.Stream, Buildable, SizesOk;
      if sym < 16 {
        ghost var acc := lenCodes[..counter];
        PutCodeSizes(counter, sym, 1);
        assert lenCodes[..counter + 1] == acc + [sym];
        Set(AtCodeSizes(false), counter + 1, sym, numExtra);
        CodeSizesIs();
        return Go;
      }
      if sym == 16 && counter == 0 {
        Set(AtFailed, counter, sym, numExtra);
        FailedIs();
        return Fail;
      }
      Set(AtCodeSizeRun, counter, sym, RunExtra(sym));
      CodeSizeRunIs();
      return Go;
    }

    /** `TINFL_MEMSET(r->m_len_codes + k, v, n)` */
    method PutCodeSizes(k: nat, v: nat, n: nat)
      requires Core() && k + n <= 457 && v <= 15
      modifies `lenCodes
      ensures Core() && |lenCodes| == |old(lenCodes)| == 457 && lenCodes[..k + n] == old(lenCodes)[..k] + Rep(v, n)
      ensures Sized(old(lenCodes)[..k]) ==> Sized(lenCodes[..k + n])
    {
      hide Step, WellFormed, OfBytes, BitInput.Valid, RingOutput.Valid, HuffTable.Shaped, Tracked, Distinct, BitInput.Stream;
      lenCodes := lenCodes[..k] + Rep(v, n) + lenCodes[k + n..];
    }

    method DoCodeSizeRun() returns (sig: Signal)
      requires Valid() && place.AtCodeSizeRun?
      modifies this, input
      ensures Valid() && Kept() && (sig.Go? || Signalled(sig)) && (sig.Go? ==> Shrinks())
    {
      hide Local, Signalled, Starving, Core, Mid, Step, WellFormed, Field, Pow2, FixedLit, FixedDist, OfBytes, Align, BitInput.Valid, BitInput.Stream, BlockTables, Sized, SizesOk, FieldBits, Buildable, RunOf;
      CodeSizeRunIs();
      RunBitsAre();
      var ok, v, was, ahead := ReadField(numExtra);
      if !ok {
        CodeSizeRunIs();
        SignalIs();
        return NeedInput;
      }
      RunRead(v, was, ahead);
      StoreRun(v);
      return Go;
    }

    lemma RunBitsAre()
      requires Core() && LocalCodeSizeRun()
      ensures numExtra <= 7 && (!lost ==> WellFormed(cfg) && FieldBits(cfg) == numExtra)
    {
      hide Buildable, WellFormed, BitInput.Valid, RingOutput.Valid, Distinct, Tracked, HuffTable.Shaped, Decodes;
    }

    /** The run as the machine has it is the run that `m_len_codes` gets. */
    ghost predicate RunAdded(v: nat)
      reads this
    {
      |lenCodes| == 457 && counter < 320 && 16 <= dist <= 18 && (dist == 16 ==> counter > 0) && v + RunBase(dist) <= 138 && Sized(lenCodes[..counter])
      && (!lost ==> cfg.phase.CodeSizes? && SizesAre3(cfg.phase.sizes) && cfg.phase.lens2 == lens2 && cfg.phase.acc == lenCodes[..counter] + RunOf(lenCodes[..counter], dist, v))
    }

    ghost predicate SizesAre3(sizes: seq<nat>)
      reads `tableSizes
    {
      |tableSizes| == 3 && SizesAre(sizes)
    }

    ghost method RunRead(v: nat, was: seq<u8>, ahead: nat)
      requires Mid(was, ahead) && LocalCodeSizeRun() && v < Pow2(numExtra)
      requires !lost ==> input.Pos() == cfg.pos + numExtra <= |input.Stream()| && v == Field(input.Stream(), cfg.pos, numExtra)
      modifies `cfg, `steps, `lost
      ensures Core() && (old(lost) ==> lost) && RunAdded(v)
    {
      hide Step, WellFormed, OfBytes, BitInput.Valid, RingOutput.Valid, HuffTable.Shaped, Tracked, Distinct, BitInput.Stream, Field, Pow2, Sized, RunOf, Decodes;
      SmallPowers();
      if !lost { RunNext(mode, cfg, input.Stream()); }
      Commit(was, ahead);
    }

    method StoreRun(v: nat)
      requires Core() && RunAdded(v) && |tableSizes| == 3 && SizesOk(tableSizes[..2]) && |lens2| == 19 && t2.Ready(lens2)
      modifies `lenCodes, `place, `counter, `dist, `numExtra
      ensures Core() && Local() && place.AtCodeSizes? && counter >= old(counter)
    {
      hide Local, Core, Mid, Step, WellFormed, Field, Pow2, FixedLit, FixedDist, OfBytes, Align, BitInput.Valid, BitInput.Stream, BlockTables, BitInput.Stream, Buildable, SizesOk, Decodes;
      PrevIsSmall();
      ghost var acc := lenCodes[..counter];
      var s := v + RunBase(dist);
      PutCodeSizes(counter, if dist == 16 then lenCodes[counter - 1] else 0, s);
      Set(AtCodeSizes(false), counter + s, dist, numExtra);
      CodeSizesIs();
    }

    lemma PrevIsSmall()
      requires |lenCodes| == 457 && counter < 320 && Sized(lenCodes[..counter])
      ensures counter > 0 ==> lenCodes[counter - 1] <= 15
    {
      assert counter > 0 ==> lenCodes[..counter][counter - 1] == lenCodes[counter - 1];
    }

    /** The code sizes are split between the two codes, whose tables are then built. */
    method EndCodeSizes() returns (sig: Signal)
      requires Core() && LocalCodeSizes() && counter >= tableSizes[0] + tableSizes[1]
      modifies `cfg, `steps, `lost, `place, `counter, `dist, `numExtra, `lens0, `lens1, t0`codeSize, t1`codeSize, t0.lookUp, t0.tree, t1.lookUp, t1.tree
      ensures Core() && Local() && (old(lost) ==> lost) && ((sig.Fail? && place.AtFailed?) || (sig.Go? && place == AtSymbol(false)))
    {
      hide Local, Core, Mid, Step, WellFormed, Field, Pow2, FixedLit, FixedDist, OfBytes, Align, BitInput.Valid, BitInput.Stream, BlockTables, BitInput.Stream, Buildable, SizesOk, Decodes, CodesFound;
      var total := tableSizes[0] + tableSizes[1];
      CodesFoundStep();
      if total != counter {
        FoundMismatch();
        Set(AtFailed, counter, dist, numExtra);
        FailedIs();
        return Fail;
      }
      var ok := BuildBlock();
      Set(if ok then AtSymbol(false) else AtFailed, counter, dist, numExtra);
      SymbolIs();
      FailedIs();
      return if ok then Go else Fail;
    }

    /** Where the machine stands after the last code size. */
    ghost predicate CodesFound()
      reads this
    {
      |tableSizes| == 3 && |lenCodes| == 457 && 257 <= tableSizes[0] < 289 && 1 <= tableSizes[1] < 33 && counter <= 457 && Sized(lenCodes[..counter])
      && (!lost ==>
           cfg.phase == if counter != tableSizes[0] + tableSizes[1] || !Buildable(lenCodes[..counter][tableSizes[0]..]) || !Buildable(lenCodes[..counter][..tableSizes[0]]) then Bad
            else Phase.Symbol(Codes(lenCodes[..counter][..tableSizes[0]], lenCodes[..counter][tableSizes[0]..])))
    }

    lemma FoundMismatch()
      requires CodesFound() && tableSizes[0] + tableSizes[1] != counter
      ensures !lost ==> cfg.phase.Bad?
    {
    }

    ghost method CodesFoundStep()
      requires Core() && LocalCodeSizes() && counter >= tableSizes[0] + tableSizes[1]
      modifies `cfg, `steps, `lost
      ensures Core() && (old(lost) ==> lost) && CodesFound()
    {
      hide Step, WellFormed, OfBytes, BitInput.Valid, RingOutput.Valid, HuffTable.Shaped, Tracked, Distinct, BitInput.Stream, Buildable, Decodes;
      if !lost { CodeSizesEnd(mode, cfg, input.Stream()); }
      CoreIsMid();
      Commit(input.fed, input.inPos);
    }

    method BuildBlock() returns (ok: bool)
      requires Core() && CodesFound() && counter == tableSizes[0] + tableSizes[1]
      modifies `lens0, `lens1, t0`codeSize, t1`codeSize, t0.lookUp, t0.tree, t1.lookUp, t1.tree
      ensures Core() && (ok ==> BlockTables()) && (!lost ==> cfg.phase == if ok then Phase.Symbol(Codes(lens0, lens1)) else Bad)
    {
      hide Decodes, Buildable, BitInput.Valid, RingOutput.Valid, Tracked, WellFormed, OfBytes, BitInput.Stream, Sized, SizesOk;
      SplitCodes();
      ok := BuildCodes();
    }

    /** The two `TINFL_MEMCPY` into `m_code_size`. */
    method SplitCodes()
      requires Core() && CodesFound() && counter == tableSizes[0] + tableSizes[1]
      modifies `lens0, `lens1, t0`codeSize, t1`codeSize
      ensures Core() && |tableSizes| == 3 && 257 <= tableSizes[0] < 289 && 1 <= tableSizes[1] < 33 && counter <= |lenCodes| && tableSizes[0] <= counter
      ensures |t0.codeSize| == |t1.codeSize| == 288 && t0.codeSize[..tableSizes[0]] == lens0 && t1.codeSize[..tableSizes[1]] == lens1 && Sized(lens0) && Sized(lens1)
      ensures lens0 == lenCodes[..counter][..tableSizes[0]] && lens1 == lenCodes[..counter][tableSizes[0]..] && |lens1| == tableSizes[1]
    {
      hide Decodes, Buildable, BitInput.Valid, RingOutput.Valid, Tracked, WellFormed, OfBytes, BitInput.Stream;
      lens0, lens1 := lenCodes[..counter][..tableSizes[0]], lenCodes[..counter][tableSizes[0]..];
      t0.codeSize := lenCodes[..tableSizes[0]] + t0.codeSize[tableSizes[0]..];
      t1.codeSize := lenCodes[tableSizes[0]..][..tableSizes[1]] + t1.codeSize[tableSizes[1]..];
      assert t0.codeSize[..tableSizes[0]] == lens0 && t1.codeSize[..tableSizes[1]] == lens1;
    }

    // ----- literals, lengths and the end of the block

    method DoSymbol() returns (sig: Signal)
      requires Valid() && place.AtSymbol?
      modifies this, input, output`cur, output`out, output.buf
      ensures Valid() && Kept() && (sig.Go? || Signalled(sig)) && (sig.Go? ==> Shrinks())
    {
      hide Local, Signalled, Starving, Core, Mid, Step, WellFormed, Field, Pow2, FixedLit, FixedDist, OfBytes, Align, BitInput.Valid, BitInput.Stream, BlockTables, BitInput.Stream, Hungry;
      SymbolIs();
      AtEnd();
      if place.waiting || |input.inp| - input.inPos < 4 || output.end - output.cur < 2 {
        sig := SlowSymbol(place.waiting);
      } else {
        sig := FastSymbols();
      }
      SignalIs();
    }

    /** In the symbol loop, about to read a symbol. */
    ghost predicate InBlock()
      reads `lens0, `lens1, `zAdler, `cfg, `lost, t0.lookUp, t0.tree, t1.lookUp, t1.tree
    {
      BlockTables() && zAdler == 1 && (!lost ==> cfg.phase == Phase.Symbol(Codes(lens0, lens1)))
    }

    lemma BlockWanted()
      requires Core() && InBlock()
      ensures t0.Shaped() && t1.Shaped() && t0.Ready(lens0) && |lens0| <= 288 && (!lost ==> WellFormed(cfg) && Wants(cfg, lens0))
    {
      hide Buildable, WellFormed, BitInput.Valid, RingOutput.Valid, Distinct, Tracked, Entry, LongOk, Safe;
    }

    /** The careful path, near the end of the input or of the room for output. */
    method SlowSymbol(waiting: bool) returns (sig: Signal)
      requires Core() && InBlock() && (waiting ==> Hungry(lens0))
      modifies `cfg, `steps, `lost, `place, `counter, `dist, `numExtra, input`numBits, input`bitBuf, input`inPos, input`fed
      ensures Core() && Local() && (old(lost) ==> lost) && (sig.Go? || Signalled(sig))
      ensures sig.Go? ==> BitsLeft() < old(BitsLeft()) || (BitsLeft() == old(BitsLeft()) && place.AtLiteral?)
    {
      hide Local, Signalled, Starving, Core, Mid, Step, WellFormed, Field, Pow2, FixedLit, FixedDist, OfBytes, Align, BitInput.Valid, BitInput.Stream, BlockTables, BitInput.Stream, Hungry, SymbolStep, Wants, AfterBlock;
      BlockWanted();
      var ok, sym, next, was, ahead := ReadSymbol(t0, lens0, waiting);
      if !ok {
        Set(AtSymbol(true), counter, dist, numExtra);
        SymbolIs();
        SignalIs();
        return NeedInput;
      }
      if sym >= 256 {
        sig := BreakSymbol(sym, next, was, ahead);
        SignalIs();
        return;
      }
      TakeSymbolStep(sym, next, was, ahead);
      Set(AtLiteral, sym, dist, numExtra);
      LiteralIs();
      return Go;
    }

    /** One look-up of the fast path. */
    method FastSymbol(refill: bool) returns (sym: nat, ghost next: Config, ghost was: seq<u8>, ghost ahead: nat)
      requires Core() && t0.Shaped() && t0.Ready(lens0) && (!lost ==> WellFormed(cfg) && Wants(cfg, lens0))
      requires if refill then |input.inp| - input.inPos >= (if input.wide then 4 else 2) else input.numBits >= 15
      modifies input`numBits, input`bitBuf, input`inPos, input`fed
      ensures Mid(was, ahead) && sym < |lens0| && (!lost ==> SymbolStep(sym, next))
      ensures BitsLeft() <= old(BitsLeft()) && (sym != 0 ==> BitsLeft() < old(BitsLeft()))
      ensures refill && input.wide ==> input.numBits >= 15
      ensures refill ==> input.inPos <= old(input.inPos) + (if input.wide then 4 else 2)
    {
      hide Step, WellFormed, OfBytes, BitInput.Valid, RingOutput.Valid, HuffTable.Shaped, Tracked, Distinct, BitInput.Stream, Decodes, NoneStarts, Wants, Read, AfterAny, Partial;
      was, ahead := input.fed, input.inPos;
      if refill { input.Refill(); }
      ghost var len;
      sym, len := input.TakeSymbol(t0, lens0);
      next := cfg.(pos := cfg.pos + len);
      if !lost { SymbolRead(lens0, sym, len); }
    }

    /** Two symbols at a time, while there is input and room. */
    method FastSymbols() returns (sig: Signal)
      requires Core() && InBlock() && |input.inp| - input.inPos >= 4 && output.end - output.cur >= 2
      modifies `cfg, `steps, `lost, `place, `counter, `dist, `numExtra, input`numBits, input`bitBuf, input`inPos, input`fed, output`cur, output`out, output.buf
      ensures Core() && Local() && (old(lost) ==> lost) && (sig.Go? || Signalled(sig)) && old(output.out) <= output.out
      ensures sig.Go? ==> BitsLeft() - output.cur < old(BitsLeft()) - old(output.cur)
    {
      hide Local, Signalled, Starving, Core, Mid, Step, WellFormed, Field, Pow2, FixedLit, FixedDist, OfBytes, Align, BitInput.Valid, BitInput.Stream, BlockTables, BitInput.Stream, Hungry, SymbolStep, Wants, AfterBlock, InBlock;
      BlockWanted();
      var sym, next, was, ahead := FastSymbol(true);
      if sym >= 256 {
        sig := BreakSymbol(sym, next, was, ahead);
        SignalIs();
        return;
      }
      FastLiteral(sym, next, was, ahead);
      sig := SecondSymbol();
      SignalIs();
    }

    method SecondSymbol() returns (sig: Signal)
      requires Core() && InBlock() && output.end - output.cur >= 1
      requires if input.wide then input.numBits >= 15 else |input.inp| - input.inPos >= 2
      modifies `cfg, `steps, `lost, `place, `counter, `dist, `numExtra, input`numBits, input`bitBuf, input`inPos, input`fed, output`cur, output`out, output.buf
      ensures Core() && Local() && (old(lost) ==> lost) && (sig.Go? || Signalled(sig)) && old(output.out) <= output.out
      ensures BitsLeft() - output.cur <= old(BitsLeft()) - old(output.cur)
    {
      hide Local, Signalled, Starving, Core, Mid, Step, WellFormed, Field, Pow2, FixedLit, FixedDist, OfBytes, Align, BitInput.Valid, BitInput.Stream, BlockTables, BitInput.Stream, Hungry, SymbolStep, Wants, AfterBlock, InBlock;
      BlockWanted();
      var sym, next, was, ahead := FastSymbol(!input.wide);
      if sym >= 256 {
        sig := BreakSymbol(sym, next, was, ahead);
        SignalIs();
        return;
      }
      FastLiteral(sym, next, was, ahead);
      Set(AtSymbol(false), sym, dist, numExtra);
      SymbolIs();
      NotWaiting();
      return Go;
    }

    lemma NotWaiting()
      requires InBlock() && place == AtSymbol(false)
      ensures Local()
    {
      hide BlockTables;
    }

    /** A literal of the fast path goes straight to the output.  (The source looks the second symbol up before it writes the first.) */
    method FastLiteral(sym: nat, ghost next: Config, ghost was: seq<u8>, ghost ahead: nat)
      requires Mid(was, ahead) && InBlock() && sym < 256 && (!lost ==> SymbolStep(sym, next)) && output.cur < output.end
      modifies `cfg, `steps, `lost, output`cur, output`out, output.buf
      ensures Core() && InBlock() && (old(lost) ==> lost) && output.cur == old(output.cur) + 1 && output.out == old(output.out) + [sym]
    {
      hide Core, Mid, Step, WellFormed, OfBytes, BitInput.Valid, BitInput.Stream, SymbolStep, Decodes;
      TakeSymbolStep(sym, next, was, ahead);
      if !lost { LiteralStep(); }
      TablesOutside();
      Emit(sym);
    }

    lemma TablesOutside()
      requires Core()
      ensures Outside(output.buf, t0) && Outside(output.buf, t1) && Outside(output.buf, t2)
    {
      hide WellFormed, BitInput.Valid, RingOutput.Valid, Tracked, HuffTable.Shaped;
    }

    lemma LiteralStep()
      requires Core() && !lost && cfg.phase.Literal?
      ensures cfg.pos <= |input.Stream()| && WellFormed(cfg)
      ensures Step(mode, cfg, input.Stream()) == Next(cfg.(phase := Phase.Symbol(cfg.phase.codes), out := cfg.out + [cfg.phase.byte]))
    {
      hide Step, Tracked, Distinct, BitInput.Stream, RingOutput.Valid, HuffTable.Shaped, OfBytes;
      LiteralNext(mode, cfg, input.Stream());
    }

    /** The end of the block, or the start of a match. */
    method BreakSymbol(sym: nat, ghost next: Config, ghost was: seq<u8>, ghost ahead: nat) returns (sig: Signal)
      requires Mid(was, ahead) && InBlock() && 256 <= sym < 288 && (!lost ==> SymbolStep(sym, next))
      modifies `cfg, `steps, `lost, `place, `counter, `dist, `numExtra, input`numBits, input`bitBuf, input`inPos, input`fed
      ensures Core() && Local() && (old(lost) ==> lost) && BitsLeft() <= old(BitsLeft())
      ensures sig.Go? || (sig.Finish? && place.AtDone?)
    {
      hide Local, Core, Mid, Step, WellFormed, Field, Pow2, FixedLit, FixedDist, OfBytes, Align, BitInput.Valid, BitInput.Stream, BlockTables, BitInput.Stream, Wants, AfterBlock, LengthBase, LengthBits, AfterSizeSymbol;
      if sym == 256 {
        sig := EndBlock(was, ahead);
        return;
      }
      TakeSymbolStep(sym, next, was, ahead);
      Set(AtLengthExtra, LengthBase(sym), dist, LengthBits(sym));
      LengthIs();
      LengthBitsSmall(sym);
      return Go;
    }

    method DoLiteral() returns (sig: Signal)
      requires Valid() && place.AtLiteral?
      modifies this, output`cur, output`out, output.buf
      ensures Valid() && Kept() && (sig.Go? || Signalled(sig)) && (sig.Go? ==> Shrinks())
    {
      hide Local, Signalled, Starving, Core, Mid, Step, WellFormed, Field, Pow2, FixedLit, FixedDist, OfBytes, Align, BitInput.Valid, BitInput.Stream, BlockTables, BitInput.Stream;
      LiteralIs();
      AtEnd();
      if output.cur >= output.end {
        SignalIs();
        return HaveOutput;
      }
      if !lost { LiteralStep(); }
      TablesOutside();
      Emit(counter);
      Set(AtSymbol(false), counter, dist, numExtra);
      SymbolIs();
      return Go;
    }

    // ----- the rest of a match: length, distance and copy

    method DoLengthExtra() returns (sig: Signal)
      requires Valid() && place.AtLengthExtra?
      modifies this, input
      ensures Valid() && Kept() && (sig.Go? || Signalled(sig)) && (sig.Go? ==> Shrinks())
    {
      hide Local, Signalled, Starving, Core, Mid, Step, WellFormed, Field, Pow2, FixedLit, FixedDist, OfBytes, Align, BitInput.Valid, BitInput.Stream, BlockTables, FieldBits;
      LengthIs();
      LengthFieldIs();
      // with no extra bits this reads nothing; the source skips it
      var ok, v, was, ahead := ReadField(numExtra);
      if !ok {
        LengthIs();
        SignalIs();
        return NeedInput;
      }
      LengthKnown(v, was, ahead);
      return Go;
    }

    method LengthKnown(v: nat, ghost was: seq<u8>, ghost ahead: nat)
      requires Mid(was, ahead) && BlockTables() && LocalLength() && v < Pow2(numExtra)
      requires !lost ==> input.Pos() == cfg.pos + numExtra <= |input.Stream()| && v == Field(input.Stream(), cfg.pos, numExtra)
      modifies `cfg, `steps, `lost, `place, `counter, `dist, `numExtra
      ensures Core() && Local() && (old(lost) ==> lost) && place.AtDistSymbol?
    {
      hide Local, Core, Mid, Step, WellFormed, Field, Pow2, FixedLit, FixedDist, OfBytes, Align, BitInput.Valid, BitInput.Stream, BlockTables, LocalLength;
      LengthRead(v, was, ahead);
      Set(AtDistSymbol(false), counter + v, dist, numExtra);
      DistSymbolIs();
    }

    lemma LengthFieldIs()
      requires Core() && LocalLength()
      ensures numExtra <= 5 && (!lost ==> WellFormed(cfg) && FieldBits(cfg) == numExtra)
    {
      hide Buildable, WellFormed, BitInput.Valid, RingOutput.Valid, Distinct, Tracked, HuffTable.Shaped, LengthBits, LengthBase;
    }

    ghost method LengthRead(v: nat, was: seq<u8>, ahead: nat)
      requires Mid(was, ahead) && LocalLength() && v < Pow2(numExtra)
      requires !lost ==> input.Pos() == cfg.pos + numExtra <= |input.Stream()| && v == Field(input.Stream(), cfg.pos, numExtra)
      modifies `cfg, `steps, `lost
      ensures Core() && (old(lost) ==> lost) && (!lost ==> cfg.phase == Phase.DistSymbol(Codes(lens0, lens1), counter + v))
    {
      hide Step, WellFormed, OfBytes, BitInput.Valid, RingOutput.Valid, HuffTable.Shaped, Tracked, Distinct, BitInput.Stream, Field, Pow2, LengthBits, LengthBase;
      if !lost { LengthNext(mode, cfg, input.Stream()); }
      Commit(was, ahead);
    }

    method DoDistSymbol() returns (sig: Signal)
      requires Valid() && place.AtDistSymbol?
      modifies this, input
      ensures Valid() && Kept() && (sig.Go? || Signalled(sig)) && (sig.Go? ==> Shrinks())
    {
      hide Local, Signalled, Starving, Core, Mid, Step, WellFormed, Field, Pow2, FixedLit, FixedDist, OfBytes, Align, BitInput.Valid, BitInput.Stream, BlockTables, SymbolStep, Wants, DistBits, DistBase, Hungry, AfterSizeSymbol, AfterSymbol, Rep;
      DistSymbolIs();
      DistWanted();
      var ok, sym, next, was, ahead := ReadSymbol(t1, lens1, place.waiting);
      if !ok {
        Set(AtDistSymbol(true), counter, dist, numExtra);
        DistSymbolIs();
        SignalIs();
        return NeedInput;
      }
      DistSymbolKnown(sym, next, was, ahead);
      return Go;
    }

    method DistSymbolKnown(sym: nat, ghost next: Config, ghost was: seq<u8>, ghost ahead: nat)
      requires Mid(was, ahead) && LocalDistSymbol() && sym < 32 && (!lost ==> SymbolStep(sym, next))
      modifies `cfg, `steps, `lost, `place, `counter, `dist, `numExtra
      ensures Core() && Local() && (old(lost) ==> lost) && place.AtDistExtra?
    {
      hide Local, Core, Mid, Step, WellFormed, Field, Pow2, FixedLit, FixedDist, OfBytes, Align, BitInput.Valid, BitInput.Stream, BlockTables, SymbolStep, Wants, DistBits, DistBase, AfterSizeSymbol, AfterSymbol, Rep;
      TakeSymbolStep(sym, next, was, ahead);
      DistBitsSmall(sym);
      Set(AtDistExtra, counter, DistBase(sym), DistBits(sym));
      DistIs();
    }

    lemma DistWanted()
      requires Core() && LocalDistSymbol()
      ensures t1.Shaped() && t1.Ready(lens1) && |lens1| <= 32 && (!lost ==> WellFormed(cfg) && Wants(cfg, lens1))
    {
      hide Buildable, WellFormed, BitInput.Valid, RingOutput.Valid, Distinct, Tracked, Entry, LongOk, Safe;
    }

    method DoDistExtra() returns (sig: Signal)
      requires Valid() && place.AtDistExtra?
      modifies this, input
      ensures Valid() && Kept() && (sig.Go? || Signalled(sig)) && (sig.Go? ==> Shrinks())
    {
      hide Local, Signalled, Starving, Core, Mid, Step, WellFormed, Field, Pow2, FixedLit, FixedDist, OfBytes, Align, BitInput.Valid, BitInput.Stream, BlockTables, FieldBits, AfterDistance, CopyPossible;
      DistIs();
      DistFieldIs();
      var ok, v, was, ahead := ReadField(numExtra);
      if !ok {
        DistIs();
        SignalIs();
        return NeedInput;
      }
      ghost var next := DistRead(v, was, ahead);
      sig := StartCopy(dist + v, next);
      SignalIs();
    }

    lemma DistFieldIs()
      requires Core() && LocalDist()
      ensures numExtra <= 13 && (!lost ==> WellFormed(cfg) && FieldBits(cfg) == numExtra)
    {
      hide Buildable, WellFormed, BitInput.Valid, RingOutput.Valid, Distinct, Tracked, HuffTable.Shaped, DistBits, DistBase;
    }

    /** Where the machine stands once the distance is `d`: at the copy, or in failure. */
    ghost predicate CopyPossible(next: Config, d: nat)
      reads this, output
    {
      !lost ==> Next(cfg) == AfterDistance(mode, next, Codes(lens0, lens1), counter, d) && next.out == output.out && 3 <= counter
    }

    ghost method DistRead(v: nat, was: seq<u8>, ahead: nat) returns (next: Config)
      requires Mid(was, ahead) && LocalDist() && v < Pow2(numExtra)
      requires !lost ==> input.Pos() == cfg.pos + numExtra <= |input.Stream()| && v == Field(input.Stream(), cfg.pos, numExtra)
      modifies `cfg, `steps, `lost
      ensures Core() && (old(lost) ==> lost) && CopyPossible(next, dist + v)
    {
      hide Step, WellFormed, OfBytes, BitInput.Valid, RingOutput.Valid, HuffTable.Shaped, Tracked, Distinct, BitInput.Stream, Field, Pow2, DistBits, DistBase;
      next := cfg;
      if !lost {
        LengthInRange();
        next := cfg.(pos := cfg.pos + numExtra);
        DistNext(mode, cfg, input.Stream());
      }
      Commit(was, ahead);
    }

    lemma LengthInRange()
      requires !lost && WellFormed(cfg) && LocalDist()
      ensures counter >= 3
    {
      hide Buildable;
    }

    /** Too long a distance is an error when the output does not wrap. */
    method StartCopy(d: nat, ghost next: Config) returns (sig: Signal)
      requires Core() && BlockTables() && CopyPossible(next, d)
      modifies `place, `counter, `dist, `numExtra, `distFromStart, `laps
      ensures Core() && Local() && ((sig.Fail? && place.AtFailed?) || (sig.Go? && place.AtCopy?))
    {
      hide Local, Core, Mid, Step, WellFormed, Field, Pow2, FixedLit, FixedDist, OfBytes, Align, BitInput.Valid, BitInput.Stream, BlockTables;
      NoLapsYet();
      SetFromStart(output.cur, 0);
      if d > distFromStart && !mode.wrapping {
        Set(AtFailed, counter, d, numExtra);
        FailedIs();
        return Fail;
      }
      Set(AtCopy, counter, d, numExtra);
      CopyIs();
      return Go;
    }

    lemma NoLapsYet()
      requires Core()
      ensures !mode.wrapping ==> output.cur == |output.out|
    {
      hide WellFormed, BitInput.Valid, Tracked, HuffTable.Shaped;
    }

    method SetFromStart(n: nat, ghost l: nat)
      requires Core()
      modifies `distFromStart, `laps
      ensures Core() && distFromStart == n && laps == l
    {
      hide Step, WellFormed, OfBytes, BitInput.Valid, RingOutput.Valid, HuffTable.Shaped, Tracked, Distinct, BitInput.Stream;
      distFromStart, laps := n, l;
    }

    /** `(dist_from_out_buf_start - dist) & out_buf_size_mask` */
    function Source(): int
      requires mode.wrapping ==> output.buf.Length > 0
      reads this
    {
      if mode.wrapping then (distFromStart - dist) % output.buf.Length else distFromStart - dist
    }

    /** That is the cell of the byte `dist` back. */
    lemma SourcePoints()
      requires Core() && SourceSafe() && output.cur < output.end
      ensures mode.wrapping ==> output.buf.Length > 0
      ensures 0 <= Source() < output.buf.Length
      ensures !lost && cfg.phase.Copy? && cfg.phase.dist == dist ==> output.Points(Source(), dist)
    {
      hide Step, OfBytes, BitInput.Valid, HuffTable.Shaped, Tracked, BitInput.Stream, Buildable;
      if !lost && cfg.phase.Copy? && cfg.phase.dist == dist && mode.wrapping {
        RingIndex(distFromStart, output.cur, laps, dist, output.buf.Length);
      }
    }

    /** Byte by byte when the match runs into the end of the buffer or of the room, else in one run. */
    method DoCopy() returns (sig: Signal)
      requires Valid() && place.AtCopy?
      modifies this, output`cur, output`out, output.buf
      ensures Valid() && Kept() && (sig.Go? || Signalled(sig)) && (sig.Go? ==> Shrinks())
    {
      hide Local, Signalled, Starving, Core, Mid, Step, WellFormed, Field, Pow2, FixedLit, FixedDist, OfBytes, Align, BitInput.Valid, BitInput.Stream, BlockTables;
      CopyIs();
      AtEnd();
      RingIsThere();
      if Max(output.cur, Source()) + counter > output.end {
        if counter == 0 {
          Set(AtSymbol(false), 0, dist, numExtra);
          SymbolIs();
        } else {
          Set(AtCopyWait, counter - 1, dist, numExtra);
          CopyWaitIs();
        }
        return Go;
      }
      SafeRun();
      Run(Source());
      SymbolIs();
      return Go;
    }

    lemma RingIsThere()
      requires Core()
      ensures mode.wrapping ==> output.buf.Length > 0
    {
      hide WellFormed, BitInput.Valid, RingOutput.Valid, Tracked, HuffTable.Shaped;
    }

    lemma SafeRun()
      requires Core() && LocalCopy() && (mode.wrapping ==> output.buf.Length > 0) && Max(output.cur, Source()) + counter <= output.end
      ensures 0 <= Source()
      ensures !lost ==> output.Points(Source(), dist)
    {
      hide Step, OfBytes, BitInput.Valid, HuffTable.Shaped, Tracked, BitInput.Stream, Buildable, BlockTables, WellFormed;
      if !lost { SourcePoints(); }
    }

    method Run(src: nat)
      requires Core() && BlockTables() && output.cur + counter <= output.end && src + counter <= output.end
      requires !lost ==> cfg.phase == Phase.Copy(Codes(lens0, lens1), counter, dist) && output.Points(src, dist)
      modifies `cfg, `steps, `lost, `place, `counter, output`cur, output`out, output.buf
      ensures Core() && LocalSymbol() && place == AtSymbol(false) && lost == old(lost)
      ensures output.cur == old(output.cur) + old(counter) && old(output.out) <= output.out
    {
      hide Local, Step, WellFormed, OfBytes, BitInput.Valid, RingOutput.Valid, HuffTable.Shaped, Tracked, BitInput.Stream, CopyMatch, RingOutput.Points, Decodes, Apart;
      if !lost {
        DistInside(cfg);
        RunSteps(counter);
      }
      output.CopyRun(src, counter, dist);
      place, counter := AtSymbol(false), 0;
    }

    /** The whole match, on the side of the machine: no bits are read, and one byte is written at each step but the last. */
    ghost method RunSteps(n: nat)
      requires !lost && input.Valid() && WellFormed(cfg) && Tracked(input.fed, input.inPos) && cfg.pos == input.Pos()
      requires cfg.phase.Copy? && cfg.phase.len == n && 1 <= cfg.phase.dist <= |cfg.out|
      modifies `cfg, `steps, `lost
      ensures !lost && WellFormed(cfg) && Tracked(input.fed, input.inPos)
      ensures cfg == old(cfg).(phase := Phase.Symbol(old(cfg).phase.codes), out := CopyMatch(old(cfg).out, n, old(cfg).phase.dist))
      decreases n
    {
      hide Step, OfBytes, Tracked, BitInput.Stream, Buildable;
      CopyByteNext(mode, cfg, input.Stream());
      Advance(input.fed, input.inPos);
      if n > 0 { RunSteps(n - 1); }
    }

    method DoCopyWait() returns (sig: Signal)
      requires Valid() && place.AtCopyWait?
      modifies this, output`cur, output`out, output.buf
      ensures Valid() && Kept() && (sig.Go? || Signalled(sig)) && (sig.Go? ==> Shrinks())
    {
      hide Local, Signalled, Starving, Core, Mid, Step, WellFormed, Field, Pow2, FixedLit, FixedDist, OfBytes, Align, BitInput.Valid, BitInput.Stream, BlockTables;
      CopyWaitIs();
      AtEnd();
      if output.cur >= output.end {
        SignalIs();
        return HaveOutput;
      }
      TablesOutside();
      SourcePoints();
      CopyOne(Source());
      NextCopy();
      return Go;
    }

    /** `while (counter--)` */
    method NextCopy()
      requires Core() && BlockTables() && SourceSafe() && (!lost ==> cfg.phase == Phase.Copy(Codes(lens0, lens1), counter, dist))
      modifies `cfg, `steps, `lost, `place, `counter, `dist, `numExtra
      ensures Core() && Local() && lost == old(lost) && (place.AtSymbol? || place.AtCopyWait?)
    {
      hide Local, Core, Mid, Step, WellFormed, Field, Pow2, FixedLit, FixedDist, OfBytes, Align, BitInput.Valid, BitInput.Stream, BlockTables;
      if counter == 0 {
        EndCopy();
        Set(AtSymbol(false), 0, dist, numExtra);
        SymbolIs();
      } else {
        Set(AtCopyWait, counter - 1, dist, numExtra);
        CopyWaitIs();
      }
    }

    method CopyOne(src: nat)
      requires Core() && SourceSafe() && output.cur < output.end && src < output.buf.Length
      requires !lost ==> cfg.phase == Phase.Copy(Codes(lens0, lens1), counter + 1, dist) && output.Points(src, dist)
      modifies `cfg, `steps, `lost, `distFromStart, output`cur, output`out, output.buf
      ensures Core() && SourceSafe() && lost == old(lost) && (!lost ==> cfg.phase == Phase.Copy(Codes(lens0, lens1), counter, dist))
      ensures output.cur == old(output.cur) + 1 && old(output.out) <= output.out
    {
      hide Local, Step, OfBytes, BitInput.Valid, RingOutput.Valid, HuffTable.Shaped, Tracked, BitInput.Stream, RingOutput.Points, Apart, Buildable;
      if !lost { CopyByteNext(mode, cfg, input.Stream()); }
      Advance(input.fed, input.inPos);
      output.CopyByte(src, dist);
      distFromStart := distFromStart + 1;
    }

    ghost method EndCopy()
      requires Core() && (!lost ==> cfg.phase.Copy? && cfg.phase.len == 0)
      modifies `cfg, `steps, `lost
      ensures Core() && lost == old(lost) && (!lost ==> cfg.phase == Phase.Symbol(old(cfg).phase.codes))
    {
      hide Local, Step, WellFormed, OfBytes, BitInput.Valid, RingOutput.Valid, HuffTable.Shaped, Tracked, Distinct, BitInput.Stream;
      if !lost { CopyByteNext(mode, cfg, input.Stream()); }
      Advance(input.fed, input.inPos);
    }

    // ----- one call

    method FrameStretch() returns (sig: Signal)
      requires Valid() && (place.AtStart? || place.AtZlibCmf? || place.AtZlibFlg? || place.AtHeader? || place.AtTrailer? || place.AtDone? || place.AtFailed?)
      modifies this, input, t0, t1, t0.lookUp, t0.tree, t1.lookUp, t1.tree
      ensures Valid() && Kept() && (sig.Go? || Signalled(sig)) && (sig.Go? ==> Shrinks())
    {
      hide Core, Local, Signalled, Shrinks;
      match place
      case AtStart => sig := DoStart();
      case AtZlibCmf => sig := DoZlibCmf();
      case AtZlibFlg => sig := DoZlibFlg();
      case AtHeader => sig := DoHeader();
      case AtTrailer => sig := DoTrailer();
      case AtDone =>
        SignalIs();
        sig := Finish;
      case AtFailed =>
        SignalIs();
        sig := Fail;
    }

    method StoredStretch() returns (sig: Signal)
      requires Valid() && (place.AtRawHeader? || place.AtRawBits? || place.AtRawBitsOut? || place.AtRawBytes?)
      modifies this, input, output`cur, output`out, output.buf
      ensures Valid() && Kept() && (sig.Go? || Signalled(sig)) && (sig.Go? ==> Shrinks())
    {
      hide Core, Local, Signalled, Shrinks;
      match place
      case AtRawHeader => sig := DoRawHeader();
      case AtRawBits => sig := DoRawBits();
      case AtRawBitsOut => sig := DoRawBitsOut();
      case AtRawBytes => sig := DoRawBytes();
    }

    method TablesStretch() returns (sig: Signal)
      requires Valid() && (place.AtTableSizes? || place.AtSizeSizes? || place.AtCodeSizes? || place.AtCodeSizeRun?)
      modifies this, input, t0`codeSize, t1`codeSize, t2`codeSize, t0.lookUp, t0.tree, t1.lookUp, t1.tree, t2.lookUp, t2.tree
      ensures Valid() && Kept() && (sig.Go? || Signalled(sig)) && (sig.Go? ==> Shrinks())
    {
      hide Core, Local, Signalled, Shrinks;
      match place
      case AtTableSizes => sig := DoTableSizes();
      case AtSizeSizes => sig := DoSizeSizes();
      case AtCodeSizes(_) => sig := DoCodeSizes();
      case AtCodeSizeRun => sig := DoCodeSizeRun();
    }

    method SymbolStretch() returns (sig: Signal)
      requires Valid() && (place.AtSymbol? || place.AtLiteral? || place.AtLengthExtra? || place.AtDistSymbol? || place.AtDistExtra? || place.AtCopy? || place.AtCopyWait?)
      modifies this, input, output`cur, output`out, output.buf
      ensures Valid() && Kept() && (sig.Go? || Signalled(sig)) && (sig.Go? ==> Shrinks())
    {
      hide Core, Local, Signalled, Shrinks;
      match place
      case AtSymbol(_) => sig := DoSymbol();
      case AtLiteral => sig := DoLiteral();
      case AtLengthExtra => sig := DoLengthExtra();
      case AtDistSymbol(_) => sig := DoDistSymbol();
      case AtDistExtra => sig := DoDistExtra();
      case AtCopy => sig := DoCopy();
      case AtCopyWait => sig := DoCopyWait();
    }

    method Stretch() returns (sig: Signal)
      requires Valid()
      modifies this, input, output`cur, output`out, output.buf, t0, t1, t2, t0.lookUp, t0.tree, t1.lookUp, t1.tree, t2.lookUp, t2.tree
      ensures Valid() && Kept() && (sig.Go? || Signalled(sig)) && (sig.Go? ==> Shrinks())
    {
      hide Valid, Signalled, Shrinks, Kept;
      match place
      case AtRawHeader | AtRawBits | AtRawBitsOut | AtRawBytes => sig := StoredStretch();
      case AtTableSizes | AtSizeSizes | AtCodeSizes(_) | AtCodeSizeRun => sig := TablesStretch();
      case AtSymbol(_) | AtLiteral | AtLengthExtra | AtDistSymbol(_) | AtDistExtra | AtCopy | AtCopyWait => sig := SymbolStretch();
      case _ => sig := FrameStretch();
    }

    /** From the place where the last call stopped to the next return. */
    method Resume() returns (sig: Signal)
      requires Valid()
      modifies this, input, output`cur, output`out, output.buf, t0, t1, t2, t0.lookUp, t0.tree, t1.lookUp, t1.tree, t2.lookUp, t2.tree
      ensures Valid() && Kept() && !sig.Go? && Signalled(sig)
    {
      hide Valid, Signalled, Work, Rank;
      sig := Go;
      while sig.Go?
        invariant Valid() && Kept() && (sig.Go? || Signalled(sig))
        decreases if sig.Go? then 1 else 0, Work(), Rank()
      {
        Measured();
        sig := Stretch();
      }
    }

    lemma Measured()
      requires Valid()
      ensures 0 <= Work() && 0 <= Rank()
    {
      hide WellFormed, Tracked, HuffTable.Shaped, OfBytes, Decodes, Buildable, Sized, BlockTables, Hungry;
    }

    /** What a caller may pass as the next stretch of its buffer: the writer goes on where it stopped, and a full ring is begun again. */
    ghost predicate NextWindow(outNext: nat, outSize: nat)
      reads output
    {
      && (outNext == output.cur || (mode.wrapping && output.cur == output.buf.Length && outNext == 0))
      && outNext + outSize <= output.buf.Length && (mode.wrapping ==> outNext + outSize == output.buf.Length)
    }

    method BeginInput(data: seq<u8>)
      requires Resting()
      modifies `astray, input
      ensures Valid() && input.inp == data && input.fed0 == input.fed == old(input.fed) && astray == lost
    {
      hide Local, WellFormed, OfBytes, RingOutput.Valid, HuffTable.Shaped, Lsb, Step, Reached;
      input.StartCall(data);
      astray := lost;
    }

    method BeginOutput(outNext: nat, outSize: nat)
      requires Valid() && NextWindow(outNext, outSize)
      modifies `laps, output
      ensures Valid() && output.out == old(output.out) && output.cur == outNext && output.end == outNext + outSize && |output.out| == output.base + outNext
    {
      hide WellFormed, OfBytes, BitInput.Valid, HuffTable.Shaped, BlockTables, Tracked, Hungry, LocalStart, LocalZlib, LocalRawHeader, LocalRaw, LocalRawByte,
           LocalTableSizes, LocalSizeSizes, LocalCodeSizes, LocalCodeSizeRun, LocalSymbol, LocalLiteral, LocalLength, LocalDistSymbol, LocalDist, LocalTrailer, LocalDone;
      assert (laps + 1) * output.buf.Length == laps * output.buf.Length + output.buf.Length;
      if outNext != output.cur { laps := laps + 1; }
      output.StartCall(outNext, outSize);
    }

    /** Bytes that the call read ahead go back, unless it ended for want of input. */
    method Settle(sig: Signal)
      requires Valid() && Signalled(sig) && !sig.Go? && !sig.NeedInput?
      modifies input`numBits, input`bitBuf, input`inPos, input`fed
      ensures Valid() && Signalled(sig) && Tracked(input.fed, 0) && input.inPos <= old(input.inPos)
    {
      hide WellFormed, OfBytes, Decodes, BitInput.Valid, RingOutput.Valid, HuffTable.Shaped, Buildable, SizesOk, Sized, BlockTables, NoneStarts, Lsb, Tracked, Hungry, Step, Distinct, BitInput.Stream, SourceSafe, LocalCodeSizes;
      ReturnBytes();
      Untied();
    }

    /** With less than a byte in hand nothing was read ahead. */
    lemma Untied()
      requires Core() && (!lost ==> input.numBits < 8)
      ensures Tracked(input.fed, 0)
    {
      hide WellFormed, OfBytes, RingOutput.Valid, HuffTable.Shaped, Distinct, Step, Reached;
    }

    /** What a status says about the stream read so far. */
    ghost predicate Reported(status: Status, hasMoreInput: bool)
      reads this, input, output
    {
      match status
      case BadParam => mode.wrapping && !PowerOfTwo(mode.ring)
      case NeedsMoreInput => hasMoreInput && Starving()
      case CannotMakeProgress => !hasMoreInput && Starving()
      case HasMoreOutput => Full()
      case Failed => place.AtFailed? && (!lost ==> cfg.phase.Bad?)
      case Done => AtEndOfStream() && (!lost && mode.zlib ==> checkAdler == cfg.phase.sum)
      case Adler32Mismatch => AtEndOfStream() && mode.zlib && (!lost ==> checkAdler != cfg.phase.sum)
    }

    /** The stream has been read to its end, and no byte further. */
    ghost predicate AtEndOfStream()
      reads `place, `cfg, `lost, input`fed
    {
      place.AtDone? && (!lost ==> cfg.phase.Done? && cfg.pos == 8 * |input.fed|)
    }

    /** `tinfl_decompress` */
    method Decompress(data: seq<u8>, outNext: nat, outSize: nat, hasMoreInput: bool) returns (status: Status, inUsed: nat, outUsed: nat)
      requires Resting() && NextWindow(outNext, outSize)
      modifies this, input, output, output.buf, t0, t1, t2, t0.lookUp, t0.tree, t1.lookUp, t1.tree, t2.lookUp, t2.tree
      ensures Resting() && Reported(status, hasMoreInput)
      ensures inUsed <= |data| && input.fed == old(input.fed) + data[..inUsed]
      ensures outUsed <= outSize && outNext + outUsed <= output.buf.Length && output.out == old(output.out) + output.buf[outNext..outNext + outUsed]
      ensures !status.BadParam? ==> output.cur == outNext + outUsed
      ensures status.NeedsMoreInput? || status.CannotMakeProgress? ==> inUsed == |data|
      ensures status.HasMoreOutput? ==> outUsed == outSize
      ensures (old(lost) ==> lost) && (lost && !old(lost) ==> LeadsAstray(mode, old(input.fed) + data))
      ensures counted == old(counted) + (if status.Failed? || status.CannotMakeProgress? then [] else output.buf[outNext..outNext + outUsed])
    {
      hide Local, Core, AtEndOfStream, Tracked, Adler32, Step, Reached, LeadsAstray, WellFormed, OfBytes, BitInput.Valid, Distinct, HuffTable.Shaped;
      if mode.wrapping && !PowerOfTwo(mode.ring) {
        return BadParam, 0, 0;
      }
      ghost var out := output.out;
      var sig := RunOnce(data, outNext, outSize);
      Progress(outNext, out);
      inUsed, outUsed := input.inPos, output.cur - outNext;
      status := Conclude(sig, hasMoreInput, outNext, out);
    }

    /** The coroutine runs until it needs something, and bytes that were read ahead go back. */
    method RunOnce(data: seq<u8>, outNext: nat, outSize: nat) returns (sig: Signal)
      requires Resting() && NextWindow(outNext, outSize)
      modifies this, input, output, output.buf, t0, t1, t2, t0.lookUp, t0.tree, t1.lookUp, t1.tree, t2.lookUp, t2.tree
      ensures Valid() && Tracked(input.fed, 0) && Signalled(sig) && !sig.Go? && (sig.NeedInput? ==> Starving())
      ensures input.fed0 == old(input.fed) && input.inp == data && (old(lost) ==> lost) && (lost && !old(lost) ==> LeadsAstray(mode, old(input.fed) + data))
      ensures old(output.out) <= output.out && |old(output.out)| == output.base + outNext && output.end == outNext + outSize
      ensures counted == old(counted) && checkAdler == old(checkAdler)
    {
      hide Local, Core, AtEndOfStream, Tracked, Adler32, Step, Reached, LeadsAstray, WellFormed, OfBytes, BitInput.Valid, Distinct, HuffTable.Shaped;
      BeginInput(data);
      BeginOutput(outNext, outSize);
      sig := Resume();
      if sig != NeedInput { Settle(sig); } else { Untaken(); }
      LostNow(old(input.fed), data, old(lost));
    }

    lemma Untaken()
      requires Valid() && Starving()
      ensures Tracked(input.fed, 0)
    {
      hide Local, WellFormed, OfBytes, RingOutput.Valid, HuffTable.Shaped, Distinct, Step, Reached;
    }

    lemma LostNow(before: seq<u8>, data: seq<u8>, was: bool)
      requires Tracked(input.fed, 0) && input.fed0 == before && input.inp == data && astray == was
      ensures lost && !was ==> LeadsAstray(mode, before + data)
    {
    }

    /** The input used and the output written are those between the old and the new cursors. */
    lemma Progress(outNext: nat, out: seq<u8>)
      requires Valid() && out <= output.out && |out| == output.base + outNext
      ensures input.inPos <= |input.inp| && input.fed == input.fed0 + input.inp[..input.inPos]
      ensures outNext <= output.cur <= output.end <= output.buf.Length && output.out == out + output.buf[outNext..output.cur]
    {
      hide Local, WellFormed, OfBytes, HuffTable.Shaped, Distinct, Step, Tracked;
      assert forall k :: |out| <= k < |output.out| ==> output.out[k] == output.buf[Cell(k, output.base, output.buf.Length)];
      assert output.out[|out|..] == output.buf[outNext..output.cur];
    }

    /** From `common_exit` on: the status, and the checksum of what this call has written. */
    method Conclude(sig: Signal, hasMoreInput: bool, outNext: nat, ghost out: seq<u8>) returns (status: Status)
      requires Valid() && Tracked(input.fed, 0) && Signalled(sig) && !sig.Go?
      requires outNext <= output.cur <= output.buf.Length && output.out == out + output.buf[outNext..output.cur]
      requires Sums() ==> checkAdler == Adler32(1, counted)
      modifies `checkAdler, `counted
      ensures Resting() && Reported(status, hasMoreInput) && !status.BadParam?
      ensures status.NeedsMoreInput? || status.CannotMakeProgress? ==> sig.NeedInput?
      ensures status.HasMoreOutput? ==> sig.HaveOutput?
      ensures counted == old(counted) + (if status.Failed? || status.CannotMakeProgress? then [] else output.buf[outNext..output.cur])
    {
      hide Local, WellFormed, OfBytes, RingOutput.Valid, HuffTable.Shaped, Distinct, Step, Tracked, BitInput.Valid, Adler32;
      Ended(sig);
      SumSmall();
      ghost var written := output.buf[outNext..output.cur];
      status := match sig
        case NeedInput => if hasMoreInput then NeedsMoreInput else CannotMakeProgress
        case HaveOutput => HasMoreOutput
        case Fail => Failed
        case _ => Status.Done;
      if status.NeedsMoreInput? || status.HasMoreOutput? || status.Done? {
        if Sums() {
          Composes(1, counted, written);
          Composes(checkAdler, written, []);
          checkAdler := UpdateAdler32(checkAdler, Bytes(output.buf[outNext..output.cur]));
          if status.Done? && mode.zlib && checkAdler != zAdler { status := Adler32Mismatch; }
        }
        counted := counted + written;
      }
    }

    lemma Ended(sig: Signal)
      requires Valid() && Signalled(sig)
      ensures sig.Fail? && !lost ==> cfg.phase.Bad?
      ensures sig.Finish? ==> AtEndOfStream() && (!lost && mode.zlib ==> cfg.phase.sum == zAdler)
    {
      hide WellFormed, OfBytes, RingOutput.Valid, HuffTable.Shaped, Distinct, Step, Tracked;
    }

    lemma SumSmall()
      requires Valid()
      ensures checkAdler < 0x1_0000_0000
    {
      hide Local, WellFormed, OfBytes, RingOutput.Valid, HuffTable.Shaped, Distinct, Step, Tracked, BitInput.Valid;
    }
  }

  /** The 1 that `m_z_adler32` starts with is shifted out by the four bytes of the trailer. */
  function Lead(k: nat): nat {
    if k == 0 then 1 else if k == 1 then 0x100 else if k == 2 then 0x1_0000 else 0x100_0000
  }

  function Min(a: int, b: int): int {
    if a < b then a else b
  }

  /** The next step, or the one after it, writes a byte. */
  predicate Writes(p: Phase) {
    p.Literal? || p.RawByte? || (p.Copy? && p.len > 0) || (p.RawBody? && p.left > 0)
  }

  /** Phases in which the machine stands at a byte boundary, or has no use for more input than a byte. */
  predicate Settled(p: Phase) {
    p.Literal? || p.Copy? || p.RawByte? || p.RawBody? || p.Trailer? || p.Done? || p.Bad?
  }

  lemma SettledStarved(m: Mode, c: Config, s: Bits)
    requires WellFormed(c) && c.pos <= |s| && Settled(c.phase) && Step(m, c, s).Starved?
    ensures |s| < c.pos + 8
  {
    hide Field, Buildable, Decode, Val;
  }

  lemma LengthBitsSmall(sym: nat)
    requires 257 <= sym <= 287
    ensures LengthBits(sym) <= 5
  {
  }

  lemma DistInside(c: Config)
    requires WellFormed(c) && c.phase.Copy?
    ensures 1 <= c.phase.dist <= |c.out|
  {
    hide Buildable;
  }

  lemma DistBitsSmall(sym: nat)
    requires sym < 32
    ensures DistBits(sym) <= 13
  {
  }

  function Max(a: int, b: int): int {
    if a < b then b else a
  }

  /** `!((n - 1) & n)`, for a positive size. */
  predicate PowerOfTwo(n: nat) {
    n == 1 || (n > 0 && n % 2 == 0 && PowerOfTwo(n / 2))
  }

  lemma PowPositive(n: nat)
    ensures 0 < Pow2(n)
  {
  }

  lemma SameTaken(s: Bits, t: Bits, e: nat)
    requires |s| <= |t| && t[..|s|] == s && e <= |s|
    ensures Same(s, t, e) && Same(t, s, e)
  {
    assert t[..e] == t[..|s|][..e];
  }
}
