/** The compressor and the inflater together: whatever is compressed, in whatever pieces, inflates to itself, in whatever pieces. */
module RoundTrip {
  import opened Bits
  import opened Format
  import opened Halting
  import opened Writing
  import opened Adler
  import opened LzCodes
  import opened BlockWriter
  import Parser
  import C = Compressor
  import I = Inflater
  import opened Sessions

  // ----- from the stream to the machine's stop

  /** The machine stops at `c` on the stream `s`, having read all of it. */
  ghost predicate StopsAt(m: Mode, s: seq<u8>, c: Config, n: nat) {
    EndsAt(m, OfBytes(s), c, n) && c.pos == 8 * |s| && !Step(m, c, OfBytes(s)).Lost?
  }

  lemma CompleteStops(m: Mode, s: seq<u8>, src: seq<u8>) returns (c: Config, n: nat)
    requires C.Complete(m, OfBytes(s), src)
    ensures StopsAt(m, s, c, n) && c == Config(Phase.Done(if m.zlib then Adler32(1, src) else 0), true, 8 * |s|, src)
  {
    hide OfBytes, Reaches, Adler32;
    c := Config(Phase.Done(if m.zlib then Adler32(1, src) else 0), true, |OfBytes(s)|, src);
    StandsOk(m, OfBytes(s), c);
    n :| Reaches(m, OfBytes(s), c, n) && c.pos == |OfBytes(s)|;
    AtDone(m, c, OfBytes(s));
  }

  lemma AtDone(m: Mode, c: Config, s: Bits)
    requires WellFormed(c) && c.pos <= |s|
    ensures c.phase.Done? ==> Step(m, c, s) == Halted
    ensures c.phase.Header? && c.pos == |s| ==> Step(m, c, s) == Starved
  {
  }

  lemma BetweenStops(m: Mode, s: seq<u8>, src: seq<u8>) returns (c: Config, n: nat)
    requires Between(m, OfBytes(s), src)
    ensures StopsAt(m, s, c, n) && c == Config(Header, false, 8 * |s|, src)
  {
    hide OfBytes, Reaches;
    c := Config(Header, false, |OfBytes(s)|, src);
    StandsOk(m, OfBytes(s), c);
    n :| Reaches(m, OfBytes(s), c, n) && c.pos == |OfBytes(s)|;
    AtDone(m, c, OfBytes(s));
  }

  lemma StopsNotAstray(m: Mode, s: seq<u8>, c: Config, n: nat)
    requires StopsAt(m, s, c, n)
    ensures !I.LeadsAstray(m, s)
  {
    hide OfBytes, Reaches, Step, Strays;
    EndedNotLost(m, OfBytes(s), c, n);
  }

  // ----- inflating

  /** Inflating a complete stream gives back the source, uses every byte of the stream, and ends with the source's checksum,
      however the stream and the output are cut. */
  lemma Inflates(z: I.Inflater, s: seq<u8>, src: seq<u8>)
    requires C.Complete(z.mode, OfBytes(s), src) && Fed(z, s) && Finished(z, s)
    ensures z.place.AtDone? && z.output.out == src && z.input.fed == s && (z.mode.zlib ==> z.cfg.phase == Phase.Done(Adler32(1, src)))
  {
    hide OfBytes, Reaches, Step, Adler32, Stands, Fed, Finished, I.LeadsAstray;
    var c, n := CompleteStops(z.mode, s, src);
    StopsNotAstray(z.mode, s, c, n);
    Conforms(z, s, c, n);
    WholeFed(z, s);
  }

  lemma WholeFed(z: I.Inflater, s: seq<u8>)
    requires Fed(z, s)
    ensures |z.input.fed| == |s| ==> z.input.fed == s
  {
  }

  /** Everything compressed before a flush can be inflated without what comes after. */
  lemma InflatesFlushed(z: I.Inflater, s: seq<u8>, src: seq<u8>)
    requires Between(z.mode, OfBytes(s), src) && Fed(z, s) && Finished(z, s)
    ensures z.output.out == src && z.input.fed == s
  {
    hide OfBytes, Reaches, Step, Stands, Fed, Finished, I.LeadsAstray;
    var c, n := BetweenStops(z.mode, s, src);
    StopsNotAstray(z.mode, s, c, n);
    Conforms(z, s, c, n);
  }

  // ----- a checksum that misses something

  /** A first call that is told that there is no more input, though there is, cannot make progress in the end and leaves what it has
      written out of the checksum.  The next call gives the source all the same, and accepts it exactly when the bytes that the first
      call did not write have the checksum of all. */
  method Interrupted(first: seq<u8>, rest: seq<u8>, room: nat, ghost src1: seq<u8>, ghost src: seq<u8>) returns (status1: I.Status, status: I.Status, back: seq<u8>)
    requires Between(Mode(true, false, room), OfBytes(first), src1) && C.Complete(Mode(true, false, room), OfBytes(first + rest), src) && |src| < room
    ensures status1.CannotMakeProgress? && back == src && src1 <= src
    ensures status == if Adler32(1, src[|src1|..]) == Adler32(1, src) then I.Status.Done else I.Adler32Mismatch
  {
    hide OfBytes, Reaches, Step, Adler32, Stands, Fed, Finished, I.LeadsAstray, Between, C.Complete, EndsAt, I.Inflater.Resting, I.Inflater.Reported, StopsAt;
    var s := first + rest;
    var buf := new u8[room];
    var z := new I.Inflater(true, false, false, buf, false);
    StartFed(z, first);
    PartOf(z.mode, first, s, src1, src);
    var used, wrote;
    status1, used, wrote := Call(z, first, 0, |first|, 0, room, false);
    NeverBad(z, status1);
    FirstRoom(z, first, src1);
    FirstEnds(z, first, src1, status1);
    back := buf[..wrote];
    FedMore(z, first, s);
    var more;
    status, used, more := Call(z, s, |first|, |s|, wrote, room - wrote, false);
    NeverBad(z, status);
    LastRoom(z, s, src);
    LastEnds(z, s, src, status);
    assert z.counted == src[|src1|..];
    back := back + buf[wrote..wrote + more];
  }

  lemma PartOf(m: Mode, first: seq<u8>, s: seq<u8>, src1: seq<u8>, src: seq<u8>)
    requires first <= s && Between(m, OfBytes(first), src1) && C.Complete(m, OfBytes(s), src)
    ensures src1 <= src
  {
    hide OfBytes, Reaches, Step, Between, C.Complete;
    var c, n := BetweenStops(m, first, src1);
    var d, k := CompleteStops(m, s, src);
    OfBytesLonger(first, s);
    ReachesLonger(m, OfBytes(first), OfBytes(s), c, n);
    BeforeEnd(m, OfBytes(s), c, n, d, k);
  }

  lemma FirstRoom(z: I.Inflater, first: seq<u8>, src1: seq<u8>)
    requires Fed(z, first) && Between(z.mode, OfBytes(first), src1)
    ensures z.output.out <= src1
  {
    hide OfBytes, Reaches, Step, Between, Fed, I.LeadsAstray;
    var c, n := BetweenStops(z.mode, first, src1);
    StopsNotAstray(z.mode, first, c, n);
    Refused(z, first, c, n);
  }

  lemma LastRoom(z: I.Inflater, s: seq<u8>, src: seq<u8>)
    requires Fed(z, s) && C.Complete(z.mode, OfBytes(s), src)
    ensures z.output.out <= src
  {
    hide OfBytes, Reaches, Step, C.Complete, Fed, I.LeadsAstray;
    var c, n := CompleteStops(z.mode, s, src);
    StopsNotAstray(z.mode, s, c, n);
    Refused(z, s, c, n);
  }

  lemma FirstEnds(z: I.Inflater, first: seq<u8>, src1: seq<u8>, status: I.Status)
    requires Between(z.mode, OfBytes(first), src1) && Fed(z, first) && Finished(z, first)
    requires z.Reported(status, false) && !status.HasMoreOutput? && !z.mode.wrapping
    ensures status.CannotMakeProgress? && z.output.out == src1 && z.input.fed == first
  {
    hide OfBytes, Reaches, Step, Between, Fed, Finished, I.LeadsAstray, I.Inflater.Resting;
    InflatesFlushed(z, first, src1);
    var c, n := BetweenStops(z.mode, first, src1);
    StopsNotAstray(z.mode, first, c, n);
    Conforms(z, first, c, n);
    Standing(z, first);
    FedIs(z, first);
    OnePlace(z);
  }

  lemma FedMore(z: I.Inflater, first: seq<u8>, s: seq<u8>)
    requires Fed(z, first) && first <= s
    ensures Fed(z, s)
  {
    hide I.LeadsAstray, I.Inflater.Resting;
    AstrayLonger(z.mode, first, s);
  }

  lemma LastEnds(z: I.Inflater, s: seq<u8>, src: seq<u8>, status: I.Status)
    requires C.Complete(z.mode, OfBytes(s), src) && Fed(z, s) && Finished(z, s) && z.mode.zlib
    requires z.Reported(status, false) && !status.HasMoreOutput? && !z.mode.wrapping
    ensures z.output.out == src && status == if Adler32(1, z.counted) == Adler32(1, src) then I.Status.Done else I.Adler32Mismatch
  {
    hide OfBytes, Reaches, Step, Adler32, C.Complete, Fed, Finished, I.LeadsAstray, I.Inflater.Resting, I.Inflater.Starving;
    Inflates(z, s, src);
    var c, n := CompleteStops(z.mode, s, src);
    StopsNotAstray(z.mode, s, c, n);
    Standing(z, s);
    FedIs(z, s);
    NotStarving(z);
    SumIs(z);
  }

  lemma NeverBad(z: I.Inflater, status: I.Status)
    requires z.Reported(status, false) && !z.mode.wrapping
    ensures !status.BadParam?
  {
  }

  /** So it goes if 1 was written first, and then 2. */
  lemma SumMisses()
    ensures Adler32(1, [2]) != Adler32(1, [1, 2])
  {
    hide Fold, Push;
    var a, one: seq<u8>, two: seq<u8>, both: seq<u8> := Sums(1, 0), [1], [2], [1, 2];
    assert Split(1) == a && both[..1] == one && two[..0] == [] && one[..0] == [];
    FoldPush(a, one);
    FoldPush(a, two);
    FoldPush(a, both);
  }

  lemma FoldPush(a: Sums, s: seq<u8>)
    ensures Fold(a, []) == a
    ensures s != [] ==> Fold(a, s) == Push(Fold(a, s[..|s| - 1]), s[|s| - 1])
    ensures forall b: u8 :: Push(Sums(1, 0), b) == Sums(1 + b, 1 + b) && (b == 2 ==> Push(Sums(2, 2), b) == Sums(4, 6))
  {
    hide Fold;
    FoldNone(a);
    if s != [] { FoldNext(a, s); }
  }

  // ----- whole buffers

  /** `tdefl_compress_mem_to_output` with `tdefl_output_buffer_putter`. */
  method CompressMemToOutput(src: seq<u8>, sink: C.OutputBuffer, options: Parser.Options, ghost m: Mode) returns (ok: bool, ghost bits: Bits)
    requires sink.Valid() && sink.data == [] && m.zlib == options.zlib && Fits32K(m)
    modifies sink
    ensures ok ==> C.Complete(m, OfBytes(sink.data), src) && sink.Valid()
    ensures !ok ==> !sink.expandable && C.Overflows(m, bits, sink.room, src)
  {
    hide OfBytes, C.Complete, C.Overflows, C.Compressor.Parsing, C.Compressor.Streaming;
    var c := C.Init(options, sink, m);
    Started(c);
    var r := c.Compress(src, C.Finish);
    assert [] + src == src;
    bits := c.o.bits;
    ok := r.Done?;
  }

  lemma Started(c: C.Compressor)
    requires c.Parsing() && c.Streaming() && c.adler == 1 && c.parser.win.src == [] && !c.finished
    ensures c.Valid()
  {
    hide C.Compressor.Parsing, C.Compressor.Streaming;
    assert Adler32(1, []) == 1;
  }

  /** `tdefl_compress_mem_to_heap`, which never fails. */
  method CompressMemToHeap(src: seq<u8>, options: Parser.Options, ghost m: Mode) returns (ok: bool, out: seq<u8>)
    requires m.zlib == options.zlib && Fits32K(m)
    ensures ok && C.Complete(m, OfBytes(out), src)
  {
    hide OfBytes, C.Complete, C.Overflows;
    var sink := new C.OutputBuffer(0, true);
    ghost var bits;
    ok, bits := CompressMemToOutput(src, sink, options, m);
    out := sink.data;
  }

  /** `tdefl_compress_mem_to_mem`, which fails only if what it writes for some part of the source does not fit. */
  method CompressMemToMem(room: nat, src: seq<u8>, options: Parser.Options, ghost m: Mode) returns (ok: bool, out: seq<u8>, ghost bits: Bits)
    requires m.zlib == options.zlib && Fits32K(m)
    ensures ok ==> C.Complete(m, OfBytes(out), src) && |out| <= room
    ensures !ok ==> C.Overflows(m, bits, room, src)
  {
    hide OfBytes, C.Complete, C.Overflows;
    var sink := new C.OutputBuffer(room, false);
    ok, bits := CompressMemToOutput(src, sink, options, m);
    out := sink.data;
  }

  /** Compressing a buffer and inflating the result through a 32K ring gives the buffer back.  The callback has only to take as many
      pieces as the buffer has bytes. */
  method RoundTrip(src: seq<u8>, options: Parser.Options) returns (good: bool, back: seq<u8>)
    ensures good && back == src
  {
    hide OfBytes, C.Complete, I.LeadsAstray, EndsAt, Step, Adler32, Verdict;
    ghost var m := Mode(options.zlib, true, Sessions.LZ_DICT_SIZE);
    var ok, out := CompressMemToHeap(src, options, m);
    ghost var c, n := CompleteStops(m, out, src);
    StopsNotAstray(m, out, c, n);
    var used, refused;
    ghost var d, k;
    good, used, back, refused, d, k := MemToCallback(out, options.zlib, true, false, |src|);
    OneEnd(m, OfBytes(out), c, n, d, k);
    assert !refused;
    JudgedGood(m, out, d, k, good);
  }

  lemma JudgedGood(m: Mode, s: seq<u8>, d: Config, n: nat, good: bool)
    requires Verdict(m, s, d, n, good)
    ensures good <==> d.phase.Done? && (m.zlib ==> Adler32(1, d.out) == d.phase.sum)
  {
    hide OfBytes, EndsAt, Adler32;
  }
}
