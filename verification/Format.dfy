/** The DEFLATE and zlib stream formats (RFC 1951 and RFC 1950) as a machine that reads one bit string.

    The machine has no buffers, no look-up tables and no calls: it decodes with canonical codes directly, appends
    to an unbounded output, and is the reference for the inflater as well as for the compressor. */
module Format {
  import opened Bits
  import opened Canonical

  // ----- the constants of sections 3.2.5 and 3.2.7 of RFC 1951

  const LENGTH_BASE: seq<nat> := [3, 4, 5, 6, 7, 8, 9, 10, 11, 13, 15, 17, 19, 23, 27, 31, 35, 43, 51, 59, 67, 83, 99, 115, 131, 163, 195, 227, 258, 0, 0]
  const LENGTH_EXTRA: seq<nat> := [0, 0, 0, 0, 0, 0, 0, 0, 1, 1, 1, 1, 2, 2, 2, 2, 3, 3, 3, 3, 4, 4, 4, 4, 5, 5, 5, 5, 0, 0, 0]
  const DIST_BASE: seq<nat> := [1, 2, 3, 4, 5, 7, 9, 13, 17, 25, 33, 49, 65, 97, 129, 193, 257, 385, 513, 769, 1025, 1537, 2049, 3073, 4097, 6145, 8193, 12289, 16385, 24577, 0, 0]
  const DIST_EXTRA: seq<nat> := [0, 0, 0, 0, 1, 1, 2, 2, 3, 3, 4, 4, 5, 5, 6, 6, 7, 7, 8, 8, 9, 9, 10, 10, 11, 11, 12, 12, 13, 13, 0, 0]
  const SIZE_BITS: seq<nat> := [5, 5, 4]
  const SIZE_MIN: seq<nat> := [257, 1, 4]
  const ZIGZAG: seq<nat> := [16, 17, 18, 0, 8, 7, 9, 6, 10, 5, 11, 4, 12, 3, 13, 2, 14, 1, 15]

  function LengthBase(sym: nat): nat
    requires 257 <= sym <= 287
  {
    LENGTH_BASE[sym - 257]
  }

  function LengthBits(sym: nat): nat
    requires 257 <= sym <= 287
  {
    LENGTH_EXTRA[sym - 257]
  }

  function DistBase(sym: nat): nat
    requires sym < 32
  {
    DIST_BASE[sym]
  }

  function DistBits(sym: nat): nat
    requires sym < 32
  {
    DIST_EXTRA[sym]
  }

  function RunExtra(sym: nat): nat { if sym == 16 then 2 else if sym == 17 then 3 else 7 }

  function RunBase(sym: nat): nat { if sym == 18 then 11 else 3 }

  function FixedLit(): (lens: seq<nat>)
    ensures |lens| == 288
  {
    Rep(8, 144) + Rep(9, 112) + Rep(7, 24) + Rep(8, 8)
  }

  function FixedDist(): (lens: seq<nat>)
    ensures |lens| == 32
  {
    Rep(5, 32)
  }

  // ----- configurations

  /** Whether the stream has a zlib header, and the output ring, if the output wraps. */
  datatype Mode = Mode(zlib: bool, wrapping: bool, ring: nat)

  /** The two codes of a compressed block. */
  datatype Codes = Codes(lit: seq<nat>, dist: seq<nat>)

  datatype Phase =
    | ZlibCmf
    | ZlibFlg(cmf: nat)
    | Header
    | RawHeader(head: seq<nat>)
    | RawBody(left: nat)
    | RawByte(byte: u8, left: nat)
    | TableSizes(sizes: seq<nat>)
    | SizeSizes(sizes: seq<nat>, lens2: seq<nat>, k: nat)
    | CodeSizes(sizes: seq<nat>, lens2: seq<nat>, acc: seq<nat>)
    | CodeSizeRun(sizes: seq<nat>, lens2: seq<nat>, acc: seq<nat>, sym: nat)
    | Symbol(codes: Codes)
    | Literal(codes: Codes, byte: u8)
    | LengthExtra(codes: Codes, sym: nat)
    | DistSymbol(codes: Codes, len: nat)
    | DistExtra(codes: Codes, len: nat, sym: nat)
    | Copy(codes: Codes, len: nat, dist: nat)
    | Trailer(k: nat, sum: nat)
    | Done(sum: nat)
    | Bad

  /** `pos` bits have been read and `out` has been written; `final` is the flag of the block being read. */
  datatype Config = Config(phase: Phase, final: bool, pos: nat, out: seq<u8>)

  /** What the machine does next.  It is `Starved` when it needs more bits than the stream has so far, `Halted` when it is
      done or has met an error that the format makes detectable, and `Lost` when the stream is one whose meaning the
      format leaves open. */
  datatype Outcome = Next(config: Config) | Starved | Halted | Lost

  function Start(m: Mode): Config {
    Config(if m.zlib then ZlibCmf else Header, false, 0, [])
  }

  lemma StartOk(m: Mode)
    ensures WellFormed(Start(m)) && Start(m).pos == 0
  {
  }

  function Align(p: nat): nat {
    (p + 7) / 8 * 8
  }

  ghost function Field(s: Bits, pos: nat, n: nat): nat
    requires pos + n <= |s|
  {
    Val(s[pos..pos + n])
  }

  // ----- one step

  /** The symbol whose code comes next. */
  datatype Decoded = Sym(sym: nat) | Short | NoCode

  ghost function Decode(lens: seq<nat>, bits: Bits): (d: Decoded)
    ensures d.Sym? ==> Starts(lens, d.sym, bits)
    ensures d.Short? ==> Partial(lens, bits) && forall t: nat :: !Starts(lens, t, bits)
    ensures d.NoCode? ==> !Partial(lens, bits) && forall t: nat :: !Starts(lens, t, bits)
  {
    if exists t: nat :: Starts(lens, t, bits) then
      var t: nat :| Starts(lens, t, bits);
      Sym(t)
    else if Partial(lens, bits) then Short else NoCode
  }

  function BadZlibHeader(m: Mode, cmf: nat, flg: nat): bool {
    || (cmf * 256 + flg) % 31 != 0 || flg / 32 % 2 == 1 || cmf % 16 != 8
    || (m.wrapping && (Pow2(8 + cmf / 16) > 32768 || m.ring < Pow2(8 + cmf / 16)))
  }

  function AfterHeader(c: Config, v: nat): Config
    requires v < 8
  {
    var d := c.(final := v % 2 == 1, pos := c.pos + 3);
    if v / 2 == 0 then d.(phase := RawHeader([]), pos := Align(c.pos + 3))
    else if v / 2 == 1 then d.(phase := Symbol(Codes(FixedLit(), FixedDist())))
    else if v / 2 == 2 then d.(phase := TableSizes([]))
    else d.(phase := Bad)
  }

  /** Leaving a block: to the next one, or past the byte boundary to the trailer or the end. */
  function AfterBlock(m: Mode, c: Config): Config {
    if !c.final then c.(phase := Header)
    else c.(phase := if m.zlib then Trailer(0, 0) else Done(0), pos := Align(c.pos))
  }

  function AfterRawHeader(c: Config, head: seq<nat>): Config {
    if |head| < 4 then c.(phase := RawHeader(head))
    else if head[0] + 256 * head[1] + (head[2] + 256 * head[3]) != 0xFFFF then c.(phase := Bad)
    else c.(phase := RawBody(head[0] + 256 * head[1]))
  }

  function AfterTableSizes(c: Config, sizes: seq<nat>): Config {
    c.(phase := if |sizes| < 3 then TableSizes(sizes) else SizeSizes(sizes, Rep(0, 19), 0))
  }

  /** All code sizes are there: the two codes of the block, if there can be such codes. */
  function AfterCodeSizes(c: Config, sizes: seq<nat>, acc: seq<nat>): Config
    requires |sizes| == 3
  {
    if |acc| != sizes[0] + sizes[1] then c.(phase := Bad)
    else if !Buildable(acc[sizes[0]..]) || !Buildable(acc[..sizes[0]]) then c.(phase := Bad)
    else c.(phase := Symbol(Codes(acc[..sizes[0]], acc[sizes[0]..])))
  }

  function AfterSymbol(m: Mode, c: Config, codes: Codes, sym: nat): Outcome {
    if sym < 256 then Next(c.(phase := Literal(codes, sym)))
    else if sym == 256 then Next(AfterBlock(m, c))
    else if sym <= 285 then Next(c.(phase := LengthExtra(codes, sym)))
    else Lost
  }

  function AfterDistance(m: Mode, c: Config, codes: Codes, len: nat, dist: nat): Outcome {
    if dist > |c.out| && !m.wrapping then Next(c.(phase := Bad))
    else if dist == 0 || dist > |c.out| || (m.wrapping && dist > m.ring) then Lost
    else Next(c.(phase := Copy(codes, len, dist)))
  }

  /** Phases as they arise, with every index in range. */
  predicate WellFormed(c: Config) {
    match c.phase
    case ZlibFlg(cmf) => cmf < 256
    case RawHeader(head) => |head| < 4 && forall i :: 0 <= i < |head| ==> head[i] < 256
    case RawBody(left) => left < 65536
    case RawByte(_, left) => 0 < left < 65536
    case TableSizes(sizes) => SizesOk(sizes) && |sizes| < 3
    case SizeSizes(sizes, lens2, k) => SizesOk(sizes) && |sizes| == 3 && |lens2| == 19 && k <= sizes[2] && Sized(lens2)
    case CodeSizes(sizes, lens2, acc) => SizesOk(sizes) && |sizes| == 3 && |lens2| == 19 && Buildable(lens2) && |acc| <= 457 && Sized(acc)
    case CodeSizeRun(sizes, lens2, acc, sym) => SizesOk(sizes) && |sizes| == 3 && |lens2| == 19 && Buildable(lens2) && 16 <= sym <= 18 && |acc| < 320 && Sized(acc) && (sym == 16 ==> acc != [])
    case Symbol(codes) => CodesOk(codes)
    case Literal(codes, _) => CodesOk(codes)
    case LengthExtra(codes, sym) => CodesOk(codes) && 257 <= sym <= 285
    case DistSymbol(codes, len) => CodesOk(codes) && 3 <= len <= 258
    case DistExtra(codes, len, sym) => CodesOk(codes) && 3 <= len <= 258 && sym < 32
    case Copy(codes, len, dist) => CodesOk(codes) && len <= 258 && 1 <= dist <= |c.out|
    case Trailer(k, sum) => k < 4
    case _ => true
  }

  predicate SizesOk(sizes: seq<nat>) {
    |sizes| <= 3 && forall k :: 0 <= k < |sizes| ==> SIZE_MIN[k] <= sizes[k] < SIZE_MIN[k] + (if k == 2 then 16 else 32)
  }

  predicate CodesOk(codes: Codes) {
    0 < |codes.lit| <= 288 && 0 < |codes.dist| <= 32 && Buildable(codes.lit) && Buildable(codes.dist)
  }

  /** One step of the machine on the stream `s`, as far as it is known. */
  ghost function Step(m: Mode, c: Config, s: Bits): Outcome
    requires WellFormed(c) && c.pos <= |s|
  {
    match c.phase
    case ZlibCmf | ZlibFlg(_) | Trailer(_, _) => StepFrame(m, c, s)
    case Header => StepHeader(c, s)
    case RawHeader(_) | RawBody(_) | RawByte(_, _) => StepRaw(m, c, s)
    case TableSizes(_) | SizeSizes(_, _, _) | CodeSizes(_, _, _) | CodeSizeRun(_, _, _, _) => StepTables(c, s)
    case Symbol(_) | Literal(_, _) | LengthExtra(_, _) | DistSymbol(_, _) | DistExtra(_, _, _) | Copy(_, _, _) => StepCodes(m, c, s)
    case Done(_) | Bad => Halted
  }

  /** The zlib header and trailer (section 2.2 of RFC 1950). */
  ghost function StepFrame(m: Mode, c: Config, s: Bits): Outcome
    requires WellFormed(c) && c.pos <= |s| && (c.phase.ZlibCmf? || c.phase.ZlibFlg? || c.phase.Trailer?)
  {
    if |s| < c.pos + 8 then Starved
    else
      match c.phase
      case ZlibCmf => Next(c.(phase := ZlibFlg(ByteAt(s, c.pos)), pos := c.pos + 8))
      case ZlibFlg(cmf) => Next(c.(phase := if BadZlibHeader(m, cmf, ByteAt(s, c.pos)) then Bad else Header, pos := c.pos + 8))
      case Trailer(k, sum) => Next(AfterTrailer(c.(pos := c.pos + 8), k, sum, ByteAt(s, c.pos)))
  }

  function AfterTrailer(c: Config, k: nat, sum: nat, byte: u8): Config {
    var sum' := (sum * 256 + byte) % 0x1_0000_0000;
    c.(phase := if k == 3 then Done(sum') else Trailer(k + 1, sum'))
  }

  /** Block headers (section 3.2.3 of RFC 1951). */
  ghost function StepHeader(c: Config, s: Bits): Outcome
    requires c.pos <= |s|
  {
    if |s| < c.pos + 3 then Starved else Aligned(AfterHeader(c, HeaderField(s, c.pos)), s)
  }

  /** Stored blocks (section 3.2.4 of RFC 1951). */
  ghost function StepRaw(m: Mode, c: Config, s: Bits): Outcome
    requires WellFormed(c) && c.pos <= |s| && (c.phase.RawHeader? || c.phase.RawBody? || c.phase.RawByte?)
  {
    match c.phase
    case RawByte(byte, n) => Next(c.(phase := RawBody(n - 1), out := c.out + [byte]))
    case RawBody(n) =>
      if n == 0 then Aligned(AfterBlock(m, c), s)
      else if |s| < c.pos + 8 then Starved
      else Next(c.(phase := RawByte(ByteAt(s, c.pos), n), pos := c.pos + 8))
    case RawHeader(head) =>
      if |s| < c.pos + 8 then Starved else Next(AfterRawHeader(c.(pos := c.pos + 8), head + [ByteAt(s, c.pos)]))
  }

  /** The code tables of a dynamic block (section 3.2.7 of RFC 1951). */
  ghost function StepTables(c: Config, s: Bits): Outcome
    requires WellFormed(c) && c.pos <= |s| && (c.phase.TableSizes? || c.phase.SizeSizes? || c.phase.CodeSizes? || c.phase.CodeSizeRun?)
  {
    match c.phase
    case TableSizes(sizes) =>
      var n := SIZE_BITS[|sizes|];
      if |s| < c.pos + n then Starved else Next(AfterTableSizes(c.(pos := c.pos + n), sizes + [Field(s, c.pos, n) + SIZE_MIN[|sizes|]]))
    case SizeSizes(sizes, lens2, k) =>
      if k == sizes[2] then Next(c.(phase := if Buildable(lens2) then CodeSizes(sizes, lens2, []) else Bad))
      else if |s| < c.pos + 3 then Starved
      else Next(c.(phase := SizeSizes(sizes, lens2[ZIGZAG[k] := HeaderField(s, c.pos)], k + 1), pos := c.pos + 3))
    case CodeSizes(sizes, lens2, acc) =>
      if |acc| >= sizes[0] + sizes[1] then Next(AfterCodeSizes(c, sizes, acc))
      else
        (match Decode(lens2, s[c.pos..])
         case Sym(sym) => Next(AfterSizeSymbol(c.(pos := c.pos + lens2[sym]), sizes, lens2, acc, sym))
         case Short => Starved
         case NoCode => Lost)
    case CodeSizeRun(sizes, lens2, acc, sym) =>
      var n := RunExtra(sym);
      if |s| < c.pos + n then Starved
      else Next(c.(phase := CodeSizes(sizes, lens2, acc + RunOf(acc, sym, Field(s, c.pos, n))), pos := c.pos + n))
  }

  /** The code sizes that run symbol `sym` with extra bits `v` stands for. */
  function RunOf(acc: seq<nat>, sym: nat, v: nat): seq<nat>
    requires sym == 16 ==> acc != []
  {
    Rep(if sym == 16 then acc[|acc| - 1] else 0, RunBase(sym) + v)
  }

  /** Literals and matches (section 3.2.5 of RFC 1951). */
  ghost function StepCodes(m: Mode, c: Config, s: Bits): Outcome
    requires WellFormed(c) && c.pos <= |s|
    requires c.phase.Symbol? || c.phase.Literal? || c.phase.LengthExtra? || c.phase.DistSymbol? || c.phase.DistExtra? || c.phase.Copy?
  {
    match c.phase
    case Symbol(codes) =>
      (match Decode(codes.lit, s[c.pos..])
       case Sym(sym) => AlignedOutcome(AfterSymbol(m, c.(pos := c.pos + codes.lit[sym]), codes, sym), s)
       case Short => Starved
       case NoCode => Lost)
    case Literal(codes, byte) =>
      Next(c.(phase := Symbol(codes), out := c.out + [byte]))
    case LengthExtra(codes, sym) =>
      var n := LengthBits(sym);
      if |s| < c.pos + n then Starved else Next(c.(phase := DistSymbol(codes, LengthBase(sym) + Field(s, c.pos, n)), pos := c.pos + n))
    case DistSymbol(codes, len) =>
      (match Decode(codes.dist, s[c.pos..])
       case Sym(sym) => Next(c.(phase := DistExtra(codes, len, sym), pos := c.pos + codes.dist[sym]))
       case Short => Starved
       case NoCode => Lost)
    case DistExtra(codes, len, sym) =>
      var n := DistBits(sym);
      if |s| < c.pos + n then Starved else AfterDistance(m, c.(pos := c.pos + n), codes, len, DistBase(sym) + Field(s, c.pos, n))
    case Copy(codes, len, dist) =>
      if len == 0 then Next(c.(phase := Symbol(codes)))
      else Next(c.(phase := Copy(codes, len - 1, dist), out := c.out + [c.out[|c.out| - dist]]))
  }

  function AfterSizeSymbol(c: Config, sizes: seq<nat>, lens2: seq<nat>, acc: seq<nat>, sym: nat): Config {
    if sym < 16 then c.(phase := CodeSizes(sizes, lens2, acc + [sym]))
    else if sym == 16 && acc == [] then c.(phase := Bad)
    else c.(phase := CodeSizeRun(sizes, lens2, acc, sym))
  }

  /** Skipping to a byte boundary needs the rest of the byte to be there. */
  function Aligned(d: Config, s: Bits): Outcome {
    if d.pos > |s| then Starved else Next(d)
  }

  function AlignedOutcome(o: Outcome, s: Bits): Outcome {
    if o.Next? then Aligned(o.config, s) else o
  }

  ghost function HeaderField(s: Bits, pos: nat): (v: nat)
    requires pos + 3 <= |s|
    ensures v < 8
  {
    assert Pow2(3) == 8;
    Field(s, pos, 3)
  }

  ghost function ByteAt(s: Bits, pos: nat): u8
    requires pos + 8 <= |s|
  {
    Pow2Values();
    Field(s, pos, 8)
  }

  // ----- the fixed codes can be built

  lemma FixedCounts(l: nat)
    ensures Count(FixedLit(), l) == (if l == 7 then 24 else if l == 8 then 152 else if l == 9 then 112 else 0)
    ensures Count(FixedDist(), l) == (if l == 5 then 32 else 0)
  {
    hide Count, Rep;
    CountRep(8, 144, l);
    CountRep(9, 112, l);
    CountRep(7, 24, l);
    CountRep(8, 8, l);
    CountRep(5, 32, l);
    CountConcat(Rep(8, 144), Rep(9, 112), l);
    CountConcat(Rep(8, 144) + Rep(9, 112), Rep(7, 24), l);
    CountConcat(Rep(8, 144) + Rep(9, 112) + Rep(7, 24), Rep(8, 8), l);
  }

  lemma {:induction false} FixedFirst(l: nat)
    requires 1 <= l <= 16
    ensures First(FixedLit(), l) == if l <= 7 then 0 else if l == 8 then 48 else if l == 9 then 400 else Pow2(l)
    ensures First(FixedDist(), l) == if l <= 5 then 0 else Pow2(l)
  {
    hide FixedLit, FixedDist, Count;
    if l > 1 {
      FixedFirst(l - 1);
      FixedCounts(l - 1);
      SmallPowers();
    }
  }

  lemma FixedOk()
    ensures CodesOk(Codes(FixedLit(), FixedDist())) && Complete(FixedLit()) && Complete(FixedDist())
  {
    hide First, Pow2;
    FixedFirst(16);
    Pow2Values();
  }

  // ----- matches

  /** The output after a match: every byte is the one `dist` back, which may be a byte of the same match. */
  function CopyMatch(out: seq<u8>, len: nat, dist: nat): (r: seq<u8>)
    requires 1 <= dist <= |out|
    ensures |r| == |out| + len && out <= r
    decreases len
  {
    if len == 0 then out else CopyMatch(out + [out[|out| - dist]], len - 1, dist)
  }

  lemma {:induction false} CopyMatchSplit(out: seq<u8>, m: nat, n: nat, dist: nat)
    requires 1 <= dist <= |out|
    ensures CopyMatch(out, m + n, dist) == CopyMatch(CopyMatch(out, m, dist), n, dist)
    decreases m
  {
    if m > 0 { CopyMatchSplit(out + [out[|out| - dist]], m - 1, n, dist); }
  }

  /** The recurrence of section 3.2.3 of RFC 1951, byte by byte. */
  lemma {:induction false} CopyMatchAt(out: seq<u8>, len: nat, dist: nat, k: nat)
    requires 1 <= dist <= |out| && |out| <= k < |out| + len
    ensures CopyMatch(out, len, dist)[k] == CopyMatch(out, len, dist)[k - dist]
    decreases len
  {
    var next := out + [out[|out| - dist]];
    assert next <= CopyMatch(out, len, dist);
    if k > |out| {
      CopyMatchAt(next, len - 1, dist, k);
    } else {
      assert CopyMatch(out, len, dist)[k] == next[k] && CopyMatch(out, len, dist)[k - dist] == next[k - dist];
    }
  }

  // ----- what one step keeps

  lemma LengthRange(sym: nat, v: nat)
    requires 257 <= sym <= 285 && v < Pow2(LengthBits(sym))
    ensures 3 <= LengthBase(sym) + v <= 258
  {
    assert Pow2(0) == 1 && Pow2(1) == 2 && Pow2(2) == 4 && Pow2(3) == 8 && Pow2(4) == 16 && Pow2(5) == 32;
  }

  lemma SmallPowers()
    ensures Pow2(2) == 4 && Pow2(3) == 8 && Pow2(4) == 16 && Pow2(5) == 32 && Pow2(6) == 64 && Pow2(7) == 128 && Pow2(8) == 256 && Pow2(10) == 1024
  {
  }

  /** A step leads to a well-formed configuration, reads forward and appends to the output. */
  ghost predicate Advances(c: Config, o: Outcome, s: Bits) {
    o.Next? ==> WellFormed(o.config) && c.pos <= o.config.pos <= |s| && c.out <= o.config.out
  }

  lemma FrameAdvances(m: Mode, c: Config, s: Bits)
    requires WellFormed(c) && c.pos <= |s| && (c.phase.ZlibCmf? || c.phase.ZlibFlg? || c.phase.Trailer?)
    ensures Advances(c, StepFrame(m, c, s), s)
  {
    hide Pow2, Val, BadZlibHeader;
  }

  lemma HeaderAdvances(c: Config, s: Bits)
    requires c.pos <= |s|
    ensures Advances(c, StepHeader(c, s), s)
  {
    hide Pow2, Val, CodesOk, FixedLit, FixedDist, HeaderField;
    FixedOk();
  }

  lemma RawAdvances(m: Mode, c: Config, s: Bits)
    requires WellFormed(c) && c.pos <= |s| && (c.phase.RawHeader? || c.phase.RawBody? || c.phase.RawByte?)
    ensures Advances(c, StepRaw(m, c, s), s)
  {
    hide Pow2, Val, Buildable, Rep;
  }

  /** A code that comes next is all there. */
  lemma StartsInside(lens: seq<nat>, s: Bits, pos: nat, sym: nat)
    requires pos <= |s| && Starts(lens, sym, s[pos..])
    ensures sym < |lens| && pos + lens[sym] <= |s|
  {
  }

  lemma DecodeInside(lens: seq<nat>, s: Bits, pos: nat)
    requires pos <= |s|
    ensures Decode(lens, s[pos..]).Sym? ==> var sym := Decode(lens, s[pos..]).sym; sym < |lens| && pos + lens[sym] <= |s|
  {
    hide Decode, Starts;
    if Decode(lens, s[pos..]).Sym? { StartsInside(lens, s, pos, Decode(lens, s[pos..]).sym); }
  }

  lemma TablesAdvances(c: Config, s: Bits)
    requires WellFormed(c) && c.pos <= |s| && (c.phase.TableSizes? || c.phase.SizeSizes? || c.phase.CodeSizes? || c.phase.CodeSizeRun?)
    ensures Advances(c, StepTables(c, s), s)
  {
    hide Pow2, Val, Buildable, CodeBits, Partial, Decode, Starts;
    SmallPowers();
    if c.phase.CodeSizes? { DecodeInside(c.phase.lens2, s, c.pos); }
  }

  lemma CodesAdvances(m: Mode, c: Config, s: Bits)
    requires WellFormed(c) && c.pos <= |s|
    requires c.phase.Symbol? || c.phase.Literal? || c.phase.LengthExtra? || c.phase.DistSymbol? || c.phase.DistExtra? || c.phase.Copy?
    ensures Advances(c, StepCodes(m, c, s), s)
  {
    hide Pow2, Val, Buildable, CodeBits, Partial, Decode, Starts, LengthBase, LengthBits, DistBase, DistBits;
    match c.phase
    case Symbol(codes) => DecodeInside(codes.lit, s, c.pos);
    case DistSymbol(codes, _) => DecodeInside(codes.dist, s, c.pos);
    case LengthExtra(_, sym) => LengthBounded(s, c.pos, sym);
    case _ =>
  }

  lemma LengthBounded(s: Bits, pos: nat, sym: nat)
    requires 257 <= sym <= 285
    ensures pos + LengthBits(sym) <= |s| ==> 3 <= LengthBase(sym) + Field(s, pos, LengthBits(sym)) <= 258
  {
    hide Pow2, Val, LengthBase, LengthBits;
    if pos + LengthBits(sym) <= |s| { LengthRange(sym, Field(s, pos, LengthBits(sym))); }
  }

  lemma StepAdvances(m: Mode, c: Config, s: Bits)
    requires WellFormed(c) && c.pos <= |s|
    ensures Advances(c, Step(m, c, s), s)
  {
    hide Advances, WellFormed, StepFrame, StepHeader, StepRaw, StepTables, StepCodes;
    match c.phase
    case ZlibCmf | ZlibFlg(_) | Trailer(_, _) => FrameAdvances(m, c, s);
    case Header => HeaderAdvances(c, s);
    case RawHeader(_) | RawBody(_) | RawByte(_, _) => RawAdvances(m, c, s);
    case TableSizes(_) | SizeSizes(_, _, _) | CodeSizes(_, _, _) | CodeSizeRun(_, _, _, _) => TablesAdvances(c, s);
    case Symbol(_) | Literal(_, _) | LengthExtra(_, _) | DistSymbol(_, _) | DistExtra(_, _, _) | Copy(_, _, _) => CodesAdvances(m, c, s);
    case Done(_) | Bad => HaltAdvances(c, s);
  }

  lemma HaltAdvances(c: Config, s: Bits)
    ensures Advances(c, Halted, s)
  {
  }

  // ----- a step depends on the bits it reads and on no others

  /** The streams agree on their first `e` bits. */
  predicate Same(s: Bits, t: Bits, e: nat) {
    e <= |s| && e <= |t| && s[..e] == t[..e]
  }

  lemma SameSlice(s: Bits, t: Bits, e: nat, pos: nat, n: nat)
    requires Same(s, t, e) && pos + n <= e
    ensures s[pos..pos + n] == t[pos..pos + n]
  {
    assert s[pos..pos + n] == s[..e][pos..pos + n];
    assert t[pos..pos + n] == t[..e][pos..pos + n];
  }

  lemma FieldLocal(s: Bits, t: Bits, e: nat, pos: nat, n: nat)
    requires Same(s, t, e) && pos + n <= e
    ensures Field(s, pos, n) == Field(t, pos, n)
  {
    SameSlice(s, t, e, pos, n);
  }

  lemma DecodeLocal(lens: seq<nat>, s: Bits, t: Bits, e: nat, pos: nat)
    requires Buildable(lens) && Same(s, t, e) && pos <= e && Decode(lens, s[pos..]).Sym?
    requires pos + lens[Decode(lens, s[pos..]).sym] <= e
    ensures Decode(lens, t[pos..]) == Decode(lens, s[pos..])
  {
    hide Decode, CodeBits, Partial, Buildable, Fits;
    var sym := Decode(lens, s[pos..]).sym;
    SameSlice(s, t, e, pos, lens[sym]);
    assert CodeBits(lens, sym) == s[pos..pos + lens[sym]] == t[pos..pos + lens[sym]];
    assert Starts(lens, sym, t[pos..]);
    DecodeIs(lens, t[pos..], sym);
  }

  lemma DecodeIs(lens: seq<nat>, bits: Bits, sym: nat)
    requires Buildable(lens) && Starts(lens, sym, bits)
    ensures Decode(lens, bits) == Sym(sym)
  {
    hide Starts, Partial, Buildable, Fits;
    BuildableFits(lens);
    assert exists t: nat :: Starts(lens, t, bits);
    StartsUnique(lens, sym, Decode(lens, bits).sym, bits);
  }

  /** The outcome on `t` is the same as the one on `s`, if that leads to a position both streams know. */
  ghost predicate Agree(o: Outcome, p: Outcome, s: Bits, t: Bits) {
    o.Next? && Same(s, t, o.config.pos) ==> p == o
  }

  lemma FrameLocal(m: Mode, c: Config, s: Bits, t: Bits)
    requires WellFormed(c) && c.pos <= |s| && c.pos <= |t| && (c.phase.ZlibCmf? || c.phase.ZlibFlg? || c.phase.Trailer?)
    ensures Agree(StepFrame(m, c, s), StepFrame(m, c, t), s, t)
  {
    hide Field, Pow2, Val, BadZlibHeader;
    if Same(s, t, c.pos + 8) { FieldLocal(s, t, c.pos + 8, c.pos, 8); }
  }

  lemma HeaderLocal(c: Config, s: Bits, t: Bits)
    requires c.pos <= |s| && c.pos <= |t|
    ensures Agree(StepHeader(c, s), StepHeader(c, t), s, t)
  {
    hide Field, Pow2, Val, FixedLit, FixedDist;
    if |s| >= c.pos + 3 {
      var e := AfterHeader(c, HeaderField(s, c.pos)).pos;
      if Same(s, t, e) { FieldLocal(s, t, e, c.pos, 3); }
    }
  }

  lemma RawLocal(m: Mode, c: Config, s: Bits, t: Bits)
    requires WellFormed(c) && c.pos <= |s| && c.pos <= |t| && (c.phase.RawHeader? || c.phase.RawBody? || c.phase.RawByte?)
    ensures Agree(StepRaw(m, c, s), StepRaw(m, c, t), s, t)
  {
    hide Field, Pow2, Val;
    if Same(s, t, c.pos + 8) { FieldLocal(s, t, c.pos + 8, c.pos, 8); }
  }

  lemma TablesLocal(c: Config, s: Bits, t: Bits)
    requires WellFormed(c) && c.pos <= |s| && c.pos <= |t|
    requires c.phase.TableSizes? || c.phase.SizeSizes? || c.phase.CodeSizes? || c.phase.CodeSizeRun?
    ensures Agree(StepTables(c, s), StepTables(c, t), s, t)
  {
    hide Field, Pow2, Val, Buildable, Decode, Starts, Rep, CodesOk;
    match c.phase
    case TableSizes(sizes) =>
      var n := SIZE_BITS[|sizes|];
      if Same(s, t, c.pos + n) { FieldLocal(s, t, c.pos + n, c.pos, n); }
    case SizeSizes(_, _, _) =>
      if Same(s, t, c.pos + 3) { FieldLocal(s, t, c.pos + 3, c.pos, 3); }
    case CodeSizes(_, lens2, _) =>
      DecodeInside(lens2, s, c.pos);
      if Decode(lens2, s[c.pos..]).Sym? {
        var e := c.pos + lens2[Decode(lens2, s[c.pos..]).sym];
        if Same(s, t, e) { DecodeLocal(lens2, s, t, e, c.pos); }
      }
    case CodeSizeRun(_, _, _, sym) =>
      var n := RunExtra(sym);
      if Same(s, t, c.pos + n) { FieldLocal(s, t, c.pos + n, c.pos, n); }
  }

  lemma CodesLocal(m: Mode, c: Config, s: Bits, t: Bits)
    requires WellFormed(c) && c.pos <= |s| && c.pos <= |t|
    requires c.phase.Symbol? || c.phase.Literal? || c.phase.LengthExtra? || c.phase.DistSymbol? || c.phase.DistExtra? || c.phase.Copy?
    ensures Agree(StepCodes(m, c, s), StepCodes(m, c, t), s, t)
  {
    hide Field, Pow2, Val, Buildable, Decode, Starts, LengthBase, LengthBits, DistBase, DistBits;
    match c.phase
    case Symbol(codes) =>
      DecodeInside(codes.lit, s, c.pos);
      if Decode(codes.lit, s[c.pos..]).Sym? {
        var sym := Decode(codes.lit, s[c.pos..]).sym;
        var o := AfterSymbol(m, c.(pos := c.pos + codes.lit[sym]), codes, sym);
        if o.Next? && Same(s, t, o.config.pos) { DecodeLocal(codes.lit, s, t, o.config.pos, c.pos); }
      }
    case DistSymbol(codes, _) =>
      DecodeInside(codes.dist, s, c.pos);
      if Decode(codes.dist, s[c.pos..]).Sym? {
        var e := c.pos + codes.dist[Decode(codes.dist, s[c.pos..]).sym];
        if Same(s, t, e) { DecodeLocal(codes.dist, s, t, e, c.pos); }
      }
    case LengthExtra(_, sym) =>
      if Same(s, t, c.pos + LengthBits(sym)) { FieldLocal(s, t, c.pos + LengthBits(sym), c.pos, LengthBits(sym)); }
    case DistExtra(_, _, sym) =>
      if Same(s, t, c.pos + DistBits(sym)) { FieldLocal(s, t, c.pos + DistBits(sym), c.pos, DistBits(sym)); }
    case _ =>
  }

  lemma StepLocal(m: Mode, c: Config, s: Bits, t: Bits)
    requires WellFormed(c) && c.pos <= |s| && c.pos <= |t|
    ensures Agree(Step(m, c, s), Step(m, c, t), s, t)
  {
    hide Agree, WellFormed, StepFrame, StepHeader, StepRaw, StepTables, StepCodes;
    match c.phase
    case ZlibCmf | ZlibFlg(_) | Trailer(_, _) => FrameLocal(m, c, s, t);
    case Header => HeaderLocal(c, s, t);
    case RawHeader(_) | RawBody(_) | RawByte(_, _) => RawLocal(m, c, s, t);
    case TableSizes(_) | SizeSizes(_, _, _) | CodeSizes(_, _, _) | CodeSizeRun(_, _, _, _) => TablesLocal(c, s, t);
    case Symbol(_) | Literal(_, _) | LengthExtra(_, _) | DistSymbol(_, _) | DistExtra(_, _, _) | Copy(_, _, _) => CodesLocal(m, c, s, t);
    case Done(_) | Bad => HaltLocal(s, t);
  }

  lemma HaltLocal(s: Bits, t: Bits)
    ensures Agree(Halted, Halted, s, t)
  {
  }

  // ----- runs

  /** `n` steps on the stream `s` lead from `c` to `d`. */
  ghost predicate Runs(m: Mode, s: Bits, c: Config, d: Config, n: nat)
    requires WellFormed(c) && c.pos <= |s|
    decreases n
  {
    if n == 0 then c == d
    else
      var o := Step(m, c, s);
      o.Next? && WellFormed(o.config) && o.config.pos <= |s| && Runs(m, s, o.config, d, n - 1)
  }

  lemma {:induction false} RunsAdvance(m: Mode, s: Bits, c: Config, d: Config, n: nat)
    requires WellFormed(c) && c.pos <= |s| && Runs(m, s, c, d, n)
    ensures WellFormed(d) && c.pos <= d.pos <= |s| && c.out <= d.out
    decreases n
  {
    hide WellFormed, Step;
    if n > 0 {
      StepAdvances(m, c, s);
      RunsAdvance(m, s, Step(m, c, s).config, d, n - 1);
    }
  }

  /** A run goes through unchanged on any stream that agrees up to where the run ends. */
  lemma {:induction false} RunsLocal(m: Mode, s: Bits, t: Bits, c: Config, d: Config, n: nat)
    requires WellFormed(c) && c.pos <= |s| && Runs(m, s, c, d, n) && Same(s, t, d.pos)
    ensures c.pos <= |t| && Runs(m, t, c, d, n)
    decreases n
  {
    hide WellFormed, Step;
    RunsAdvance(m, s, c, d, n);
    if n > 0 {
      var e := Step(m, c, s).config;
      StepAdvances(m, c, s);
      RunsAdvance(m, s, e, d, n - 1);
      SamePrefix(s, t, d.pos, e.pos);
      StepLocal(m, c, s, t);
      RunsLocal(m, s, t, e, d, n - 1);
    }
  }

  lemma SamePrefix(s: Bits, t: Bits, e: nat, f: nat)
    requires Same(s, t, e) && f <= e
    ensures Same(s, t, f)
  {
    assert s[..f] == s[..e][..f] && t[..f] == t[..e][..f];
  }

  lemma {:induction false} RunsTrans(m: Mode, s: Bits, c: Config, d: Config, e: Config, n: nat, k: nat)
    requires WellFormed(c) && c.pos <= |s| && Runs(m, s, c, d, n) && WellFormed(d) && d.pos <= |s| && Runs(m, s, d, e, k)
    ensures Runs(m, s, c, e, n + k)
    decreases n
  {
    hide WellFormed, Step;
    if n > 0 { RunsTrans(m, s, Step(m, c, s).config, d, e, n - 1, k); }
  }

  /** Adding one step at the end of a run. */
  lemma RunsSnoc(m: Mode, s: Bits, c: Config, d: Config, n: nat)
    requires WellFormed(c) && c.pos <= |s| && Runs(m, s, c, d, n) && WellFormed(d) && d.pos <= |s| && Step(m, d, s).Next?
    ensures Runs(m, s, c, Step(m, d, s).config, n + 1)
    ensures WellFormed(Step(m, d, s).config) && d.pos <= Step(m, d, s).config.pos <= |s|
  {
    hide WellFormed, Step;
    StepAdvances(m, d, s);
    assert Runs(m, s, d, Step(m, d, s).config, 1);
    RunsTrans(m, s, c, d, Step(m, d, s).config, n, 1);
  }

  /** The machine is deterministic: two runs that can go no further end in the same configuration. */
  lemma {:induction false} RunsUnique(m: Mode, s: Bits, c: Config, d: Config, e: Config, n: nat, k: nat)
    requires WellFormed(c) && c.pos <= |s| && Runs(m, s, c, d, n) && Runs(m, s, c, e, k)
    requires WellFormed(d) && d.pos <= |s| && !Step(m, d, s).Next?
    requires WellFormed(e) && e.pos <= |s| && !Step(m, e, s).Next?
    ensures d == e && n == k
    decreases n
  {
    hide WellFormed, Step;
    if n > 0 && k > 0 { RunsUnique(m, s, Step(m, c, s).config, d, e, n - 1, k - 1); }
  }

  // ----- what the next step is, phase by phase

  /** The number of bits read at once in phases that read a plain field. */
  function FieldBits(c: Config): nat
    requires WellFormed(c)
  {
    match c.phase
    case ZlibCmf | ZlibFlg(_) | RawHeader(_) | Trailer(_, _) => 8
    case RawBody(left) => if left > 0 then 8 else 0
    case Header => 3
    case TableSizes(sizes) => SIZE_BITS[|sizes|]
    case SizeSizes(sizes, _, k) => if k < sizes[2] then 3 else 0
    case CodeSizeRun(_, _, _, sym) => RunExtra(sym)
    case LengthExtra(_, sym) => LengthBits(sym)
    case DistExtra(_, _, sym) => DistBits(sym)
    case _ => 0
  }

  lemma FieldStarved(m: Mode, c: Config, s: Bits)
    requires WellFormed(c) && c.pos <= |s| < c.pos + FieldBits(c)
    ensures Step(m, c, s).Starved?
  {
    hide Field, Buildable, Decode, LengthBits, DistBits, LengthBase, DistBase, FixedLit, FixedDist;
  }

  lemma HeaderNext(m: Mode, c: Config, s: Bits)
    requires WellFormed(c) && c.phase.Header? && c.pos + 3 <= |s| && |s| % 8 == 0
    ensures Field(s, c.pos, 3) < 8 && Step(m, c, s) == Next(AfterHeader(c, Field(s, c.pos, 3)))
  {
    hide FixedLit, FixedDist, Val;
    var v := HeaderField(s, c.pos);
  }

  lemma ByteNext(m: Mode, c: Config, s: Bits)
    requires WellFormed(c) && c.pos + 8 <= |s|
    ensures Field(s, c.pos, 8) < 256
    ensures c.phase.ZlibCmf? ==> Step(m, c, s) == Next(c.(phase := ZlibFlg(Field(s, c.pos, 8)), pos := c.pos + 8))
    ensures c.phase.ZlibFlg? ==> Step(m, c, s) == Next(c.(phase := if BadZlibHeader(m, c.phase.cmf, Field(s, c.pos, 8)) then Bad else Header, pos := c.pos + 8))
    ensures c.phase.RawHeader? ==> Step(m, c, s) == Next(AfterRawHeader(c.(pos := c.pos + 8), c.phase.head + [Field(s, c.pos, 8)]))
    ensures c.phase.RawBody? && c.phase.left > 0 ==> Step(m, c, s) == Next(c.(phase := RawByte(Field(s, c.pos, 8), c.phase.left), pos := c.pos + 8))
    ensures c.phase.Trailer? ==> Step(m, c, s) == Next(AfterTrailer(c.(pos := c.pos + 8), c.phase.k, c.phase.sum, Field(s, c.pos, 8)))
  {
    hide Val, BadZlibHeader, AfterRawHeader, AfterTrailer;
    var v := ByteAt(s, c.pos);
  }

  /** At the end of a block no bits are read, but the rest of the last byte is skipped. */
  lemma RawEnd(m: Mode, c: Config, s: Bits)
    requires WellFormed(c) && c.phase == RawBody(0) && AfterBlock(m, c).pos <= |s| && c.pos <= |s|
    ensures Step(m, c, s) == Next(AfterBlock(m, c))
  {
  }

  lemma RawByteNext(m: Mode, c: Config, s: Bits)
    requires WellFormed(c) && c.phase.RawByte? && c.pos <= |s|
    ensures Step(m, c, s) == Next(c.(phase := RawBody(c.phase.left - 1), out := c.out + [c.phase.byte]))
  {
  }

  lemma TableSizesNext(m: Mode, c: Config, s: Bits)
    requires WellFormed(c) && c.phase.TableSizes? && c.pos + SIZE_BITS[|c.phase.sizes|] <= |s|
    ensures var k := |c.phase.sizes|;
            Step(m, c, s) == Next(AfterTableSizes(c.(pos := c.pos + SIZE_BITS[k]), c.phase.sizes + [Field(s, c.pos, SIZE_BITS[k]) + SIZE_MIN[k]]))
  {
    hide Field, Rep, AfterTableSizes;
  }

  lemma SizeSizesEnd(m: Mode, c: Config, s: Bits)
    requires WellFormed(c) && c.phase.SizeSizes? && c.phase.k == c.phase.sizes[2] && c.pos <= |s|
    ensures Step(m, c, s) == Next(c.(phase := if Buildable(c.phase.lens2) then CodeSizes(c.phase.sizes, c.phase.lens2, []) else Bad))
  {
    hide Field, Buildable;
  }

  lemma SizeSizesNext(m: Mode, c: Config, s: Bits)
    requires WellFormed(c) && c.phase.SizeSizes? && c.phase.k < c.phase.sizes[2] && c.pos + 3 <= |s|
    ensures Field(s, c.pos, 3) < 8
    ensures Step(m, c, s) == Next(c.(phase := SizeSizes(c.phase.sizes, c.phase.lens2[ZIGZAG[c.phase.k] := Field(s, c.pos, 3)], c.phase.k + 1), pos := c.pos + 3))
  {
    hide Buildable, Val;
    var v := HeaderField(s, c.pos);
  }

  lemma CodeSizesEnd(m: Mode, c: Config, s: Bits)
    requires WellFormed(c) && c.phase.CodeSizes? && |c.phase.acc| >= c.phase.sizes[0] + c.phase.sizes[1] && c.pos <= |s|
    ensures Step(m, c, s) == Next(AfterCodeSizes(c, c.phase.sizes, c.phase.acc))
  {
    hide AfterCodeSizes, Buildable, Decode;
  }

  lemma RunNext(m: Mode, c: Config, s: Bits)
    requires WellFormed(c) && c.phase.CodeSizeRun? && c.pos + RunExtra(c.phase.sym) <= |s|
    ensures Step(m, c, s) == Next(c.(phase := CodeSizes(c.phase.sizes, c.phase.lens2, c.phase.acc + RunOf(c.phase.acc, c.phase.sym, Field(s, c.pos, RunExtra(c.phase.sym)))), pos := c.pos + RunExtra(c.phase.sym)))
  {
    hide Field, Buildable, Decode, RunOf;
  }

  /** The code that the next symbol is read with, in phases that read one. */
  predicate Wants(c: Config, lens: seq<nat>)
    requires WellFormed(c)
  {
    match c.phase
    case CodeSizes(sizes, lens2, acc) => |acc| < sizes[0] + sizes[1] && lens == lens2
    case Symbol(codes) => lens == codes.lit
    case DistSymbol(codes, _) => lens == codes.dist
    case _ => false
  }

  /** What follows once symbol `sym` has been read. */
  function AfterAny(m: Mode, c: Config, sym: nat): Outcome
    requires WellFormed(c) && (c.phase.CodeSizes? || c.phase.Symbol? || c.phase.DistSymbol?)
  {
    match c.phase
    case CodeSizes(sizes, lens2, acc) => Next(AfterSizeSymbol(c, sizes, lens2, acc, sym))
    case Symbol(codes) => AfterSymbol(m, c, codes, sym)
    case DistSymbol(codes, len) => Next(c.(phase := DistExtra(codes, len, sym)))
  }

  lemma SymbolNext(m: Mode, c: Config, s: Bits, lens: seq<nat>)
    requires WellFormed(c) && Wants(c, lens) && c.pos <= |s| && |s| % 8 == 0
    ensures match Decode(lens, s[c.pos..])
            case Sym(sym) => sym < |lens| && c.pos + lens[sym] <= |s| && Step(m, c, s) == AfterAny(m, c.(pos := c.pos + lens[sym]), sym)
            case Short => Step(m, c, s).Starved?
            case NoCode => Step(m, c, s).Lost?
  {
    hide Decode, Buildable, AfterSizeSymbol, Starts, CodeBits, Partial;
    DecodeInside(lens, s, c.pos);
  }

  lemma LiteralNext(m: Mode, c: Config, s: Bits)
    requires WellFormed(c) && c.phase.Literal? && c.pos <= |s|
    ensures Step(m, c, s) == Next(c.(phase := Symbol(c.phase.codes), out := c.out + [c.phase.byte]))
  {
  }

  lemma LengthNext(m: Mode, c: Config, s: Bits)
    requires WellFormed(c) && c.phase.LengthExtra? && c.pos + LengthBits(c.phase.sym) <= |s|
    ensures var n := LengthBits(c.phase.sym);
            Step(m, c, s) == Next(c.(phase := DistSymbol(c.phase.codes, LengthBase(c.phase.sym) + Field(s, c.pos, n)), pos := c.pos + n))
  {
    hide Field, Buildable, Decode, LengthBits, LengthBase;
  }

  lemma DistNext(m: Mode, c: Config, s: Bits)
    requires WellFormed(c) && c.phase.DistExtra? && c.pos + DistBits(c.phase.sym) <= |s|
    ensures var n := DistBits(c.phase.sym);
            Step(m, c, s) == AfterDistance(m, c.(pos := c.pos + n), c.phase.codes, c.phase.len, DistBase(c.phase.sym) + Field(s, c.pos, n))
  {
    hide Field, Buildable, Decode, DistBits, DistBase, AfterDistance;
  }

  lemma CopyByteNext(m: Mode, c: Config, s: Bits)
    requires WellFormed(c) && c.phase.Copy? && c.pos <= |s|
    ensures Step(m, c, s) == Next(if c.phase.len == 0 then c.(phase := Symbol(c.phase.codes))
                                  else c.(phase := Copy(c.phase.codes, c.phase.len - 1, c.phase.dist), out := c.out + [c.out[|c.out| - c.phase.dist]]))
  {
  }

  // ----- streams whose meaning the format leaves open

  /** `n` steps from the start lead to `c`. */
  ghost predicate Reaches(m: Mode, s: Bits, c: Config, n: nat) {
    StartOk(m);
    WellFormed(c) && c.pos <= |s| && Runs(m, s, Start(m), c, n)
  }

  /** The machine gets lost on the stream. */
  ghost predicate Strays(m: Mode, s: Bits) {
    exists c, n :: StraysAt(m, s, c, n)
  }

  ghost predicate StraysAt(m: Mode, s: Bits, c: Config, n: nat) {
    Reaches(m, s, c, n) && Step(m, c, s).Lost?
  }

  lemma ReachesLonger(m: Mode, s: Bits, t: Bits, c: Config, n: nat)
    requires s <= t && Reaches(m, s, c, n)
    ensures Reaches(m, t, c, n)
  {
    hide Runs, WellFormed, Start;
    StartOk(m);
    SameBelow(s, t, c.pos);
    RunsLocal(m, s, t, Start(m), c, n);
  }

  lemma SameBelow(s: Bits, t: Bits, e: nat)
    requires s <= t && e <= |s|
    ensures Same(s, t, e) && Same(t, s, e)
  {
    assert t[..e] == t[..|s|][..e];
  }

  /** Bits that are part of no code, and start with none, stay so whatever follows. */
  lemma NoCodeLonger(lens: seq<nat>, a: Bits, b: Bits)
    requires a <= b && Decode(lens, a).NoCode?
    ensures Decode(lens, b).NoCode?
  {
    forall t: nat | Used(lens, t) ensures !(CodeBits(lens, t) <= b) && !(b < CodeBits(lens, t)) {
      assert !Starts(lens, t, a);
      Comparable(CodeBits(lens, t), a, b);
    }
  }

  lemma Comparable(c: Bits, a: Bits, b: Bits)
    requires a <= b
    ensures c <= b || b < c ==> c <= a || a < c
  {
  }

  lemma LostLonger(m: Mode, c: Config, s: Bits, t: Bits)
    requires WellFormed(c) && c.pos <= |s| && s <= t && Step(m, c, s).Lost?
    ensures Step(m, c, t).Lost?
  {
    hide Field, Buildable, Decode, Starts, LengthBase, LengthBits, DistBase, DistBits, Val;
    assert s[c.pos..] <= t[c.pos..];
    match c.phase
    case CodeSizes(sizes, lens2, acc) =>
      DecodeLonger(lens2, s, t, c.pos);
    case Symbol(codes) =>
      DecodeLonger(codes.lit, s, t, c.pos);
    case DistSymbol(codes, len) =>
      DecodeLonger(codes.dist, s, t, c.pos);
    case DistExtra(_, _, sym) =>
      SameBelow(s, t, c.pos + DistBits(sym));
      FieldLocal(s, t, c.pos + DistBits(sym), c.pos, DistBits(sym));
    case _ =>
  }

  lemma DecodeLonger(lens: seq<nat>, s: Bits, t: Bits, pos: nat)
    requires pos <= |s| && s <= t && Buildable(lens)
    ensures !Decode(lens, s[pos..]).Short? ==> Decode(lens, t[pos..]) == Decode(lens, s[pos..])
  {
    hide Decode, Starts, Partial, Buildable;
    assert s[pos..] <= t[pos..];
    match Decode(lens, s[pos..])
    case Sym(sym) =>
      DecodeInside(lens, s, pos);
      SameBelow(s, t, pos + lens[sym]);
      DecodeLocal(lens, s, t, pos + lens[sym], pos);
    case NoCode => NoCodeLonger(lens, s[pos..], t[pos..]);
    case Short =>
  }

  lemma StraysLonger(m: Mode, s: Bits, t: Bits)
    requires s <= t && Strays(m, s)
    ensures Strays(m, t)
  {
    hide Step, Reaches;
    var c, n :| StraysAt(m, s, c, n);
    ReachesLonger(m, s, t, c, n);
    StraysStep(m, s, t, c, n);
    assert StraysAt(m, t, c, n);
  }

  lemma StraysStep(m: Mode, s: Bits, t: Bits, c: Config, n: nat)
    requires s <= t && StraysAt(m, s, c, n)
    ensures Step(m, c, t).Lost?
  {
    hide Step, Runs, WellFormed;
    LostLonger(m, c, s, t);
  }

  /** Streams on which the machine comes to its end do not lead it astray. */
  lemma EndedNotLost(m: Mode, s: Bits, d: Config, n: nat)
    requires Reaches(m, s, d, n) && !Step(m, d, s).Next? && !Step(m, d, s).Lost?
    ensures !Strays(m, s)
  {
    hide Step, Runs, WellFormed, Start;
    StartOk(m);
    forall c, k | Reaches(m, s, c, k) && Step(m, c, s).Lost? ensures false {
      RunsUnique(m, s, Start(m), c, d, k, n);
    }
  }
}
