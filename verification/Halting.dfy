/** The reference machine does not go on for ever: on every finite stream it stops, at a place and with an output that bound all
    it has done before. */
module Halting {
  import opened Bits
  import opened Canonical
  import opened Format

  // ----- every step brings the stop nearer

  /** How long a machine can go on in this phase without reading. */
  function Rank(p: Phase): (r: nat)
  {
    match p
    case RawByte(_, _) => 2
    case RawBody(_) => 1
    case SizeSizes(_, _, _) => 2
    case CodeSizes(_, _, _) => 1
    case Literal(_, _) => 1
    case LengthExtra(_, _) => 1
    case DistExtra(_, _, _) => 260
    case Copy(_, len, _) => 1 + len
    case _ => 0
  }

  function Left(c: Config, s: Bits): (n: nat)
    requires WellFormed(c) && c.pos <= |s|
  {
    1000 * (|s| - c.pos) + Rank(c.phase)
  }

  lemma RankSmall(c: Config)
    requires WellFormed(c)
    ensures Rank(c.phase) <= 260
  {
    hide CodesOk, SizesOk, Sized, Buildable;
  }

  /** A step reads something, or lowers the rank. */
  ghost predicate Nearer(c: Config, o: Outcome) {
    o.Next? ==> c.pos < o.config.pos || (c.pos == o.config.pos && Rank(o.config.phase) < Rank(c.phase))
  }

  lemma FrameNearer(m: Mode, c: Config, s: Bits)
    requires WellFormed(c) && c.pos <= |s| && (c.phase.ZlibCmf? || c.phase.ZlibFlg? || c.phase.Trailer?)
    ensures Nearer(c, StepFrame(m, c, s))
  {
    hide Pow2, Val, BadZlibHeader;
  }

  lemma HeaderNearer(c: Config, s: Bits)
    requires c.pos <= |s|
    ensures Nearer(c, StepHeader(c, s))
  {
    hide Pow2, Val, FixedLit, FixedDist, HeaderField;
  }

  lemma RawNearer(m: Mode, c: Config, s: Bits)
    requires WellFormed(c) && c.pos <= |s| && (c.phase.RawHeader? || c.phase.RawBody? || c.phase.RawByte?)
    ensures Nearer(c, StepRaw(m, c, s))
  {
    hide Pow2, Val, Buildable, Rep;
  }

  /** A code has at least one bit. */
  lemma DecodeReads(lens: seq<nat>, bits: Bits)
    ensures Decode(lens, bits).Sym? ==> Decode(lens, bits).sym < |lens| && lens[Decode(lens, bits).sym] > 0
  {
    hide Decode, CodeBits;
    assert Decode(lens, bits).Sym? ==> Starts(lens, Decode(lens, bits).sym, bits);
  }

  lemma TablesNearer(c: Config, s: Bits)
    requires WellFormed(c) && c.pos <= |s| && (c.phase.TableSizes? || c.phase.SizeSizes? || c.phase.CodeSizes? || c.phase.CodeSizeRun?)
    ensures Nearer(c, StepTables(c, s))
  {
    hide Pow2, Val, Buildable, CodeBits, Partial, Decode, Starts;
    SmallPowers();
    if c.phase.CodeSizes? { DecodeReads(c.phase.lens2, s[c.pos..]); }
  }

  lemma CodesNearer(m: Mode, c: Config, s: Bits)
    requires WellFormed(c) && c.pos <= |s|
    requires c.phase.Symbol? || c.phase.Literal? || c.phase.LengthExtra? || c.phase.DistSymbol? || c.phase.DistExtra? || c.phase.Copy?
    ensures Nearer(c, StepCodes(m, c, s))
  {
    hide Pow2, Val, Buildable, CodeBits, Partial, Decode, Starts, LengthBase, LengthBits, DistBase, DistBits, CodesOk;
    match c.phase
    case Symbol(codes) => DecodeReads(codes.lit, s[c.pos..]);
    case DistSymbol(codes, _) => DecodeReads(codes.dist, s[c.pos..]);
    case _ =>
  }

  lemma StepNearer(m: Mode, c: Config, s: Bits)
    requires WellFormed(c) && c.pos <= |s|
    ensures Nearer(c, Step(m, c, s))
  {
    hide Nearer, WellFormed, StepFrame, StepHeader, StepRaw, StepTables, StepCodes;
    match c.phase
    case ZlibCmf | ZlibFlg(_) | Trailer(_, _) => FrameNearer(m, c, s);
    case Header => HeaderNearer(c, s);
    case RawHeader(_) | RawBody(_) | RawByte(_, _) => RawNearer(m, c, s);
    case TableSizes(_) | SizeSizes(_, _, _) | CodeSizes(_, _, _) | CodeSizeRun(_, _, _, _) => TablesNearer(c, s);
    case Symbol(_) | Literal(_, _) | LengthExtra(_, _) | DistSymbol(_, _) | DistExtra(_, _, _) | Copy(_, _, _) => CodesNearer(m, c, s);
    case Done(_) | Bad => HaltNearer(c);
  }

  lemma HaltNearer(c: Config)
    ensures Nearer(c, Halted)
  {
  }

  lemma LeftFalls(m: Mode, c: Config, s: Bits)
    requires WellFormed(c) && c.pos <= |s| && Step(m, c, s).Next?
    ensures var d := Step(m, c, s).config; WellFormed(d) && d.pos <= |s| && Left(d, s) < Left(c, s)
  {
    hide Step, WellFormed, Rank;
    StepAdvances(m, c, s);
    StepNearer(m, c, s);
    RankSmall(Step(m, c, s).config);
  }

  lemma {:induction false} RunEnds(m: Mode, c: Config, s: Bits) returns (d: Config, n: nat)
    requires WellFormed(c) && c.pos <= |s|
    ensures Runs(m, s, c, d, n) && WellFormed(d) && d.pos <= |s| && !Step(m, d, s).Next?
    decreases Left(c, s)
  {
    hide Step, WellFormed;
    if Step(m, c, s).Next? {
      LeftFalls(m, c, s);
      d, n := RunEnds(m, Step(m, c, s).config, s);
      n := n + 1;
    } else {
      d, n := c, 0;
    }
  }

  /** The machine stops at `d` on the stream, where the stream ends, is broken, or leaves the format. */
  ghost predicate EndsAt(m: Mode, s: Bits, d: Config, n: nat) {
    Reaches(m, s, d, n) && !Step(m, d, s).Next?
  }

  /** On every stream the machine stops. */
  lemma Ends(m: Mode, s: Bits) returns (d: Config, n: nat)
    ensures EndsAt(m, s, d, n)
  {
    hide Runs, Step, WellFormed, Start;
    StartOk(m);
    d, n := RunEnds(m, Start(m), s);
  }

  // ----- what a run has written is part of what it will have written

  lemma {:induction false} RunsWithin(m: Mode, s: Bits, c: Config, e: Config, d: Config, k: nat, n: nat)
    requires WellFormed(c) && c.pos <= |s| && Runs(m, s, c, e, k) && Runs(m, s, c, d, n)
    requires WellFormed(d) && d.pos <= |s| && !Step(m, d, s).Next?
    ensures e.out <= d.out && e.pos <= d.pos && k <= n
    decreases k
  {
    hide Step, WellFormed;
    if k == 0 {
      RunsAdvance(m, s, c, d, n);
    } else {
      StepAdvances(m, c, s);
      RunsWithin(m, s, Step(m, c, s).config, e, d, k - 1, n - 1);
    }
  }

  /** Whatever the machine reaches lies before its stop. */
  lemma BeforeEnd(m: Mode, s: Bits, e: Config, k: nat, d: Config, n: nat)
    requires Reaches(m, s, e, k) && EndsAt(m, s, d, n)
    ensures e.out <= d.out && e.pos <= d.pos && k <= n
  {
    hide Runs, Step, WellFormed, Start;
    StartOk(m);
    RunsWithin(m, s, Start(m), e, d, k, n);
  }

  lemma OneEnd(m: Mode, s: Bits, e: Config, k: nat, d: Config, n: nat)
    requires EndsAt(m, s, e, k) && EndsAt(m, s, d, n)
    ensures d == e && n == k
  {
    hide Runs, Step, WellFormed, Start;
    StartOk(m);
    RunsUnique(m, s, Start(m), d, e, n, k);
  }
}
