/** What it means to write bits for the reference machine: after the bits so far it stands at their end, and the next ones lead
    it on to theirs. */
module Writing {
  import opened Bits
  import opened Canonical
  import opened Format

  /** The machine, given just these bits, comes to stand at `c`, at their end. */
  ghost predicate Stands(m: Mode, s: Bits, c: Config) {
    exists n: nat :: Reaches(m, s, c, n) && c.pos == |s|
  }

  lemma StandsStart(m: Mode)
    ensures Stands(m, [], Start(m))
  {
    StartOk(m);
    assert Reaches(m, [], Start(m), 0);
  }

  lemma StandsOk(m: Mode, s: Bits, c: Config)
    requires Stands(m, s, c)
    ensures WellFormed(c) && c.pos == |s|
  {
  }

  /** Writing the bits of one step. */
  lemma StandStep(m: Mode, s: Bits, b: Bits, c: Config, d: Config)
    requires Stands(m, s, c) && WellFormed(c) && c.pos <= |s + b| && Step(m, c, s + b) == Next(d) && d.pos == |s| + |b|
    ensures Stands(m, s + b, d)
  {
    hide Step, WellFormed, Runs, Start;
    var n: nat :| Reaches(m, s, c, n) && c.pos == |s|;
    ReachesLonger(m, s, s + b, c, n);
    StartOk(m);
    RunsSnoc(m, s + b, Start(m), c, n);
    assert Reaches(m, s + b, d, n + 1);
  }

  /** A step that reads nothing. */
  lemma StandStill(m: Mode, s: Bits, c: Config, d: Config)
    requires Stands(m, s, c) && WellFormed(c) && c.pos <= |s| && Step(m, c, s) == Next(d) && d.pos == c.pos
    ensures Stands(m, s, d)
  {
    hide Step, WellFormed, Reaches;
    assert s + [] == s;
    StandsOk(m, s, c);
    StandStep(m, s, [], c, d);
  }

  lemma FieldWritten(s: Bits, v: nat, n: nat)
    requires v < Pow2(n)
    ensures Field(s + Lsb(v, n), |s|, n) == v
  {
    assert (s + Lsb(v, n))[|s|..|s| + n] == Lsb(v, n);
    ValLsb(v, n);
    LowBound(v, n);
  }

  lemma DecodeWritten(s: Bits, lens: seq<nat>, sym: nat)
    requires Buildable(lens) && Used(lens, sym)
    ensures Decode(lens, (s + CodeBits(lens, sym))[|s|..]) == Sym(sym)
  {
    hide CodeBits, Buildable, Decode;
    assert (s + CodeBits(lens, sym))[|s|..] == CodeBits(lens, sym);
    DecodeIs(lens, CodeBits(lens, sym), sym);
  }

  /** Writing a symbol, unless it ends the block. */
  lemma StandSymbol(m: Mode, s: Bits, c: Config, lens: seq<nat>, sym: nat, d: Config)
    requires Stands(m, s, c) && WellFormed(c) && Wants(c, lens) && Buildable(lens) && Used(lens, sym) && !(c.phase.Symbol? && sym == 256)
    requires AfterAny(m, c.(pos := c.pos + lens[sym]), sym) == Next(d)
    ensures Stands(m, s + CodeBits(lens, sym), d)
  {
    hide CodeBits, Buildable, Decode, Reaches;
    StandsOk(m, s, c);
    DecodeWritten(s, lens, sym);
    var t := s + CodeBits(lens, sym);
    SymbolStep(m, c, t, lens, sym);
    StandStep(m, s, CodeBits(lens, sym), c, d);
  }

  lemma SymbolStep(m: Mode, c: Config, t: Bits, lens: seq<nat>, sym: nat)
    requires WellFormed(c) && Wants(c, lens) && c.pos <= |t| && sym < |lens| && c.pos + lens[sym] <= |t| && !(c.phase.Symbol? && sym == 256)
    requires Decode(lens, t[c.pos..]) == Sym(sym)
    ensures Step(m, c, t) == AfterAny(m, c.(pos := c.pos + lens[sym]), sym)
  {
    hide Buildable, Decode, AfterSizeSymbol;
  }

  // ----- fields

  lemma StandLength(m: Mode, s: Bits, c: Config, v: nat)
    requires Stands(m, s, c) && c.phase.LengthExtra? && 257 <= c.phase.sym <= 287 && v < Pow2(LengthBits(c.phase.sym))
    ensures Stands(m, s + Lsb(v, LengthBits(c.phase.sym)), c.(phase := DistSymbol(c.phase.codes, LengthBase(c.phase.sym) + v), pos := c.pos + LengthBits(c.phase.sym)))
  {
    hide Step, LengthBits, LengthBase, Lsb, Field, Pow2, Reaches;
    StandsOk(m, s, c);
    var n := LengthBits(c.phase.sym);
    FieldWritten(s, v, n);
    LengthNext(m, c, s + Lsb(v, n));
    StandStep(m, s, Lsb(v, n), c, c.(phase := DistSymbol(c.phase.codes, LengthBase(c.phase.sym) + v), pos := c.pos + n));
  }

  lemma StandDist(m: Mode, s: Bits, c: Config, v: nat, d: Config)
    requires Stands(m, s, c) && c.phase.DistExtra? && c.phase.sym < 32 && v < Pow2(DistBits(c.phase.sym))
    requires AfterDistance(m, c.(pos := c.pos + DistBits(c.phase.sym)), c.phase.codes, c.phase.len, DistBase(c.phase.sym) + v) == Next(d)
    ensures Stands(m, s + Lsb(v, DistBits(c.phase.sym)), d)
  {
    hide Step, DistBits, DistBase, Lsb, Field, Pow2, Reaches;
    StandsOk(m, s, c);
    var n := DistBits(c.phase.sym);
    FieldWritten(s, v, n);
    DistNext(m, c, s + Lsb(v, n));
    StandStep(m, s, Lsb(v, n), c, d);
  }

  lemma StandLiteral(m: Mode, s: Bits, c: Config)
    requires Stands(m, s, c) && c.phase.Literal?
    ensures Stands(m, s, c.(phase := Symbol(c.phase.codes), out := c.out + [c.phase.byte]))
  {
    hide Step, Reaches;
    StandsOk(m, s, c);
    LiteralNext(m, c, s);
    StandStill(m, s, c, c.(phase := Symbol(c.phase.codes), out := c.out + [c.phase.byte]));
  }

  /** A whole match is copied without reading. */
  lemma {:induction false} StandCopy(m: Mode, s: Bits, c: Config)
    requires Stands(m, s, c) && c.phase.Copy? && 1 <= c.phase.dist <= |c.out|
    ensures Stands(m, s, c.(phase := Symbol(c.phase.codes), out := CopyMatch(c.out, c.phase.len, c.phase.dist)))
    decreases c.phase.len
  {
    hide Step, Reaches;
    StandsOk(m, s, c);
    CopyByteNext(m, c, s);
    if c.phase.len == 0 {
      StandStill(m, s, c, c.(phase := Symbol(c.phase.codes)));
    } else {
      var d := c.(phase := Copy(c.phase.codes, c.phase.len - 1, c.phase.dist), out := c.out + [c.out[|c.out| - c.phase.dist]]);
      StandStill(m, s, c, d);
      StandCopy(m, s, d);
    }
  }
}
