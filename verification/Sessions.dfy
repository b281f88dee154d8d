/** Sequences of calls of the inflater: however input and output are cut into calls, the result is that of the reference machine. */
module Sessions {
  import opened Bits
  import opened Canonical
  import opened Format
  import opened Halting
  import opened Adler
  import opened Inflater

  const LZ_DICT_SIZE := 32768

  /** The calls so far were given pieces of the stream `s`, in order. */
  ghost predicate Fed(z: Inflater, s: seq<u8>)
    reads z, z.input, z.output, z.output.buf, z.t0, z.t1, z.t2, z.t0.lookUp, z.t0.tree, z.t1.lookUp, z.t1.tree, z.t2.lookUp, z.t2.tree
  {
    z.Resting() && z.input.fed <= s && (z.lost ==> LeadsAstray(z.mode, s))
  }

  /** No further call changes anything: the stream is at its end, is broken, or has been used up. */
  ghost predicate Finished(z: Inflater, s: seq<u8>)
    reads z, z.input
  {
    || z.place.AtDone? || z.place.AtFailed?
    || (z.input.fed == s && (!z.lost ==> WellFormed(z.cfg) && z.cfg.pos <= 8 * |s| && Step(z.mode, z.cfg, OfBytes(s)).Starved?))
  }

  /** One more call, with any piece of what is left of the stream and any amount of room. */
  method Call(z: Inflater, s: seq<u8>, from: nat, to: nat, outNext: nat, outSize: nat, hasMoreInput: bool) returns (status: Status, inUsed: nat, outUsed: nat)
    requires Fed(z, s) && from == |z.input.fed| && from <= to <= |s| && z.NextWindow(outNext, outSize)
    modifies z, z.input, z.output, z.output.buf, z.t0, z.t1, z.t2, z.t0.lookUp, z.t0.tree, z.t1.lookUp, z.t1.tree, z.t2.lookUp, z.t2.tree
    ensures Fed(z, s) && z.Reported(status, hasMoreInput)
    ensures inUsed <= to - from && |z.input.fed| == from + inUsed
    ensures outUsed <= outSize && outNext + outUsed <= z.output.buf.Length
    ensures z.output.out == old(z.output.out) + z.output.buf[outNext..outNext + outUsed] && (!status.BadParam? ==> z.output.cur == outNext + outUsed)
    ensures status.HasMoreOutput? ==> outUsed == outSize
    ensures to == |s| && !status.HasMoreOutput? && !status.BadParam? ==> Finished(z, s)
    ensures z.counted == old(z.counted) + (if status.Failed? || status.CannotMakeProgress? then [] else z.output.buf[outNext..outNext + outUsed])
  {
    hide Inflater.Resting, LeadsAstray, OfBytes, Step;
    assert z.input.fed == s[..from] && s[..to] == s[..from] + s[from..to];
    status, inUsed, outUsed := z.Decompress(s[from..to], outNext, outSize, hasMoreInput);
    AstrayLonger(z.mode, s[..to], s);
    assert s[from..to][..inUsed] == s[from..from + inUsed];
    if to == |s| && !status.HasMoreOutput? && !status.BadParam? { NowFinished(z, s, status, hasMoreInput); }
  }

  lemma NowFinished(z: Inflater, s: seq<u8>, status: Status, hasMoreInput: bool)
    requires z.Reported(status, hasMoreInput) && !status.HasMoreOutput? && !status.BadParam?
    requires status.NeedsMoreInput? || status.CannotMakeProgress? ==> z.input.fed == s
    ensures Finished(z, s)
  {
    hide OfBytes, Step, WellFormed;
  }

  lemma AstrayLonger(m: Mode, s: seq<u8>, t: seq<u8>)
    requires s <= t
    ensures LeadsAstray(m, s) ==> LeadsAstray(m, t)
  {
    hide OfBytes, Strays;
    if LeadsAstray(m, s) {
      OfBytesLonger(s, t);
      StraysLonger(m, OfBytes(s), OfBytes(t));
    }
  }

  lemma OfBytesLonger(s: seq<u8>, t: seq<u8>)
    requires s <= t
    ensures OfBytes(s) <= OfBytes(t)
  {
    OfBytesPrefix(t, |s|);
    assert t[..|s|] == s;
  }

  /** Where the inflater's side of the reference machine stands is where the machine comes to by itself. */
  lemma Standing(z: Inflater, s: seq<u8>)
    requires Fed(z, s) && !LeadsAstray(z.mode, s)
    ensures !z.lost && Reaches(z.mode, OfBytes(s), z.cfg, z.steps) && z.cfg.out == z.output.out
    ensures 8 * |z.input.fed| - z.cfg.pos < 8 || Step(z.mode, z.cfg, OfBytes(z.input.fed)).Starved?
  {
    hide OfBytes, Reaches, LeadsAstray, Step;
    OfBytesLonger(z.input.fed, s);
    ReachesLonger(z.mode, OfBytes(z.input.fed), OfBytes(s), z.cfg, z.steps);
  }

  /** A finished inflater has stopped where the reference machine stops, and has the machine's output. */
  lemma Conforms(z: Inflater, s: seq<u8>, d: Config, n: nat)
    requires Fed(z, s) && Finished(z, s) && !LeadsAstray(z.mode, s)
    requires Reaches(z.mode, OfBytes(s), d, n) && !Step(z.mode, d, OfBytes(s)).Next?
    ensures z.cfg == d && z.output.out == d.out
    ensures if d.phase.Done? then z.place.AtDone? && 8 * |z.input.fed| == d.pos
            else if d.phase.Bad? then z.place.AtFailed? && 0 <= 8 * |z.input.fed| - d.pos < 8
            else z.input.fed == s
  {
    hide OfBytes, Runs, LeadsAstray, Step, WellFormed, Start, Inflater.Resting;
    Standing(z, s);
    StartOk(z.mode);
    Stops(z, s);
    RunsUnique(z.mode, OfBytes(s), Start(z.mode), z.cfg, d, z.steps, n);
    Places(z, s);
  }

  lemma Stops(z: Inflater, s: seq<u8>)
    requires Fed(z, s) && Finished(z, s) && !z.lost && Reaches(z.mode, OfBytes(s), z.cfg, z.steps)
    ensures !Step(z.mode, z.cfg, OfBytes(s)).Next?
  {
    hide OfBytes, Reaches, LeadsAstray, Step, Inflater.Resting;
    OnePlace(z);
    Reached(z.mode, OfBytes(s), z.cfg, z.steps);
  }

  lemma Reached(m: Mode, s: Bits, c: Config, n: nat)
    requires Reaches(m, s, c, n)
    ensures WellFormed(c) && c.pos <= |s| && (c.phase.Done? || c.phase.Bad? ==> Step(m, c, s) == Halted)
  {
  }

  lemma Places(z: Inflater, s: seq<u8>)
    requires Fed(z, s) && Finished(z, s) && !z.lost
    ensures if z.cfg.phase.Done? then z.place.AtDone? && 8 * |z.input.fed| == z.cfg.pos
            else if z.cfg.phase.Bad? then z.place.AtFailed? && 0 <= 8 * |z.input.fed| - z.cfg.pos < 8
            else z.input.fed == s
  {
    hide OfBytes, Runs, LeadsAstray;
  }

  /** Resumability: two inflaters that went through the same stream, each with its own cuts of input and output, end with
      the same output, the same verdict and the same number of bytes used. */
  lemma Resumable(a: Inflater, b: Inflater, s: seq<u8>)
    requires a.mode == b.mode && !LeadsAstray(a.mode, s)
    requires Fed(a, s) && Finished(a, s) && Fed(b, s) && Finished(b, s)
    ensures a.output.out == b.output.out && |a.input.fed| == |b.input.fed| && a.cfg == b.cfg
    ensures (a.place.AtDone? <==> b.place.AtDone?) && (a.place.AtFailed? <==> b.place.AtFailed?)
    ensures a.counted == a.output.out && b.counted == b.output.out && a.Sums() && b.Sums() ==> a.checkAdler == b.checkAdler
  {
    hide OfBytes, Reaches, LeadsAstray, Step, Adler32, Finished;
    Standing(a, s);
    Stops(a, s);
    Conforms(a, s, a.cfg, a.steps);
    Conforms(b, s, a.cfg, a.steps);
    OnePlace(a);
    OnePlace(b);
  }

  lemma OnePlace(z: Inflater)
    requires z.Resting() && !z.lost
    ensures z.place.AtDone? ==> z.cfg.phase.Done?
    ensures z.place.AtFailed? ==> z.cfg.phase.Bad?
  {
    hide OfBytes, Reaches, Inflater.Core;
  }

  // ----- after the end

  /** A machine that is about to write has not written all. */
  lemma WritesMore(m: Mode, s: Bits, c: Config, k: nat, d: Config, n: nat)
    requires Reaches(m, s, c, k) && EndsAt(m, s, d, n) && d.phase.Done? && Writes(c.phase)
    ensures |c.out| < |d.out|
  {
    hide Reaches, Step, WellFormed;
    var c1, n1 := OneMore(m, s, c, k, d, n);
    if c.phase.RawBody? {
      var c2, n2 := OneMore(m, s, c1, n1, d, n);
      BeforeEnd(m, s, c2, n2, d, n);
    } else {
      BeforeEnd(m, s, c1, n1, d, n);
    }
  }

  lemma OneMore(m: Mode, s: Bits, c: Config, k: nat, d: Config, n: nat) returns (c1: Config, n1: nat)
    requires Reaches(m, s, c, k) && EndsAt(m, s, d, n) && d.phase.Done? && !c.phase.Done?
    ensures Reaches(m, s, c1, n1) && WellFormed(c) && c.pos <= |s| && Step(m, c, s) == Next(c1) && c.out <= c1.out
    ensures c.phase.Literal? || c.phase.RawByte? || (c.phase.Copy? && c.phase.len > 0) ==> |c1.out| == |c.out| + 1
    ensures c.phase.RawBody? && c.phase.left > 0 ==> c1.phase.RawByte?
  {
    hide Runs, Start, Step;
    StartOk(m);
    if !Step(m, c, s).Next? { OneEnd(m, s, c, k, d, n); }
    c1, n1 := Step(m, c, s).config, k + 1;
    RunsSnoc(m, s, Start(m), c, k);
    StepAdvances(m, c, s);
    StepWrites(m, c, s);
  }

  lemma StepWrites(m: Mode, c: Config, s: Bits)
    requires WellFormed(c) && c.pos <= |s| && Step(m, c, s).Next?
    ensures c.phase.Literal? || c.phase.RawByte? || (c.phase.Copy? && c.phase.len > 0) ==> |Step(m, c, s).config.out| == |c.out| + 1
    ensures c.phase.RawBody? && c.phase.left > 0 ==> Step(m, c, s).config.phase.RawByte?
  {
    hide Buildable, Decode, Val, Pow2;
  }

  /** Once the end of a stream has been read, every further call takes nothing, writes nothing and says the same again: also that the
      checksum does not match. */
  method CallAfterEnd(z: Inflater, s: seq<u8>, from: nat, outNext: nat, outSize: nat, hasMoreInput: bool) returns (status: Status, inUsed: nat, outUsed: nat)
    requires z.Resting() && !z.lost && z.place.AtDone? && from <= |s| && z.input.fed == s[..from] && z.NextWindow(outNext, outSize) && (z.mode.wrapping ==> PowerOfTwo(z.mode.ring))
    modifies z, z.input, z.output, z.output.buf, z.t0, z.t1, z.t2, z.t0.lookUp, z.t0.tree, z.t1.lookUp, z.t1.tree, z.t2.lookUp, z.t2.tree
    ensures z.Resting() && !z.lost && z.place.AtDone? && z.cfg == old(z.cfg) && inUsed == outUsed == 0
    ensures z.output.out == old(z.output.out) && z.counted == old(z.counted) && z.input.fed == old(z.input.fed)
    ensures z.cfg.phase.Done? && status == if z.mode.zlib && Adler32(1, z.counted) != z.cfg.phase.sum then Adler32Mismatch else Status.Done
  {
    hide Inflater.Resting, LeadsAstray, OfBytes, Step, Fed, PowerOfTwo, Reaches, Adler32;
    ghost var d, n := z.cfg, z.steps;
    assert z.input.fed + s[from..] == s;
    AtStop(z, s[from..]);
    StaysOn(z, s);
    status, inUsed, outUsed := Call(z, s, from, |s|, outNext, outSize, hasMoreInput);
    if status.HasMoreOutput? { NoMore(z, s, d, n); }
    Conforms(z, s, d, n);
    FedIs(z, s);
    NotStarving(z);
    assert z.output.buf[outNext..outNext + outUsed] == [];
    SumIs(z);
  }

  lemma SumIs(z: Inflater)
    requires z.Resting()
    ensures z.Sums() ==> z.checkAdler == Adler32(1, z.counted)
  {
    hide Inflater.Core, Adler32;
  }

  /** At the end the machine has stopped, whatever comes after. */
  lemma AtStop(z: Inflater, data: seq<u8>)
    requires z.Resting() && !z.lost && z.place.AtDone?
    ensures var s := z.input.fed + data; EndsAt(z.mode, OfBytes(s), z.cfg, z.steps) && !LeadsAstray(z.mode, s)
    ensures z.cfg.phase.Done? && z.cfg.out == z.output.out && z.cfg.pos == 8 * |z.input.fed|
  {
    hide OfBytes, Reaches, LeadsAstray, Step, Inflater.Resting;
    var fed, s := z.input.fed, z.input.fed + data;
    StaysOn(z, fed);
    Places(z, fed);
    OnePlace(z);
    HasReached(z);
    OfBytesLonger(fed, s);
    ReachesLonger(z.mode, OfBytes(fed), OfBytes(s), z.cfg, z.steps);
    Reached(z.mode, OfBytes(s), z.cfg, z.steps);
    NotAstray(z.mode, s, z.cfg, z.steps);
  }

  lemma NotAstray(m: Mode, s: seq<u8>, c: Config, n: nat)
    requires EndsAt(m, OfBytes(s), c, n) && !Step(m, c, OfBytes(s)).Lost?
    ensures !LeadsAstray(m, s)
  {
    hide OfBytes, Reaches, Step, Strays;
    EndedNotLost(m, OfBytes(s), c, n);
  }

  lemma HasReached(z: Inflater)
    requires z.Resting() && !z.lost
    ensures Reaches(z.mode, OfBytes(z.input.fed), z.cfg, z.steps) && z.cfg.out == z.output.out
  {
    hide OfBytes, Reaches, Inflater.Local, Step;
  }

  lemma NotStarving(z: Inflater)
    requires z.Resting() && !z.lost && z.cfg.phase.Done?
    ensures !z.Starving()
  {
    hide OfBytes, Inflater.Core, Inflater.Local, Inflater.Tracked;
  }

  lemma FedIs(z: Inflater, s: seq<u8>)
    requires Fed(z, s)
    ensures z.Resting() && z.input.fed <= s && (z.lost ==> LeadsAstray(z.mode, s))
  {
    hide LeadsAstray, Inflater.Resting;
  }

  lemma StaysOn(z: Inflater, s: seq<u8>)
    requires z.Resting() && !z.lost && z.input.fed <= s
    ensures Fed(z, s)
  {
  }

  lemma NoMore(z: Inflater, s: seq<u8>, d: Config, n: nat)
    requires Fed(z, s) && z.Full() && EndsAt(z.mode, OfBytes(s), d, n) && d.phase.Done? && !LeadsAstray(z.mode, s)
    ensures |z.output.out| < |d.out|
  {
    hide OfBytes, Reaches, LeadsAstray, Step, Fed;
    Standing(z, s);
    WritesMore(z.mode, OfBytes(s), z.cfg, z.steps, d, n);
  }

  // ----- a driver: the whole input at once, the output through a ring that is emptied whenever it is full

  /** The stream, by the reference machine alone: `d` is where it stops, and `good` whether that is a proper end. */
  ghost predicate Verdict(m: Mode, s: seq<u8>, d: Config, n: nat, good: bool) {
    EndsAt(m, OfBytes(s), d, n) && (good <==> d.phase.Done? && (m.zlib ==> Adler32(1, d.out) == d.phase.sum))
  }

  lemma DictSize()
    ensures PowerOfTwo(LZ_DICT_SIZE)
  {
    assert PowerOfTwo(16) && PowerOfTwo(256) && PowerOfTwo(4096);
  }

  /** `tinfl_decompress_mem_to_callback`, with a callback that takes `limit` pieces and refuses the next.  It delivers the
      reference machine's output and says whether the stream was good.  Unless the stream leads the machine astray a callback that
      takes as many pieces as the machine writes bytes never refuses. */
  method MemToCallback(s: seq<u8>, zlib: bool, summing: bool, wide: bool, limit: nat)
    returns (ok: bool, inUsed: nat, sent: seq<u8>, refused: bool, ghost d: Config, ghost n: nat)
    ensures EndsAt(Mode(zlib, true, LZ_DICT_SIZE), OfBytes(s), d, n)
    ensures var m := Mode(zlib, true, LZ_DICT_SIZE);
            !refused && !LeadsAstray(m, s) ==> Verdict(m, s, d, n, ok) && sent == d.out && (d.phase.Done? ==> 8 * inUsed == d.pos)
    ensures refused ==> !ok && |sent| >= limit
    ensures refused && !LeadsAstray(Mode(zlib, true, LZ_DICT_SIZE), s) ==> limit < |d.out| && sent < d.out
  {
    hide EndsAt, Inflater.Resting, LeadsAstray, OfBytes, Step, Fed, Finished, Verdict, PowerOfTwo, Reaches;
    DictSize();
    var dict := new u8[LZ_DICT_SIZE];
    var z := new Inflater(zlib, true, summing, dict, wide);
    StartFed(z, s);
    var dictOfs: nat, pieces: nat := 0, 0;
    inUsed, sent, ok, refused := 0, [], false, false;
    d, n := Ends(z.mode, OfBytes(s));
    while true
      invariant Fed(z, s) && inUsed == |z.input.fed| <= |s| && sent == z.output.out == z.counted
      invariant dictOfs < LZ_DICT_SIZE && z.NextWindow(dictOfs, LZ_DICT_SIZE - dictOfs) && |sent| >= pieces
      invariant fresh(z) && fresh(z.input) && fresh(z.output) && fresh(z.t0) && fresh(z.t1) && fresh(z.t2)
      invariant fresh(z.t0.lookUp) && fresh(z.t0.tree) && fresh(z.t1.lookUp) && fresh(z.t1.tree) && fresh(z.t2.lookUp) && fresh(z.t2.tree)
      invariant pieces <= limit
      decreases limit - pieces
    {
      var status, used, wrote := Call(z, s, inUsed, |s|, dictOfs, LZ_DICT_SIZE - dictOfs, false);
      inUsed := inUsed + used;
      if wrote > 0 {
        if pieces >= limit {
          refused := true;
          Refused(z, s, d, n);
          return;
        }
        sent := sent + dict[dictOfs..dictOfs + wrote];
        pieces := pieces + 1;
      }
      if !status.HasMoreOutput? {
        ok := status.Done?;
        Judged(z, s, status, d, n);
        return;
      }
      dictOfs := (dictOfs + wrote) % LZ_DICT_SIZE;
    }
  }

  lemma StartFed(z: Inflater, s: seq<u8>)
    requires z.Resting() && !z.lost && z.input.fed == []
    ensures Fed(z, s)
  {
  }

  /** What has been written is the beginning of what the machine writes. */
  lemma Refused(z: Inflater, s: seq<u8>, d: Config, n: nat)
    requires Fed(z, s) && EndsAt(z.mode, OfBytes(s), d, n)
    ensures !LeadsAstray(z.mode, s) ==> z.output.out <= d.out
  {
    hide OfBytes, Reaches, LeadsAstray, Step, Fed;
    if !LeadsAstray(z.mode, s) {
      Standing(z, s);
      BeforeEnd(z.mode, OfBytes(s), z.cfg, z.steps, d, n);
    }
  }

  lemma Judged(z: Inflater, s: seq<u8>, status: Status, d: Config, n: nat)
    requires Fed(z, s) && Finished(z, s) && z.Reported(status, false) && !status.HasMoreOutput? && !status.BadParam?
    requires (status.Done? || status.Adler32Mismatch? ==> z.counted == z.output.out) && EndsAt(z.mode, OfBytes(s), d, n)
    ensures !LeadsAstray(z.mode, s) ==> Verdict(z.mode, s, d, n, status.Done?) && z.output.out == d.out && (d.phase.Done? ==> 8 * |z.input.fed| == d.pos)
  {
    hide OfBytes, Reaches, LeadsAstray, Adler32, Inflater.Core;
    if !LeadsAstray(z.mode, s) {
      Standing(z, s);
      Stops(z, s);
      Places(z, s);
      OneEnd(z.mode, OfBytes(s), z.cfg, z.steps, d, n);
    }
  }
}
