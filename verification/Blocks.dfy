/** Block headers, stored blocks, and the zlib frame, as bits that lead the reference machine on. */
module Blocks {
  import opened Bits
  import opened Canonical
  import opened Format
  import opened Writing
  import opened LzCodes
  import opened CodeLengths

  // ----- headers

  /** The three bits that begin a block. */
  function HeaderBits(final: bool, kind: nat): Bits {
    [final] + Lsb(kind, 2)
  }

  lemma HeaderValue(s: Bits, final: bool, kind: nat, pad: Bits)
    requires kind < 4
    ensures |s| + 3 <= |s + (HeaderBits(final, kind) + pad)|
    ensures HeaderField(s + (HeaderBits(final, kind) + pad), |s|) == (if final then 1 else 0) + 2 * kind
  {
    var t := s + (HeaderBits(final, kind) + pad);
    assert t[|s|..|s| + 3] == HeaderBits(final, kind);
    assert HeaderBits(final, kind)[1..] == Lsb(kind, 2);
    assert Pow2(2) == 4;
    ValLsb(kind, 2);
    LowBound(kind, 2);
  }

  /** A block begins; a stored one with padding to the byte boundary. */
  lemma HeaderStands(m: Mode, s: Bits, c: Config, final: bool, kind: nat, pad: Bits)
    requires Stands(m, s, c) && c.phase.Header? && kind < 3
    requires AfterHeader(c, (if final then 1 else 0) + 2 * kind).pos == |s| + 3 + |pad|
    ensures Stands(m, s + (HeaderBits(final, kind) + pad), AfterHeader(c, (if final then 1 else 0) + 2 * kind))
  {
    hide Reaches, AfterHeader, HeaderField, FixedLit, FixedDist;
    StandsOk(m, s, c);
    HeaderValue(s, final, kind, pad);
    StandStep(m, s, HeaderBits(final, kind) + pad, c, AfterHeader(c, (if final then 1 else 0) + 2 * kind));
  }

  // ----- bytes

  /** A position at a byte boundary. */
  predicate Whole(p: nat) { p % 8 == 0 }

  lemma ByteBound(b: u8)
    ensures b < Pow2(8)
  {
    Pow2Values();
  }

  /** A byte of the frame or of a stored block's header. */
  lemma ByteStands(m: Mode, s: Bits, c: Config, b: u8)
    requires Stands(m, s, c)
    ensures c.phase.ZlibCmf? ==> Stands(m, s + Lsb(b, 8), c.(phase := ZlibFlg(b), pos := c.pos + 8))
    ensures c.phase.ZlibFlg? ==> Stands(m, s + Lsb(b, 8), c.(phase := if BadZlibHeader(m, c.phase.cmf, b) then Bad else Header, pos := c.pos + 8))
    ensures c.phase.RawHeader? ==> Stands(m, s + Lsb(b, 8), AfterRawHeader(c.(pos := c.pos + 8), c.phase.head + [b]))
    ensures c.phase.RawBody? && c.phase.left > 0 ==> Stands(m, s + Lsb(b, 8), c.(phase := RawByte(b, c.phase.left), pos := c.pos + 8))
    ensures c.phase.Trailer? ==> Stands(m, s + Lsb(b, 8), AfterTrailer(c.(pos := c.pos + 8), c.phase.k, c.phase.sum, b))
  {
    hide Step, Reaches, Stands, WellFormed, Lsb, Field, BadZlibHeader;
    StandsOk(m, s, c);
    ByteBound(b);
    FieldWritten(s, b, 8);
    var t := s + Lsb(b, 8);
    ByteNext(m, c, t);
    if c.phase.ZlibCmf? { StandStep(m, s, Lsb(b, 8), c, c.(phase := ZlibFlg(b), pos := c.pos + 8)); }
    if c.phase.ZlibFlg? { StandStep(m, s, Lsb(b, 8), c, c.(phase := if BadZlibHeader(m, c.phase.cmf, b) then Bad else Header, pos := c.pos + 8)); }
    if c.phase.RawHeader? { StandStep(m, s, Lsb(b, 8), c, AfterRawHeader(c.(pos := c.pos + 8), c.phase.head + [b])); }
    if c.phase.RawBody? && c.phase.left > 0 { StandStep(m, s, Lsb(b, 8), c, c.(phase := RawByte(b, c.phase.left), pos := c.pos + 8)); }
    if c.phase.Trailer? { StandStep(m, s, Lsb(b, 8), c, AfterTrailer(c.(pos := c.pos + 8), c.phase.k, c.phase.sum, b)); }
  }

  /** One byte of a stored block. */
  lemma RawByteStands(m: Mode, s: Bits, c: Config, b: u8)
    requires Stands(m, s, c) && c.phase.RawBody? && c.phase.left > 0
    ensures Stands(m, s + Lsb(b, 8), c.(phase := RawBody(c.phase.left - 1), pos := c.pos + 8, out := c.out + [b]))
  {
    hide Step, Stands, Lsb;
    ByteStands(m, s, c, b);
    var c1 := c.(phase := RawByte(b, c.phase.left), pos := c.pos + 8);
    StandsOk(m, s + Lsb(b, 8), c1);
    RawByteNext(m, c1, s + Lsb(b, 8));
    StandStill(m, s + Lsb(b, 8), c1, c.(phase := RawBody(c.phase.left - 1), pos := c.pos + 8, out := c.out + [b]));
  }

  /** The bytes of a stored block, and its end. */
  lemma {:induction false} RawBytesStand(m: Mode, s: Bits, c: Config, bytes: seq<u8>)
    requires Stands(m, s, c) && c.phase == RawBody(|bytes|) && Whole(c.pos)
    ensures Stands(m, s + OfBytes(bytes), AfterBlock(m, c.(pos := c.pos + 8 * |bytes|, out := c.out + bytes)))
    decreases |bytes|
  {
    hide Step, Stands, Lsb, AfterBlock;
    if bytes == [] {
      StandsOk(m, s, c);
      AlignedEnd(m, c);
      assert s + OfBytes([]) == s && c.out + [] == c.out;
      RawEnd(m, c, s);
      StandStill(m, s, c, AfterBlock(m, c));
    } else {
      var b, rest := bytes[0], bytes[1..];
      RawByteStands(m, s, c, b);
      var d := c.(phase := RawBody(|rest|), pos := c.pos + 8, out := c.out + [b]);
      RawBytesStand(m, s + Lsb(b, 8), d, rest);
      AfterBlockPhase(m, d.(pos := d.pos + 8 * |rest|, out := d.out + rest), c.phase);
      OfBytesAppend([b], rest);
      OfBytesOne(b);
      assert [b] + rest == bytes && c.out + [b] + rest == c.out + bytes;
      assert s + Lsb(b, 8) + OfBytes(rest) == s + OfBytes(bytes);
      assert d.(pos := d.pos + 8 * |rest|, out := d.out + rest, phase := c.phase) == c.(pos := c.pos + 8 * |bytes|, out := c.out + bytes);
    }
  }

  lemma AlignedEnd(m: Mode, c: Config)
    requires Whole(c.pos)
    ensures AfterBlock(m, c).pos == c.pos
  {
  }

  lemma OfBytesOne(b: u8)
    ensures OfBytes([b]) == Lsb(b, 8)
  {
    assert [b][..0] == [] && OfBytes([]) == [];
  }

  /** The length of a stored block and its complement. */
  function RawLength(n: nat): (b: Bits)
    requires n < 65536
    ensures |b| == 32
  {
    OfBytes([n % 256, n / 256, 255 - n % 256, 255 - n / 256])
  }

  lemma RawLengthStands(m: Mode, s: Bits, c: Config, n: nat)
    requires Stands(m, s, c) && c.phase == RawHeader([]) && n < 65536
    ensures Stands(m, s + RawLength(n), c.(phase := RawBody(n), pos := c.pos + 32))
  {
    hide Stands, Lsb, AfterRawHeader;
    var a, b, d, e := n % 256, n / 256, 255 - n % 256, 255 - n / 256;
    var s1 := s + Lsb(a, 8);
    var s2 := s1 + Lsb(b, 8);
    var s3 := s2 + Lsb(d, 8);
    var h1: seq<nat> := [a];
    var h2, h3 := h1 + [b], h1 + [b] + [d];
    var c1, c2, c3 := c.(phase := RawHeader(h1), pos := c.pos + 8), c.(phase := RawHeader(h2), pos := c.pos + 16), c.(phase := RawHeader(h3), pos := c.pos + 24);
    ByteStands(m, s, c, a);
    RawHeaderNext(c.(pos := c.pos + 8), [], a);
    ByteStands(m, s1, c1, b);
    RawHeaderNext(c1.(pos := c1.pos + 8), h1, b);
    ByteStands(m, s2, c2, d);
    RawHeaderNext(c2.(pos := c2.pos + 8), h2, d);
    ByteStands(m, s3, c3, e);
    LengthChecked(c3.(pos := c3.pos + 8), h3 + [e], n);
    assert c3.(pos := c3.pos + 8, phase := RawBody(n)) == c.(phase := RawBody(n), pos := c.pos + 32);
    FourBytes(a, b, d, e);
    assert s3 + Lsb(e, 8) == s + RawLength(n);
  }

  lemma RawHeaderNext(c: Config, head: seq<nat>, b: u8)
    requires |head| < 3
    ensures AfterRawHeader(c, head + [b]) == c.(phase := RawHeader(head + [b])) && [] + [b] == [b]
  {
  }

  lemma LengthChecked(c: Config, head: seq<nat>, n: nat)
    requires n < 65536 && head == [n % 256, n / 256, 255 - n % 256, 255 - n / 256]
    ensures AfterRawHeader(c, head) == c.(phase := RawBody(n))
  {
  }

  lemma FourBytes(a: u8, b: u8, c: u8, d: u8)
    ensures OfBytes([a, b, c, d]) == Lsb(a, 8) + Lsb(b, 8) + Lsb(c, 8) + Lsb(d, 8)
  {
    hide Lsb;
    OfBytesPush([a, b, c], d);
    OfBytesPush([a, b], c);
    OfBytesPush([a], b);
    OfBytesOne(a);
    assert [a, b, c] + [d] == [a, b, c, d] && [a, b] + [c] == [a, b, c] && [a] + [b] == [a, b];
  }

  /** A stored block after its padding. */
  lemma StoredBody(m: Mode, s: Bits, c: Config, bytes: seq<u8>)
    requires Stands(m, s, c) && c.phase == RawHeader([]) && |bytes| < 65536 && Whole(c.pos)
    ensures Stands(m, s + RawLength(|bytes|) + OfBytes(bytes), AfterBlock(m, c.(pos := c.pos + 32 + 8 * |bytes|, out := c.out + bytes)))
  {
    hide Stands, Lsb, AfterBlock, RawLength, Whole, WellFormed;
    RawLengthStands(m, s, c, |bytes|);
    var d := c.(phase := RawBody(|bytes|), pos := c.pos + 32);
    WordLater(c.pos);
    RawBytesStand(m, s + RawLength(|bytes|), d, bytes);
    AfterBlockPhase(m, d.(pos := d.pos + 8 * |bytes|, out := d.out + bytes), c.phase);
    assert d.(pos := d.pos + 8 * |bytes|, out := d.out + bytes, phase := c.phase) == c.(pos := c.pos + 32 + 8 * |bytes|, out := c.out + bytes);
  }

  /** A whole stored block, from its header on. */
  lemma StoredStands(m: Mode, s: Bits, c: Config, final: bool, pad: Bits, bytes: seq<u8>)
    requires Stands(m, s, c) && c.pos == |s| && c.phase.Header? && |bytes| < 65536 && Whole(|s| + 3 + |pad|) && |pad| < 8
    ensures Stands(m, s + (HeaderBits(final, 0) + pad) + RawLength(|bytes|) + OfBytes(bytes),
                   AfterBlock(m, c.(final := final, pos := |s| + 35 + |pad| + 8 * |bytes|, out := c.out + bytes)))
  {
    hide *;
    StoredHeader(c, final);
    AlignIs(|s| + 3, |pad|);
    HeaderStands(m, s, c, final, 0, pad);
    var c1 := c.(final := final, pos := |s| + 3 + |pad|, phase := RawHeader([]));
    StoredBody(m, s + (HeaderBits(final, 0) + pad), c1, bytes);
    var e := c1.(pos := c1.pos + 32 + 8 * |bytes|, out := c1.out + bytes);
    AfterBlockPhase(m, e, c.phase);
    assert e.(phase := c.phase) == c.(final := final, pos := |s| + 35 + |pad| + 8 * |bytes|, out := c.out + bytes);
  }

  lemma AlignIs(p: nat, k: nat)
    requires Whole(p + k) && k < 8
    ensures Align(p) == p + k
  {
  }

  lemma WordLater(p: nat)
    requires Whole(p)
    ensures Whole(p + 32)
  {
  }

  lemma StoredHeader(c: Config, final: bool)
    ensures AfterHeader(c, (if final then 1 else 0) + 2 * 0) == c.(final := final, pos := Align(c.pos + 3), phase := RawHeader([]))
  {
  }

  /** Leaving a block does not depend on the phase in which it ended. */
  lemma AfterBlockPhase(m: Mode, c: Config, p: Phase)
    ensures AfterBlock(m, c) == AfterBlock(m, c.(phase := p))
  {
  }

  // ----- the zlib frame

  lemma ZlibHeaderStands(m: Mode)
    requires m.zlib && Fits32K(m)
    ensures Stands(m, Lsb(0x78, 8) + Lsb(0x01, 8), Config(Header, false, 16, []))
  {
    hide Stands, Lsb;
    StandsStart(m);
    var c := Start(m);
    ByteStands(m, [], c, 0x78);
    assert [] + Lsb(0x78, 8) == Lsb(0x78, 8);
    ByteStands(m, Lsb(0x78, 8), c.(phase := ZlibFlg(0x78), pos := 8), 0x01);
    GoodHeader(m);
  }

  lemma GoodHeader(m: Mode)
    requires Fits32K(m)
    ensures !BadZlibHeader(m, 0x78, 0x01)
  {
    assert Pow2(10) == 1024 && Pow2(15) == 32768;
  }

  /** The checksum, most significant byte first. */
  function SumBytes(a: nat): (r: seq<u8>)
    requires a < 0x1_0000_0000
    ensures |r| == 4
  {
    [a / 0x100_0000, a / 0x1_0000 % 256, a / 256 % 256, a % 256]
  }

  lemma TrailerStep(c: Config, k: nat, sum: nat, b: u8)
    requires k < 4 && sum * 256 + b < 0x1_0000_0000
    ensures AfterTrailer(c, k, sum, b) == c.(phase := if k == 3 then Done(sum * 256 + b) else Trailer(k + 1, sum * 256 + b))
  {
  }

  lemma BigEndian(a: nat)
    requires a < 0x1_0000_0000
    ensures ((a / 0x100_0000 * 256 + a / 0x1_0000 % 256) * 256 + a / 256 % 256) * 256 + a % 256 == a
  {
  }

  lemma TrailerStands(m: Mode, s: Bits, c: Config, a: nat)
    requires Stands(m, s, c) && c.phase == Trailer(0, 0) && a < 0x1_0000_0000
    ensures Stands(m, s + OfBytes(SumBytes(a)), c.(phase := Done(a), pos := c.pos + 32))
  {
    hide Stands, Lsb, AfterTrailer;
    var b0, b1, b2, b3 := a / 0x100_0000, a / 0x1_0000 % 256, a / 256 % 256, a % 256;
    var s1 := s + Lsb(b0, 8);
    var s2 := s1 + Lsb(b1, 8);
    var s3 := s2 + Lsb(b2, 8);
    var v1, v2, v3 := b0, b0 * 256 + b1, (b0 * 256 + b1) * 256 + b2;
    var c1, c2, c3 := c.(phase := Trailer(1, v1), pos := c.pos + 8), c.(phase := Trailer(2, v2), pos := c.pos + 16), c.(phase := Trailer(3, v3), pos := c.pos + 24);
    ByteStands(m, s, c, b0);
    TrailerStep(c.(pos := c.pos + 8), 0, 0, b0);
    ByteStands(m, s1, c1, b1);
    TrailerStep(c1.(pos := c1.pos + 8), 1, v1, b1);
    ByteStands(m, s2, c2, b2);
    TrailerStep(c2.(pos := c2.pos + 8), 2, v2, b2);
    ByteStands(m, s3, c3, b3);
    TrailerStep(c3.(pos := c3.pos + 8), 3, v3, b3);
    BigEndian(a);
    assert c3.(pos := c3.pos + 8, phase := Done(v3 * 256 + b3)) == c.(phase := Done(a), pos := c.pos + 32);
    FourBytes(b0, b1, b2, b3);
    assert s3 + Lsb(b3, 8) == s + OfBytes(SumBytes(a));
  }
}
