/** What `tdefl_flush_block` writes around a block: the length of a stored one, the empty stored block of a flush, and the end of the
    stream. */
module BlockEnds {
  import opened Bits
  import opened Format
  import opened Writing
  import opened LzCodes
  import opened BitOutput
  import opened Blocks
  import opened BlockWriter

  function OneBit(b: bool): nat { if b then 1 else 0 }

  lemma OneBitIs(b: bool)
    ensures Lsb(OneBit(b), 1) == [b] && OneBit(b) < Pow2(1) && Pow2(16) == 65536 && Pow2(8) == 256 && Pow2(2) == 4 && Pow2(3) == 8
    ensures Lsb(0, 3) == HeaderBits(false, 0)
  {
    Pow2Values();
    assert Lsb(0, 3) == [false] + Lsb(0, 2);
  }

  /** A 16-bit number, low byte first. */
  lemma WordBits(n: nat)
    requires n < 65536
    ensures Lsb(n, 16) == Lsb(n % 256, 8) + Lsb(n / 256, 8)
  {
    hide Lsb, Low, Shr, Pow2;
    Pow2Values();
    TopByte(n, 16);
    LowMod(n, 8);
    ShrDiv(n, 8);
  }

  lemma {:induction false} ShrDiv(w: nat, k: nat)
    ensures Shr(w, k) == w / Pow2(k)
  {
    if k > 0 {
      ShrDiv(w / 2, k - 1);
      DivTwice(w, Pow2(k - 1));
    }
  }

  lemma DivTwice(w: nat, p: nat)
    requires p > 0
    ensures w / 2 / p == w / (2 * p)
  {
    var q, r := w / 2 / p, w / 2 % p;
    assert w / 2 == p * q + r;
    assert w == 2 * p * q + (2 * r + w % 2) && 2 * r + w % 2 < 2 * p;
    DivUnique(w, 2 * p, q, 2 * r + w % 2);
  }

  lemma DivUnique(w: nat, d: nat, q: nat, r: nat)
    requires d > 0 && w == d * q + r && r < d
    ensures w / d == q
  {
    var e := w / d - q;
    assert w == d * (w / d) + w % d;
    assert d * e == r - w % d;
    assert e >= 1 ==> d * e >= d;
    assert e <= -1 ==> d * e <= 0 - d;
  }

  lemma RawLengthIs(n: nat)
    requires n < 65536
    ensures RawLength(n) == Lsb(n, 16) + Lsb(65535 - n, 16)
  {
    hide Lsb;
    WordBits(n);
    WordBits(65535 - n);
    assert (65535 - n) % 256 == 255 - n % 256 && (65535 - n) / 256 == 255 - n / 256;
    FourBytes(n % 256, n / 256, 255 - n % 256, 255 - n / 256);
  }

  /** What comes between the header of a stored block and its bytes. */
  method PutLength(o: BitOutput, total: nat) returns (ghost pad: nat)
    requires o.Valid() && total < 65536
    modifies o`cur, o`bitBuffer, o`bitsIn, o`bits, o.buf
    ensures o.Valid() && o.Extends() && o.bitsIn == 0 && pad < 8 && Whole(|old(o.bits)| + pad) && o.bits == old(o.bits) + Zeros(pad) + RawLength(total)
  {
    hide BitOutput.Valid, Lsb, RawLength;
    ghost var base := o.bits;
    BitsIn(o);
    pad := if o.bitsIn > 0 then 8 - o.bitsIn else 0;
    o.PadToByte();
    RawLengthIs(total);
    OneBitIs(true);
    var n := total;
    o.PutBits(n, 16);
    n := 0xFFFF - n;
    o.PutBits(n, 16);
    assert base + Zeros(pad) + Lsb(total, 16) + Lsb(65535 - total, 16) == base + Zeros(pad) + RawLength(total);
  }

  lemma BitsIn(o: BitOutput)
    requires o.Valid()
    ensures o.bitsIn == |o.bits| % 8
  {
  }

  /** The empty stored block that a flush ends with. */
  method SyncMark(o: BitOutput, ghost m: Mode, ghost out: seq<u8>)
    requires o.Valid() && Ended(m, false, o.bits, out)
    modifies o`cur, o`bitBuffer, o`bitsIn, o`bits, o.buf
    ensures o.Valid() && o.Extends() && o.bitsIn == 0 && Between(m, o.bits, out)
    ensures |o.bits| <= |old(o.bits)| + 42
  {
    hide BitOutput.Valid, Lsb, RawLength, Between, Ended, Stands, HeaderBits;
    ghost var base := o.bits;
    NextBlock(m, base, out);
    OneBitIs(false);
    HeaderSize(false, 0);
    o.PutBits(0, 3);
    ghost var pad := PutLength(o, 0);
    StoredEnds(m, base, out, false, pad, []);
    NoBytes();
    assert base + HeaderBits(false, 0) + Zeros(pad) + RawLength(0) + OfBytes([]) == o.bits && out + [] == out;
    NextBlock(m, o.bits, out);
  }

  lemma NoBytes()
    ensures OfBytes([]) == []
  {
  }

  /** The end of the stream: padding, and the checksum, most significant byte first. */
  method PutEnd(o: BitOutput, zlib: bool, adler: nat, ghost m: Mode, ghost out: seq<u8>)
    requires o.Valid() && Ended(m, true, o.bits, out) && m.zlib == zlib && adler < 0x1_0000_0000
    modifies o`cur, o`bitBuffer, o`bitsIn, o`bits, o.buf
    ensures o.Valid() && o.Extends() && o.bitsIn == 0
    ensures Stands(m, o.bits, Config(Done(if zlib then adler else 0), true, |o.bits|, out))
    ensures |o.bits| <= |old(o.bits)| + 39
  {
    hide BitOutput.Valid, Lsb, Stands, Align, SumBytes, OfBytes, Zeros, AfterBlock, Shifted;
    ghost var base := o.bits;
    BitsIn(o);
    ghost var pad := Pad(true, |base|);
    PadIs(true, |base|);
    PadRest(|base|);
    AfterBlockIs(m, Config(Header, true, |base|, out));
    o.PadToByte();
    if zlib {
      ghost var aligned := o.bits;
      TrailerStands(m, aligned, Config(Trailer(0, 0), true, |aligned|, out), adler);
      OneBitIs(true);
      var a := adler;
      ghost var sum := SumBytes(adler);
      SumWhole(adler);
      assert sum[..0] == [];
      NoBytes();
      assert aligned + OfBytes([]) == aligned;
      for i := 0 to 4
        invariant o.Valid() && o.Extends() && o.bitsIn == 0 && |o.bits| == |aligned| + 8 * i
        invariant a < 0x1_0000_0000 && a == Shifted(sum, i) && o.bits == aligned + OfBytes(sum[..i])
      {
        SumByte(sum, i);
        assert sum[..i + 1] == sum[..i] + [sum[i]];
        OfBytesPush(sum[..i], sum[i]);
        o.PutBits(a / 0x100_0000, 8);
        a := a * 256 % 0x1_0000_0000;
        assert aligned + OfBytes(sum[..i]) + Lsb(sum[i], 8) == aligned + OfBytes(sum[..i + 1]);
      }
      assert sum[..4] == sum;
    }
  }

  lemma PadRest(n: nat)
    ensures Pad(true, n) == (if n % 8 > 0 then 8 - n % 8 else 0) && (n + Pad(true, n)) % 8 == 0
  {
  }

  /** The bytes from the `i`th on, at the top of a word. */
  function Shifted(b: seq<nat>, i: nat): nat
    requires |b| == 4 && i <= 4
  {
    if i == 0 then 0x100_0000 * b[0] + 0x1_0000 * b[1] + 256 * b[2] + b[3]
    else if i == 1 then 0x100_0000 * b[1] + 0x1_0000 * b[2] + 256 * b[3]
    else if i == 2 then 0x100_0000 * b[2] + 0x1_0000 * b[3]
    else if i == 3 then 0x100_0000 * b[3] else 0
  }

  lemma SumWhole(a: nat)
    requires a < 0x1_0000_0000
    ensures Shifted(SumBytes(a), 0) == a
  {
    BigEndian(a);
  }

  lemma SumByte(b: seq<u8>, i: nat)
    requires |b| == 4 && i < 4
    ensures Shifted(b, i) < 0x1_0000_0000 && Shifted(b, i) / 0x100_0000 == b[i]
    ensures Shifted(b, i) * 256 % 0x1_0000_0000 == Shifted(b, i + 1)
  {
    ModUnique(Shifted(b, i) * 256, Shifted(b, i + 1), b[i], 0x1_0000_0000);
  }
}
