/** The compressor's bit writer: `m_bit_buffer`, `m_bits_in`, `m_pOutput_buf` and `TDEFL_PUT_BITS`. */
module BitOutput {
  import opened Bits
  import opened Canonical
  import opened CodeSizes

  const OUT_BUF_SIZE := 85196

  /** Bits go into a byte buffer of limited size.  Bytes beyond the limit are dropped without notice, so what the buffer holds is
      known only while the cursor is below the limit. */
  class BitOutput {
    const buf: array<u8>
    var cur: nat
    var bitBuffer: nat
    var bitsIn: nat
    /** Bytes handed on before, and all bits ever put. */
    ghost var sent: seq<u8>
    ghost var bits: Bits

    /** `m_pOutput_buf_end` */
    const END := OUT_BUF_SIZE - 16

    ghost predicate Valid()
      reads this, buf
    {
      && buf.Length == OUT_BUF_SIZE && cur <= END && bitsIn == |bits| % 8 && bitBuffer < Pow2(bitsIn)
      && (cur < END ==> Holds(sent + buf[..cur], bits, bitBuffer, bitsIn))
    }

    /** Only more has been written. */
    twostate predicate Extends()
      reads this, buf
    {
      && old(cur) <= cur && old(bits) <= bits && (forall i :: 0 <= i < old(cur) && i < buf.Length ==> buf[i] == old(buf[i]))
      && 8 * cur + bitsIn <= 8 * old(cur) + old(bitsIn) + (|bits| - |old(bits)|)
    }

    constructor ()
      ensures Valid() && cur == 0 && sent == [] && bits == [] && bitsIn == 0 && fresh(buf)
    {
      buf := new u8[OUT_BUF_SIZE];
      cur, bitBuffer, bitsIn, sent, bits := 0, 0, 0, [], [];
    }

    /** `if (d->m_pOutput_buf < d->m_pOutput_buf_end) *d->m_pOutput_buf++ = (mz_uint8)(d->m_bit_buffer)` and the shift after it. */
    method PutByte()
      requires buf.Length == OUT_BUF_SIZE && cur <= END && 8 <= bitsIn && bitBuffer < Pow2(bitsIn)
      requires cur < END ==> Holds(sent + buf[..cur], bits, bitBuffer, bitsIn)
      modifies this`cur, this`bitBuffer, this`bitsIn, buf
      ensures cur <= END && bitsIn == old(bitsIn) - 8 && bitBuffer < Pow2(bitsIn) && old(cur) <= cur <= old(cur) + 1
      ensures cur < END ==> Holds(sent + buf[..cur], bits, bitBuffer, bitsIn)
      ensures forall i :: 0 <= i < old(cur) ==> buf[i] == old(buf[i])
    {
      hide Pow2, Lsb, OfBytes, Low, Shr, Holds;
      ghost var bytes := sent + buf[..cur];
      TopByte(bitBuffer, bitsIn);
      var byte := Low(bitBuffer, 8);
      if cur < END {
        HoldsMore(bytes, bits, bitBuffer, bitsIn, byte);
        buf[cur] := byte;
        cur := cur + 1;
        assert sent + buf[..cur] == bytes + [byte];
      }
      bitBuffer := Shr(bitBuffer, 8);
      bitsIn := bitsIn - 8;
    }

    /** `TDEFL_PUT_BITS` */
    method PutBits(b: nat, l: nat)
      requires Valid() && l <= 16 && b < Pow2(l)
      modifies this`cur, this`bitBuffer, this`bitsIn, this`bits, buf
      ensures Valid() && Extends() && bits == old(bits) + Lsb(b, l) && bitsIn == (old(bitsIn) + l) % 8
    {
      hide Pow2, Lsb, OfBytes, Or, Shl, Holds;
      LsbAppend(bitBuffer, bitsIn, b, l);
      if cur < END { HoldsAppend(sent + buf[..cur], bits, bitBuffer, bitsIn, b, l); }
      bitBuffer := Or(bitBuffer, Shl(b, bitsIn));
      bitsIn := bitsIn + l;
      bits := bits + Lsb(b, l);
      while bitsIn >= 8
        invariant buf.Length == OUT_BUF_SIZE && cur <= END && bitBuffer < Pow2(bitsIn)
        invariant cur < END ==> Holds(sent + buf[..cur], bits, bitBuffer, bitsIn)
        invariant old(cur) <= cur && (forall i :: 0 <= i < old(cur) ==> buf[i] == old(buf[i])) && bits == old(bits) + Lsb(b, l)
        invariant 8 * (cur - old(cur)) + bitsIn <= old(bitsIn) + l && bitsIn % 8 == (old(bitsIn) + l) % 8
      {
        PutByte();
      }
      SameRemainder(|old(bits)|, l);
    }

    /** `TDEFL_PUT_BITS(0, 8 - d->m_bits_in)`, if there is part of a byte. */
    method PadToByte()
      requires Valid()
      modifies this`cur, this`bitBuffer, this`bitsIn, this`bits, buf
      ensures Valid() && Extends() && bitsIn == 0 && bits == old(bits) + Zeros(if old(bitsIn) > 0 then 8 - old(bitsIn) else 0)
    {
      hide Lsb, OfBytes, Holds, Pow2;
      if bitsIn > 0 {
        PadBits(8 - bitsIn);
        PutBits(0, 8 - bitsIn);
      }
    }

    /** `*d->m_pOutput_buf` and its companions put back where they were. */
    method Restore(cur0: nat, bitBuffer0: nat, bitsIn0: nat, ghost bits0: Bits, ghost bytes0: seq<u8>)
      requires buf.Length == OUT_BUF_SIZE && cur0 < END && cur0 <= cur && buf[..cur0] == bytes0 && bitsIn0 < 8 && bitBuffer0 < Pow2(bitsIn0)
      requires Holds(sent + bytes0, bits0, bitBuffer0, bitsIn0)
      modifies this`cur, this`bitBuffer, this`bitsIn, this`bits
      ensures Valid() && cur == cur0 && bits == bits0 && bitsIn == bitsIn0 && bitBuffer == bitBuffer0
    {
      cur, bitBuffer, bitsIn, bits := cur0, bitBuffer0, bitsIn0, bits0;
      assert |bits0| == 8 * |sent + bytes0| + bitsIn0;
    }

    /** The finished bytes are handed to the caller's function. */
    method Send() returns (out: seq<u8>)
      requires Valid() && cur < END
      modifies this`cur, this`sent
      ensures Valid() && out == old(buf[..cur]) && cur == 0 && sent == old(sent) + out
    {
      hide Holds;
      out := buf[..cur];
      sent := sent + out;
      cur := 0;
      assert sent + buf[..0] == sent;
    }

    /** A symbol of a code. */
    method PutSymbol(t: CodeTable, n: nat, sym: nat)
      requires Valid() && t.Coded(n) && sym < n <= MAX_SYMBOLS && 0 < t.sizes[sym] <= 15 && buf as object != t.sizes && buf as object != t.codes
      modifies this`cur, this`bitBuffer, this`bitsIn, this`bits, buf
      ensures Valid() && Extends() && bits == old(bits) + CodeBits(t.sizes[..n], sym)
    {
      hide Lsb, OfBytes, Holds, Pow2, CodeBits, Val;
      LsbVal(CodeBits(t.sizes[..n], sym));
      PutBits(t.codes[sym], t.sizes[sym]);
    }
  }

  /** The bytes and the bits in the bit buffer are the bits put. */
  ghost predicate Holds(bytes: seq<u8>, bits: Bits, bitBuffer: nat, bitsIn: nat) {
    bits == OfBytes(bytes) + Lsb(bitBuffer, bitsIn)
  }

  lemma SameRemainder(n: nat, l: nat)
    ensures (n % 8 + l) % 8 == (n + l) % 8
  {
  }

  function Zeros(n: nat): (b: Bits)
    ensures |b| == n
  {
    seq(n, _ => false)
  }

  lemma {:induction false} PadBits(n: nat)
    ensures Lsb(0, n) == Zeros(n) && 0 < Pow2(n)
  {
    if n > 0 { PadBits(n - 1); }
  }

  lemma TopByte(w: nat, n: nat)
    requires 8 <= n && w < Pow2(n)
    ensures Low(w, 8) < 256 && Shr(w, 8) < Pow2(n - 8)
    ensures Lsb(w, n) == Lsb(Low(w, 8), 8) + Lsb(Shr(w, 8), n - 8)
  {
    hide Lsb, Low, Shr, Pow2;
    Pow2Values();
    LowBound(w, 8);
    ShrBound(w, n - 8, 8);
    LsbLow(w, n, 8);
    LsbShr(w, n, 8);
  }

  lemma HoldsMore(bytes: seq<u8>, bits: Bits, w: nat, n: nat, byte: u8)
    requires Holds(bytes, bits, w, n) && 8 <= n && w < Pow2(n) && byte == Low(w, 8)
    ensures Holds(bytes + [byte], bits, Shr(w, 8), n - 8)
  {
    hide Lsb, OfBytes, Low, Shr, Pow2;
    TopByte(w, n);
    OfBytesPush(bytes, byte);
    assert OfBytes(bytes) + (Lsb(byte, 8) + Lsb(Shr(w, 8), n - 8)) == (OfBytes(bytes) + Lsb(byte, 8)) + Lsb(Shr(w, 8), n - 8);
  }

  lemma HoldsAppend(bytes: seq<u8>, bits: Bits, w: nat, n: nat, b: nat, l: nat)
    requires Holds(bytes, bits, w, n) && w < Pow2(n) && b < Pow2(l)
    ensures Holds(bytes, bits + Lsb(b, l), Or(w, Shl(b, n)), n + l)
  {
    hide Lsb, OfBytes, Or, Shl, Pow2;
    LsbAppend(w, n, b, l);
    assert OfBytes(bytes) + Lsb(w, n) + Lsb(b, l) == OfBytes(bytes) + (Lsb(w, n) + Lsb(b, l));
  }
}
