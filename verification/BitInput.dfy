/** The inflater's bit buffer and input cursor: `m_num_bits`, `m_bit_buf`, `pIn_buf_cur` and the macros that use them. */
module BitInput {
  import opened Bits
  import opened Canonical
  import opened DecodeTable
  import opened HuffTable
  import F = Format

  class BitInput {
    /** `TINFL_USE_64BIT_BITBUF`: a 64-bit buffer, refilled four bytes at a time, or a 32-bit one, refilled two at a time. */
    const wide: bool
    var numBits: nat
    var bitBuf: nat
    var inp: seq<u8>
    var inPos: nat
    /** All bytes taken from the caller: before this call, and up to now (not counting bytes put back). */
    ghost var fed0: seq<u8>
    ghost var fed: seq<u8>

    ghost function Cap(): nat { if wide then 64 else 32 }

    /** The stream position, in bits, of the next unread bit. */
    ghost function Pos(): int
      reads `fed, `numBits
    {
      8 * |fed| - numBits
    }

    /** The stream as far as it has been taken. */
    ghost function Stream(): (s: Bits)
      reads `fed
      ensures |s| == 8 * |fed|
    {
      OfBytes(fed)
    }

    ghost predicate Valid()
      reads this
    {
      && inPos <= |inp| && fed == fed0 + inp[..inPos]
      && numBits <= Cap() && bitBuf < Pow2(numBits)
      && 0 <= Pos() && Stream()[Pos()..] == Lsb(bitBuf, numBits)
    }

    constructor (wide: bool)
      ensures Valid() && fed == [] && inp == [] && inPos == 0 && numBits == 0 && this.wide == wide
    {
      this.wide := wide;
      numBits, bitBuf, inp, inPos := 0, 0, [], 0;
      fed0, fed := [], [];
    }

    /** A new call brings more input. */
    method StartCall(data: seq<u8>)
      requires Valid()
      modifies this`inp, this`inPos, this`fed0
      ensures Valid() && inp == data && inPos == 0 && fed0 == fed
    {
      hide Lsb, Pow2, OfBytes;
      inp, inPos := data, 0;
      fed0 := fed;
    }

    /** `bit_buf |= c << num_bits` for the next input byte. */
    method ReadByte()
      requires Valid() && inPos < |inp| && numBits + 8 <= Cap()
      modifies this`numBits, this`bitBuf, this`inPos, this`fed
      ensures Valid() && numBits == old(numBits) + 8 && inPos == old(inPos) + 1 && Pos() == old(Pos())
      ensures fed == old(fed) + [inp[old(inPos)]]
    {
      hide Lsb, Pow2, OfBytes, Or, Shl;
      var c := inp[inPos];
      BytePow(c);
      LsbAppend(bitBuf, numBits, c, 8);
      OfBytesPush(fed, c);
      SuffixGrows(OfBytes(fed), Lsb(c, 8), 8 * |fed| - numBits);
      bitBuf := Or(bitBuf, Shl(c, numBits));
      numBits := numBits + 8;
      inPos := inPos + 1;
      fed := fed + [c];
      assert inp[..inPos] == inp[..inPos - 1] + [c];
    }

    /** `TINFL_NEED_BITS`: bytes are read while there are fewer than `n` bits; it fails when the input runs out first. */
    method Need(n: nat) returns (ok: bool)
      requires Valid() && n <= 16
      modifies this`numBits, this`bitBuf, this`inPos, this`fed
      ensures Valid() && Pos() == old(Pos()) && old(inPos) <= inPos && numBits == old(numBits) + 8 * (inPos - old(inPos))
      ensures old(fed) <= fed
      ensures ok ==> numBits >= n && (inPos > old(inPos) ==> numBits < n + 8)
      ensures !ok ==> numBits < n && inPos == |inp|
    {
      hide Lsb, Pow2, OfBytes;
      while numBits < n
        invariant inPos > old(inPos) ==> numBits < n + 8
        invariant Valid() && Pos() == old(Pos()) && old(inPos) <= inPos && numBits == old(numBits) + 8 * (inPos - old(inPos))
        invariant old(fed) <= fed
        decreases |inp| - inPos
      {
        if inPos >= |inp| { return false; }
        ReadByte();
      }
      return true;
    }

    /** `b = bit_buf & ((1 << n) - 1); bit_buf >>= n; num_bits -= n` */
    method Take(n: nat) returns (v: nat)
      requires Valid() && n <= numBits
      modifies this`numBits, this`bitBuf
      ensures Valid() && Pos() == old(Pos()) + n && numBits == old(numBits) - n
      ensures old(Pos()) + n <= |Stream()| && v == F.Field(Stream(), old(Pos()), n) && v < Pow2(n)
    {
      hide Lsb, Pow2, OfBytes, Low, Shr;
      LsbLow(bitBuf, numBits, n);
      LowBound(bitBuf, n);
      LsbShr(bitBuf, numBits, n);
      ShrFits(bitBuf, numBits, n);
      SuffixParts(Stream(), Pos(), n);
      v := Low(bitBuf, n);
      bitBuf := Shr(bitBuf, n);
      numBits := numBits - n;
    }

    /** `*pIn_buf_cur++`, when the bit buffer is empty. */
    method TakeByte() returns (v: u8)
      requires Valid() && numBits == 0 && inPos < |inp|
      modifies this`inPos, this`fed
      ensures Valid() && Pos() == old(Pos()) + 8 && inPos == old(inPos) + 1 && fed == old(fed) + [inp[old(inPos)]]
      ensures 0 <= old(Pos()) && old(Pos()) + 8 <= |Stream()| && v == F.Field(Stream(), old(Pos()), 8)
    {
      hide Lsb, Pow2, OfBytes, Val;
      v := inp[inPos];
      OfBytesPush(fed, v);
      LsbByte(v);
      inPos := inPos + 1;
      fed := fed + [v];
      assert inp[..inPos] == inp[..inPos - 1] + [v];
      assert Stream()[8 * (|fed| - 1)..8 * |fed|] == Lsb(v, 8);
      LsbNone(bitBuf);
    }

    /** `TINFL_SKIP_BITS(.., num_bits & 7)`: dropping the rest of the byte never needs input. */
    method SkipToByte()
      requires Valid()
      modifies this`numBits, this`bitBuf
      ensures Valid() && Pos() == F.Align(old(Pos())) && numBits == old(numBits) / 8 * 8
    {
      hide Lsb, Pow2, OfBytes, F.Align;
      AlignRest(Pos(), numBits, |fed|);
      var _ := Take(numBits % 8);
    }

    /** Bytes that were read ahead in this call go back to the caller. */
    method PutBack()
      requires Valid()
      modifies this`numBits, this`bitBuf, this`inPos, this`fed
      ensures Valid() && Pos() == old(Pos()) && fed <= old(fed)
      ensures numBits < 8 || inPos == 0
      ensures inPos <= old(inPos) && numBits == old(numBits) - 8 * (old(inPos) - inPos)
    {
      hide Lsb, Pow2, OfBytes, Low;
      while inPos > 0 && numBits >= 8
        invariant inPos <= |inp| && fed == fed0 + inp[..inPos] && fed <= old(fed)
        invariant inPos <= old(inPos) && numBits == old(numBits) - 8 * (old(inPos) - inPos) && Pos() == old(Pos())
        invariant 0 <= Pos() && Stream()[Pos()..] == Lsb(bitBuf, numBits)
        decreases inPos
      {
        OfBytesPrefix(fed, |fed| - 1);
        LsbLow(bitBuf, numBits, numBits - 8);
        PrefixOfSuffix(Stream(), Pos(), 8 * (|fed| - 1));
        inPos := inPos - 1;
        numBits := numBits - 8;
        fed := fed[..|fed| - 1];
      }
      LsbLow(bitBuf, numBits, numBits);
      LowBound(bitBuf, numBits);
      LsbWhole(bitBuf, numBits);
      bitBuf := Low(bitBuf, numBits);
    }

    /** The look-up itself, once enough bits are there. */
    method TakeSymbol(t: HuffTable, ghost lens: seq<nat>) returns (sym: nat, ghost len: nat)
      requires Valid() && t.Shaped() && t.Ready(lens)
      requires numBits >= 15 || (!Partial(lens, Lsb(bitBuf, numBits)) && Found(lens, t.lookUp[..], t.tree[..], bitBuf).1 <= numBits)
      modifies this`numBits, this`bitBuf
      ensures Valid() && Pos() == old(Pos()) + len && numBits == old(numBits) - len
      ensures sym < |lens| && len <= 15 && (sym != 0 ==> len > 0) && old(Pos()) >= 0 && Read(lens, Stream(), old(Pos()), sym, len)
    {
      hide Lsb, Pow2, OfBytes, Shr, Partial, Found, Decodes, Resolves, Read, HuffTable.Shaped;
      var n;
      sym, n := t.Lookup(bitBuf, lens);
      len := n;
      ResolvedSmall(lens, bitBuf, sym, n);
      EnoughBits(lens, t.lookUp[..], t.tree[..], Lsb(bitBuf, numBits));
      ReadIs(lens, t.lookUp[..], t.tree[..], Stream(), Pos(), bitBuf, numBits, sym, n);
      LsbShr(bitBuf, numBits, n);
      ShrFits(bitBuf, numBits, n);
      SuffixParts(Stream(), Pos(), n);
      bitBuf := Shr(bitBuf, n);
      numBits := numBits - n;
    }

    /** `TINFL_HUFF_BITBUF_FILL`: one byte at a time, and none that is not needed to complete the code. */
    method Fill(t: HuffTable, ghost lens: seq<nat>, resuming: bool) returns (ok: bool)
      requires Valid() && t.Shaped() && t.Ready(lens) && numBits < 15
      modifies this`numBits, this`bitBuf, this`inPos, this`fed
      ensures Valid() && old(inPos) <= inPos && old(fed) <= fed && Pos() == old(Pos()) && numBits == old(numBits) + 8 * (inPos - old(inPos))
      ensures ok ==> numBits >= 15 || (!Partial(lens, Lsb(bitBuf, numBits)) && Found(lens, t.lookUp[..], t.tree[..], bitBuf).1 <= numBits)
      ensures !ok ==> inPos == |inp| && numBits < 15 && (NoneStarts(lens, Lsb(bitBuf, numBits)) || (resuming && inPos == old(inPos)))
    {
      hide Lsb, Pow2, OfBytes, Partial, Found, Decodes, NoneStarts, HuffTable.Shaped;
      var wantByte := resuming;
      while numBits < 15
        invariant Valid() && old(inPos) <= inPos && old(fed) <= fed && Pos() == old(Pos()) && numBits == old(numBits) + 8 * (inPos - old(inPos))
        invariant wantByte ==> resuming && inPos == old(inPos)
        decreases |inp| - inPos
      {
        if !wantByte {
          var done := t.Peek(bitBuf, numBits, lens);
          if done { return true; }
        }
        if inPos >= |inp| { return false; }
        ReadByte();
        wantByte := false;
      }
      return true;
    }

    /** `TINFL_HUFF_DECODE`.  `resuming` says that the last call ended inside it, waiting for a byte. */
    method HuffDecode(t: HuffTable, ghost lens: seq<nat>, resuming: bool) returns (ok: bool, sym: nat, ghost len: nat)
      requires Valid() && t.Shaped() && t.Ready(lens)
      requires resuming ==> numBits < 15 && NoneStarts(lens, Lsb(bitBuf, numBits))
      modifies this`numBits, this`bitBuf, this`inPos, this`fed
      ensures Valid() && old(inPos) <= inPos && old(fed) <= fed && old(Pos()) >= 0
      ensures ok ==> Pos() == old(Pos()) + len && numBits == old(numBits) + 8 * (inPos - old(inPos)) - len
      ensures ok ==> sym < |lens| && (sym != 0 ==> len > 0) && Read(lens, Stream(), old(Pos()), sym, len)
      ensures !ok ==> inPos == |inp| && Pos() == old(Pos()) && numBits == old(numBits) + 8 * (inPos - old(inPos)) && numBits < 15
      ensures !ok ==> NoneStarts(lens, Lsb(bitBuf, numBits))
    {
      hide Lsb, Pow2, OfBytes, Partial, Found, Decodes, NoneStarts, Read, HuffTable.Shaped;
      sym, len := 0, 0;
      if numBits < 15 {
        if resuming || |inp| - inPos < 2 {
          ok := Fill(t, lens, resuming);
          if !ok { return; }
        } else {
          ReadByte();
          ReadByte();
        }
      }
      ok := true;
      sym, len := TakeSymbol(t, lens);
    }

    /** The refill of the fast loop, which runs only when four bytes of input are left. */
    method Refill()
      requires Valid() && |inp| - inPos >= (if wide then 4 else 2)
      modifies this`numBits, this`bitBuf, this`inPos, this`fed
      ensures Valid() && Pos() == old(Pos()) && old(inPos) <= inPos && numBits == old(numBits) + 8 * (inPos - old(inPos)) && old(fed) <= fed
      ensures numBits >= (if wide then 30 else 15) && inPos <= old(inPos) + (if wide then 4 else 2)
    {
      hide Lsb, Pow2, OfBytes;
      if wide {
        if numBits < 30 {
          ReadByte();
          ReadByte();
          ReadByte();
          ReadByte();
        }
      } else if numBits < 15 {
        ReadByte();
        ReadByte();
      }
    }
  }

  /** The ways a symbol comes out of the stream: its code was next, or no code fits the bits that were next. */
  ghost predicate Read(lens: seq<nat>, s: Bits, pos: nat, sym: nat, len: nat) {
    pos <= |s| &&
    match F.Decode(lens, s[pos..])
    case Sym(t) => t == sym && lens[t] == len
    case NoCode => true
    case Short => false
  }

  lemma ResolvedSmall(lens: seq<nat>, bitBuf: nat, sym: nat, len: nat)
    requires Resolves(lens, bitBuf, sym, len)
    ensures sym < |lens| && len <= 15 && (sym != 0 ==> len > 0)
  {
  }

  /** Fifteen bits are never only part of a code. */
  lemma EnoughBits(lens: seq<nat>, lookUp: seq<int>, tree: seq<int>, bits: Bits)
    requires Decodes(lens, lookUp, tree)
    ensures |bits| >= 15 ==> !Partial(lens, bits)
  {
    hide CodeBits, Leads, Safe, Lsb;
  }

  lemma ReadIs(lens: seq<nat>, lookUp: seq<int>, tree: seq<int>, s: Bits, pos: nat, bitBuf: nat, numBits: nat, sym: nat, len: nat)
    requires Decodes(lens, lookUp, tree) && pos <= |s| && s[pos..] == Lsb(bitBuf, numBits)
    requires Resolves(lens, bitBuf, sym, len) && !Partial(lens, Lsb(bitBuf, numBits))
    ensures Read(lens, s, pos, sym, len)
  {
    hide Lsb, CodeBits, Partial, Entry, LongOk;
    var d := F.Decode(lens, s[pos..]);
    if d.Sym? {
      LsbPrefix(bitBuf, numBits, lens[d.sym]);
      LsbPrefix(bitBuf, 15, lens[d.sym]);
      assert CodeBits(lens, d.sym) == Lsb(bitBuf, numBits)[..lens[d.sym]];
      assert Starts(lens, d.sym, Lsb(bitBuf, 15));
    }
  }

  lemma BytePow(c: u8)
    ensures c < Pow2(8)
  {
    Pow2Values();
  }

  lemma AlignRest(p: nat, n: nat, f: nat)
    requires p + n == 8 * f
    ensures F.Align(p) == p + n % 8 && n - n % 8 == n / 8 * 8
  {
  }

  lemma LsbByte(c: u8)
    ensures Val(Lsb(c, 8)) == c
  {
    ValLsb(c, 8);
    LowBound(c, 8);
    Pow2Values();
  }

  lemma LsbNone(w: nat)
    ensures Lsb(w, 0) == []
  {
  }

  lemma SuffixGrows(s: Bits, t: Bits, p: nat)
    requires p <= |s|
    ensures (s + t)[p..] == s[p..] + t
  {
  }

  lemma SuffixParts(s: Bits, p: nat, n: nat)
    requires p + n <= |s|
    ensures s[p..][..n] == s[p..p + n] && s[p..][n..] == s[p + n..]
  {
  }

  lemma PrefixOfSuffix(s: Bits, p: nat, e: nat)
    requires p <= e <= |s|
    ensures s[..e][p..] == s[p..][..e - p]
  {
  }

  lemma LsbWhole(w: nat, n: nat)
    ensures Lsb(w, n)[..n] == Lsb(w, n)
  {
  }

  lemma ShrFits(w: nat, m: nat, n: nat)
    requires n <= m && w < Pow2(m)
    ensures Shr(w, n) < Pow2(m - n)
  {
    ShrBound(w, m - n, n);
  }
}
