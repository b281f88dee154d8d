/** Adler-32 (section 2.2 of RFC 1950): the byte-at-a-time definition, and the block-wise loop with deferred reduction. */
module Adler {
  import opened Bits

  const ADLER_INIT := 1
  const BASE := 65521
  const BLOCK := 5552

  datatype Sums = Sums(s1: nat, s2: nat)

  /** The two running sums after one more byte. */
  function Push(a: Sums, b: u8): Sums {
    Sums((a.s1 + b) % BASE, (a.s2 + a.s1 + b) % BASE)
  }

  function Fold(a: Sums, s: seq<u8>): Sums {
    if s == [] then a else Push(Fold(a, s[..|s| - 1]), s[|s| - 1])
  }

  function Split(adler: nat): Sums {
    Sums(adler % 65536, adler / 65536)
  }

  function Join(a: Sums): nat {
    a.s2 * 65536 + a.s1
  }

  /** The checksum of `s`, going on from the checksum `adler` of what came before. */
  function Adler32(adler: nat, s: seq<u8>): nat {
    Join(Fold(Split(adler), s))
  }

  lemma {:induction false} FoldConcat(a: Sums, s: seq<u8>, t: seq<u8>)
    ensures Fold(a, s + t) == Fold(Fold(a, s), t)
  {
    if t == [] {
      assert s + t == s;
    } else {
      assert (s + t)[..|s + t| - 1] == s + t[..|t| - 1];
      FoldConcat(a, s, t[..|t| - 1]);
    }
  }

  lemma FoldSmall(a: Sums, s: seq<u8>)
    requires a.s1 < 65536 && a.s2 < 65536
    ensures Fold(a, s).s1 < 65536 && Fold(a, s).s2 < 65536
    ensures s != [] ==> Fold(a, s).s1 < BASE && Fold(a, s).s2 < BASE
  {
  }

  /** A checksum taken in two pieces is the checksum of the whole. */
  lemma Composes(adler: nat, s: seq<u8>, t: seq<u8>)
    requires adler < 0x1_0000_0000
    ensures Adler32(Adler32(adler, s), t) == Adler32(adler, s + t)
    ensures Adler32(adler, s) < 0x1_0000_0000
  {
    hide Fold;
    FoldSmall(Split(adler), s);
    FoldConcat(Split(adler), s, t);
    SplitJoin(Fold(Split(adler), s));
  }

  lemma SplitJoin(a: Sums)
    requires a.s1 < 65536
    ensures Split(Join(a)) == a
  {
  }

  // ----- how far the sums can grow before they are reduced

  function Most(i: nat): nat {
    if i == 0 then 65535 else Most(i - 1) + 65535 + 255 * i
  }

  lemma {:induction false} MostClosed(i: nat)
    ensures 2 * Most(i) == 131070 * (i + 1) + 255 * (i * (i + 1))
  {
    if i > 0 {
      MostClosed(i - 1);
      assert i * (i + 1) == (i - 1) * i + 2 * i;
    }
  }

  lemma {:induction false} MostMono(i: nat, j: nat)
    requires i <= j
    ensures Most(i) <= Most(j)
  {
    if i < j { MostMono(i, j - 1); }
  }

  /** The largest block keeps the second sum below two to the 32. */
  lemma MostFits(i: nat)
    requires i <= BLOCK
    ensures Most(i) < 0x1_0000_0000
  {
    MostMono(i, BLOCK);
    MostClosed(BLOCK);
  }

  // ----- sums without reduction

  function Raw(a: Sums, s: seq<u8>): Sums {
    if s == [] then a
    else
      var r := Raw(a, s[..|s| - 1]);
      Sums(r.s1 + s[|s| - 1], r.s2 + r.s1 + s[|s| - 1])
  }

  lemma RawNext(a: Sums, s: seq<u8>, i: nat)
    requires i < |s|
    ensures Raw(a, s[..i + 1]) == Sums(Raw(a, s[..i]).s1 + s[i], Raw(a, s[..i]).s2 + Raw(a, s[..i]).s1 + s[i])
  {
    assert s[..i + 1][..i] == s[..i];
  }

  lemma {:induction false} RawBounded(a: Sums, s: seq<u8>)
    requires a.s1 < 65536 && a.s2 < 65536
    ensures Raw(a, s).s1 <= 65535 + 255 * |s| && Raw(a, s).s2 <= Most(|s|)
  {
    if s != [] { RawBounded(a, s[..|s| - 1]); }
  }

  /** Reducing at the end comes to the same as reducing after every byte. */
  lemma {:induction false} RawReduces(a: Sums, s: seq<u8>)
    ensures Raw(a, s).s1 % BASE == Fold(a, s).s1 % BASE && Raw(a, s).s2 % BASE == Fold(a, s).s2 % BASE
    ensures s != [] ==> Fold(a, s) == Sums(Raw(a, s).s1 % BASE, Raw(a, s).s2 % BASE)
  {
    hide Raw, Fold;
    if s == [] {
      RawNone(a);
      FoldNone(a);
    } else {
      var t := s[..|s| - 1];
      RawReduces(a, t);
      RawNext(a, s, |t|);
      assert s[..|t| + 1] == s;
      FoldNext(a, s);
      PushReduces(Raw(a, t), Fold(a, t), s[|t|]);
    }
  }

  lemma FoldNext(a: Sums, s: seq<u8>)
    requires s != []
    ensures Fold(a, s) == Push(Fold(a, s[..|s| - 1]), s[|s| - 1])
  {
  }

  lemma PushReduces(r: Sums, f: Sums, b: u8)
    requires r.s1 % BASE == f.s1 % BASE && r.s2 % BASE == f.s2 % BASE
    ensures Push(f, b) == Sums((r.s1 + b) % BASE, (r.s2 + r.s1 + b) % BASE)
  {
    AddMod(r.s1, f.s1, b);
    AddMod(r.s2, f.s2, r.s1 + b);
    AddMod(r.s1, f.s1, f.s2 + b);
  }

  lemma AddMod(x: nat, y: nat, b: nat)
    requires x % BASE == y % BASE
    ensures (x + b) % BASE == (y + b) % BASE
  {
    assert x + b == y + b + BASE * (x / BASE - y / BASE);
  }

  /** Reducing early changes nothing once another byte follows. */
  lemma {:induction false} ReduceEarly(a: Sums, s: seq<u8>)
    requires s != []
    ensures Fold(Sums(a.s1 % BASE, a.s2 % BASE), s) == Fold(a, s)
  {
    hide Fold;
    var t := s[..|s| - 1];
    var b := Sums(a.s1 % BASE, a.s2 % BASE);
    FoldNext(a, s);
    FoldNext(b, s);
    if t == [] {
      FoldNone(a);
      FoldNone(b);
      PushReduces(a, b, s[0]);
    } else {
      ReduceEarly(a, t);
    }
  }

  datatype Buffer = Null | Bytes(bytes: seq<u8>)

  /** `mz_adler32`. */
  method UpdateAdler32(adler: nat, ptr: Buffer) returns (r: nat)
    requires adler < 0x1_0000_0000
    ensures ptr.Null? ==> r == ADLER_INIT
    ensures ptr.Bytes? ==> r == Adler32(adler, ptr.bytes)
  {
    hide Fold;
    if ptr.Null? { return ADLER_INIT; }
    var s1: nat, s2: nat := adler % 65536, adler / 65536;
    var bytes := ptr.bytes;
    var bufLen := |bytes|;
    var blockLen: nat, p: nat := bufLen % BLOCK, 0;
    ghost var start := Split(adler);
    while bufLen > 0
      invariant 0 <= bufLen && p + bufLen == |bytes| && (bufLen > 0 ==> blockLen <= bufLen) && blockLen <= BLOCK
      invariant bufLen > 0 ==> (bufLen - blockLen) % BLOCK == 0
      invariant s1 < 65536 && s2 < 65536 && Fold(Sums(s1, s2), bytes[p..]) == Fold(start, bytes)
      decreases bufLen, BLOCK - blockLen
    {
      ghost var before := Sums(s1, s2);
      var block := bytes[p..p + blockLen];
      s1, s2 := Block(s1, s2, block);
      BlockFolds(before, block, bytes[p + blockLen..], Sums(s1, s2));
      assert block + bytes[p + blockLen..] == bytes[p..];
      p := p + blockLen;
      bufLen := bufLen - blockLen;
      blockLen := BLOCK;
    }
    assert bytes[p..] == [];
    FoldNone(Sums(s1, s2));
    r := s2 * 65536 + s1;
  }

  lemma FoldNone(a: Sums)
    ensures Fold(a, []) == a
  {
  }

  lemma BlockFolds(a: Sums, block: seq<u8>, rest: seq<u8>, b: Sums)
    requires block != [] ==> b == Fold(a, block)
    requires block == [] ==> b == Sums(a.s1 % BASE, a.s2 % BASE) && rest != []
    ensures Fold(b, rest) == Fold(a, block + rest)
  {
    hide Fold;
    if block == [] {
      ReduceEarly(a, rest);
      assert block + rest == rest;
    } else {
      FoldConcat(a, block, rest);
    }
  }

  /** One block of at most 5552 bytes, eight at a time and then one at a time, reduced once at the end.  The asserted bounds
      say that no 32-bit sum wraps around on the way. */
  method Block(s1: nat, s2: nat, block: seq<u8>) returns (r1: nat, r2: nat)
    requires s1 < 65536 && s2 < 65536 && |block| <= BLOCK
    ensures block != [] ==> Sums(r1, r2) == Fold(Sums(s1, s2), block)
    ensures block == [] ==> r1 == s1 % BASE && r2 == s2 % BASE
    ensures r1 < BASE && r2 < BASE
  {
    hide Fold, Raw, Most;
    ghost var a := Sums(s1, s2);
    RawNone(a);
    assert block[..0] == [];
    r1, r2 := s1, s2;
    var i := 0;
    while i + 7 < |block|
      invariant i <= |block| && Sums(r1, r2) == Raw(a, block[..i])
    {
      r1, r2 := AddByte(a, r1, r2, block, i);
      r1, r2 := AddByte(a, r1, r2, block, i + 1);
      r1, r2 := AddByte(a, r1, r2, block, i + 2);
      r1, r2 := AddByte(a, r1, r2, block, i + 3);
      r1, r2 := AddByte(a, r1, r2, block, i + 4);
      r1, r2 := AddByte(a, r1, r2, block, i + 5);
      r1, r2 := AddByte(a, r1, r2, block, i + 6);
      r1, r2 := AddByte(a, r1, r2, block, i + 7);
      i := i + 8;
    }
    while i < |block|
      invariant i <= |block| && Sums(r1, r2) == Raw(a, block[..i])
    {
      r1, r2 := AddByte(a, r1, r2, block, i);
      i := i + 1;
    }
    assert block[..i] == block;
    RawReduces(a, block);
    r1, r2 := r1 % BASE, r2 % BASE;
  }

  lemma RawNone(a: Sums)
    ensures Raw(a, []) == a
  {
  }

  /** `s1 += ptr[i], s2 += s1` */
  method AddByte(ghost a: Sums, s1: nat, s2: nat, block: seq<u8>, i: nat) returns (r1: nat, r2: nat)
    requires a.s1 < 65536 && a.s2 < 65536 && i < |block| <= BLOCK && Sums(s1, s2) == Raw(a, block[..i])
    ensures Sums(r1, r2) == Raw(a, block[..i + 1])
    ensures r1 < 0x1_0000_0000 && r2 < 0x1_0000_0000
  {
    hide Raw, Most;
    RawNext(a, block, i);
    RawBounded(a, block[..i + 1]);
    MostFits(i + 1);
    r1 := s1 + block[i];
    r2 := s2 + r1;
  }
}
