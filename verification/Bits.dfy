/** Bit strings and the C shift, mask and or operators on unsigned words.

    DEFLATE packs numbers least significant bit first (section 3.1.1 of RFC 1951).  A `Bits` value is a
    run of stream bits in the order in which they are sent.  The operators are defined one bit at a time,
    which keeps every proof below linear. */
module Bits {
  type Bits = seq<bool>
  type u8 = x: nat | x < 256

  function Pow2(n: nat): (p: nat)
    ensures p > 0
  {
    if n == 0 then 1 else 2 * Pow2(n - 1)
  }

  /** `w << n` */
  function Shl(w: nat, n: nat): nat {
    if n == 0 then w else 2 * Shl(w, n - 1)
  }

  /** `w >> n` */
  function Shr(w: nat, n: nat): nat {
    if n == 0 then w else Shr(w / 2, n - 1)
  }

  /** `w & ((1 << n) - 1)` */
  function Low(w: nat, n: nat): nat {
    if n == 0 then 0 else w % 2 + 2 * Low(w / 2, n - 1)
  }

  /** `a | b` */
  function Or(a: nat, b: nat): nat
    decreases a
  {
    if a == 0 then b
    else (if a % 2 == 1 || b % 2 == 1 then 1 else 0) + 2 * Or(a / 2, b / 2)
  }

  /** The low `n` bits of `w`, least significant first. */
  function Lsb(w: nat, n: nat): (b: Bits)
    ensures |b| == n
  {
    if n == 0 then [] else [w % 2 == 1] + Lsb(w / 2, n - 1)
  }

  /** The low `n` bits of `w`, most significant first: the order in which a Huffman code is sent. */
  function Msb(w: nat, n: nat): (b: Bits)
    ensures |b| == n
  {
    if n == 0 then [] else Msb(w / 2, n - 1) + [w % 2 == 1]
  }

  /** The number whose least significant bit is `b[0]`. */
  function Val(b: Bits): (v: nat)
    ensures v < Pow2(|b|)
  {
    if b == [] then 0 else (if b[0] then 1 else 0) + 2 * Val(b[1..])
  }

  /** The bits of a byte stream. */
  function OfBytes(s: seq<u8>): (b: Bits)
    ensures |b| == 8 * |s|
  {
    if s == [] then [] else OfBytes(s[..|s| - 1]) + Lsb(s[|s| - 1], 8)
  }

  // ----- powers and shifts

  lemma Pow2Values()
    ensures Pow2(0) == 1 && Pow2(8) == 256 && Pow2(10) == 1024 && Pow2(15) == 32768 && Pow2(16) == 65536
  {
  }

  lemma {:induction false} Pow2Mono(m: nat, n: nat)
    requires m <= n
    ensures Pow2(m) <= Pow2(n)
  {
    if m < n { Pow2Mono(m, n - 1); }
  }

  lemma {:induction false} ShlMono(a: nat, b: nat, n: nat)
    requires a <= b
    ensures Shl(a, n) <= Shl(b, n)
  {
    if n > 0 { ShlMono(a, b, n - 1); }
  }

  lemma {:induction false} ShlCancel(a: nat, b: nat, n: nat)
    requires Shl(a, n) <= Shl(b, n)
    ensures a <= b
  {
    if n > 0 { ShlCancel(a, b, n - 1); }
  }

  lemma {:induction false} ShlSum(a: nat, b: nat, n: nat)
    ensures Shl(a + b, n) == Shl(a, n) + Shl(b, n)
  {
    if n > 0 { ShlSum(a, b, n - 1); }
  }

  lemma {:induction false} ShlShl(a: nat, m: nat, n: nat)
    ensures Shl(Shl(a, m), n) == Shl(a, m + n)
  {
    if n > 0 { ShlShl(a, m, n - 1); }
  }

  lemma {:induction false} ShlPow2(m: nat, n: nat)
    ensures Shl(Pow2(m), n) == Pow2(m + n)
  {
    if n > 0 { ShlPow2(m, n - 1); }
  }

  lemma {:induction false} ShlShr(w: nat, n: nat)
    ensures Shl(Shr(w, n), n) <= w < Shl(Shr(w, n) + 1, n)
  {
    if n > 0 {
      ShlShr(w / 2, n - 1);
    }
  }

  lemma {:induction false} ShrBound(w: nat, m: nat, n: nat)
    requires w < Pow2(m + n)
    ensures Shr(w, n) < Pow2(m)
  {
    if n > 0 { ShrBound(w / 2, m, n - 1); }
  }

  lemma {:induction false} ShrSucc(w: nat, n: nat)
    ensures Shr(w, n + 1) == Shr(w, n) / 2
  {
    if n > 0 { ShrSucc(w / 2, n - 1); }
  }

  lemma {:induction false} LowBound(w: nat, n: nat)
    ensures Low(w, n) < Pow2(n)
    ensures w < Pow2(n) ==> Low(w, n) == w
  {
    if n > 0 { LowBound(w / 2, n - 1); }
  }

  lemma {:induction false} LowAdd(w: nat, n: nat)
    ensures Low(w + Pow2(n), n) == Low(w, n)
  {
    if n > 0 { LowAdd(w / 2, n - 1); }
  }

  /** Two words that agree in their low `n` bits are at least `1 << n` apart. */
  lemma {:induction false} LowGap(v: nat, w: nat, n: nat)
    requires v < w && Low(v, n) == Low(w, n)
    ensures v + Pow2(n) <= w
  {
    if n > 0 { LowGap(v / 2, w / 2, n - 1); }
  }

  lemma {:induction false} LowSmallest(w: nat, n: nat)
    ensures Low(w, n) <= w
    ensures Low(Low(w, n), n) == Low(w, n)
  {
    LowBound(w, n);
    LowBound(Low(w, n), n);
    if n > 0 { LowSmallest(w / 2, n - 1); }
  }

  // ----- remainders

  lemma ModUnique(x: int, r: nat, q: int, size: nat)
    requires 0 < size && r < size && x == r + q * size
    ensures x % size == r
  {
    var e := x / size - q;
    assert x == (x / size) * size + x % size;
    assert e * size == r - x % size;
    assert e >= 1 ==> e * size >= size;
    assert e <= -1 ==> e * size <= 0 - size;
  }

  // ----- Lsb and Val

  lemma {:induction false} LsbVal(b: Bits)
    ensures Lsb(Val(b), |b|) == b
  {
    if b != [] { LsbVal(b[1..]); }
  }

  lemma {:induction false} ValLsb(w: nat, n: nat)
    ensures Val(Lsb(w, n)) == Low(w, n)
  {
    if n > 0 {
      ValLsb(w / 2, n - 1);
      assert Lsb(w, n)[1..] == Lsb(w / 2, n - 1);
    }
  }

  /** Dropping the low `k` bits of a word drops the first `k` stream bits. */
  lemma {:induction false} LsbShr(w: nat, n: nat, k: nat)
    requires k <= n
    ensures Lsb(Shr(w, k), n - k) == Lsb(w, n)[k..]
  {
    if k > 0 { LsbShr(w / 2, n - 1, k - 1); }
  }

  /** Masking a word keeps the first `k` stream bits. */
  lemma {:induction false} LsbLow(w: nat, n: nat, k: nat)
    requires k <= n
    ensures Lsb(Low(w, k), k) == Lsb(w, n)[..k] == Lsb(w, k)
    ensures Low(w, k) == Val(Lsb(w, n)[..k])
  {
    LsbPrefix(w, n, k);
    LsbOfLow(w, k);
    ValLsb(w, k);
  }

  lemma {:induction false} LsbPrefix(w: nat, n: nat, k: nat)
    requires k <= n
    ensures Lsb(w, n)[..k] == Lsb(w, k)
  {
    if k > 0 { LsbPrefix(w / 2, n - 1, k - 1); }
  }

  lemma {:induction false} LsbOfLow(w: nat, k: nat)
    ensures Lsb(Low(w, k), k) == Lsb(w, k)
  {
    if k > 0 {
      LsbOfLow(w / 2, k - 1);
      assert (w % 2 + 2 * Low(w / 2, k - 1)) / 2 == Low(w / 2, k - 1);
    }
  }

  /** Shifting a field above the buffered bits and or-ing it in appends its bits. */
  lemma {:induction false} LsbAppend(a: nat, n: nat, w: nat, m: nat)
    requires a < Pow2(n) && w < Pow2(m)
    ensures Or(a, Shl(w, n)) < Pow2(n + m)
    ensures Lsb(Or(a, Shl(w, n)), n + m) == Lsb(a, n) + Lsb(w, m)
  {
    if n == 0 {
      assert Lsb(a, 0) + Lsb(w, m) == Lsb(w, m);
    } else {
      LsbAppend(a / 2, n - 1, w, m);
      assert Shl(w, n) == 2 * Shl(w, n - 1);
      if a == 0 {
        assert Or(a, Shl(w, n)) == Shl(w, n) && Or(a / 2, Shl(w, n - 1)) == Shl(w, n - 1);
      } else {
        assert Or(a, Shl(w, n)) == a % 2 + 2 * Or(a / 2, Shl(w, n - 1));
      }
      assert Or(a, Shl(w, n)) % 2 == a % 2 && Or(a, Shl(w, n)) / 2 == Or(a / 2, Shl(w, n - 1));
      assert Lsb(a, n) + Lsb(w, m) == [a % 2 == 1] + (Lsb(a / 2, n - 1) + Lsb(w, m));
    }
  }

  lemma {:induction false} LsbIndex(w: nat, n: nat, k: nat)
    requires k < n
    ensures Lsb(w, n)[k] == (Shr(w, k) % 2 == 1)
  {
    if k > 0 { LsbIndex(w / 2, n - 1, k - 1); }
  }

  // ----- Msb

  lemma {:induction false} MsbPrefix(w: nat, n: nat, k: nat)
    requires k <= n
    ensures Msb(w, n)[..k] == Msb(Shr(w, n - k), k)
  {
    if k < n {
      MsbPrefix(w / 2, n - 1, k);
      assert Msb(w, n)[..k] == Msb(w / 2, n - 1)[..k];
    } else {
      assert Msb(w, n)[..n] == Msb(w, n);
    }
  }

  lemma {:induction false} MsbInjective(a: nat, b: nat, n: nat)
    requires a < Pow2(n) && b < Pow2(n) && Msb(a, n) == Msb(b, n)
    ensures a == b
  {
    if n > 0 {
      assert Msb(a, n)[..n - 1] == Msb(a / 2, n - 1) && Msb(b, n)[..n - 1] == Msb(b / 2, n - 1);
      assert Msb(a, n)[n - 1] == (a % 2 == 1) && Msb(b, n)[n - 1] == (b % 2 == 1);
      MsbInjective(a / 2, b / 2, n - 1);
    }
  }

  lemma {:induction false} MsbHead(w: nat, n: nat)
    ensures Msb(w, n + 1) == [Shr(w, n) % 2 == 1] + Msb(w, n)
  {
    if n > 0 {
      MsbHead(w / 2, n - 1);
      assert Msb(w, n + 1) == Msb(w / 2, n) + [w % 2 == 1];
    }
  }

  // ----- byte streams

  lemma {:induction false} OfBytesAppend(s: seq<u8>, t: seq<u8>)
    ensures OfBytes(s + t) == OfBytes(s) + OfBytes(t)
  {
    hide Lsb;
    if t == [] {
      assert s + t == s;
    } else {
      var u := t[..|t| - 1];
      assert (s + t)[..|s + t| - 1] == s + u;
      OfBytesAppend(s, u);
      var last := Lsb(t[|t| - 1], 8);
      assert OfBytes(t) == OfBytes(u) + last;
      assert (OfBytes(s) + OfBytes(u)) + last == OfBytes(s) + (OfBytes(u) + last);
    }
  }

  lemma OfBytesPush(s: seq<u8>, b: u8)
    ensures OfBytes(s + [b]) == OfBytes(s) + Lsb(b, 8)
  {
    assert (s + [b])[..|s|] == s;
  }

  lemma {:induction false} OfBytesPrefix(s: seq<u8>, k: nat)
    requires k <= |s|
    ensures OfBytes(s[..k]) == OfBytes(s)[..8 * k]
  {
    OfBytesAppend(s[..k], s[k..]);
    assert s[..k] + s[k..] == s;
  }
}
