/** The compressor's dictionary: a ring of the last source bytes with a mirrored head, the bytes still to be coded, the hash chains,
    and the search for matches. */
module Dictionary {
  import opened Bits
  import opened LzCodes

  const HASH_SHIFT := 5
  const HASH_BITS := 15
  const DICT_LEN := 33025

  /** `a ^ b` */
  function Xor(a: nat, b: nat): nat
    decreases a
  {
    if a == 0 then b else (if a % 2 == b % 2 then 0 else 1) + 2 * Xor(a / 2, b / 2)
  }

  /** `len` bytes from `at` on are the same as those `dist` back. */
  ghost predicate SameBytes(src: seq<u8>, at: nat, dist: nat, len: nat) {
    && 1 <= dist <= at && at + len <= |src|
    && forall k :: at <= k < at + len ==> src[k] == src[k - dist]
  }

  /** The same bytes end there, or all there may be have been compared. */
  ghost predicate Longest(src: seq<u8>, at: nat, dist: nat, len: nat) {
    SameBytes(src, at, dist, len) && (at + len == |src| || src[at + len] != src[at + len - dist])
  }

  /** Where a source position is in the ring. */
  function Slot(i: nat): (s: nat)
    ensures s < LZ_DICT_SIZE
  {
    i % LZ_DICT_SIZE
  }

  lemma SlotSame(i: nat, j: nat)
    requires Slot(i) == Slot(j) && i < j
    ensures j - i >= LZ_DICT_SIZE
  {
  }

  lemma SlotAdd(i: nat, k: nat)
    requires k <= 257
    ensures Slot(i + k) == if Slot(i) + k < LZ_DICT_SIZE then Slot(i) + k else Slot(i) + k - LZ_DICT_SIZE
  {
  }

  /** A chain entry holds only the low 16 bits of a position, which say where it is in the ring. */
  lemma ProbeSlot(pos: nat, next: nat, dist: nat)
    requires next < 65536 && dist == (pos - next) % 65536 && dist <= pos
    ensures Slot(next) == Slot(pos - dist)
  {
    var q := (pos - next) / 65536;
    assert pos - next == 65536 * q + dist;
    assert pos - dist == next + LZ_DICT_SIZE * (2 * q);
    SlotPeriod(next, pos - dist, 2 * q);
  }

  lemma SlotPeriod(i: nat, j: nat, q: int)
    requires j == i + LZ_DICT_SIZE * q
    ensures Slot(i) == Slot(j)
  {
    ModUnique(j, i % LZ_DICT_SIZE, i / LZ_DICT_SIZE + q, LZ_DICT_SIZE);
  }

  /** The ring holds the last bytes of the source, from position `low` on at least as far as there is room. */
  ghost predicate Holding(dict: seq<u8>, src: seq<u8>, low: nat) {
    && |dict| == DICT_LEN && (forall i :: 0 <= i < DICT_LEN - LZ_DICT_SIZE ==> dict[LZ_DICT_SIZE + i] == dict[i])
    && forall i :: low <= i < |src| && |src| - i <= LZ_DICT_SIZE ==> dict[Slot(i)] == src[i]
  }

  /** One more byte, put into the ring and its mirror. */
  lemma HoldingNext(dict: seq<u8>, dict': seq<u8>, src: seq<u8>, low: nat, c: u8)
    requires Holding(dict, src, low) && |dict'| == DICT_LEN
    requires forall i :: 0 <= i < DICT_LEN ==> dict'[i] == if i == Slot(|src|) || i == LZ_DICT_SIZE + Slot(|src|) then c else dict[i]
    ensures Holding(dict', src + [c], low)
  {
    hide Slot;
    forall i | low <= i < |src + [c]| && |src + [c]| - i <= LZ_DICT_SIZE ensures dict'[Slot(i)] == (src + [c])[i] {
      if i < |src| && Slot(i) == Slot(|src|) { SlotSame(i, |src|); }
    }
  }

  /** What the ring and its mirror have in a row from a position on is what the source has. */
  lemma HoldingAt(dict: seq<u8>, src: seq<u8>, low: nat, i: nat, k: nat)
    requires Holding(dict, src, low) && low <= i && |src| - i <= LZ_DICT_SIZE && i + k < |src| && k <= 257
    ensures Slot(i) + k < DICT_LEN && dict[Slot(i) + k] == src[i + k]
  {
    hide Slot;
    SlotAdd(i, k);
  }

  /** What comes of looking at one candidate. */
  datatype Probe = Stop | Miss | Hit

  class Dictionary {
    const dict: array<u8>
    const hash: array<nat>
    const next: array<nat>
    /** `m_lookahead_pos`, `m_lookahead_size`, `m_dict_size` */
    var pos: nat
    var ahead: nat
    var size: nat
    /** Everything that has come in. */
    ghost var src: seq<u8>

    ghost predicate Shape() {
      dict.Length == DICT_LEN && hash.Length == next.Length == LZ_DICT_SIZE && hash != next && dict as object != hash && dict as object != next
    }

    /** Whatever the chains say, their entries are 16-bit numbers. */
    ghost predicate Chains()
      reads hash, next
    {
      && (forall i :: 0 <= i < hash.Length ==> hash[i] < 65536) && (forall i :: 0 <= i < next.Length ==> next[i] < 65536)
    }

    ghost predicate Valid()
      reads this, dict, hash, next
    {
      && Shape() && Chains() && |src| == pos + ahead && ahead <= MAX_MATCH_LEN && size <= pos && size + ahead <= LZ_DICT_SIZE
      && Holding(dict[..], src, pos - size)
    }

    constructor ()
      ensures Valid() && pos == ahead == size == 0 && src == [] && fresh(dict) && fresh(hash) && fresh(next)
    {
      dict := new u8[DICT_LEN](_ => 0);
      hash := new nat[LZ_DICT_SIZE](_ => 0);
      next := new nat[LZ_DICT_SIZE](_ => 0);
      pos, ahead, size, src := 0, 0, 0, [];
    }

    lemma Facts()
      requires Valid()
      ensures Shape() && |src| == pos + ahead && ahead <= MAX_MATCH_LEN && size <= pos && size + ahead <= LZ_DICT_SIZE
    {
    }

    // ----- bringing bytes in

    /** A byte goes into the ring, and into the mirror if it belongs there. */
    method Store(c: u8, dst: nat, ghost low: nat)
      requires Shape() && Holding(dict[..], src, low) && dst == Slot(|src|)
      modifies dict, this`src
      ensures src == old(src) + [c] && Holding(dict[..], src, low)
    {
      hide Holding;
      ghost var before := dict[..];
      dict[dst] := c;
      if dst < MAX_MATCH_LEN - 1 { dict[LZ_DICT_SIZE + dst] := c; }
      HoldingNext(before, dict[..], src, low, c);
      src := src + [c];
    }

    /** The chain of a hash value gets a new head. */
    method Insert(h: nat, insPos: nat)
      requires Shape() && Chains() && h < LZ_DICT_SIZE
      modifies hash, next
      ensures Chains()
    {
      next[Slot(insPos)] := hash[h];
      hash[h] := insPos % 65536;
    }

    /** Bytes come in and are hashed, the hash of the two before them being known. */
    method FillFast(inp: seq<u8>, i: nat) returns (i': nat)
      requires Valid() && i <= |inp| && ahead + size >= MIN_MATCH_LEN - 1
      modifies this`ahead, this`src, dict, hash, next
      ensures Shape() && Chains() && |src| == pos + ahead && ahead <= MAX_MATCH_LEN && Holding(dict[..], src, pos - size)
      ensures i' == i + Room(|inp| - i, old(ahead)) && ahead == old(ahead) + (i' - i) && src == old(src) + inp[i..i']
    {
      hide Holding, Xor, Shl, Low, Slot;
      var dstPos, insPos: nat := Slot(pos + ahead), pos + ahead - 2;
      var h := Xor(Shl(dict[Slot(insPos)], HASH_SHIFT), dict[Slot(insPos + 1)]);
      var n := Room(|inp| - i, ahead);
      i' := i;
      ahead := ahead + n;
      while i' != i + n
        invariant i <= i' <= i + n && src == old(src) + inp[i..i'] && Chains() && Holding(dict[..], src, pos - size)
        invariant dstPos == Slot(|src|) && insPos == |src| - 2 && ahead == old(ahead) + n
        decreases i + n - i'
      {
        var c := inp[i'];
        i' := i' + 1;
        Store(c, dstPos, pos - size);
        HashFits(Xor(Shl(h, HASH_SHIFT), c));
        h := Low(Xor(Shl(h, HASH_SHIFT), c), HASH_BITS);
        Insert(h, insPos);
        dstPos := SlotNext(|src| - 1, dstPos);
        insPos := insPos + 1;
        assert inp[i..i'] == inp[i..i' - 1] + [c];
      }
    }

    /** The same while there are too few bytes to hash. */
    method FillSlow(inp: seq<u8>, i: nat) returns (i': nat)
      requires Valid() && i <= |inp|
      modifies this`ahead, this`src, dict, hash, next
      ensures Shape() && Chains() && |src| == pos + ahead && ahead <= MAX_MATCH_LEN && Holding(dict[..], src, pos - size)
      ensures i' == i + Room(|inp| - i, old(ahead)) && ahead == old(ahead) + (i' - i) && src == old(src) + inp[i..i']
    {
      hide Holding, Xor, Shl, Low;
      i' := i;
      while i' < |inp| && ahead < MAX_MATCH_LEN
        invariant i <= i' <= |inp| && src == old(src) + inp[i..i'] && Chains() && Holding(dict[..], src, pos - size)
        invariant |src| == pos + ahead && ahead == old(ahead) + (i' - i) <= MAX_MATCH_LEN
      {
        var c := inp[i'];
        var dstPos := Slot(pos + ahead);
        i' := i' + 1;
        Store(c, dstPos, pos - size);
        ahead := ahead + 1;
        if ahead + size >= MIN_MATCH_LEN {
          var insPos: nat := pos + (ahead - 1) - 2;
          var h := Xor(Xor(Shl(dict[Slot(insPos)], 2 * HASH_SHIFT), Shl(dict[Slot(insPos + 1)], HASH_SHIFT)), c);
          HashFits(h);
          Insert(Low(h, HASH_BITS), insPos);
        }
        assert inp[i..i'] == inp[i..i' - 1] + [c];
      }
    }

    /** The lookahead is filled up, and the dictionary gives way. */
    method Refill(inp: seq<u8>, i: nat) returns (i': nat)
      requires Valid() && i <= |inp|
      modifies this`ahead, this`size, this`src, dict, hash, next
      ensures Valid() && pos == old(pos) && i' == i + Room(|inp| - i, old(ahead)) && ahead == old(ahead) + (i' - i) && src == old(src) + inp[i..i']
    {
      hide Holding;
      if ahead + size >= MIN_MATCH_LEN - 1 { i' := FillFast(inp, i); } else { i' := FillSlow(inp, i); }
      HoldingLess(dict[..], src, pos - size, pos - Min(LZ_DICT_SIZE - ahead, size));
      size := Min(LZ_DICT_SIZE - ahead, size);
    }

    /** The lookahead moves on. */
    method Advance(n: nat)
      requires Valid() && n <= ahead
      modifies this`pos, this`ahead, this`size
      ensures Valid() && pos == old(pos) + n && ahead == old(ahead) - n && size == old(size) + n
    {
      pos := pos + n;
      ahead := ahead - n;
      size := Min(size + n, LZ_DICT_SIZE);
    }

    /** `TDEFL_FULL_FLUSH` forgets everything before. */
    method Forget()
      requires Valid()
      modifies this`size, hash, next
      ensures Valid() && size == 0
    {
      forall k | 0 <= k < LZ_DICT_SIZE { hash[k] := 0; }
      forall k | 0 <= k < LZ_DICT_SIZE { next[k] := 0; }
      size := 0;
    }

    // ----- matches

    /** A byte `k` places after position `i`, read from the ring and its mirror without wrapping round. */
    lemma ByteAt(i: nat, k: nat)
      requires Valid() && pos - size <= i && i + k < |src| && k <= 257
      ensures Slot(i) + k < DICT_LEN && dict[Slot(i) + k] == src[i + k]
    {
      hide Slot;
      HoldingAt(dict[..], src, pos - size, i, k);
    }

    /** `TDEFL_PROBE`: the next candidate of the chain. */
    method ProbeNext(probePos: nat, maxDist: nat, matchLen: nat, c0: u8, c1: u8) returns (r: Probe, probePos': nat, dist: nat)
      requires Valid() && probePos < LZ_DICT_SIZE && maxDist == size && 1 <= matchLen <= 257
      ensures !r.Stop? ==> dist <= maxDist && probePos' == Slot(pos - dist)
    {
      hide Holding, Slot;
      var nextPos := next[probePos];
      dist := (pos - nextPos) % 65536;
      probePos' := probePos;
      if nextPos == 0 || dist > maxDist { return Stop, probePos', dist; }
      ProbeSlot(pos, nextPos, dist);
      probePos' := Slot(nextPos);
      r := if dict[probePos' + matchLen] == c0 && dict[probePos' + matchLen - 1] == c1 then Hit else Miss;
    }

    /** How far the candidate agrees with what is ahead. */
    method Compare(dist: nat, probePos: nat, maxLen: nat) returns (len: nat)
      requires Valid() && 1 <= dist <= size && probePos == Slot(pos - dist) && maxLen == ahead
      ensures len <= maxLen && Longest(src, pos, dist, len)
    {
      hide Holding, Slot;
      var s := Slot(pos);
      len := 0;
      while len < maxLen
        invariant len <= maxLen && SameBytes(src, pos, dist, len)
      {
        ByteAt(pos, len);
        ByteAt(pos - dist, len);
        if dict[s + len] != dict[probePos + len] { return; }
        len := len + 1;
      }
    }

    /** `tdefl_find_match`: whatever the chains hold, an improvement is a true match, as long as it says and no further back than the
        dictionary reaches. */
    method FindMatch(maxProbes: nat, matchDist: nat, matchLen: nat) returns (dist': nat, len': nat)
      requires Valid() && 1 <= matchLen <= 257 && 1 <= maxProbes
      ensures (dist' == matchDist && len' == matchLen) || (matchLen < len' <= ahead && 1 <= dist' <= size && Longest(src, pos, dist', len'))
    {
      hide Holding, Slot, Longest;
      dist', len' := matchDist, matchLen;
      var at: nat, probePos: nat, probes: nat := Slot(pos), Slot(pos), maxProbes;
      var c0, c1 := dict[at + len'], dict[at + len' - 1];
      if ahead <= len' { return; }
      while true
        invariant probePos < LZ_DICT_SIZE && 1 <= probes && 1 <= len' < ahead
        invariant (dist' == matchDist && len' == matchLen) || (matchLen < len' <= ahead && 1 <= dist' <= size && Longest(src, pos, dist', len'))
        decreases probes
      {
        var r, dist: nat := Miss, 0;
        ghost var start := probes;
        while r.Miss?
          invariant probePos < LZ_DICT_SIZE && 1 <= probes && !r.Stop? && probes <= start && (r.Hit? ==> probes < start && dist <= size && probePos == Slot(pos - dist))
          decreases probes
        {
          probes := probes - 1;
          if probes == 0 { return; }
          for t := 0 to 3
            invariant probePos < LZ_DICT_SIZE && r.Miss?
          {
            r, probePos, dist := ProbeNext(probePos, size, len', c0, c1);
            if r.Stop? { return; }
            if r.Hit? { break; }
          }
        }
        if dist == 0 { return; }
        var len := Compare(dist, probePos, ahead);
        if len > len' {
          dist', len' := dist, len;
          if len' == ahead { return; }
          c0, c1 := dict[at + len'], dict[at + len' - 1];
        }
      }
    }

    /** A run of the byte before: a match at distance 1. */
    method FindRun() returns (len: nat)
      requires Valid() && size > 0
      ensures if len == 0 then !SameBytes(src, pos, 1, MIN_MATCH_LEN) else MIN_MATCH_LEN <= len <= ahead && Longest(src, pos, 1, len)
    {
      hide Holding, Slot;
      SlotAdd(pos - 1, 1);
      var cur := Slot(pos);
      var c := dict[(cur - 1) % LZ_DICT_SIZE];
      ByteAt(pos - 1, 0);
      len := 0;
      while len < ahead
        invariant len <= ahead && SameBytes(src, pos, 1, len) && src[pos + len - 1] == c
      {
        ByteAt(pos, len);
        if dict[cur + len] != c { break; }
        len := len + 1;
      }
      if len < MIN_MATCH_LEN { len := 0; }
    }
  }

  function Min(a: nat, b: nat): nat { if a <= b then a else b }

  /** How many of the bytes left the lookahead has room for. */
  function Room(left: nat, ahead: nat): nat { if ahead >= MAX_MATCH_LEN then 0 else Min(left, MAX_MATCH_LEN - ahead) }

  /** `(dst_pos + 1) & TDEFL_LZ_DICT_SIZE_MASK` */
  function SlotNext(ghost i: nat, s: nat): (r: nat)
    requires s == Slot(i)
    ensures r == Slot(i + 1)
  {
    SlotAdd(i, 1);
    (s + 1) % LZ_DICT_SIZE
  }

  lemma HashFits(h: nat)
    ensures Low(h, HASH_BITS) < LZ_DICT_SIZE
  {
    LowBound(h, 15);
    Pow2Values();
  }

  lemma HoldingLess(dict: seq<u8>, src: seq<u8>, low: nat, high: nat)
    requires Holding(dict, src, low) && low <= high
    ensures Holding(dict, src, high)
  {
  }
}
