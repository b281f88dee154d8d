/** `m_lz_code_buf`: literals and matches as bytes, eight to a group, with a byte of flags before each group. */
module LzBuffer {
  import opened Bits
  import opened Canonical
  import opened LzCodes
  import opened BitOutput
  import opened CodeSizes
  import opened Format
  import opened TreeCode

  const LZ_CODE_BUF_SIZE := 65536

  // ----- the layout

  function Size(t: Token): (n: nat)
    ensures 1 <= n <= 3
  {
    if t.Lit? then 1 else 3
  }

  /** Where the bytes of the next token go; every group has a byte for its flags in front. */
  function Offset(tokens: seq<Token>): (p: nat)
    ensures p >= 1 + |tokens| + |tokens| / 8
  {
    if tokens == [] then 1
    else Offset(tokens[..|tokens| - 1]) + Size(tokens[|tokens| - 1]) + (if |tokens| % 8 == 0 then 1 else 0)
  }

  /** Where the flags of the group are that the next token belongs to. */
  function FlagPos(tokens: seq<Token>): nat {
    if |tokens| % 8 == 0 then Offset(tokens) - 1 else FlagPos(tokens[..|tokens| - 1])
  }

  lemma OffsetNext(tokens: seq<Token>, k: nat)
    requires k < |tokens|
    ensures Offset(tokens[..k + 1]) == Offset(tokens[..k]) + Size(tokens[k]) + (if (k + 1) % 8 == 0 then 1 else 0)
    ensures FlagPos(tokens[..k + 1]) == if (k + 1) % 8 == 0 then Offset(tokens[..k + 1]) - 1 else FlagPos(tokens[..k])
  {
    assert tokens[..k + 1][..k] == tokens[..k];
  }

  lemma {:induction false} OffsetMono(tokens: seq<Token>, j: nat, k: nat)
    requires j <= k <= |tokens|
    ensures Offset(tokens[..j]) <= Offset(tokens[..k]) && (j < k ==> Offset(tokens[..j]) + Size(tokens[j]) <= Offset(tokens[..k]))
  {
    if j < k {
      OffsetMono(tokens, j, k - 1);
      OffsetNext(tokens, k - 1);
    }
  }

  /** Flags come before the tokens they belong to, and after all tokens of earlier groups. */
  lemma {:induction false} FlagsBetween(tokens: seq<Token>, k: nat)
    requires k <= |tokens|
    ensures FlagPos(tokens[..k]) < Offset(tokens[..k])
    ensures k % 8 != 0 ==> k > 0 && FlagPos(tokens[..k]) == FlagPos(tokens[..k - 1])
  {
    if k > 0 {
      FlagsBetween(tokens, k - 1);
      OffsetNext(tokens, k - 1);
    }
  }

  lemma {:induction false} FlagsApart(tokens: seq<Token>, j: nat, k: nat)
    requires j < k <= |tokens|
    ensures FlagPos(tokens[..k]) < Offset(tokens[..j]) || FlagPos(tokens[..k]) >= Offset(tokens[..j]) + Size(tokens[j])
    ensures FlagPos(tokens[..j]) == FlagPos(tokens[..k]) <==> j / 8 == k / 8
    ensures FlagPos(tokens[..j]) <= FlagPos(tokens[..k])
    decreases k
  {
    hide Offset, FlagPos, Size;
    OffsetNext(tokens, k - 1);
    OffsetMono(tokens, j, k - 1);
    FlagsBetween(tokens, j);
    OffsetMono(tokens, j, k);
    GroupNext(k - 1);
    if j < k - 1 {
      FlagsApart(tokens, j, k - 1);
      GroupMono(j, k - 1);
    }
  }

  lemma GroupNext(n: nat)
    ensures (n + 1) / 8 == n / 8 + (if (n + 1) % 8 == 0 then 1 else 0)
  {
  }

  lemma GroupMono(j: nat, k: nat)
    requires j <= k
    ensures j / 8 <= k / 8
  {
  }

  predicate BytesAt(buf: seq<u8>, p: nat, t: Token) {
    p + Size(t) <= |buf| && Recordable(t) &&
    if t.Lit? then buf[p] == t.byte
    else buf[p] == t.len - 3 && buf[p + 1] == (t.dist - 1) % 256 && buf[p + 2] == (t.dist - 1) / 256
  }

  /** Flag `i` of a group of which `r` flags have been shifted in from the top so far. */
  function Flag(byte: u8, r: nat, i: nat): bool
    requires i < r <= 8
  {
    Lsb(byte, 8)[8 - r + i]
  }

  /** The number of flags of group `g` that are there after `n` tokens. */
  function FlagsIn(n: nat, g: nat): nat {
    if n < 8 * g then 0 else if n >= 8 * g + 8 then 8 else n - 8 * g
  }

  /** The first `k` tokens are in the buffer, `n` having been recorded. */
  ghost predicate Recorded(buf: seq<u8>, tokens: seq<Token>, n: nat, k: nat)
    requires k <= n <= |tokens|
  {
    forall j :: 0 <= j < k ==> RecordedAt(buf, tokens, n, j)
  }

  ghost predicate RecordedAt(buf: seq<u8>, tokens: seq<Token>, n: nat, j: nat)
    requires j < n <= |tokens|
  {
    && BytesAt(buf, Offset(tokens[..j]), tokens[j]) && FlagPos(tokens[..j]) < |buf|
    && Flag(buf[FlagPos(tokens[..j])], FlagsIn(n, j / 8), j % 8) == tokens[j].Match?
  }

  // ----- recording

  /** `*flags = (*flags >> 1) | 0x80`, without the 0x80 for a literal. */
  function Shifted(byte: u8, mark: bool): u8 {
    byte / 2 + (if mark then 128 else 0)
  }

  lemma ShiftedFlags(byte: u8, mark: bool)
    ensures Lsb(Shifted(byte, mark), 8) == Lsb(byte, 8)[1..] + [mark]
  {
    var h := byte / 2;
    assert Lsb(byte, 8)[1..] == Lsb(h, 7);
    LsbFlag(h, mark, 7);
    assert Pow2(7) == 128;
  }

  lemma {:induction false} LsbFlag(h: nat, mark: bool, n: nat)
    requires h < Pow2(n)
    ensures Lsb(h + (if mark then Pow2(n) else 0), n + 1) == Lsb(h, n) + [mark]
  {
    if n > 0 {
      LsbFlag(h / 2, mark, n - 1);
      var w := h + (if mark then Pow2(n) else 0);
      assert w % 2 == h % 2 && w / 2 == h / 2 + (if mark then Pow2(n - 1) else 0);
    }
  }

  lemma FlagShift(byte: u8, mark: bool, r: nat, i: nat)
    requires i <= r < 8
    ensures Flag(Shifted(byte, mark), r + 1, i) == if i < r then Flag(byte, r, i) else mark
  {
    hide Lsb;
    ShiftedFlags(byte, mark);
  }

  /** The buffer after a token: its bytes at the cursor, and its flag shifted in. */
  ghost predicate Added(buf: seq<u8>, buf': seq<u8>, tokens: seq<Token>, t: Token) {
    var cur, fp := Offset(tokens), FlagPos(tokens);
    && |buf'| == |buf| && fp < |buf| && BytesAt(buf', cur, t) && buf'[fp] == Shifted(buf[fp], t.Match?)
    && forall i :: 0 <= i < cur && i != fp ==> buf'[i] == buf[i]
  }

  lemma RecordNew(buf: seq<u8>, buf': seq<u8>, tokens: seq<Token>, t: Token)
    requires Added(buf, buf', tokens, t)
    ensures RecordedAt(buf', tokens + [t], |tokens| + 1, |tokens|)
  {
    hide Lsb, BytesAt, Offset, FlagPos, Flag;
    var n := |tokens|;
    assert (tokens + [t])[..n] == tokens;
    FlagShift(buf[FlagPos(tokens)], t.Match?, n % 8, n % 8);
  }

  lemma RecordOld(buf: seq<u8>, buf': seq<u8>, tokens: seq<Token>, t: Token, j: nat)
    requires Added(buf, buf', tokens, t) && j < |tokens| && RecordedAt(buf, tokens, |tokens|, j)
    ensures RecordedAt(buf', tokens + [t], |tokens| + 1, j)
  {
    hide Lsb, Offset, FlagPos, Flag;
    var n := |tokens|;
    assert (tokens + [t])[..j] == tokens[..j] && tokens[..n] == tokens;
    FlagsApart(tokens, j, n);
    OffsetMono(tokens, j, n);
    FlagsBetween(tokens, j);
    if j / 8 == n / 8 { FlagShift(buf[FlagPos(tokens)], t.Match?, n % 8, j % 8); }
  }

  lemma RecordStep(buf: seq<u8>, buf': seq<u8>, tokens: seq<Token>, t: Token)
    requires Added(buf, buf', tokens, t) && Recorded(buf, tokens, |tokens|, |tokens|)
    ensures Recorded(buf', tokens + [t], |tokens| + 1, |tokens| + 1)
  {
    hide RecordedAt, Added;
    var after, n := tokens + [t], |tokens| + 1;
    forall j | 0 <= j < n ensures RecordedAt(buf', after, n, j) {
      if j < |tokens| {
        assert RecordedAt(buf, tokens, |tokens|, j);
        RecordOld(buf, buf', tokens, t, j);
      } else {
        RecordNew(buf, buf', tokens, t);
      }
    }
  }

  function Total(tokens: seq<Token>): nat {
    if tokens == [] then 0 else Total(tokens[..|tokens| - 1]) + Bytes(tokens[|tokens| - 1])
  }

  lemma {:induction false} TotalIs(out: seq<u8>, tokens: seq<Token>)
    requires Backed(out, tokens)
    ensures |Expand(out, tokens)| == |out| + Total(tokens)
  {
    if tokens != [] { TotalIs(out, tokens[..|tokens| - 1]); }
  }

  /** Every symbol that the tokens need has been counted. */
  ghost predicate TokenCounted(lit: seq<nat>, dist: seq<nat>, t: Token)
    requires |lit| == |dist| == MAX_SYMBOLS
  {
    if t.Lit? then lit[t.byte] > 0
    else Recordable(t) && LenSym(t.len - 3) < 286 && lit[LenSym(t.len - 3)] > 0 && DistSym(t.dist - 1) < 30 && dist[DistSym(t.dist - 1)] > 0
  }

  /** The literal or length symbol of a token, and the distance symbol of a match. */
  function LitSym(t: Token): (s: nat)
    ensures s < 286 && s != 256
  {
    if t.Lit? then t.byte
    else if MIN_MATCH_LEN <= t.len <= MAX_MATCH_LEN then LenCoded(t.len - 3); LenSym(t.len - 3)
    else 0
  }

  function MatchSym(t: Token): (s: nat)
    ensures s < 30
  {
    if t.Match? && 1 <= t.dist <= LZ_DICT_SIZE then DistCoded(t.dist - 1); DistSym(t.dist - 1)
    else 0
  }

  /** How often each symbol occurs. */
  function LitCounts(tokens: seq<Token>): (c: seq<nat>)
    ensures |c| == MAX_SYMBOLS
  {
    if tokens == [] then seq(MAX_SYMBOLS, _ => 0)
    else
      var c, s := LitCounts(tokens[..|tokens| - 1]), LitSym(tokens[|tokens| - 1]);
      c[s := c[s] + 1]
  }

  function DistCounts(tokens: seq<Token>): (c: seq<nat>)
    ensures |c| == MAX_SYMBOLS
  {
    if tokens == [] then seq(MAX_SYMBOLS, _ => 0)
    else
      var c, t := DistCounts(tokens[..|tokens| - 1]), tokens[|tokens| - 1];
      if t.Match? then c[MatchSym(t) := c[MatchSym(t)] + 1] else c
  }

  lemma CountsNext(tokens: seq<Token>, t: Token)
    ensures LitCounts(tokens + [t]) == LitCounts(tokens)[LitSym(t) := LitCounts(tokens)[LitSym(t)] + 1]
    ensures DistCounts(tokens + [t]) == if t.Match? then DistCounts(tokens)[MatchSym(t) := DistCounts(tokens)[MatchSym(t)] + 1] else DistCounts(tokens)
  {
    hide LitSym, MatchSym;
    assert (tokens + [t])[..|tokens|] == tokens;
  }

  lemma LitSymIs(t: Token)
    ensures t.Lit? ==> LitSym(t) == t.byte
    ensures t.Match? && Recordable(t) ==> LitSym(t) == LenSym(t.len - 3) && MatchSym(t) == DistSym(t.dist - 1)
  {
    hide LenSym, DistSym, LenExtraBits, LengthBits, LengthBase, DistExtraBits, DistBits, DistBase;
  }

  /** The counts of literal and length symbols, and of distance symbols. */
  ghost predicate CountsFit(lit: seq<nat>, dist: seq<nat>, tokens: seq<Token>) {
    && |lit| == |dist| == MAX_SYMBOLS && Sum(lit, 0, MAX_SYMBOLS) == |tokens| && Sum(dist, 0, MAX_SYMBOLS) <= |tokens|
    && lit == LitCounts(tokens) && dist == DistCounts(tokens)
    && (forall s :: 286 <= s < MAX_SYMBOLS ==> lit[s] == 0) && (forall s :: 30 <= s < MAX_SYMBOLS ==> dist[s] == 0) && lit[256] == 0
    && forall k :: 0 <= k < |tokens| ==> TokenCounted(lit, dist, tokens[k])
  }

  lemma CountsStart(lit: seq<nat>, dist: seq<nat>)
    requires |lit| == |dist| == MAX_SYMBOLS && forall i :: 0 <= i < MAX_SYMBOLS ==> lit[i] == dist[i] == 0
    ensures CountsFit(lit, dist, [])
  {
    SumZero(lit, MAX_SYMBOLS);
    SumZero(dist, MAX_SYMBOLS);
  }

  lemma LitCounted(lit: seq<nat>, dist: seq<nat>, tokens: seq<Token>, b: u8)
    requires CountsFit(lit, dist, tokens)
    ensures CountsFit(lit[b := lit[b] + 1], dist, tokens + [Lit(b)])
  {
    hide Sum, LenSym, DistSym, LitSym, LitCounts, DistCounts;
    CountsNext(tokens, Lit(b));
    LitSymIs(Lit(b));
    SumUpdate(lit, b, lit[b] + 1, MAX_SYMBOLS);
  }

  lemma MatchCounted(lit: seq<nat>, dist: seq<nat>, tokens: seq<Token>, len: nat, d: nat)
    requires CountsFit(lit, dist, tokens) && Recordable(Match(len, d))
    ensures LenSym(len - 3) < 286 && DistSym(d - 1) < 30
    ensures var l := LenSym(len - 3); var s := DistSym(d - 1); CountsFit(lit[l := lit[l] + 1], dist[s := dist[s] + 1], tokens + [Match(len, d)])
  {
    hide Sum, LenSym, DistSym, LengthBits, LengthBase, DistBits, DistBase, LitSym, MatchSym, LitCounts, DistCounts;
    CountsNext(tokens, Match(len, d));
    LitSymIs(Match(len, d));
    LenCoded(len - 3);
    DistCoded(d - 1);
    var l, s := LenSym(len - 3), DistSym(d - 1);
    SumUpdate(lit, l, lit[l] + 1, MAX_SYMBOLS);
    SumUpdate(dist, s, dist[s] + 1, MAX_SYMBOLS);
  }

  lemma TotalSnoc(tokens: seq<Token>, t: Token)
    ensures Total(tokens + [t]) == Total(tokens) + Bytes(t)
  {
    assert (tokens + [t])[..|tokens|] == tokens;
  }

  lemma NextInGroup(n: nat)
    ensures (n + 1) % 8 == if n % 8 == 7 then 0 else n % 8 + 1
  {
  }

  lemma FlagsFirst(tokens: seq<Token>)
    ensures FlagPos(tokens) < Offset(tokens)
  {
    FlagsBetween(tokens, |tokens|);
    assert tokens[..|tokens|] == tokens;
  }

  lemma DistSymIs(d: nat)
    ensures DistSym(d) == if d < 512 then SmallDistSym(d) else LargeDistSym(d / 256)
  {
  }

  /** Token `j` and its flag, as they are read. */
  ghost predicate Readable(buf: seq<u8>, tokens: seq<Token>, j: nat)
    requires j < |tokens|
  {
    && BytesAt(buf, Offset(tokens[..j]), tokens[j]) && FlagPos(tokens[..j]) < |buf|
    && Lsb(buf[FlagPos(tokens[..j])], 8)[j % 8] == tokens[j].Match?
  }

  lemma ShrByte(b: u8, k: nat)
    ensures Shr(b, k) < 256 && (k >= 8 ==> Shr(b, k) == 0)
  {
    ShrSmaller(b, k);
    if k >= 8 {
      Pow2Mono(8, k);
      Pow2Values();
      ShrBound(b, 0, k);
    }
  }

  lemma {:induction false} ShrSmaller(w: nat, k: nat)
    ensures Shr(w, k) <= w
  {
    if k > 0 { ShrSmaller(w / 2, k - 1); }
  }

  /** Closing shifts the flags of the last group down. */
  lemma CloseAt(buf: seq<u8>, buf': seq<u8>, tokens: seq<Token>, j: nat)
    requires j < |tokens| && RecordedAt(buf, tokens, |tokens|, j) && FlagPos(tokens) < |buf|
    requires Shr(buf[FlagPos(tokens)], 8 - |tokens| % 8) < 256 && buf' == buf[FlagPos(tokens) := Shr(buf[FlagPos(tokens)], 8 - |tokens| % 8)]
    ensures Readable(buf', tokens, j)
  {
    hide Lsb, Offset, FlagPos, Shr, Flag;
    var n := |tokens|;
    assert tokens[..n] == tokens;
    FlagsApart(tokens, j, n);
    ShrNone(buf[FlagPos(tokens[..j])]);
    FlagDown(buf[FlagPos(tokens[..j])], FlagsIn(n, j / 8), j % 8);
  }

  /** The flags seen from the top, once they are shifted down. */
  lemma FlagDown(v: u8, r: nat, i: nat)
    requires i < r <= 8
    ensures Lsb(Shr(v, 8 - r), 8)[i] == Flag(v, r, i)
  {
    hide Lsb, Shr;
    LsbShr(v, 8, 8 - r);
    LsbPrefix(Shr(v, 8 - r), 8, r);
    assert Lsb(Shr(v, 8 - r), 8)[i] == Lsb(Shr(v, 8 - r), 8)[..r][i];
  }

  // ----- reading the groups

  /** The reader is at token `k`: between groups, or inside one with the flags that are left. */
  ghost predicate Reading(buf: seq<u8>, tokens: seq<Token>, end: nat, k: nat, p: nat, flags: nat) {
    && k <= |tokens| && end == (if |tokens| % 8 == 0 then Offset(tokens) - 1 else Offset(tokens))
    && if k % 8 == 0 then flags == 1 && p == Offset(tokens[..k]) - 1 == FlagPos(tokens[..k])
       else p == Offset(tokens[..k]) && FlagPos(tokens[..k]) < |buf| && flags == Shr(buf[FlagPos(tokens[..k])], k % 8) + Pow2(8 - k % 8)
  }

  lemma ReadingStart(buf: seq<u8>, tokens: seq<Token>)
    ensures Reading(buf, tokens, if |tokens| % 8 == 0 then Offset(tokens) - 1 else Offset(tokens), 0, 0, 1)
  {
  }

  lemma ReadingMore(buf: seq<u8>, tokens: seq<Token>, end: nat, k: nat, p: nat, flags: nat)
    requires Reading(buf, tokens, end, k, p, flags) && p < end && forall j :: 0 <= j < |tokens| ==> Readable(buf, tokens, j)
    ensures k < |tokens| && p < |buf| && FlagPos(tokens[..k]) < |buf|
    ensures (if flags == 1 then p + 1 else p) == Offset(tokens[..k])
    ensures (if flags == 1 then buf[p] as int + 256 else flags) == Shr(buf[FlagPos(tokens[..k])], k % 8) + Pow2(8 - k % 8)
  {
    hide Offset, FlagPos, Shr, Pow2, BytesAt;
    assert tokens[..|tokens|] == tokens;
    assert Readable(buf, tokens, k);
    Pow2Values();
    if k % 8 == 0 {
      ShrNone(buf[p]);
    } else {
      Pow2Even(8 - k % 8);
    }
    BytesRoom(buf, Offset(tokens[..k]), tokens[k]);
  }

  lemma ShrNone(w: nat)
    ensures Shr(w, 0) == w
  {
  }

  lemma Pow2Even(n: nat)
    requires n > 0
    ensures Pow2(n) == 2 * Pow2(n - 1) && Pow2(n) >= 2
  {
  }

  lemma BytesRoom(buf: seq<u8>, p: nat, t: Token)
    requires BytesAt(buf, p, t)
    ensures p < |buf|
  {
  }

  lemma ReadingEnd(buf: seq<u8>, tokens: seq<Token>, end: nat, k: nat, p: nat, flags: nat)
    requires Reading(buf, tokens, end, k, p, flags) && p >= end
    ensures k == |tokens|
  {
    hide Offset, FlagPos, Shr;
    assert tokens[..|tokens|] == tokens;
    if k < |tokens| {
      OffsetMono(tokens, k, |tokens| - 1);
      OffsetNext(tokens, |tokens| - 1);
    }
  }

  /** The flag just looked at is that of token `k`. */
  lemma ReadingFlag(buf: seq<u8>, tokens: seq<Token>, k: nat, p: nat, flags: nat)
    requires k < |tokens| && Readable(buf, tokens, k) && p == Offset(tokens[..k])
    requires flags == Shr(buf[FlagPos(tokens[..k])], k % 8) + Pow2(8 - k % 8)
    ensures (flags % 2 == 1) == tokens[k].Match?
  {
    hide Lsb, Shr, Offset, FlagPos, BytesAt, Pow2;
    var w := buf[FlagPos(tokens[..k])];
    LsbIndex(w, 8, k % 8);
    Pow2Even(8 - k % 8);
  }

  lemma ReadingNext(buf: seq<u8>, tokens: seq<Token>, end: nat, k: nat, p: nat, flags: nat)
    requires k < |tokens| && Readable(buf, tokens, k) && p == Offset(tokens[..k]) && end == (if |tokens| % 8 == 0 then Offset(tokens) - 1 else Offset(tokens))
    requires flags == Shr(buf[FlagPos(tokens[..k])], k % 8) + Pow2(8 - k % 8)
    ensures Reading(buf, tokens, end, k + 1, p + Size(tokens[k]), flags / 2)
  {
    hide Lsb, Shr, Offset, FlagPos, BytesAt, Pow2, Size, Reading;
    var w, i := buf[FlagPos(tokens[..k])], k % 8;
    OffsetNext(tokens, k);
    NextInGroup(k);
    FlagsHalved(w, i, flags);
    ReadingIs(buf, tokens, end, k + 1, p + Size(tokens[k]), flags / 2);
  }

  lemma FlagsHalved(w: u8, i: nat, flags: nat)
    requires i < 8 && flags == Shr(w, i) + Pow2(8 - i)
    ensures flags / 2 == Shr(w, i + 1) + Pow2(7 - i) && (i == 7 ==> flags / 2 == 1)
  {
    hide Shr, Pow2;
    ShrSucc(w, i);
    Pow2Even(8 - i);
    if i == 7 {
      Pow2Values();
      ShrBound(w, 0, 8);
    }
  }

  lemma ReadingIs(buf: seq<u8>, tokens: seq<Token>, end: nat, k: nat, p: nat, flags: nat)
    requires k <= |tokens| && end == (if |tokens| % 8 == 0 then Offset(tokens) - 1 else Offset(tokens))
    requires k % 8 == 0 ==> flags == 1 && p == Offset(tokens[..k]) - 1 == FlagPos(tokens[..k])
    requires k % 8 != 0 ==> p == Offset(tokens[..k]) && FlagPos(tokens[..k]) < |buf| && flags == Shr(buf[FlagPos(tokens[..k])], k % 8) + Pow2(8 - k % 8)
    ensures Reading(buf, tokens, end, k, p, flags)
  {
    hide Offset, FlagPos, Shr, Pow2;
  }

  lemma TokensNone(codes: Codes)
    ensures TokensBits(codes, []) == []
  {
  }

  lemma TokensNext(codes: Codes, tokens: seq<Token>, k: nat)
    requires k < |tokens|
    ensures TokensBits(codes, tokens[..k + 1]) == TokensBits(codes, tokens[..k]) + TokenBits(codes, tokens[k])
  {
    assert tokens[..k + 1][..k] == tokens[..k];
  }

  lemma MatchAt(buf: seq<u8>, tokens: seq<Token>, k: nat, p: nat)
    requires k < |tokens| && Readable(buf, tokens, k) && p == Offset(tokens[..k]) && tokens[k].Match?
    ensures p + 3 <= |buf| && Recordable(tokens[k]) && buf[p] == tokens[k].len - 3 && buf[p + 1] as int + 256 * (buf[p + 2] as int) == tokens[k].dist - 1
  {
    hide Offset, FlagPos, Lsb;
  }

  class LzBuffer {
    const buf: array<u8>
    const lit: CodeTable
    const dist: CodeTable
    /** `m_pLZ_code_buf`, `m_pLZ_flags`, `m_num_flags_left`, `m_total_lz_bytes` */
    var cur: nat
    var flags: nat
    var flagsLeft: nat
    var total: nat
    ghost var tokens: seq<Token>

    ghost predicate Valid()
      reads this, buf, lit, dist, lit.count, dist.count
    {
      && buf.Length == LZ_CODE_BUF_SIZE && lit.Shape() && dist.Shape() && lit.count != dist.count
      && cur == Offset(tokens) < LZ_CODE_BUF_SIZE && flags == FlagPos(tokens) && flagsLeft == 8 - |tokens| % 8 && total == Total(tokens)
      && Recorded(buf[..], tokens, |tokens|, |tokens|)
      && CountsFit(lit.count[..], dist.count[..], tokens)
    }

    constructor ()
      ensures Valid() && Separate() && tokens == [] && cur == 1 && fresh(buf) && fresh(lit) && fresh(dist)
      ensures fresh(lit.count) && fresh(lit.codes) && fresh(lit.sizes) && fresh(dist.count) && fresh(dist.codes) && fresh(dist.sizes)
    {
      buf := new u8[LZ_CODE_BUF_SIZE];
      lit := new CodeTable();
      dist := new CodeTable();
      cur, flags, flagsLeft, total, tokens := 1, 0, 8, 0, [];
      new;
      CountsStart(lit.count[..], dist.count[..]);
    }

    /** `*d->m_pLZ_flags` is shifted, and when it is full the next byte is set aside for the next group. */
    method ShiftFlag(mark: bool, ghost before: seq<Token>, ghost t: Token)
      requires buf.Length == LZ_CODE_BUF_SIZE && flags < LZ_CODE_BUF_SIZE && flags == FlagPos(before) && flagsLeft == 8 - |before| % 8
      requires cur == Offset(before) + Size(t) && tokens == before + [t]
      modifies this`cur, this`flags, this`flagsLeft, buf
      ensures cur == Offset(tokens) && flags == FlagPos(tokens) && flagsLeft == 8 - |tokens| % 8
      ensures buf[..] == old(buf[..])[old(flags) := Shifted(old(buf[flags]), mark)] && cur <= old(cur) + 1
    {
      hide Offset, FlagPos, Lsb;
      NextInGroup(|before|);
      assert tokens[..|before|] == before && tokens[..|before| + 1] == tokens;
      OffsetNext(tokens, |before|);
      buf[flags] := buf[flags] / 2 + (if mark then 128 else 0);
      flagsLeft := flagsLeft - 1;
      if flagsLeft == 0 {
        flagsLeft := 8;
        flags := cur;
        cur := cur + 1;
      }
    }

    /** `tdefl_record_literal` */
    method RecordLiteral(b: u8)
      requires Valid() && cur + 2 <= LZ_CODE_BUF_SIZE - 1
      modifies this, buf, lit.count
      ensures Valid() && tokens == old(tokens) + [Lit(b)] && cur <= old(cur) + 2
    {
      hide Recorded, CountsFit, Offset, FlagPos, Total;
      ghost var before, bytes := tokens, buf[..];
      FlagsFirst(tokens);
      total := total + 1;
      buf[cur] := b;
      cur := cur + 1;
      tokens := tokens + [Lit(b)];
      ShiftFlag(false, before, Lit(b));
      RecordStep(bytes, buf[..], before, Lit(b));
      TotalSnoc(before, Lit(b));
      LitCounted(lit.count[..], dist.count[..], before, b);
      lit.count[b] := lit.count[b] + 1;
    }

    /** `tdefl_record_match` */
    method RecordMatch(len: nat, d: nat)
      requires Valid() && cur + 4 <= LZ_CODE_BUF_SIZE - 1 && Recordable(Match(len, d))
      modifies this, buf, lit.count, dist.count
      ensures Valid() && tokens == old(tokens) + [Match(len, d)] && cur <= old(cur) + 4
    {
      hide Recorded, CountsFit, Offset, FlagPos, Total, LenSym, DistSym;
      ghost var before, bytes := tokens, buf[..];
      FlagsFirst(tokens);
      total := total + len;
      var matchDist := d - 1;
      buf[cur] := len - MIN_MATCH_LEN;
      buf[cur + 1] := matchDist % 256;
      buf[cur + 2] := matchDist / 256;
      cur := cur + 3;
      tokens := tokens + [Match(len, d)];
      ShiftFlag(true, before, Match(len, d));
      RecordStep(bytes, buf[..], before, Match(len, d));
      TotalSnoc(before, Match(len, d));
      LenCoded(len - 3);
      DistCoded(matchDist);
      var s := if matchDist < 512 then SmallDistSym(matchDist) else LargeDistSym(matchDist / 256);
      DistSymIs(matchDist);
      MatchCounted(lit.count[..], dist.count[..], before, len, d);
      dist.count[s] := dist.count[s] + 1;
      lit.count[LenSym(len - MIN_MATCH_LEN)] := lit.count[LenSym(len - MIN_MATCH_LEN)] + 1;
    }

    // ----- writing a block

    /** What is recorded can be read back: the last group's flags have been shifted into place. */
    ghost predicate Closed()
      reads this, buf
    {
      && buf.Length == LZ_CODE_BUF_SIZE && Offset(tokens) < LZ_CODE_BUF_SIZE && cur == (if |tokens| % 8 == 0 then Offset(tokens) - 1 else Offset(tokens))
      && forall j :: 0 <= j < |tokens| ==> Readable(buf[..], tokens, j)
    }

    method Close()
      requires Valid()
      modifies this`cur, buf
      ensures Closed()
    {
      hide Offset, FlagPos, Lsb, CountsFit, RecordedAt, Readable;
      ghost var before := buf[..];
      FlagsFirst(tokens);
      ShrByte(buf[flags], flagsLeft);
      buf[flags] := Shr(buf[flags], flagsLeft);
      if flagsLeft == 8 { cur := cur - 1; }
      forall j | 0 <= j < |tokens| ensures Readable(buf[..], tokens, j) {
        assert RecordedAt(before, tokens, |tokens|, j);
        CloseAt(before, buf[..], tokens, j);
      }
    }

    /** Ready for the next block. */
    method Reset()
      requires buf.Length == LZ_CODE_BUF_SIZE && Separate() && forall s :: 32 <= s < MAX_SYMBOLS ==> dist.count[s] == 0
      modifies this`cur, this`flags, this`flagsLeft, this`total, this`tokens, lit.count, dist.count
      ensures Valid() && tokens == [] && cur == 1
    {
      forall s | 0 <= s < MAX_SYMBOLS { lit.count[s] := 0; }
      forall s | 0 <= s < 32 { dist.count[s] := 0; }
      cur, flags, flagsLeft, total, tokens := 1, 0, 8, 0, [];
      CountsStart(lit.count[..], dist.count[..]);
    }

    /** The codes by which this block is written. */
    ghost function BlockCodes(): Codes
      requires lit.Shape() && dist.Shape()
      reads this, lit, dist, lit.sizes, dist.sizes
    {
      Codes(lit.sizes[..288], dist.sizes[..32])
    }

    ghost predicate Ready()
      reads this, buf, lit, dist, lit.codes, lit.sizes, dist.codes, dist.sizes
    {
      && Closed() && lit.Shape() && dist.Shape() && lit.Coded(288) && dist.Coded(32) && 0 < lit.sizes[256]
      && (forall s :: 0 <= s < 288 ==> lit.sizes[s] <= 15) && (forall s :: 0 <= s < 32 ==> dist.sizes[s] <= 15)
      && Covered()
    }

    /** Every recorded token can be written. */
    ghost predicate Covered()
      requires lit.Shape() && dist.Shape()
      reads this, lit, dist, lit.sizes, dist.sizes
    {
      forall k :: 0 <= k < |tokens| ==> Covers(BlockCodes(), tokens[k])
    }

    /** No array serves two purposes. */
    ghost predicate Separate() {
      && lit.Shape() && dist.Shape() && buf as object !in {lit.count, lit.codes, lit.sizes, dist.count, dist.codes, dist.sizes}
      && {lit.count, lit.codes, lit.sizes} !! {dist.count, dist.codes, dist.sizes}
    }

    ghost predicate Apart(o: BitOutput) {
      o.buf != buf && o.buf as object != lit.codes && o.buf as object != lit.sizes && o.buf as object != dist.codes && o.buf as object != dist.sizes
    }

    /** `tdefl_compress_lz_codes`: the recorded literals and matches, and the end of the block.  The result says whether the output
        buffer had room. */
    method WriteCodes(o: BitOutput) returns (ok: bool)
      requires Ready() && o.Valid() && Apart(o)
      modifies o`cur, o`bitBuffer, o`bitsIn, o`bits, o.buf
      ensures o.Valid() && ok == (o.cur < o.END) && o.Extends()
      ensures o.bits == old(o.bits) + TokensBits(BlockCodes(), tokens) + SymBits(BlockCodes().lit, 256)
    {
      hide Offset, FlagPos, Lsb, Readable, TokensBits, TokenBits, CodeTable.Coded, Pow2, Shr, Covers, BitOutput.Valid, CodeBits, Reading, Covered;
      var flags: nat, p: nat := 1, 0;
      ghost var k: nat := 0;
      ghost var codes := BlockCodes();
      ReadingStart(buf[..], tokens);
      assert tokens[..0] == [];
      TokensNone(codes);
      assert o.bits + [] == o.bits;
      while p < cur
        invariant k <= |tokens| && Ready() && codes == BlockCodes() && Reading(buf[..], tokens, cur, k, p, flags)
        invariant o.Valid() && o.Extends()
        invariant o.bits == old(o.bits) + TokensBits(codes, tokens[..k])
        decreases |tokens| - k
      {
        ReadingMore(buf[..], tokens, cur, k, p, flags);
        if flags == 1 {
          var byte: nat := buf[p];
          flags, p := byte + 256, p + 1;
        }
        ReadingFlag(buf[..], tokens, k, p, flags);
        ghost var q := p;
        if flags % 2 == 1 {
          WriteMatch(o, p, k);
          p := p + 3;
        } else {
          WriteLiteral(o, p, k);
          p := p + 1;
        }
        ReadingNext(buf[..], tokens, cur, k, q, flags);
        TokensNext(codes, tokens, k);
        assert old(o.bits) + TokensBits(codes, tokens[..k]) + TokenBits(codes, tokens[k]) == old(o.bits) + TokensBits(codes, tokens[..k + 1]);
        flags := flags / 2;
        k := k + 1;
      }
      ReadingEnd(buf[..], tokens, cur, k, p, flags);
      assert tokens[..k] == tokens;
      o.PutSymbol(lit, 288, 256);
      return o.cur < o.END;
    }

    method WriteLiteral(o: BitOutput, p: nat, ghost k: nat)
      requires Ready() && o.Valid() && Apart(o) && k < |tokens| && p == Offset(tokens[..k]) && tokens[k].Lit?
      modifies o`cur, o`bitBuffer, o`bitsIn, o`bits, o.buf
      ensures o.Valid() && o.Extends() && o.bits == old(o.bits) + TokenBits(BlockCodes(), tokens[k])
    {
      hide Offset, FlagPos, Lsb, CodeTable.Coded, Pow2, BitOutput.Valid, CodeBits;
      assert Readable(buf[..], tokens, k) && Covers(BlockCodes(), tokens[k]);
      var literal := buf[p];
      o.PutSymbol(lit, 288, literal);
    }

    method WriteMatch(o: BitOutput, p: nat, ghost k: nat)
      requires Ready() && o.Valid() && Apart(o) && k < |tokens| && p == Offset(tokens[..k]) && tokens[k].Match?
      modifies o`cur, o`bitBuffer, o`bitsIn, o`bits, o.buf
      ensures o.Valid() && o.Extends() && o.bits == old(o.bits) + TokenBits(BlockCodes(), tokens[k])
    {
      hide Offset, FlagPos, Lsb, CodeTable.Coded, Pow2, BitOutput.Valid, CodeBits, LenSym, LenExtraBits, DistSym, DistExtraBits, Readable, Flag;
      assert Readable(buf[..], tokens, k) && Covers(BlockCodes(), tokens[k]);
      MatchAt(buf[..], tokens, k, p);
      var matchLen, lo: nat, hi: nat := buf[p], buf[p + 1], buf[p + 2];
      var matchDist := lo + 256 * hi;
      WriteLength(o, matchLen);
      WriteDistance(o, matchDist);
    }

    method WriteLength(o: BitOutput, matchLen: u8)
      requires Ready() && o.Valid() && Apart(o) && Used(BlockCodes().lit, LenSym(matchLen))
      modifies o`cur, o`bitBuffer, o`bitsIn, o`bits, o.buf
      ensures o.Valid() && o.Extends() && o.bits == old(o.bits) + SymBits(BlockCodes().lit, LenSym(matchLen)) + Lsb(matchLen, LenExtraBits(matchLen))
    {
      hide Closed, Lsb, CodeTable.Coded, Pow2, BitOutput.Valid, CodeBits, LenSym, LenExtraBits, LengthBits, LengthBase, Low;
      LenCoded(matchLen);
      var n := LenExtraBits(matchLen);
      LsbMod(matchLen, n);
      LowMod(matchLen, n);
      o.PutSymbol(lit, 288, LenSym(matchLen));
      o.PutBits(Low(matchLen, n), n);
    }

    method WriteDistance(o: BitOutput, matchDist: nat)
      requires Ready() && o.Valid() && Apart(o) && matchDist < 32768 && Used(BlockCodes().dist, DistSym(matchDist))
      modifies o`cur, o`bitBuffer, o`bitsIn, o`bits, o.buf
      ensures o.Valid() && o.Extends() && o.bits == old(o.bits) + SymBits(BlockCodes().dist, DistSym(matchDist)) + Lsb(matchDist, DistExtraBits(matchDist))
    {
      hide Closed, Lsb, CodeTable.Coded, Pow2, BitOutput.Valid, CodeBits, DistBits, DistBase, Low, SmallDistSym, SmallDistExtra, LargeDistSym, LargeDistExtra;
      DistCoded(matchDist);
      var sym, n;
      if matchDist < 512 {
        sym, n := SmallDistSym(matchDist), SmallDistExtra(matchDist);
      } else {
        sym, n := LargeDistSym(matchDist / 256), LargeDistExtra(matchDist / 256);
      }
      LsbMod(matchDist, n);
      LowMod(matchDist, n);
      o.PutSymbol(dist, 32, sym);
      o.PutBits(Low(matchDist, n), n);
    }
  }
}
