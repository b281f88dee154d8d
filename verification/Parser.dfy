/** The lazy and the greedy parse: which literals and matches the source is cut into. */
module Parser {
  import opened Bits
  import opened Format
  import opened LzCodes
  import opened CodeSizes
  import opened LzBuffer
  import opened Dictionary

  /** The flags of `tdefl_init` that matter for parsing. */
  datatype Options = Options(probes: nat, greedy: bool, rle: bool, filter: bool, forceRaw: bool, forceStatic: bool, zlib: bool, computeAdler: bool)

  // ----- a parsed source is the source

  /** Tokens from position `base` on that stand for the source up to position `upTo`. */
  ghost predicate Stand(src: seq<u8>, base: nat, tokens: seq<Token>, upTo: nat) {
    base <= upTo <= |src| && Backed(src[..base], tokens) && Expand(src[..base], tokens) == src[..upTo]
  }

  lemma StandNone(src: seq<u8>, base: nat)
    requires base <= |src|
    ensures Stand(src, base, [], base)
  {
  }

  lemma StandLit(src: seq<u8>, base: nat, tokens: seq<Token>, upTo: nat)
    requires Stand(src, base, tokens, upTo) && upTo < |src|
    ensures Stand(src, base, tokens + [Lit(src[upTo])], upTo + 1)
  {
    ExpandSnoc(src[..base], tokens, Lit(src[upTo]));
  }

  lemma StandMatch(src: seq<u8>, base: nat, tokens: seq<Token>, upTo: nat, len: nat, dist: nat)
    requires Stand(src, base, tokens, upTo) && SameBytes(src, upTo, dist, len) && Recordable(Match(len, dist))
    ensures Stand(src, base, tokens + [Match(len, dist)], upTo + len)
  {
    ExpandSnoc(src[..base], tokens, Match(len, dist));
    CopySame(src, upTo, dist, len);
  }

  /** Copying a true match yields the source. */
  lemma {:induction false} CopySame(src: seq<u8>, at: nat, dist: nat, len: nat)
    requires SameBytes(src, at, dist, len)
    ensures CopyMatch(src[..at], len, dist) == src[..at + len]
    decreases len
  {
    if len > 0 {
      assert src[..at] + [src[..at][at - dist]] == src[..at + 1];
      CopySame(src, at + 1, dist, len - 1);
    }
  }

  /** More source changes nothing. */
  lemma StandLonger(src: seq<u8>, more: seq<u8>, base: nat, tokens: seq<Token>, upTo: nat)
    requires Stand(src, base, tokens, upTo)
    ensures Stand(src + more, base, tokens, upTo)
  {
    assert (src + more)[..base] == src[..base] && (src + more)[..upTo] == src[..upTo];
  }

  /** A match that has been found but not yet recorded, one position back. */
  ghost predicate Saved(src: seq<u8>, pos: nat, dist: nat, len: nat, lit: u8) {
    len > 0 ==> 0 < pos <= |src| && lit == src[pos - 1] && MIN_MATCH_LEN <= len < 128 && dist <= LZ_DICT_SIZE && SameBytes(src, pos - 1, dist, len)
  }

  lemma SavedLonger(src: seq<u8>, more: seq<u8>, pos: nat, dist: nat, len: nat, lit: u8)
    requires Saved(src, pos, dist, len, lit)
    ensures Saved(src + more, pos, dist, len, lit)
  {
  }

  class Parser {
    const lz: LzBuffer
    const win: Dictionary
    const options: Options
    /** `m_saved_match_dist`, `m_saved_match_len`, `m_saved_lit`, `m_lz_code_buf_dict_pos` */
    var savedDist: nat
    var savedLen: nat
    var savedLit: u8
    var dictPos: nat

    /** The position up to which the source has been recorded. */
    ghost function Recorded(): nat
      reads this, win
    {
      if savedLen > 0 && win.pos > 0 then win.pos - 1 else win.pos
    }

    ghost predicate Wired() {
      && lz.Separate() && win.Shape()
      && {win.dict as object, win.hash, win.next} !! {lz.buf as object, lz.lit.count, lz.lit.codes, lz.lit.sizes, lz.dist.count, lz.dist.codes, lz.dist.sizes}
    }

    /** The invariant of the parse: what is recorded since the last block stands for the source, but for one byte when a match is saved. */
    ghost predicate Valid()
      reads this, lz, lz.buf, lz.lit, lz.dist, lz.lit.count, lz.dist.count, win, win.dict, win.hash, win.next
    {
      && Wired() && lz.Valid() && win.Valid() && Stand(win.src, dictPos, lz.tokens, Recorded())
      && Saved(win.src, win.pos, savedDist, savedLen, savedLit)
    }

    constructor (lz: LzBuffer, win: Dictionary, options: Options)
      requires lz.Valid() && lz.Separate() && win.Valid() && lz.tokens == [] && win.pos == win.ahead == 0
      requires {win.dict as object, win.hash, win.next} !! {lz.buf as object, lz.lit.count, lz.lit.codes, lz.lit.sizes, lz.dist.count, lz.dist.codes, lz.dist.sizes}
      ensures Valid() && this.lz == lz && this.win == win && this.options == options && savedLen == 0 && dictPos == 0
    {
      this.lz, this.win, this.options := lz, win, options;
      savedDist, savedLen, savedLit, dictPos := 0, 0, 0, 0;
    }

    lemma Parts()
      requires Valid()
      ensures Wired() && lz.Valid() && win.Valid()
    {
    }

    /** What has been recorded since the last block is what has been counted. */
    lemma TotalRecorded()
      requires Valid()
      ensures dictPos + lz.total == Recorded()
    {
      hide Dictionary.Valid, Expand, Backed;
      TotalIs(win.src[..dictPos], lz.tokens);
      TotalOf(lz);
    }

    /** A literal is recorded. */
    method PutLit(b: u8, ghost upTo: nat)
      requires Wired() && lz.Valid() && lz.cur <= LZ_CODE_BUF_SIZE - 3 && Stand(win.src, dictPos, lz.tokens, upTo) && upTo < |win.src| && b == win.src[upTo]
      modifies lz, lz.buf, lz.lit.count
      ensures lz.Valid() && lz.cur <= old(lz.cur) + 2 && Stand(win.src, dictPos, lz.tokens, upTo + 1)
    {
      hide Stand, LzBuffer.Valid;
      StandLit(win.src, dictPos, lz.tokens, upTo);
      lz.RecordLiteral(b);
    }

    /** A match is recorded. */
    method PutMatch(len: nat, dist: nat, ghost upTo: nat)
      requires Wired() && lz.Valid() && lz.cur <= LZ_CODE_BUF_SIZE - 5 && Stand(win.src, dictPos, lz.tokens, upTo)
      requires SameBytes(win.src, upTo, dist, len) && MIN_MATCH_LEN <= len <= MAX_MATCH_LEN && dist <= LZ_DICT_SIZE
      modifies lz, lz.buf, lz.lit.count, lz.dist.count
      ensures lz.Valid() && lz.cur <= old(lz.cur) + 4 && Stand(win.src, dictPos, lz.tokens, upTo + len)
    {
      hide Stand, LzBuffer.Valid;
      StandMatch(win.src, dictPos, lz.tokens, upTo, len, dist);
      lz.RecordMatch(len, dist);
    }

    /** The match that the step considers; distance 0 means none. */
    method ChooseMatch() returns (dist: nat, len: nat)
      requires win.Valid() && savedLen < 128 && (savedLen > 0 ==> savedLen >= MIN_MATCH_LEN)
      ensures dist > 0 ==> MIN_MATCH_LEN <= len <= win.ahead && dist <= win.size && SameBytes(win.src, win.pos, dist, len)
      ensures dist == 0 ==> len <= (if savedLen > 0 then savedLen else MIN_MATCH_LEN - 1)
    {
      hide Dictionary.Valid, SameBytes, Slot;
      dist, len := 0, if savedLen > 0 then savedLen else MIN_MATCH_LEN - 1;
      if options.rle || options.forceRaw {
        if win.size > 0 && !options.forceRaw {
          len := win.FindRun();
          if len > 0 { dist := 1; }
        }
      } else {
        var probes := options.probes;
        dist, len := win.FindMatch(if len >= 32 then 1 + (probes / 4 + 2) / 3 else 1 + (probes + 2) / 3, dist, len);
      }
      if (len == MIN_MATCH_LEN && dist >= 8 * 1024) || Slot(win.pos) == dist || (options.filter && len <= 5) {
        dist, len := 0, 0;
      }
    }

    /** A match is put off, in case the next position has a longer one. */
    method Save(dist: nat, len: nat, curPos: nat)
      requires win.Valid() && curPos == Slot(win.pos) && 1 <= dist <= LZ_DICT_SIZE && MIN_MATCH_LEN <= len < 128 && SameBytes(win.src, win.pos, dist, len)
      modifies this`savedDist, this`savedLen, this`savedLit
      ensures savedLen > 0 && Saved(win.src, win.pos + 1, savedDist, savedLen, savedLit)
    {
      hide Dictionary.Valid, Slot;
      win.Facts();
      win.ByteAt(win.pos, 0);
      savedLit, savedDist, savedLen := win.dict[curPos], dist, len;
    }

    /** After recording, before the lookahead moves on by `n`. */
    ghost predicate Ready(n: nat)
      reads this, lz, lz.buf, lz.lit, lz.dist, lz.lit.count, lz.dist.count, win
    {
      && lz.Valid() && 1 <= n <= win.ahead && Stand(win.src, dictPos, lz.tokens, if savedLen > 0 then win.pos + n - 1 else win.pos + n)
      && Saved(win.src, win.pos + n, savedDist, savedLen, savedLit)
    }

    /** No match was put off. */
    method Fresh(dist: nat, len: nat, curPos: nat) returns (lenToMove: nat)
      requires Wired() && lz.Valid() && win.Valid() && savedLen == 0 && lz.cur <= LZ_CODE_BUF_SIZE - 8 && 0 < win.ahead && curPos == Slot(win.pos)
      requires dist > 0 ==> MIN_MATCH_LEN <= len <= win.ahead && dist <= win.size && SameBytes(win.src, win.pos, dist, len)
      requires Stand(win.src, dictPos, lz.tokens, win.pos)
      modifies this`savedDist, this`savedLen, this`savedLit, lz, lz.buf, lz.lit.count, lz.dist.count
      ensures Ready(lenToMove) && lz.cur <= old(lz.cur) + 6
    {
      hide Stand, LzBuffer.Valid, Dictionary.Valid, SameBytes, Slot;
      win.Facts();
      lenToMove := 1;
      if dist == 0 {
        win.ByteAt(win.pos, 0);
        PutLit(win.dict[curPos], win.pos);
      } else if options.greedy || options.rle || len >= 128 {
        PutMatch(len, dist, win.pos);
        lenToMove := len;
      } else {
        Save(dist, len, curPos);
      }
    }

    /** A match was put off, and is now recorded or gives way to a longer one. */
    method Lazy(dist: nat, len: nat, curPos: nat) returns (lenToMove: nat)
      requires Wired() && lz.Valid() && win.Valid() && savedLen > 0 && lz.cur <= LZ_CODE_BUF_SIZE - 8 && 0 < win.ahead && curPos == Slot(win.pos)
      requires dist > 0 ==> MIN_MATCH_LEN <= len <= win.ahead && dist <= win.size && SameBytes(win.src, win.pos, dist, len)
      requires dist == 0 ==> len <= savedLen
      requires Saved(win.src, win.pos, savedDist, savedLen, savedLit) && Stand(win.src, dictPos, lz.tokens, win.pos - 1)
      modifies this`savedDist, this`savedLen, this`savedLit, lz, lz.buf, lz.lit.count, lz.dist.count
      ensures Ready(lenToMove) && lz.cur <= old(lz.cur) + 6
    {
      hide Stand, LzBuffer.Valid, Dictionary.Valid, SameBytes, Slot;
      win.Facts();
      SavedShort(win.src, win.pos, savedDist, savedLen, savedLit);
      lenToMove := 1;
      if len > savedLen {
        PutLit(savedLit, win.pos - 1);
        if len >= 128 {
          PutMatch(len, dist, win.pos);
          savedLen := 0;
          lenToMove := len;
        } else {
          Save(dist, len, curPos);
        }
      } else {
        PutMatch(savedLen, savedDist, win.pos - 1);
        lenToMove := savedLen - 1;
        savedLen := 0;
      }
    }

    /** More source comes in. */
    method Refill(inp: seq<u8>, i: nat) returns (i': nat)
      requires Valid() && i <= |inp|
      modifies win`ahead, win`size, win`src, win.dict, win.hash, win.next
      ensures Valid() && win.pos == old(win.pos) && i' == i + Room(|inp| - i, old(win.ahead)) && win.ahead == old(win.ahead) + (i' - i) && win.src == old(win.src) + inp[i..i']
    {
      hide Stand, LzBuffer.Valid, Dictionary.Valid, Saved;
      StandLonger(win.src, inp[i..i + Room(|inp| - i, win.ahead)], dictPos, lz.tokens, Recorded());
      SavedLonger(win.src, inp[i..i + Room(|inp| - i, win.ahead)], win.pos, savedDist, savedLen, savedLit);
      i' := win.Refill(inp, i);
    }

    /** A new block begins where the recorded source ends. */
    method NextBlock(total: nat)
      requires Wired() && lz.Valid() && win.Valid() && Saved(win.src, win.pos, savedDist, savedLen, savedLit) && lz.tokens == [] && dictPos + total == Recorded()
      modifies this`dictPos
      ensures Valid() && dictPos == Recorded() == old(dictPos) + total
    {
      win.Facts();
      dictPos := dictPos + total;
      StandNone(win.src, dictPos);
    }

    /** With nothing ahead, nothing is put off. */
    lemma NothingSaved()
      requires Valid() && win.ahead == 0
      ensures savedLen == 0 && Recorded() == win.pos == |win.src|
    {
      hide Dictionary.Valid, LzBuffer.Valid;
      win.Facts();
    }

    /** One round of the parse, the lookahead being as full as it can be. */
    method Step()
      requires Valid() && 0 < win.ahead && lz.cur <= LZ_CODE_BUF_SIZE - 8
      modifies this`savedDist, this`savedLen, this`savedLit, lz, lz.buf, lz.lit.count, lz.dist.count, win`pos, win`ahead, win`size
      ensures Valid() && win.pos + win.ahead == old(win.pos + win.ahead) && old(win.pos) < win.pos && lz.cur <= old(lz.cur) + 6
    {
      hide Stand, LzBuffer.Valid, Dictionary.Valid, SameBytes, Slot, Saved;
      SavedShort(win.src, win.pos, savedDist, savedLen, savedLit);
      var dist, len := ChooseMatch();
      var curPos := Slot(win.pos);
      var lenToMove;
      if savedLen > 0 { lenToMove := Lazy(dist, len, curPos); } else { lenToMove := Fresh(dist, len, curPos); }
      win.Advance(lenToMove);
    }
  }

  lemma SavedShort(src: seq<u8>, pos: nat, dist: nat, len: nat, lit: u8)
    requires Saved(src, pos, dist, len, lit)
    ensures len < 128 && (len > 0 ==> 0 < pos && MIN_MATCH_LEN <= len && dist <= LZ_DICT_SIZE && pos - 1 + len <= |src|)
  {
  }

  lemma TotalOf(lz: LzBuffer)
    requires lz.Valid()
    ensures lz.total == Total(lz.tokens)
  {
  }
}
