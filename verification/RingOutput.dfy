/** The inflater's output buffer, which is also the dictionary for matches: one array that holds the whole output, or a
    ring that is written round and round.  `pOut_buf_cur` and the copy loops work on it in place. */
module RingOutput {
  import opened Bits
  import opened Format

  /** The array cell of output byte `i`: `base` bytes were written before the writer last started at cell 0. */
  function Cell(i: int, base: int, size: nat): int {
    if i >= base then i - base else i - base + size
  }

  class RingOutput {
    const buf: array<u8>
    const wrapping: bool
    var cur: nat
    var end: nat
    /** Everything written so far, in all calls, and how much of it came before the current lap. */
    ghost var out: seq<u8>
    ghost var base: nat

    ghost predicate Valid()
      reads this, buf
    {
      && cur <= end <= buf.Length && base + cur == |out| && (!wrapping ==> base == 0) && (wrapping ==> end == buf.Length)
      && forall i :: 0 <= i < |out| && |out| - buf.Length <= i ==> out[i] == buf[Cell(i, base, buf.Length)]
    }

    constructor (buf: array<u8>, wrapping: bool)
      ensures Valid() && this.buf == buf && this.wrapping == wrapping && out == [] && cur == 0 && end == buf.Length
    {
      this.buf, this.wrapping := buf, wrapping;
      cur, end := 0, buf.Length;
      out, base := [], 0;
    }

    /** A new call says where to go on writing, and up to where.  A full ring starts again at cell 0. */
    method StartCall(next: nat, size: nat)
      requires Valid()
      requires next == cur || (wrapping && cur == buf.Length && next == 0)
      requires next + size <= buf.Length && (wrapping ==> next + size == buf.Length)
      modifies this
      ensures Valid() && cur == next && end == next + size && out == old(out)
    {
      if next != cur { base := base + cur; }
      cur, end := next, next + size;
    }

    /** `*pOut_buf_cur++ = b` */
    method Write(b: u8)
      requires Valid() && cur < end
      modifies this`cur, this`out, buf
      ensures Valid() && out == old(out) + [b] && cur == old(cur) + 1
    {
      buf[cur] := b;
      cur := cur + 1;
      out := out + [b];
    }

    /** Cell `src` is where the byte `dist` back in the output is. */
    ghost predicate Points(src: int, dist: nat)
      reads this
    {
      1 <= dist <= |out| && dist <= buf.Length && src == Cell(|out| - dist, base, buf.Length)
    }

    /** Copying the byte at `src`, which is the byte `dist` back. */
    method CopyByte(src: nat, ghost dist: nat)
      requires Valid() && cur < end && src < buf.Length
      modifies this`cur, this`out, buf
      ensures Valid() && cur == old(cur) + 1 && |out| == |old(out)| + 1 && old(out) <= out
      ensures old(Points(src, dist)) ==> out == old(out) + [old(out)[|old(out)| - dist]]
      ensures old(Points(src, dist)) && src + 1 < buf.Length ==> Points(src + 1, dist)
    {
      Write(buf[src]);
    }

    /** The copy is under way: `done` bytes of the match that began at output `start` are written, and `src` is next. */
    ghost predicate Copying(start: seq<u8>, done: nat, src: nat, dist: nat)
      reads this
    {
      1 <= dist <= |start| && out == CopyMatch(start, done, dist) && (src < buf.Length ==> Points(src, dist))
    }

    method CopyNext(src: nat, ghost dist: nat, ghost start: seq<u8>, ghost done: nat)
      requires Valid() && cur < end && src < buf.Length
      modifies this`cur, this`out, buf
      ensures Valid() && cur == old(cur) + 1 && |out| == |old(out)| + 1 && old(out) <= out
      ensures old(Copying(start, done, src, dist)) ==> Copying(start, done + 1, src + 1, dist)
    {
      hide CopyMatch;
      if Copying(start, done, src, dist) { CopyMatchSnoc(start, done, dist); }
      CopyByte(src, dist);
    }

    /** The contiguous copy: three bytes at a time, then the one or two that are left. */
    method CopyRun(src: nat, len: nat, ghost dist: nat)
      requires Valid() && cur + len <= end && src + len <= end
      modifies this`cur, this`out, buf
      ensures Valid() && cur == old(cur) + len && |out| == |old(out)| + len && old(out) <= out
      ensures old(Points(src, dist)) ==> 1 <= dist <= |old(out)| && out == CopyMatch(old(out), len, dist)
    {
      hide CopyMatch, Cell, Points, Copying;
      ghost var good := Points(src, dist);
      ghost var start := out;
      CopyStarts(src, dist);
      var counter: nat, s: nat := len, src;
      while counter > 2
        invariant Valid() && counter <= len && s + counter == src + len && cur + counter == old(cur) + len
        invariant |out| + counter == |start| + len && start <= out
        invariant good ==> Copying(start, len - counter, s, dist)
      {
        CopyNext(s, dist, start, len - counter);
        CopyNext(s + 1, dist, start, len - counter + 1);
        CopyNext(s + 2, dist, start, len - counter + 2);
        s, counter := s + 3, counter - 3;
      }
      if counter > 0 {
        CopyNext(s, dist, start, len - counter);
        if counter > 1 {
          CopyNext(s + 1, dist, start, len - counter + 1);
        }
      }
      CopyEnds(start, len, src + len, dist);
    }

    lemma CopyStarts(src: nat, dist: nat)
      ensures Points(src, dist) ==> Copying(out, 0, src, dist)
    {
    }

    lemma CopyEnds(start: seq<u8>, len: nat, src: nat, dist: nat)
      ensures Copying(start, len, src, dist) ==> 1 <= dist <= |start| && out == CopyMatch(start, len, dist)
    {
    }
  }

  lemma CopyMatchSnoc(start: seq<u8>, done: nat, dist: nat)
    requires 1 <= dist <= |start|
    ensures var a := CopyMatch(start, done, dist); CopyMatch(start, done + 1, dist) == a + [a[|a| - dist]]
  {
    CopyMatchSplit(start, done, 1, dist);
  }

  /** `(from - dist) & mask`, for a ring: the byte `dist` back, when `from` is the cursor up to whole laps. */
  lemma RingIndex(from: int, cur: nat, laps: nat, dist: nat, size: nat)
    requires 0 < size && from == cur + laps * size && cur < size && 1 <= dist <= size
    ensures (from - dist) % size == if dist <= cur then cur - dist else cur - dist + size
  {
    var r := if dist <= cur then cur - dist else cur - dist + size;
    var q := if dist <= cur then laps else laps - 1;
    assert from - dist == r + q * size;
    ModUnique(from - dist, r, q, size);
  }
}
