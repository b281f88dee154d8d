/** How the code sizes of a dynamic block are packed: runs become symbols 16, 17 and 18 (section 3.2.7 of RFC 1951). */
module CodeLengths {
  import opened Bits
  import opened Canonical
  import opened Format
  import opened Writing
  import opened LzCodes
  import opened CodeSizes
  import opened TreeCode

  /** A symbol of the code for code sizes, with its extra bits. */
  datatype Item = Item(sym: nat, extra: nat)

  predicate ItemOk(i: Item, acc: seq<nat>) {
    if i.sym < 16 then true else i.sym <= 18 && i.extra < Pow2(RunExtra(i.sym)) && (i.sym == 16 ==> acc != [])
  }

  /** The code sizes after one more symbol. */
  function Unpacked(acc: seq<nat>, i: Item): seq<nat>
    requires ItemOk(i, acc)
  {
    if i.sym < 16 then acc + [i.sym] else acc + RunOf(acc, i.sym, i.extra)
  }

  predicate ItemsOk(items: seq<Item>)
    decreases |items|, 0
  {
    items == [] || (ItemsOk(items[..|items| - 1]) && ItemOk(items[|items| - 1], Unpack(items[..|items| - 1])))
  }

  /** The code sizes that the symbols stand for, which is what the inflater makes of them. */
  function Unpack(items: seq<Item>): seq<nat>
    requires ItemsOk(items)
    decreases |items|, 1
  {
    if items == [] then [] else Unpacked(Unpack(items[..|items| - 1]), items[|items| - 1])
  }

  lemma UnpackSnoc(items: seq<Item>, i: Item)
    requires ItemsOk(items) && ItemOk(i, Unpack(items))
    ensures ItemsOk(items + [i]) && Unpack(items + [i]) == Unpacked(Unpack(items), i)
  {
    assert (items + [i])[..|items|] == items;
  }

  /** `packed_code_sizes`: the extra bits of a run are stored after its symbol. */
  function Stored(items: seq<Item>): seq<nat> {
    if items == [] then []
    else
      var i := items[|items| - 1];
      Stored(items[..|items| - 1]) + (if i.sym < 16 then [i.sym] else [i.sym, i.extra])
  }

  lemma StoredSnoc(items: seq<Item>, i: Item)
    ensures Stored(items + [i]) == Stored(items) + (if i.sym < 16 then [i.sym] else [i.sym, i.extra])
  {
    assert (items + [i])[..|items|] == items;
  }

  lemma RepMore(v: nat, n: nat)
    ensures Rep(v, n + 1) == Rep(v, n) + [v]
  {
  }

  const MAX_PACKED := 320

  class Packer {
    /** `packed_code_sizes`, `num_packed_code_sizes`, `rle_z_count`, `rle_repeat_count`, `prev_code_size`, and the counts for the
        code of the code sizes. */
    const packed: array<nat>
    const table: CodeTable
    var num: nat
    var zCount: nat
    var repeatCount: nat
    var prev: nat
    ghost var items: seq<Item>
    /** The code sizes seen. */
    ghost var done: seq<nat>

    ghost predicate Valid()
      reads this, packed, table, table.count
    {
      && packed.Length == MAX_PACKED && table.Shape() && packed != table.count && num <= MAX_PACKED && |done| <= MAX_PACKED
      && ItemsOk(items) && packed[..num] == Stored(items)
      && Pending(Unpack(items), done, prev, repeatCount, zCount) && num + repeatCount + zCount <= |done|
      && Counted(table.count[..], items, num)
    }

    constructor (table: CodeTable)
      requires table.Shape() && forall s :: 0 <= s < 288 ==> table.count[s] == 0
      ensures Resting() && done == [] && this.table == table && fresh(packed)
    {
      packed := new nat[MAX_PACKED];
      this.table := table;
      num, zCount, repeatCount, prev, items, done := 0, 0, 0, 0xFF, [], [];
      new;
      CountedNone(table.count[..]);
    }

    /** One symbol, counted and stored. */
    method Put(sym: nat, extra: nat)
      requires packed.Length == MAX_PACKED && table.Shape() && packed != table.count && ItemsOk(items) && ItemOk(Item(sym, extra), Unpack(items)) && sym < 19
      requires num <= MAX_PACKED && packed[..num] == Stored(items) && Counted(table.count[..], items, num) && num + (if sym < 16 then 1 else 2) <= MAX_PACKED
      modifies this`num, this`items, packed, table.count
      ensures ItemsOk(items) && items == old(items) + [Item(sym, extra)] && Unpack(items) == Unpacked(old(Unpack(items)), Item(sym, extra))
      ensures num == old(num) + (if sym < 16 then 1 else 2) <= MAX_PACKED && packed[..num] == Stored(items) && Counted(table.count[..], items, num)
    {
      hide Unpack, Counted, Stored;
      ghost var i := Item(sym, extra);
      UnpackSnoc(items, i);
      StoredSnoc(items, i);
      CountedNext(table.count[..], items, num, i);
      table.count[sym] := table.count[sym] + 1;
      packed[num] := sym;
      num := num + 1;
      if sym >= 16 {
        packed[num] := extra;
        num := num + 1;
      }
      items := items + [i];
    }

    /** `TDEFL_RLE_PREV_CODE_SIZE` */
    method FlushRepeat()
      requires Valid()
      modifies this`num, this`items, this`repeatCount, packed, table.count
      ensures Valid() && repeatCount == 0
    {
      hide Counted, Stored, Unpack, ItemsOk, ItemOk, Unpacked;
      if repeatCount > 0 {
        ghost var acc, n := Unpack(items), repeatCount;
        if repeatCount < 3 {
          while repeatCount > 0
            invariant packed.Length == MAX_PACKED && table.Shape() && packed != table.count && ItemsOk(items)
            invariant repeatCount <= n && Unpack(items) == acc + Rep(prev, n - repeatCount) && num + repeatCount <= |done| <= MAX_PACKED
            invariant packed[..num] == Stored(items) && Counted(table.count[..], items, num)
          {
            repeatCount := repeatCount - 1;
            RepMore(prev, n - repeatCount - 1);
            OneSize(Unpack(items), prev);
            Put(prev, 0);
          }
        } else {
          RepeatRun(acc, prev, n);
          Put(16, repeatCount - 3);
        }
        repeatCount := 0;
      }
    }

    /** `TDEFL_RLE_ZERO_CODE_SIZE` */
    method FlushZeros()
      requires Valid()
      modifies this`num, this`items, this`zCount, packed, table.count
      ensures Valid() && zCount == 0
    {
      hide Counted, Stored, Unpack, ItemsOk, ItemOk, Unpacked;
      if zCount > 0 {
        ghost var acc, n := Unpack(items), zCount;
        if zCount < 3 {
          while zCount > 0
            invariant packed.Length == MAX_PACKED && table.Shape() && packed != table.count && ItemsOk(items)
            invariant zCount <= n && Unpack(items) == acc + Rep(0, n - zCount) && num + zCount <= |done| <= MAX_PACKED
            invariant packed[..num] == Stored(items) && Counted(table.count[..], items, num)
          {
            zCount := zCount - 1;
            RepMore(0, n - zCount - 1);
            OneSize(Unpack(items), 0);
            Put(0, 0);
          }
        } else if zCount <= 10 {
          ZeroRun(acc, n);
          Put(17, zCount - 3);
        } else {
          ZeroRun(acc, n);
          Put(18, zCount - 11);
        }
        zCount := 0;
      }
    }

    /** Between code sizes. */
    ghost predicate Resting()
      reads this, packed, table, table.count
    {
      Valid() && repeatCount < 6 && zCount < 138 && (if done == [] then prev == 0xFF else prev == done[|done| - 1] <= 15)
    }

    /** The body of the packing loop. */
    method Add(codeSize: nat)
      requires Resting() && codeSize <= 15 && |done| < MAX_PACKED
      modifies this, packed, table.count
      ensures Resting() && done == old(done) + [codeSize]
    {
      if codeSize == 0 { AddZero(); } else { AddSize(codeSize); }
      prev := codeSize;
    }

    method AddZero()
      requires Resting() && |done| < MAX_PACKED
      modifies this, packed, table.count
      ensures Valid() && repeatCount < 6 && zCount < 138 && done == old(done) + [0] && repeatCount == 0
    {
      hide Counted, Stored, Unpack, ItemsOk, ItemOk, Unpacked;
      FlushRepeat();
      RepMore(0, zCount);
      zCount := zCount + 1;
      done := done + [0];
      if zCount == 138 { FlushZeros(); }
    }

    method AddSize(codeSize: nat)
      requires Resting() && 0 < codeSize <= 15 && |done| < MAX_PACKED
      modifies this, packed, table.count
      ensures Valid() && repeatCount < 6 && zCount < 138 && done == old(done) + [codeSize] && (repeatCount > 0 ==> prev == codeSize)
    {
      hide Counted, Stored, Unpack, ItemsOk, ItemOk, Unpacked;
      FlushZeros();
      if codeSize != prev {
        FlushRepeat();
        OneSize(Unpack(items), codeSize);
        Put(codeSize, 0);
        done := done + [codeSize];
      } else {
        RepMore(prev, repeatCount);
        repeatCount := repeatCount + 1;
        done := done + [codeSize];
        if repeatCount == 6 { FlushRepeat(); }
      }
    }

    /** The end of the loop. */
    method Finish()
      requires Resting()
      modifies this, packed, table.count
      ensures Valid() && Unpack(items) == done == old(done) && num <= |done|
    {
      hide Counted, Stored, Unpack, ItemsOk;
      if repeatCount > 0 { FlushRepeat(); } else { FlushZeros(); }
    }
  }

  lemma ZeroRun(acc: seq<nat>, n: nat)
    ensures 3 <= n <= 10 ==> ItemOk(Item(17, n - 3), acc) && Unpacked(acc, Item(17, n - 3)) == acc + Rep(0, n)
    ensures 11 <= n <= 138 ==> ItemOk(Item(18, n - 11), acc) && Unpacked(acc, Item(18, n - 11)) == acc + Rep(0, n)
  {
    SmallPowers();
  }

  lemma RepeatRun(acc: seq<nat>, v: nat, n: nat)
    requires 3 <= n <= 6 && acc != [] && acc[|acc| - 1] == v
    ensures ItemOk(Item(16, n - 3), acc) && Unpacked(acc, Item(16, n - 3)) == acc + Rep(v, n)
  {
    SmallPowers();
  }

  lemma OneSize(acc: seq<nat>, v: nat)
    requires v < 16
    ensures ItemOk(Item(v, 0), acc) && Unpacked(acc, Item(v, 0)) == acc + [v]
  {
  }

  /** What has been packed, and the run that is still growing, are the code sizes seen; only one kind of run grows at a time. */
  ghost predicate Pending(packed: seq<nat>, done: seq<nat>, prev: nat, repeats: nat, zeros: nat) {
    && done == packed + Rep(prev, repeats) + Rep(0, zeros) && (repeats == 0 || zeros == 0) && repeats <= 6 && zeros <= 138
    && (repeats > 0 ==> packed != [] && packed[|packed| - 1] == prev && 0 < prev <= 15)
  }

  ghost predicate Counted(count: seq<nat>, items: seq<Item>, num: nat) {
    && |count| == 288 && Sum(count, 0, 288) == |items| <= num
    && (forall s :: 19 <= s < 288 ==> count[s] == 0) && forall k :: 0 <= k < |items| ==> items[k].sym < 19 && count[items[k].sym] > 0
  }

  lemma CountedNone(count: seq<nat>)
    requires |count| == 288 && forall s :: 0 <= s < 288 ==> count[s] == 0
    ensures Counted(count, [], 0)
  {
    SumZeros(count, 288);
  }

  lemma {:induction false} SumZeros(s: seq<nat>, n: nat)
    requires n <= |s| && forall i :: 0 <= i < n ==> s[i] == 0
    ensures Sum(s, 0, n) == 0
  {
    if n > 0 { SumZeros(s, n - 1); }
  }

  lemma {:induction false} SumBump(s: seq<nat>, k: nat, n: nat)
    requires k < |s| && n <= |s|
    ensures Sum(s[k := s[k] + 1], 0, n) == Sum(s, 0, n) + (if k < n then 1 else 0)
  {
    if n > 0 { SumBump(s, k, n - 1); }
  }

  lemma CountedNext(count: seq<nat>, items: seq<Item>, num: nat, i: Item)
    requires Counted(count, items, num) && i.sym < 19
    ensures Counted(count[i.sym := count[i.sym] + 1], items + [i], num + (if i.sym < 16 then 1 else 2))
  {
    SumBump(count, i.sym, 288);
  }
}
