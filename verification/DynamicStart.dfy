/** How a block begins with codes made for it: the codes themselves, and their packed sizes. */
module DynamicStart {
  import opened Bits
  import opened Canonical
  import opened Format
  import opened LzCodes
  import opened TreeCode
  import opened CodeSizes
  import opened BitOutput
  import opened CodeLengths
  import opened DynamicBlocks
  import opened LzBuffer
  import opened BlockStart
  import opened SymbolCost
  import opened BlockSize

  // ----- reading `packed_code_sizes` back

  lemma {:induction false} StoredPrefix(items: seq<Item>, k: nat)
    requires k <= |items|
    ensures Stored(items[..k]) <= Stored(items)
  {
    if k == |items| {
      assert items[..k] == items;
    } else {
      StoredPrefix(items[..|items| - 1], k);
      assert items[..|items| - 1][..k] == items[..k];
    }
  }

  lemma StoredAt(items: seq<Item>, k: nat, p: nat)
    requires k < |items| && p == |Stored(items[..k])|
    ensures p < |Stored(items)| && Stored(items)[p] == items[k].sym
    ensures items[k].sym >= 16 ==> p + 1 < |Stored(items)| && Stored(items)[p + 1] == items[k].extra
    ensures |Stored(items[..k + 1])| == p + (if items[k].sym < 16 then 1 else 2)
  {
    hide Stored;
    StoredPrefix(items, k + 1);
    assert items[..k + 1] == items[..k] + [items[k]];
    StoredSnoc(items[..k], items[k]);
  }

  lemma StoredMore(items: seq<Item>, k: nat)
    requires k <= |items| && |Stored(items[..k])| >= |Stored(items)|
    ensures k == |items|
  {
    if k < |items| { StoredAt(items, k, |Stored(items[..k])|); }
  }

  lemma {:induction false} ItemsOkAt(items: seq<Item>, k: nat)
    requires ItemsOk(items) && k < |items|
    ensures items[k].sym >= 16 ==> items[k].sym <= 18 && items[k].extra < Pow2(RunExtra(items[k].sym))
  {
    hide Pow2;
    var n := |items| - 1;
    if k < n { ItemsOkAt(items[..n], k); }
  }

  lemma ItemsNext(lens2: seq<nat>, items: seq<Item>, k: nat)
    requires k < |items|
    ensures ItemsBits(lens2, items[..k + 1]) == ItemsBits(lens2, items[..k]) + ItemBits(lens2, items[k])
  {
    assert items[..k + 1][..k] == items[..k];
  }

  lemma ItemsNone(lens2: seq<nat>)
    ensures ItemsBits(lens2, []) == [] && Stored([]) == []
  {
  }

  lemma Joined(s: Bits, a: Bits, b: Bits, c: Bits, d: Bits, e: Bits)
    ensures s + a + b + c + d + e == s + (a + b + c + d + e)
  {
  }

  // ----- sums

  lemma {:induction false} SumMono(s: seq<nat>, k: nat, n: nat)
    requires k <= n <= |s|
    ensures Sum(s, 0, k) <= Sum(s, 0, n)
  {
    if k < n { SumMono(s, k, n - 1); }
  }

  lemma SumFirst(s: seq<nat>, k: nat)
    requires k <= |s|
    ensures Sum(s[..k], 0, k) <= Sum(s, 0, |s|)
  {
    SumPrefix(s[..k], s, k);
    SumMono(s, k, |s|);
  }

  // ----- the codes

  lemma TokensFew(tokens: seq<Token>)
    requires Offset(tokens) < LZ_CODE_BUF_SIZE
    ensures |tokens| + 1 < 65536
  {
  }

  /** Codes for the literals and matches of the block, and how much of their tables has to be sent. */
  method MakeCodes(lz: LzBuffer) returns (numLit: nat, numDist: nat)
    requires lz.Closed() && lz.Separate() && CountsFit(lz.lit.count[..], lz.dist.count[..], lz.tokens)
    modifies lz.lit.count, lz.lit.sizes, lz.lit.codes, lz.dist.sizes, lz.dist.codes
    ensures lz.Ready() && 257 <= numLit <= 286 && 1 <= numDist <= 30
    ensures ZeroFrom(lz.lit.sizes[..288], numLit) && ZeroFrom(lz.dist.sizes[..32], numDist)
    ensures Buildable(lz.lit.sizes[..288]) && Buildable(lz.dist.sizes[..32]) && Compact(lz.BlockCodes(), lz.tokens)
  {
    hide Buildable, Sum, Offset, CodeTable.Coded, Readable, Covers, Compact, CountsFit;
    OptimizeBoth(lz);
    numLit := 286;
    while numLit > 257 && lz.lit.sizes[numLit - 1] == 0
      invariant 257 <= numLit <= 286 && forall s :: numLit <= s < 288 ==> lz.lit.sizes[s] == 0
    {
      numLit := numLit - 1;
    }
    numDist := 30;
    while numDist > 1 && lz.dist.sizes[numDist - 1] == 0
      invariant 1 <= numDist <= 30 && forall s :: numDist <= s < 32 ==> lz.dist.sizes[s] == 0
    {
      numDist := numDist - 1;
    }
  }

  /** The two codes. */
  method OptimizeBoth(lz: LzBuffer)
    requires lz.Closed() && lz.Separate() && CountsFit(lz.lit.count[..], lz.dist.count[..], lz.tokens)
    modifies lz.lit.count, lz.lit.sizes, lz.lit.codes, lz.dist.sizes, lz.dist.codes
    ensures lz.Ready() && Buildable(lz.lit.sizes[..288]) && Buildable(lz.dist.sizes[..32]) && Compact(lz.BlockCodes(), lz.tokens)
    ensures (forall s :: 286 <= s < 288 ==> lz.lit.sizes[s] == 0) && forall s :: 30 <= s < 32 ==> lz.dist.sizes[s] == 0
  {
    hide Buildable, Sum, Offset, CodeTable.Coded, Readable, LenSym, DistSym, Covers, LitCounts, DistCounts, NearBest, Compact;
    ghost var counts, tokens := lz.lit.count[..], lz.tokens;
    TokensFew(tokens);
    lz.lit.count[256] := 1;
    assert lz.lit.count[..] == counts[256 := 1];
    SumUpdate(counts, 256, 1, 288);
    SumFirst(lz.lit.count[..], 288);
    SumFirst(lz.dist.count[..], 32);
    WideEnough();
    lz.lit.Optimize(288, 15);
    lz.dist.Optimize(32, 15);
    assert lz.lit.count[..288] == counts[256 := 1];
    MadeCompact(counts, lz.dist.count[..], lz.lit.sizes[..288], lz.dist.sizes[..32], tokens);
    MadeCovers(counts, lz.dist.count[..], lz.lit.sizes[..288], lz.dist.sizes[..32], tokens);
  }

  lemma MadeCovers(lit: seq<nat>, dist: seq<nat>, litSizes: seq<nat>, distSizes: seq<nat>, tokens: seq<Token>)
    requires CountsFit(lit, dist, tokens) && |litSizes| == 288 && |distSizes| == 32
    requires forall s :: 0 <= s < 286 && lit[s] > 0 ==> litSizes[s] > 0
    requires forall s :: 0 <= s < 30 && dist[s] > 0 ==> distSizes[s] > 0
    ensures forall k :: 0 <= k < |tokens| ==> Covers(Codes(litSizes, distSizes), tokens[k])
  {
    hide Sum, LitCounts, DistCounts, LenSym, DistSym, Covers;
    forall k | 0 <= k < |tokens| ensures Covers(Codes(litSizes, distSizes), tokens[k]) {
      assert TokenCounted(lit, dist, tokens[k]);
      CountedCovers(lit, dist, litSizes, distSizes, tokens[k]);
    }
  }

  lemma MadeCompact(lit: seq<nat>, dist: seq<nat>, litSizes: seq<nat>, distSizes: seq<nat>, tokens: seq<Token>)
    requires CountsFit(lit, dist, tokens) && Offset(tokens) < LZ_CODE_BUF_SIZE && |litSizes| == 288 && |distSizes| == 32
    requires NearBest(lit[256 := 1], litSizes) && NearBest(dist[..32], distSizes)
    ensures Compact(Codes(litSizes, distSizes), tokens)
  {
    hide Sum, Offset, LitCounts, DistCounts, NearBest, Compact, LenSym, DistSym;
    forall k | 0 <= k < |tokens| ensures Recordable(tokens[k]) { assert TokenCounted(lit, dist, tokens[k]); }
    SumPrefix(dist[..32], dist, 32);
    SumMono(dist, 32, MAX_SYMBOLS);
    assert BlockCounts(tokens) == lit[256 := 1];
    OwnCompact(Codes(litSizes, distSizes), tokens);
  }

  lemma WideEnough()
    ensures Pow2(15) == 32768 && Pow2(7) == 128 && Pow2(4) == 16 && Pow2(5) == 32 && Pow2(2) == 4 && Pow2(3) == 8
  {
  }

  lemma CountedCovers(lit: seq<nat>, dist: seq<nat>, litSizes: seq<nat>, distSizes: seq<nat>, t: Token)
    requires |lit| == |dist| == MAX_SYMBOLS && |litSizes| == 288 && |distSizes| == 32 && TokenCounted(lit, dist, t)
    requires forall s :: 0 <= s < 286 && lit[s] > 0 ==> litSizes[s] > 0
    requires forall s :: 0 <= s < 30 && dist[s] > 0 ==> distSizes[s] > 0
    ensures Covers(Codes(litSizes, distSizes), t)
  {
    hide LenSym, DistSym;
  }

  // ----- their sizes, packed

  /** The loop over `code_sizes_to_pack`. */
  method PackSizes(t2: CodeTable, toPack: seq<nat>) returns (p: Packer)
    requires t2.Shape() && |toPack| <= MAX_PACKED && (forall i :: 0 <= i < |toPack| ==> toPack[i] <= 15) && forall s :: 19 <= s < 288 ==> t2.count[s] == 0
    modifies t2.count
    ensures fresh(p) && fresh(p.packed) && p.table == t2 && p.Valid() && Unpack(p.items) == toPack
  {
    hide Packer.Valid, Unpack, ItemsOk;
    forall s | 0 <= s < 19 { t2.count[s] := 0; }
    p := new Packer(t2);
    for i := 0 to |toPack|
      invariant fresh(p) && fresh(p.packed) && p.table == t2 && p.Resting() && p.done == toPack[..i]
    {
      p.Add(toPack[i]);
    }
    p.Finish();
    assert toPack[..|toPack|] == toPack;
  }

  /** How many sizes of the code for code sizes have to be sent. */
  method BitLengths(t2: CodeTable) returns (n: nat)
    requires t2.Shape()
    ensures 4 <= n <= 19 && forall j :: n <= j < 19 ==> SizeAt(t2.sizes[..19], j) == 0
  {
    var last := 18;
    while last >= 0 && t2.sizes[ZIGZAG[last]] == 0
      invariant -1 <= last <= 18 && forall j :: last < j < 19 ==> SizeAt(t2.sizes[..19], j) == 0
    {
      last := last - 1;
    }
    n := if last + 1 > 4 then last + 1 else 4;
  }

  /** The sizes of the code for code sizes. */
  method PutSizes(o: BitOutput, t2: CodeTable) returns (n: nat)
    requires o.Valid() && t2.Shape() && o.buf as object != t2.sizes && forall s :: 0 <= s < 19 ==> t2.sizes[s] <= 7
    modifies o`cur, o`bitBuffer, o`bitsIn, o`bits, o.buf
    ensures o.Valid() && o.Extends() && 4 <= n <= 19 && forall j :: n <= j < 19 ==> SizeAt(t2.sizes[..19], j) == 0
    ensures o.bits == old(o.bits) + Lsb(n - 4, 4) + SizesBits(t2.sizes[..19], n)
  {
    hide Lsb, BitOutput.Valid, Pow2;
    ghost var lens2 := t2.sizes[..19];
    WideEnough();
    n := BitLengths(t2);
    o.PutBits(n - 4, 4);
    ghost var base := o.bits;
    assert base + [] == base;
    for i := 0 to n
      invariant o.Valid() && o.Extends() && t2.sizes[..19] == lens2 && o.bits == base + SizesBits(lens2, i)
    {
      o.PutBits(t2.sizes[ZIGZAG[i]], 3);
      assert base + SizesBits(lens2, i) + Lsb(SizeAt(lens2, i), 3) == base + SizesBits(lens2, i + 1);
    }
  }

  /** The packed code sizes. */
  method PutItems(o: BitOutput, t2: CodeTable, p: Packer)
    requires o.Valid() && p.Valid() && t2 == p.table && t2.Coded(19) && o.buf as object != t2.sizes && o.buf as object != t2.codes && o.buf as object != p.packed && o.buf as object != t2.count
    requires forall k :: 0 <= k < |p.items| ==> p.items[k].sym < 19 && 0 < t2.sizes[p.items[k].sym] <= 7
    modifies o`cur, o`bitBuffer, o`bitsIn, o`bits, o.buf
    ensures o.Valid() && o.Extends() && o.bits == old(o.bits) + ItemsBits(t2.sizes[..19], p.items)
  {
    hide Lsb, BitOutput.Valid, Pow2, Stored, CodeTable.Coded, ItemsOk, Unpack, Pending, Counted, ItemsBits, ItemBits;
    ghost var lens2, items := t2.sizes[..19], p.items;
    var index: nat := 0;
    ghost var k: nat := 0;
    ItemsNone(lens2);
    assert items[..0] == [] && o.bits + [] == o.bits;
    while index < p.num
      invariant k <= |items| && index == |Stored(items[..k])| && o.Valid() && o.Extends()
      invariant o.bits == old(o.bits) + ItemsBits(lens2, items[..k])
      decreases |items| - k
    {
      StoredFits(items, k);
      StoredAt(items, k, index);
      ItemsOkAt(items, k);
      ItemsNext(lens2, items, k);
      var code := p.packed[index];
      assert code == Stored(items)[index];
      ghost var base := o.bits;
      PutItem(o, t2, code, if code >= 16 then p.packed[index + 1] else 0);
      ItemBitsIs(lens2, items[k]);
      assert base + ItemBits(lens2, items[k]) == old(o.bits) + ItemsBits(lens2, items[..k + 1]);
      index := index + (if code >= 16 then 2 else 1);
      k := k + 1;
    }
    StoredMore(items, k);
    assert items[..k] == items;
  }

  lemma StoredFits(items: seq<Item>, k: nat)
    requires k <= |items| && |Stored(items[..k])| < |Stored(items)|
    ensures k < |items|
  {
    assert items[..|items|] == items;
  }

  lemma ItemBitsIs(lens2: seq<nat>, i: Item)
    ensures i.sym < 16 ==> ItemBits(lens2, i) == SymBits(lens2, i.sym)
    ensures i.sym >= 16 ==> ItemBits(lens2, i) == SymBits(lens2, i.sym) + Lsb(i.extra, RunExtra(i.sym))
  {
  }

  method PutItem(o: BitOutput, t2: CodeTable, code: nat, extra: nat)
    requires o.Valid() && t2.Coded(19) && code < 19 && 0 < t2.sizes[code] <= 7 && o.buf as object != t2.sizes && o.buf as object != t2.codes
    requires code >= 16 ==> extra < Pow2(RunExtra(code))
    modifies o`cur, o`bitBuffer, o`bitsIn, o`bits, o.buf
    ensures o.Valid() && o.Extends()
    ensures o.bits == old(o.bits) + (SymBits(t2.sizes[..19], code) + (if code < 16 then [] else Lsb(extra, RunExtra(code))))
  {
    hide Lsb, BitOutput.Valid, Pow2, CodeBits, Val;
    ghost var base, sym := o.bits, SymBits(t2.sizes[..19], code);
    o.PutSymbol(t2, 19, code);
    assert base + (sym + []) == base + sym;
    if code >= 16 {
      o.PutBits(extra, RunExtra(code));
      assert base + sym + Lsb(extra, RunExtra(code)) == base + (sym + Lsb(extra, RunExtra(code)));
    }
  }

  // ----- altogether

  /** What `TableStands` asks of the tables of a block. */
  ghost predicate Tables(sizes: seq<nat>, lens2: seq<nat>, items: seq<Item>, codes: Codes) {
    && |sizes| == 3 && SizesOk(sizes) && |lens2| == 19 && Buildable(lens2)
    && (forall j :: 0 <= j < 19 ==> lens2[j] < 8) && (forall j :: sizes[2] <= j < 19 ==> SizeAt(lens2, j) == 0)
    && ItemsOk(items) && (forall k :: 0 <= k < |items| ==> Used(lens2, items[k].sym))
    && |codes.lit| == sizes[0] && |codes.dist| == sizes[1] && Unpack(items) == codes.lit + codes.dist && CodesOk(codes)
  }

  /** The tables take few bits. */
  lemma TableRoom(sizes: seq<nat>, lens2: seq<nat>, items: seq<Item>, codes: Codes)
    requires Tables(sizes, lens2, items, codes)
    ensures |TableBits(sizes, lens2, items)| <= 2320
  {
    hide Buildable, ItemsOk, Unpack, CodesOk, SizesBits, ItemsBits, Lsb;
    ItemsRoom(lens2, items);
    SizesRoom(lens2, sizes[2]);
  }

  lemma {:induction false} SizesRoom(lens2: seq<nat>, k: nat)
    requires |lens2| == 19 && k <= 19
    ensures |SizesBits(lens2, k)| == 3 * k
  {
    hide Lsb;
    if k > 0 { SizesRoom(lens2, k - 1); }
  }

  /** No size takes more than seven bits, packed or not. */
  lemma {:induction false} ItemsRoom(lens2: seq<nat>, items: seq<Item>)
    requires |lens2| == 19 && (forall j :: 0 <= j < 19 ==> lens2[j] < 8) && ItemsOk(items)
    ensures |ItemsBits(lens2, items)| <= 7 * |Unpack(items)|
  {
    hide Lsb, CodeBits;
    if items != [] {
      ItemsRoom(lens2, items[..|items| - 1]);
      ItemRoom(lens2, items[|items| - 1], Unpack(items[..|items| - 1]));
    }
  }

  lemma ItemRoom(lens2: seq<nat>, i: Item, acc: seq<nat>)
    requires |lens2| == 19 && (forall j :: 0 <= j < 19 ==> lens2[j] < 8) && ItemOk(i, acc)
    ensures |ItemBits(lens2, i)| + 7 * |acc| <= 7 * |Unpacked(acc, i)|
  {
    hide Lsb, CodeBits, Pow2;
  }

  lemma CountedUsed(count: seq<nat>, sizes: seq<nat>, items: seq<Item>, num: nat)
    requires Counted(count, items, num) && |sizes| == 19 && forall s :: 0 <= s < 19 ==> sizes[s] <= 7 && (count[s] > 0 ==> sizes[s] > 0)
    ensures forall k :: 0 <= k < |items| ==> items[k].sym < 19 && 0 < sizes[items[k].sym] <= 7
    ensures Sum(count[..19], 0, 19) <= num
  {
    SumFirst(count, 19);
  }

  /** The code sizes are packed, and a code made for the symbols that packing needs. */
  method MakeSizeCode(t2: CodeTable, toPack: seq<nat>) returns (p: Packer)
    requires t2.Shape() && |toPack| <= MAX_PACKED && (forall i :: 0 <= i < |toPack| ==> toPack[i] <= 15) && forall s :: 19 <= s < 288 ==> t2.count[s] == 0
    modifies t2.count, t2.sizes, t2.codes
    ensures fresh(p) && fresh(p.packed) && p.table == t2 && p.Valid() && Unpack(p.items) == toPack && t2.Coded(19) && Buildable(t2.sizes[..19])
    ensures (forall s :: 19 <= s < 288 ==> t2.count[s] == 0) && (forall s :: 0 <= s < 19 ==> t2.sizes[s] <= 7)
    ensures forall k :: 0 <= k < |p.items| ==> p.items[k].sym < 19 && 0 < t2.sizes[p.items[k].sym] <= 7
  {
    hide Buildable, ItemsOk, Unpack, Stored, Pending, Sum, CodeTable.Coded;
    p := PackSizes(t2, toPack);
    WideEnough();
    CountedUsed(t2.count[..], Rep(1, 19), p.items, p.num);
    t2.Optimize(19, 7);
    CountedUsed(t2.count[..], t2.sizes[..19], p.items, p.num);
  }

  /** The header of the block after its kind, and the packed sizes. */
  method PutTables(o: BitOutput, t2: CodeTable, p: Packer, numLit: nat, numDist: nat) returns (ghost sizes: seq<nat>)
    requires o.Valid() && p.Valid() && t2 == p.table && t2.Shape() && t2.Coded(19) && 257 <= numLit <= 286 && 1 <= numDist <= 30
    requires o.buf as object !in {t2.count, t2.codes, t2.sizes, p.packed} && forall s :: 0 <= s < 19 ==> t2.sizes[s] <= 7
    requires forall k :: 0 <= k < |p.items| ==> p.items[k].sym < 19 && 0 < t2.sizes[p.items[k].sym] <= 7
    modifies o`cur, o`bitBuffer, o`bitsIn, o`bits, o.buf
    ensures |sizes| == 3 && SizesOk(sizes) && sizes[0] == numLit && sizes[1] == numDist && forall j :: sizes[2] <= j < 19 ==> SizeAt(t2.sizes[..19], j) == 0
    ensures o.Valid() && o.Extends() && o.bits == old(o.bits) + Lsb(2, 2) + TableBits(sizes, t2.sizes[..19], p.items)
  {
    hide BitOutput.Valid, Lsb, ItemsBits, SizesBits, Packer.Valid, CodeTable.Coded;
    ghost var lens2 := t2.sizes[..19];
    WideEnough();
    o.PutBits(2, 2);
    ghost var base := o.bits;
    o.PutBits(numLit - 257, 5);
    o.PutBits(numDist - 1, 5);
    var numBitLengths := PutSizes(o, t2);
    PutItems(o, t2, p);
    sizes := [numLit, numDist, numBitLengths];
    Joined(base, Lsb(numLit - 257, 5), Lsb(numDist - 1, 5), Lsb(numBitLengths - 4, 4), SizesBits(lens2, numBitLengths), ItemsBits(lens2, p.items));
  }

  /** `tdefl_start_dynamic_block` */
  method StartDynamic(lz: LzBuffer, o: BitOutput, t2: CodeTable)
    returns (ghost sizes: seq<nat>, ghost lens2: seq<nat>, ghost items: seq<Item>, ghost codes: Codes)
    requires lz.Closed() && lz.Separate() && lz.Apart(o) && o.Valid() && CountsFit(lz.lit.count[..], lz.dist.count[..], lz.tokens)
    requires t2.Shape() && (forall s :: 19 <= s < 288 ==> t2.count[s] == 0) && Alone(t2, lz, o)
    modifies lz.lit.count, lz.lit.sizes, lz.lit.codes, lz.dist.sizes, lz.dist.codes, t2.count, t2.sizes, t2.codes
    modifies o`cur, o`bitBuffer, o`bitsIn, o`bits, o.buf
    ensures lz.Ready() && Compact(lz.BlockCodes(), lz.tokens) && Tables(sizes, lens2, items, codes) && Trimmed(lz.BlockCodes(), codes) && (forall s :: 19 <= s < 288 ==> t2.count[s] == 0)
    ensures o.Valid() && o.Extends() && o.bits == old(o.bits) + Lsb(2, 2) + TableBits(sizes, lens2, items)
  {
    hide BitOutput.Valid, Lsb, Buildable, Compact, LzBuffer.Closed, TableBits, Stored, Pending, Counted, CodeTable.Coded, Covers, CountsFit;
    var numLit, numDist := MakeCodes(lz);
    var toPack := lz.lit.sizes[..numLit] + lz.dist.sizes[..numDist];
    var p := MakeSizeCode(t2, toPack);
    sizes := PutTables(o, t2, p, numLit, numDist);
    lens2, items, codes := t2.sizes[..19], p.items, Codes(lz.lit.sizes[..numLit], lz.dist.sizes[..numDist]);
    BuildableTrim(lz.lit.sizes[..288], numLit);
    BuildableTrim(lz.dist.sizes[..32], numDist);
    assert lz.lit.sizes[..288][..numLit] == codes.lit && lz.dist.sizes[..32][..numDist] == codes.dist;
  }

  /** The third table has its arrays for itself. */
  ghost predicate Alone(t2: CodeTable, lz: LzBuffer, o: BitOutput) {
    && {t2.count, t2.codes, t2.sizes} !! {lz.lit.count, lz.lit.codes, lz.lit.sizes, lz.dist.count, lz.dist.codes, lz.dist.sizes}
    && lz.buf as object !in {t2.count, t2.codes, t2.sizes} && o.buf as object !in {t2.count, t2.codes, t2.sizes}
  }
}
