/** The code tables of a dynamic block (section 3.2.7 of RFC 1951), as bits that the reference machine reads back. */
module DynamicBlocks {
  import opened Bits
  import opened Canonical
  import opened Format
  import opened Writing
  import opened LzCodes
  import opened CodeLengths

  // ----- the bits

  function ItemBits(lens2: seq<nat>, i: Item): Bits {
    SymBits(lens2, i.sym) + (if i.sym < 16 then [] else Lsb(i.extra, RunExtra(i.sym)))
  }

  function ItemsBits(lens2: seq<nat>, items: seq<Item>): Bits {
    if items == [] then [] else ItemsBits(lens2, items[..|items| - 1]) + ItemBits(lens2, items[|items| - 1])
  }

  function SizeAt(lens2: seq<nat>, k: nat): nat
    requires |lens2| == 19 && k < 19
  {
    lens2[ZIGZAG[k]]
  }

  /** The first `k` sizes of the code for code sizes, in the order of the format. */
  function SizesBits(lens2: seq<nat>, k: nat): Bits
    requires |lens2| == 19 && k <= 19
  {
    if k == 0 then [] else SizesBits(lens2, k - 1) + Lsb(SizeAt(lens2, k - 1), 3)
  }

  // ----- reading them

  lemma ItemStands(m: Mode, s: Bits, c: Config, sizes: seq<nat>, lens2: seq<nat>, acc: seq<nat>, i: Item)
    requires Stands(m, s, c) && c.phase == CodeSizes(sizes, lens2, acc) && WellFormed(c) && |acc| < sizes[0] + sizes[1]
    requires Used(lens2, i.sym) && ItemOk(i, acc)
    ensures Stands(m, s + ItemBits(lens2, i), c.(phase := CodeSizes(sizes, lens2, Unpacked(acc, i)), pos := c.pos + |ItemBits(lens2, i)|))
  {
    hide Stands, CodeBits, Buildable, Lsb, RunOf, Pow2;
    var n := lens2[i.sym];
    if i.sym < 16 {
      var d := c.(phase := CodeSizes(sizes, lens2, acc + [i.sym]), pos := c.pos + n);
      StandSymbol(m, s, c, lens2, i.sym, d);
      assert s + CodeBits(lens2, i.sym) == s + ItemBits(lens2, i);
    } else {
      var d := c.(phase := CodeSizeRun(sizes, lens2, acc, i.sym), pos := c.pos + n);
      StandSymbol(m, s, c, lens2, i.sym, d);
      StandRun(m, s + CodeBits(lens2, i.sym), d, i.extra);
      assert s + CodeBits(lens2, i.sym) + Lsb(i.extra, RunExtra(i.sym)) == s + ItemBits(lens2, i);
    }
  }

  lemma StandRun(m: Mode, s: Bits, c: Config, v: nat)
    requires Stands(m, s, c) && c.phase.CodeSizeRun? && 16 <= c.phase.sym <= 18 && v < Pow2(RunExtra(c.phase.sym)) && (c.phase.sym == 16 ==> c.phase.acc != [])
    ensures Stands(m, s + Lsb(v, RunExtra(c.phase.sym)),
                   c.(phase := CodeSizes(c.phase.sizes, c.phase.lens2, c.phase.acc + RunOf(c.phase.acc, c.phase.sym, v)), pos := c.pos + RunExtra(c.phase.sym)))
  {
    hide Step, Lsb, Field, Pow2, Reaches, RunOf;
    StandsOk(m, s, c);
    var n := RunExtra(c.phase.sym);
    FieldWritten(s, v, n);
    RunNext(m, c, s + Lsb(v, n));
    StandStep(m, s, Lsb(v, n), c, c.(phase := CodeSizes(c.phase.sizes, c.phase.lens2, c.phase.acc + RunOf(c.phase.acc, c.phase.sym, v)), pos := c.pos + n));
  }

  lemma UnpackGrows(items: seq<Item>)
    requires items != [] && ItemsOk(items)
    ensures |Unpack(items[..|items| - 1])| < |Unpack(items)|
  {
  }

  /** The packed code sizes are unpacked again. */
  lemma {:induction false} ItemsStand(m: Mode, s: Bits, c: Config, sizes: seq<nat>, lens2: seq<nat>, items: seq<Item>)
    requires Stands(m, s, c) && c.phase == CodeSizes(sizes, lens2, []) && WellFormed(c) && ItemsOk(items) && |Unpack(items)| <= sizes[0] + sizes[1]
    requires forall k :: 0 <= k < |items| ==> Used(lens2, items[k].sym)
    ensures Stands(m, s + ItemsBits(lens2, items), c.(phase := CodeSizes(sizes, lens2, Unpack(items)), pos := c.pos + |ItemsBits(lens2, items)|))
    decreases |items|
  {
    hide Stands, ItemBits, Unpacked, Buildable, ItemOk, Sized;
    if items == [] {
      assert s + [] == s;
    } else {
      var init, i := items[..|items| - 1], items[|items| - 1];
      UnpackGrows(items);
      ItemsStand(m, s, c, sizes, lens2, init);
      var d := c.(phase := CodeSizes(sizes, lens2, Unpack(init)), pos := c.pos + |ItemsBits(lens2, init)|);
      StandsOk(m, s + ItemsBits(lens2, init), d);
      ItemStands(m, s + ItemsBits(lens2, init), d, sizes, lens2, Unpack(init), i);
      assert s + ItemsBits(lens2, init) + ItemBits(lens2, i) == s + ItemsBits(lens2, items);
    }
  }

  /** The sizes for the code sizes, three bits each. */
  ghost predicate PartSizes(part: seq<nat>, lens2: seq<nat>, k: nat)
    requires |lens2| == 19 && k <= 19
  {
    |part| == 19 && (forall j :: 0 <= j < k ==> SizeAt(part, j) == SizeAt(lens2, j)) && (forall j :: k <= j < 19 ==> SizeAt(part, j) == 0)
  }

  lemma ZigzagApart(j: nat, k: nat)
    requires j < 19 && k < 19 && j != k
    ensures ZIGZAG[j] != ZIGZAG[k]
  {
  }

  lemma ZigzagAll(part: seq<nat>, lens2: seq<nat>)
    requires |part| == |lens2| == 19 && forall j :: 0 <= j < 19 ==> SizeAt(part, j) == SizeAt(lens2, j)
    ensures part == lens2
  {
    forall i | 0 <= i < 19 ensures part[i] == lens2[i] {
      var j := PlaceOf(i);
      assert SizeAt(part, j) == part[i] && SizeAt(lens2, j) == lens2[i];
    }
  }

  /** Where the size of code size `i` is sent. */
  function PlaceOf(i: nat): (j: nat)
    requires i < 19
    ensures j < 19 && ZIGZAG[j] == i
  {
    if i == 0 then 3 else if i >= 16 then i - 16 else if i == 8 then 4 else if i == 7 then 5 else if i == 9 then 6 else if i == 6 then 7
    else if i == 10 then 8 else if i == 5 then 9 else if i == 11 then 10 else if i == 4 then 11 else if i == 12 then 12 else if i == 3 then 13
    else if i == 13 then 14 else if i == 2 then 15 else if i == 14 then 16 else if i == 1 then 17 else 18
  }

  lemma PartNext(before: seq<nat>, lens2: seq<nat>, k: nat) returns (part: seq<nat>)
    requires |lens2| == 19 && k < 19 && PartSizes(before, lens2, k)
    ensures part == before[ZIGZAG[k] := SizeAt(lens2, k)] && PartSizes(part, lens2, k + 1)
  {
    part := before[ZIGZAG[k] := SizeAt(lens2, k)];
    forall j | 0 <= j < 19 && j != k ensures SizeAt(part, j) == SizeAt(before, j) { ZigzagApart(j, k); }
  }

  lemma {:induction false} SizesStand(m: Mode, s: Bits, c: Config, sizes: seq<nat>, lens2: seq<nat>, k: nat) returns (part: seq<nat>)
    requires Stands(m, s, c) && c.phase == SizeSizes(sizes, Rep(0, 19), 0) && WellFormed(c) && |lens2| == 19 && k <= sizes[2] <= 19
    requires forall j :: 0 <= j < 19 ==> lens2[j] < 8
    ensures PartSizes(part, lens2, k) && Stands(m, s + SizesBits(lens2, k), c.(phase := SizeSizes(sizes, part, k), pos := c.pos + 3 * k))
    ensures |SizesBits(lens2, k)| == 3 * k
    decreases k
  {
    hide Stands, Lsb, Sized, SizesOk;
    if k == 0 {
      part := Rep(0, 19);
      assert s + [] == s;
    } else {
      var before := SizesStand(m, s, c, sizes, lens2, k - 1);
      var d := c.(phase := SizeSizes(sizes, before, k - 1), pos := c.pos + 3 * (k - 1));
      var v := SizeAt(lens2, k - 1);
      StandsOk(m, s + SizesBits(lens2, k - 1), d);
      SizeStands(m, s + SizesBits(lens2, k - 1), d, v);
      part := PartNext(before, lens2, k - 1);
      assert s + SizesBits(lens2, k - 1) + Lsb(v, 3) == s + SizesBits(lens2, k);
    }
  }

  lemma SizeStands(m: Mode, s: Bits, c: Config, v: nat)
    requires Stands(m, s, c) && c.phase.SizeSizes? && WellFormed(c) && c.phase.k < c.phase.sizes[2] && c.phase.k < 19 && v < 8
    ensures Stands(m, s + Lsb(v, 3), c.(phase := SizeSizes(c.phase.sizes, c.phase.lens2[ZIGZAG[c.phase.k] := v], c.phase.k + 1), pos := c.pos + 3))
  {
    hide Step, Lsb, Field, Reaches, Sized, SizesOk;
    StandsOk(m, s, c);
    SmallPowers();
    FieldWritten(s, v, 3);
    SizeSizesNext(m, c, s + Lsb(v, 3));
    StandStep(m, s, Lsb(v, 3), c, c.(phase := SizeSizes(c.phase.sizes, c.phase.lens2[ZIGZAG[c.phase.k] := v], c.phase.k + 1), pos := c.pos + 3));
  }

  lemma TableSizeStands(m: Mode, s: Bits, c: Config, v: nat)
    requires Stands(m, s, c) && c.phase.TableSizes? && |c.phase.sizes| < 3 && v < (if |c.phase.sizes| == 2 then 16 else 32)
    ensures var k := |c.phase.sizes|; Stands(m, s + Lsb(v, SIZE_BITS[k]), AfterTableSizes(c.(pos := c.pos + SIZE_BITS[k]), c.phase.sizes + [v + SIZE_MIN[k]]))
  {
    hide Step, Lsb, Field, Reaches, AfterTableSizes, SizesOk;
    StandsOk(m, s, c);
    SmallPowers();
    var n := SIZE_BITS[|c.phase.sizes|];
    FieldWritten(s, v, n);
    TableSizesNext(m, c, s + Lsb(v, n));
    SamePosition(c.(pos := c.pos + n), c.phase.sizes + [v + SIZE_MIN[|c.phase.sizes|]]);
    StandStep(m, s, Lsb(v, n), c, AfterTableSizes(c.(pos := c.pos + n), c.phase.sizes + [v + SIZE_MIN[|c.phase.sizes|]]));
  }

  lemma SamePosition(c: Config, sizes: seq<nat>)
    ensures AfterTableSizes(c, sizes).pos == c.pos
  {
  }

  /** Three counts, the sizes for the code sizes, and the packed code sizes. */
  function TableBits(sizes: seq<nat>, lens2: seq<nat>, items: seq<Item>): Bits
    requires |sizes| == 3 && SizesOk(sizes) && |lens2| == 19
  {
    Lsb(sizes[0] - 257, 5) + Lsb(sizes[1] - 1, 5) + Lsb(sizes[2] - 4, 4) + SizesBits(lens2, sizes[2]) + ItemsBits(lens2, items)
  }

  lemma CountsStand(m: Mode, s: Bits, c: Config, sizes: seq<nat>)
    requires Stands(m, s, c) && c.phase == TableSizes([]) && |sizes| == 3 && SizesOk(sizes)
    ensures Stands(m, s + Lsb(sizes[0] - 257, 5) + Lsb(sizes[1] - 1, 5) + Lsb(sizes[2] - 4, 4), c.(phase := SizeSizes(sizes, Rep(0, 19), 0), pos := c.pos + 14))
  {
    hide Stands, Lsb, Rep;
    TableSizeStands(m, s, c, sizes[0] - 257);
    assert [] + [sizes[0]] == sizes[..1];
    var s1, c1 := s + Lsb(sizes[0] - 257, 5), c.(phase := TableSizes(sizes[..1]), pos := c.pos + 5);
    TableSizeStands(m, s1, c1, sizes[1] - 1);
    assert sizes[..1] + [sizes[1]] == sizes[..2];
    var s2, c2 := s1 + Lsb(sizes[1] - 1, 5), c.(phase := TableSizes(sizes[..2]), pos := c.pos + 10);
    TableSizeStands(m, s2, c2, sizes[2] - 4);
    assert sizes[..2] + [sizes[2]] == sizes;
  }

  /** A dynamic block's tables lead to its two codes. */
  lemma TableStands(m: Mode, s: Bits, c: Config, sizes: seq<nat>, lens2: seq<nat>, items: seq<Item>, codes: Codes)
    requires Stands(m, s, c) && c.phase == TableSizes([]) && |sizes| == 3 && SizesOk(sizes) && |lens2| == 19 && Buildable(lens2)
    requires (forall j :: 0 <= j < 19 ==> lens2[j] < 8) && forall j :: sizes[2] <= j < 19 ==> SizeAt(lens2, j) == 0
    requires ItemsOk(items) && (forall k :: 0 <= k < |items| ==> Used(lens2, items[k].sym))
    requires |codes.lit| == sizes[0] && |codes.dist| == sizes[1] && Unpack(items) == codes.lit + codes.dist && CodesOk(codes)
    ensures Stands(m, s + TableBits(sizes, lens2, items), c.(phase := Symbol(codes), pos := c.pos + |TableBits(sizes, lens2, items)|))
  {
    hide Stands, Lsb, Rep, Buildable, Unpack, ItemsOk, Step, ItemsBits;
    CountsStand(m, s, c, sizes);
    var s1, c1 := s + Lsb(sizes[0] - 257, 5) + Lsb(sizes[1] - 1, 5) + Lsb(sizes[2] - 4, 4), c.(phase := SizeSizes(sizes, Rep(0, 19), 0), pos := c.pos + 14);
    StandsOk(m, s1, c1);
    var part := SizesStand(m, s1, c1, sizes, lens2, sizes[2]);
    ZigzagAll(part, lens2);
    var s2, c2 := s1 + SizesBits(lens2, sizes[2]), c1.(phase := SizeSizes(sizes, lens2, sizes[2]), pos := c1.pos + 3 * sizes[2]);
    SizesEnd(m, s2, c2);
    var c3 := c2.(phase := CodeSizes(sizes, lens2, []));
    StandsOk(m, s2, c3);
    ItemsStand(m, s2, c3, sizes, lens2, items);
    var s4, c4 := s2 + ItemsBits(lens2, items), c3.(phase := CodeSizes(sizes, lens2, Unpack(items)), pos := c3.pos + |ItemsBits(lens2, items)|);
    CodesEnd(m, s4, c4, codes);
    assert s4 == s + TableBits(sizes, lens2, items);
  }

  lemma SizesEnd(m: Mode, s: Bits, c: Config)
    requires Stands(m, s, c) && c.phase.SizeSizes? && |c.phase.sizes| == 3 && c.phase.k == c.phase.sizes[2] && Buildable(c.phase.lens2)
    ensures Stands(m, s, c.(phase := CodeSizes(c.phase.sizes, c.phase.lens2, [])))
  {
    hide Step, Reaches, Buildable, Sized;
    StandsOk(m, s, c);
    SizeSizesEnd(m, c, s);
    StandStill(m, s, c, c.(phase := CodeSizes(c.phase.sizes, c.phase.lens2, [])));
  }

  lemma CodesEnd(m: Mode, s: Bits, c: Config, codes: Codes)
    requires Stands(m, s, c) && c.phase.CodeSizes? && |c.phase.sizes| == 3 && |codes.lit| == c.phase.sizes[0] && |codes.dist| == c.phase.sizes[1]
    requires c.phase.acc == codes.lit + codes.dist && CodesOk(codes)
    ensures Stands(m, s, c.(phase := Symbol(codes)))
  {
    hide Step, Reaches, Buildable, Sized;
    StandsOk(m, s, c);
    CodeSizesEnd(m, c, s);
    assert c.phase.acc[..c.phase.sizes[0]] == codes.lit && c.phase.acc[c.phase.sizes[0]..] == codes.dist;
    StandStill(m, s, c, c.(phase := Symbol(codes)));
  }
}
