/** `tinfl_huff_table`: building the decoding table in place, and reading symbols through it. */
module HuffTable {
  import opened Bits
  import opened Canonical
  import opened DecodeTable

  /** What a look-up on `bitBuf` says: whichever used symbol's code the low bits of `bitBuf` are, it is `sym`, of size `len`. */
  ghost predicate Resolves(lens: seq<nat>, bitBuf: nat, sym: nat, len: nat) {
    sym < |lens| && len <= 15 && (sym != 0 ==> len > 0) && forall s: nat :: Starts(lens, s, Lsb(bitBuf, 15)) ==> s == sym && len == lens[s]
  }

  /** After `len` bits the walk is on the way to every long symbol that can still come. */
  ghost predicate Tracks(lens: seq<nat>, tree: seq<int>, bits: Bits, temp: int, len: nat) {
    forall s: nat :: IsLong(lens, s) && Agrees(lens, s, bits) ==> OnTheWay(lens, tree, temp, len, s)
  }

  ghost predicate OnTheWay(lens: seq<nat>, tree: seq<int>, temp: int, len: nat, s: nat) {
    s < |lens| && len <= lens[s] && Leads(tree, temp, CodeBits(lens, s)[len..], s)
  }

  lemma LowBelow(w: nat)
    ensures Low(w, FAST_BITS) < FAST_SIZE
  {
    LowBound(w, FAST_BITS);
    Pow2Values();
  }

  lemma TrackStart(lens: seq<nat>, lookUp: seq<int>, tree: seq<int>, bitBuf: nat, n: nat)
    requires Decodes(lens, lookUp, tree) && n >= 10
    ensures Low(bitBuf, 10) < FAST_SIZE && Tracks(lens, tree, Lsb(bitBuf, n), lookUp[Low(bitBuf, 10)], 10)
  {
    hide CodeBits, Fits, Lsb, Val, Low, Leads, Entry;
    LowBelow(bitBuf);
    LsbLow(bitBuf, n, 10);
    forall s: nat | IsLong(lens, s) && Agrees(lens, s, Lsb(bitBuf, n)) ensures OnTheWay(lens, tree, lookUp[Low(bitBuf, 10)], 10, s) {
      assert CodeBits(lens, s)[..10] == Lsb(bitBuf, n)[..10];
      assert LongOk(lens, lookUp, tree, s);
    }
  }

  lemma TrackStep(lens: seq<nat>, tree: seq<int>, bits: Bits, temp: int, len: nat)
    requires Tracks(lens, tree, bits, temp, len) && temp < 0 && len < |bits| && 0 <= Slot(temp, bits[len]) < |tree|
    ensures Tracks(lens, tree, bits, tree[Slot(temp, bits[len])], len + 1)
  {
    hide CodeBits;
    forall s: nat | IsLong(lens, s) && Agrees(lens, s, bits) ensures OnTheWay(lens, tree, tree[Slot(temp, bits[len])], len + 1, s) {
      assert OnTheWay(lens, tree, temp, len, s);
      var c := CodeBits(lens, s);
      assert c[len..] != [] && c[len] == bits[len];
      assert c[len..][1..] == c[len + 1..];
    }
  }

  /** The look-up entry of a short code whose bits are all in hand. */
  lemma ShortHit(lens: seq<nat>, lookUp: seq<int>, tree: seq<int>, bitBuf: nat, n: nat, s: nat)
    requires Decodes(lens, lookUp, tree) && IsShort(lens, s) && CodeBits(lens, s) <= Lsb(bitBuf, n)
    ensures Low(bitBuf, 10) < FAST_SIZE && lookUp[Low(bitBuf, 10)] == lens[s] * 512 + s
  {
    hide CodeBits, Fits, Lsb, Val, Low, Leads, Entry, LongOk;
    LowBelow(bitBuf);
    LsbLow(bitBuf, n, lens[s]);
    LsbLow(bitBuf, 10, lens[s]);
    LsbLow(bitBuf, 10, 10);
    assert Lsb(bitBuf, 10)[..10] == Lsb(bitBuf, 10);
    assert CodeBits(lens, s) == Lsb(bitBuf, 10)[..lens[s]];
  }

  /** What a non-negative look-up entry proves. */
  lemma FastResolves(lens: seq<nat>, lookUp: seq<int>, tree: seq<int>, bitBuf: nat)
    requires Decodes(lens, lookUp, tree) && Low(bitBuf, 10) < FAST_SIZE && lookUp[Low(bitBuf, 10)] >= 0
    ensures Resolves(lens, bitBuf, lookUp[Low(bitBuf, 10)] % 512, lookUp[Low(bitBuf, 10)] / 512)
  {
    hide CodeBits, Fits, Lsb, Val, Low, Leads, Safe;
    var temp := lookUp[Low(bitBuf, 10)];
    assert Entry(lens, tree, Low(bitBuf, 10), temp);
    TrackStart(lens, lookUp, tree, bitBuf, 15);
    forall s: nat | Starts(lens, s, Lsb(bitBuf, 15)) ensures s == temp % 512 && lens[s] == temp / 512 {
      if lens[s] <= 10 {
        ShortHit(lens, lookUp, tree, bitBuf, 15, s);
      } else {
        assert OnTheWay(lens, tree, temp, 10, s);
        NotLeaf(tree, temp, CodeBits(lens, s)[10..], s);
      }
    }
  }

  lemma NotLeaf(tree: seq<int>, node: int, path: Bits, s: nat)
    requires Leads(tree, node, path, s)
    ensures node < 0 <==> path != []
  {
  }

  /** What reaching a leaf proves. */
  lemma WalkResolves(lens: seq<nat>, tree: seq<int>, bitBuf: nat, lookUp: seq<int>, temp: nat, len: nat)
    requires Decodes(lens, lookUp, tree) && Low(bitBuf, 10) < FAST_SIZE && lookUp[Low(bitBuf, 10)] < 0
    requires temp < |lens| && 0 < len <= 15 && Tracks(lens, tree, Lsb(bitBuf, 15), temp, len)
    ensures Resolves(lens, bitBuf, temp, len)
  {
    hide CodeBits, Fits, Lsb, Val, Low, Leads, Entry;
    forall s: nat | Starts(lens, s, Lsb(bitBuf, 15)) ensures s == temp && lens[s] == len {
      if lens[s] <= 10 {
        ShortHit(lens, lookUp, tree, bitBuf, 15, s);
      } else {
        assert Agrees(lens, s, Lsb(bitBuf, 15));
        assert OnTheWay(lens, tree, temp, len, s);
        NotLeaf(tree, temp, CodeBits(lens, s)[len..], s);
        LeafIs(tree, temp, s);
      }
    }
  }

  lemma LeafIs(tree: seq<int>, node: int, s: nat)
    ensures Leads(tree, node, [], s) ==> node == s
  {
  }

  /** The leaf at the end of the walk that follows the bits of `bitBuf` from bit `len` on, and its depth. */
  ghost function Walk(tree: seq<int>, temp: int, len: nat, bitBuf: nat, size: nat): (r: (nat, nat))
    requires Safe(tree, temp, len, size)
    decreases 15 - len
  {
    if temp >= 0 then (temp, len) else Walk(tree, tree[Slot(temp, Shr(bitBuf, len) % 2 == 1)], len + 1, bitBuf, size)
  }

  /** The symbol and code size a look-up on `bitBuf` comes to. */
  ghost function Found(lens: seq<nat>, lookUp: seq<int>, tree: seq<int>, bitBuf: nat): (r: (nat, nat))
    requires Decodes(lens, lookUp, tree)
  {
    LowBelow(bitBuf);
    assert Entry(lens, tree, Low(bitBuf, 10), lookUp[Low(bitBuf, 10)]);
    var e := lookUp[Low(bitBuf, 10)];
    if e >= 0 then (e % 512, e / 512) else Walk(tree, e, 10, bitBuf, |lens|)
  }

  // ----- deciding whether a whole code is in hand

  ghost predicate NoneStarts(lens: seq<nat>, bits: Bits) {
    forall s: nat :: !Starts(lens, s, bits)
  }

  lemma PeekFastHit(lens: seq<nat>, lookUp: seq<int>, tree: seq<int>, bitBuf: nat, n: nat)
    requires Decodes(lens, lookUp, tree) && Low(bitBuf, 10) < FAST_SIZE && lookUp[Low(bitBuf, 10)] >= 512 && lookUp[Low(bitBuf, 10)] / 512 <= n
    ensures !Partial(lens, Lsb(bitBuf, n))
  {
    hide CodeBits, Fits, Lsb, Val, Low, Leads, Safe;
    var e := lookUp[Low(bitBuf, 10)];
    var t, m := e % 512, e / 512;
    assert Entry(lens, tree, Low(bitBuf, 10), e);
    LsbLow(bitBuf, n, m);
    LsbLow(bitBuf, 10, m);
    LsbLow(bitBuf, 10, 10);
    assert Lsb(bitBuf, 10)[..10] == Lsb(bitBuf, 10);
    assert CodeBits(lens, t) == Lsb(bitBuf, n)[..m];
    forall s: nat | Used(lens, s) && Lsb(bitBuf, n) <= CodeBits(lens, s) ensures |CodeBits(lens, s)| <= n {
      PrefixFree(lens, t, s);
    }
  }

  lemma PeekFastMiss(lens: seq<nat>, lookUp: seq<int>, tree: seq<int>, bitBuf: nat, n: nat)
    requires Decodes(lens, lookUp, tree) && Low(bitBuf, 10) < FAST_SIZE && lookUp[Low(bitBuf, 10)] >= 0
    requires lookUp[Low(bitBuf, 10)] / 512 == 0 || lookUp[Low(bitBuf, 10)] / 512 > n
    ensures NoneStarts(lens, Lsb(bitBuf, n))
  {
    hide CodeBits, Fits, Lsb, Val, Low, Leads, Safe;
    forall s: nat ensures !Starts(lens, s, Lsb(bitBuf, n)) {
      if Starts(lens, s, Lsb(bitBuf, n)) {
        if lens[s] <= 10 {
          ShortHit(lens, lookUp, tree, bitBuf, n, s);
        } else {
          TrackStart(lens, lookUp, tree, bitBuf, n);
          assert OnTheWay(lens, tree, lookUp[Low(bitBuf, 10)], 10, s);
          NotLeaf(tree, lookUp[Low(bitBuf, 10)], CodeBits(lens, s)[10..], s);
        }
      }
    }
  }

  lemma PeekTreeHit(lens: seq<nat>, tree: seq<int>, bits: Bits, temp: nat, len: nat)
    requires Tracks(lens, tree, bits, temp, len) && len <= |bits| && |bits| > 10
    ensures !Partial(lens, bits)
  {
    hide CodeBits, Leads;
    forall s: nat | Used(lens, s) && bits < CodeBits(lens, s) ensures false {
      assert OnTheWay(lens, tree, temp, len, s);
      NotLeaf(tree, temp, CodeBits(lens, s)[len..], s);
    }
  }

  lemma PeekTreeMiss(lens: seq<nat>, lookUp: seq<int>, tree: seq<int>, bitBuf: nat, n: nat, temp: int, len: nat)
    requires Decodes(lens, lookUp, tree) && Low(bitBuf, 10) < FAST_SIZE && lookUp[Low(bitBuf, 10)] < 0
    requires n <= 10 || (len == n && temp < 0 && Tracks(lens, tree, Lsb(bitBuf, n), temp, len))
    ensures NoneStarts(lens, Lsb(bitBuf, n))
  {
    hide CodeBits, Fits, Lsb, Val, Low, Leads, Safe;
    forall s: nat ensures !Starts(lens, s, Lsb(bitBuf, n)) {
      if Starts(lens, s, Lsb(bitBuf, n)) {
        if lens[s] <= 10 {
          ShortHit(lens, lookUp, tree, bitBuf, n, s);
        } else {
          assert OnTheWay(lens, tree, temp, len, s);
          NotLeaf(tree, temp, CodeBits(lens, s)[len..], s);
        }
      }
    }
  }

  // ----- building

  lemma StartsWithLow(k: nat, c: Bits)
    requires |c| <= 10
    ensures c <= Lsb(k, 10) <==> Low(k, |c|) == Val(c)
  {
    hide Lsb, Val, Low;
    LsbLow(k, 10, |c|);
    LsbVal(c);
    assert c <= Lsb(k, 10) <==> Lsb(k, 10)[..|c|] == c;
  }

  /** Making the node of `c[..d + 1]`, where `c` is the code of `s`. */
  lemma GrowChild(lens: seq<nat>, s: nat, d: nat, lookUp: seq<int>, tree: seq<int>, nodes: Nodes)
    requires Building(lens, s, lookUp, tree, nodes) && Needed(lens, s + 1, nodes) && Buildable(lens) && IsLong(lens, s) && 10 <= d && d + 1 < lens[s]
    requires CodeBits(lens, s)[..d] in nodes && CodeBits(lens, s)[..d + 1] !in nodes
    ensures Child(nodes[CodeBits(lens, s)[..d]], CodeBits(lens, s)[d]) < |tree| && CodeBits(lens, s)[..d + 1] !in nodes
    ensures var after := nodes[CodeBits(lens, s)[..d + 1] := |nodes|];
            && Building(lens, s, lookUp, tree[Child(nodes[CodeBits(lens, s)[..d]], CodeBits(lens, s)[d]) := Id(|nodes|)], after)
            && Needed(lens, s + 1, after) && |after| == |nodes| + 1
  {
    hide CodeBits, Building, Needed, Buildable, Init, Last, Id, Child, Numbered;
    var c := CodeBits(lens, s);
    var q := c[..d + 1];
    BuildingShape(lens, s, lookUp, tree, nodes);
    ChildInBounds(nodes, c[..d], c[d]);
    InitOfPrefix(c, d);
    NeededOne(lens, s, q);
    RoomForNode(lens, s, nodes, q);
    AddChild(lens, s, lookUp, tree, nodes, q);
  }

  lemma InitOfPrefix(c: Bits, d: nat)
    requires d < |c|
    ensures Init(c[..d + 1]) == c[..d] && Last(c[..d + 1]) == c[d]
  {
  }

  lemma ChildInBounds(nodes: Nodes, p: Bits, b: bool)
    requires Numbered(nodes) && p in nodes && 2 * |nodes| <= TREE_SIZE
    ensures Child(nodes[p], b) < TREE_SIZE
  {
  }

  lemma NeededOne(lens: seq<nat>, s: nat, q: Bits)
    requires IsLong(lens, s) && q < CodeBits(lens, s)
    ensures NeededBy(lens, s + 1, q)
  {
  }

  lemma BuildingShape(lens: seq<nat>, n: nat, lookUp: seq<int>, tree: seq<int>, nodes: Nodes)
    requires Building(lens, n, lookUp, tree, nodes)
    ensures 0 < |lens| <= MAX_SYMBOLS && Numbered(nodes) && 2 * |nodes| <= TREE_SIZE == |tree| && |lookUp| == FAST_SIZE && Sized(lens)
  {
  }

  lemma CountNone(l: nat)
    ensures Count([], l) == 0
  {
  }

  lemma EmptyTable(lens: seq<nat>, lookUp: seq<int>, tree: seq<int>)
    requires 0 < |lens| <= MAX_SYMBOLS && Fits(lens) && |lookUp| == FAST_SIZE && |tree| == TREE_SIZE
    requires (forall k :: 0 <= k < FAST_SIZE ==> lookUp[k] == 0) && (forall j :: 0 <= j < TREE_SIZE ==> tree[j] == 0)
    ensures Building(lens, 0, lookUp, tree, map[]) && Needed(lens, 0, map[])
  {
  }

  lemma AddUnused(lens: seq<nat>, n: nat, lookUp: seq<int>, tree: seq<int>, nodes: Nodes)
    requires Building(lens, n, lookUp, tree, nodes) && Needed(lens, n, nodes) && n < |lens| && lens[n] == 0
    ensures Building(lens, n + 1, lookUp, tree, nodes) && Needed(lens, n + 1, nodes)
  {
    hide CodeBits, Fits, Lsb, Val, Numbered, Linked, NeededBy, TreeJustified;
    NeededMore(lens, n, nodes);
    TreeStep(lens, n, tree, nodes);
  }

  /** The next code of each size once the symbols before `n` have taken theirs. */
  ghost predicate NextCodes(lens: seq<nat>, n: nat, next: seq<int>) {
    n <= |lens| && |next| == 17 && forall l :: 1 <= l <= 15 ==> next[l] == First(lens, l) + Count(lens[..n], l)
  }

  lemma NextCodesStart(lens: seq<nat>, next: seq<int>)
    requires |next| == 17 && forall l :: 1 <= l <= 15 ==> next[l] == First(lens, l)
    ensures NextCodes(lens, 0, next)
  {
    hide First;
    forall l ensures Count(lens[..0], l) == 0 { CountNone(l); }
  }

  lemma NextCodesUnused(lens: seq<nat>, n: nat, next: seq<int>)
    requires NextCodes(lens, n, next) && n < |lens| && lens[n] == 0
    ensures NextCodes(lens, n + 1, next)
  {
    hide First, Count;
    forall l | 1 <= l <= 15 ensures Count(lens[..n + 1], l) == Count(lens[..n], l) { CountStep(lens, l, n); }
  }

  lemma NextCodesStep(lens: seq<nat>, n: nat, next: seq<int>, size: nat)
    requires NextCodes(lens, n, next) && Used(lens, n) && Sized(lens) && size == lens[n]
    ensures size < |next| && next[size] == Code(lens, n)
    ensures NextCodes(lens, n + 1, next[size := next[size] + 1])
  {
    hide First, Count;
    forall l | 1 <= l <= 15 ensures Count(lens[..n + 1], l) == Count(lens[..n], l) + (if size == l then 1 else 0) { CountStep(lens, l, n); }
  }

  class HuffTable {
    var codeSize: seq<nat>
    const lookUp: array<int>
    const tree: array<int>

    ghost predicate Shaped()
      reads this
    {
      |codeSize| == MAX_SYMBOLS && lookUp.Length == FAST_SIZE && tree.Length == TREE_SIZE && lookUp != tree
    }

    constructor ()
      ensures Shaped() && fresh(lookUp) && fresh(tree)
    {
      codeSize := seq(MAX_SYMBOLS, _ => 0);
      lookUp := new int[FAST_SIZE];
      tree := new int[TREE_SIZE];
    }

    /** The table is finished, for the code sizes `lens`. */
    ghost predicate Ready(lens: seq<nat>)
      reads lookUp, tree
    {
      Decodes(lens, lookUp[..], tree[..])
    }

    /** Every index that begins with the short code `c` gets its size and symbol. */
    method FillLookUp(size: nat, sym: nat, rev: nat, ghost c: Bits)
      requires Shaped() && |c| == size <= FAST_BITS && rev == Val(c)
      modifies lookUp
      ensures forall k :: 0 <= k < FAST_SIZE ==> lookUp[k] == if c <= Lsb(k, 10) then size * 512 + sym else old(lookUp[k])
    {
      hide Lsb, Val, Low, Pow2;
      var r := rev;
      LowBound(rev, size);
      ShlPow2(0, size);
      Pow2Values();
      forall k: nat | k < r ensures Low(k, size) < rev { LowSmallest(k, size); }
      while r < FAST_SIZE
        invariant Low(r, size) == rev
        invariant forall k :: 0 <= k < FAST_SIZE ==> lookUp[k] == if k < r && Low(k, size) == rev then size * 512 + sym else old(lookUp[k])
      {
        lookUp[r] := size * 512 + sym;
        LowAdd(r, size);
        forall k: nat | r < k < r + Pow2(size) ensures Low(k, size) != rev { if Low(k, size) == rev { LowGap(r, k, size); } }
        r := r + Shl(1, size);
      }
      forall k | 0 <= k < FAST_SIZE ensures c <= Lsb(k, 10) <==> Low(k, size) == rev { StartsWithLow(k, c); }
    }

    /** Walks the long code of `sym` into the tree, making the inner nodes that are missing; `treeNext` numbers the next one. */
    method InsertLong(size: nat, sym: nat, rev: nat, treeNext: int, ghost lens: seq<nat>, ghost nodes: Nodes)
        returns (treeNext': int, ghost nodes': Nodes)
      requires Shaped() && Buildable(lens) && IsLong(lens, sym) && size == lens[sym] && rev == Val(CodeBits(lens, sym))
      requires Building(lens, sym, lookUp[..], tree[..], nodes) && Needed(lens, sym, nodes) && treeNext == Id(|nodes|)
      modifies lookUp, tree
      ensures Building(lens, sym + 1, lookUp[..], tree[..], nodes') && Needed(lens, sym + 1, nodes') && treeNext' == Id(|nodes'|)
    {
      hide Lsb, Val, Low, Pow2, Needed, NeededBy, Numbered, CodeBits, Buildable, Linked, Filled, LookUpJustified, TreeJustified, Fits;
      ghost var c := CodeBits(lens, sym);
      LsbVal(c);
      LsbLow(rev, size, FAST_BITS);
      NeededMore(lens, sym, nodes);
      nodes' := nodes;
      treeNext' := treeNext;
      RootState(lens, sym, lookUp[..], tree[..], nodes, sym);
      var treeCur := lookUp[Low(rev, FAST_BITS)];
      if treeCur == 0 {
        RoomForNode(lens, sym, nodes, c[..10]);
        AddRoot(lens, sym, lookUp[..], tree[..], nodes, c[..10]);
        lookUp[Low(rev, FAST_BITS)] := treeNext;
        nodes' := nodes[c[..10] := |nodes|];
        treeCur := treeNext;
        treeNext' := treeNext - 2;
      }
      var r := Shr(rev, FAST_BITS - 1);
      var j := size;
      while j > FAST_BITS + 1
        invariant 11 <= j <= size && r == Shr(rev, FAST_BITS + (size - j) - 1)
        invariant Building(lens, sym, lookUp[..], tree[..], nodes') && Needed(lens, sym + 1, nodes') && treeNext' == Id(|nodes'|)
        invariant var d := FAST_BITS + (size - j); c[..d] in nodes' && treeCur == Id(nodes'[c[..d]])
      {
        r, treeCur, treeNext', nodes' := LongStep(size, sym, rev, FAST_BITS + (size - j), r, treeCur, treeNext', lens, nodes');
        j := j - 1;
      }
      ShrSucc(rev, size - 2);
      LsbIndex(rev, size, size - 1);
      ChildState(lens, sym, lookUp[..], tree[..], nodes', sym, size - 1);
      assert Init(c) == c[..size - 1] && Last(c) == c[size - 1];
      r := r / 2;
      treeCur := treeCur - r % 2;
      AddLeaf(lens, sym, lookUp[..], tree[..], nodes');
      tree[-treeCur - 1] := sym;
    }

    /** One turn of the loop over the inner bits of a long code: bit `d` leads from the node of `c[..d]` to that of `c[..d + 1]`. */
    method LongStep(size: nat, sym: nat, rev: nat, ghost d: nat, r: nat, treeCur: int, treeNext: int, ghost lens: seq<nat>, ghost nodes: Nodes)
        returns (r': nat, treeCur': int, treeNext': int, ghost nodes': Nodes)
      requires Shaped() && Buildable(lens) && IsLong(lens, sym) && size == lens[sym] && rev == Val(CodeBits(lens, sym))
      requires 10 <= d && d + 1 < size && r == Shr(rev, d - 1)
      requires Building(lens, sym, lookUp[..], tree[..], nodes) && Needed(lens, sym + 1, nodes) && treeNext == Id(|nodes|)
      requires CodeBits(lens, sym)[..d] in nodes && treeCur == Id(nodes[CodeBits(lens, sym)[..d]])
      modifies tree
      ensures Building(lens, sym, lookUp[..], tree[..], nodes') && Needed(lens, sym + 1, nodes') && treeNext' == Id(|nodes'|)
      ensures CodeBits(lens, sym)[..d + 1] in nodes' && treeCur' == Id(nodes'[CodeBits(lens, sym)[..d + 1]]) && r' == Shr(rev, d)
    {
      hide Lsb, Val, Low, Pow2, Needed, CodeBits, Buildable, Building, NeededBy, Numbered, Linked, Filled, LookUpJustified, TreeJustified, Fits;
      ghost var c := CodeBits(lens, sym);
      BuildingShape(lens, sym, lookUp[..], tree[..], nodes);
      LsbVal(c);
      LsbIndex(rev, size, d);
      ShrSucc(rev, d - 1);
      ChildState(lens, sym, lookUp[..], tree[..], nodes, sym, d);
      r' := r / 2;
      treeCur' := treeCur - r' % 2;
      assert -treeCur' - 1 == Child(nodes[c[..d]], c[d]);
      if tree[-treeCur' - 1] == 0 {
        GrowChild(lens, sym, d, lookUp[..], tree[..], nodes);
        tree[-treeCur' - 1] := treeNext;
        nodes' := nodes[c[..d + 1] := |nodes|];
        treeCur' := treeNext;
        treeNext' := treeNext - 2;
      } else {
        treeCur' := tree[-treeCur' - 1];
        nodes' := nodes;
        treeNext' := treeNext;
      }
    }

    /** Building the table from the first `size` code sizes.  It fails unless the code is complete or has at most one symbol. */
    method Build(size: nat) returns (ok: bool)
      requires Shaped() && 0 < size <= MAX_SYMBOLS && Sized(codeSize[..size])
      modifies lookUp, tree
      ensures ok <==> Buildable(codeSize[..size])
      ensures ok ==> Ready(codeSize[..size])
    {
      hide Building, Needed, CodeBits, Buildable, Fits, First, Count, Decodes;
      ghost var lens := codeSize[..size];
      Clear();
      var nextCode;
      ok, nextCode := FirstCodes(size);
      if ok {
        BuildableFits(lens);
        EmptyTable(lens, lookUp[..], tree[..]);
        AddSymbols(size, nextCode);
      }
    }

    method Clear()
      requires Shaped()
      modifies lookUp, tree
      ensures forall k :: 0 <= k < FAST_SIZE ==> lookUp[k] == 0
      ensures forall j :: 0 <= j < TREE_SIZE ==> tree[j] == 0
    {
      forall k | 0 <= k < FAST_SIZE { lookUp[k] := 0; }
      forall j | 0 <= j < TREE_SIZE { tree[j] := 0; }
    }

    method AddSymbols(size: nat, firstCode: seq<int>)
      requires Shaped() && 0 < size <= MAX_SYMBOLS && Buildable(codeSize[..size]) && Sized(codeSize[..size])
      requires |firstCode| == 17 && forall l :: 1 <= l <= 15 ==> firstCode[l] == First(codeSize[..size], l)
      requires Building(codeSize[..size], 0, lookUp[..], tree[..], map[]) && Needed(codeSize[..size], 0, map[])
      modifies lookUp, tree
      ensures Ready(codeSize[..size])
    {
      hide Building, Needed, Buildable, Fits, Decodes, NextCodes, Sized, Code, First, Count, CodeBits;
      ghost var lens := codeSize[..size];
      ghost var nodes: Nodes := map[];
      var treeNext := -1;
      var nextCode := firstCode;
      NextCodesStart(lens, nextCode);
      for sym := 0 to size
        invariant NextCodes(lens, sym, nextCode)
        invariant Building(lens, sym, lookUp[..], tree[..], nodes) && Needed(lens, sym, nodes) && treeNext == Id(|nodes|)
      {
        nextCode, treeNext, nodes := AddNext(sym, nextCode, treeNext, lens, nodes);
      }
      Finished(lens, lookUp[..], tree[..], nodes);
    }

    method AddNext(sym: nat, nextCode: seq<int>, treeNext: int, ghost lens: seq<nat>, ghost nodes: Nodes)
        returns (nextCode': seq<int>, treeNext': int, ghost nodes': Nodes)
      requires Shaped() && Buildable(lens) && Sized(lens) && lens <= codeSize && sym < |lens| && NextCodes(lens, sym, nextCode)
      requires Building(lens, sym, lookUp[..], tree[..], nodes) && Needed(lens, sym, nodes) && treeNext == Id(|nodes|)
      modifies lookUp, tree
      ensures NextCodes(lens, sym + 1, nextCode')
      ensures Building(lens, sym + 1, lookUp[..], tree[..], nodes') && Needed(lens, sym + 1, nodes') && treeNext' == Id(|nodes'|)
    {
      hide Building, Needed, Buildable, Fits, NextCodes, Sized, Code, First, Count, CodeBits;
      var size := codeSize[sym];
      nextCode', treeNext', nodes' := nextCode, treeNext, nodes;
      if size == 0 {
        AddUnused(lens, sym, lookUp[..], tree[..], nodes);
        NextCodesUnused(lens, sym, nextCode);
      } else {
        NextCodesStep(lens, sym, nextCode, size);
        var curCode := nextCode[size];
        nextCode' := nextCode[size := curCode + 1];
        treeNext', nodes' := AddSymbol(size, sym, curCode, treeNext, lens, nodes);
      }
    }

    method AddSymbol(size: nat, sym: nat, curCode: nat, treeNext: int, ghost lens: seq<nat>, ghost nodes: Nodes)
        returns (treeNext': int, ghost nodes': Nodes)
      requires Shaped() && Buildable(lens) && Used(lens, sym) && size == lens[sym] && curCode == Code(lens, sym)
      requires Building(lens, sym, lookUp[..], tree[..], nodes) && Needed(lens, sym, nodes) && treeNext == Id(|nodes|)
      modifies lookUp, tree
      ensures Building(lens, sym + 1, lookUp[..], tree[..], nodes') && Needed(lens, sym + 1, nodes') && treeNext' == Id(|nodes'|)
    {
      hide Lsb, Val, Low, Pow2, Building, Needed, Code, Buildable, Fits;
      var rev := ReverseCode(curCode, size);
      if size <= FAST_BITS {
        ghost var before := lookUp[..];
        treeNext', nodes' := treeNext, nodes;
        FillLookUp(size, sym, rev, CodeBits(lens, sym));
        AddShort(lens, sym, before, lookUp[..], tree[..], nodes);
        NeededMore(lens, sym, nodes);
      } else {
        treeNext', nodes' := InsertLong(size, sym, rev, treeNext, lens, nodes);
      }
    }

    /** How many symbols have each code size. */
    method CountSizes(size: nat) returns (totalSyms: seq<int>)
      requires Shaped() && size <= MAX_SYMBOLS && Sized(codeSize[..size])
      ensures |totalSyms| == 16 && forall l :: 0 <= l <= 15 ==> totalSyms[l] == Count(codeSize[..size], l)
    {
      hide Count;
      ghost var lens := codeSize[..size];
      totalSyms := seq(16, _ => 0);
      forall l ensures Count(lens[..0], l) == 0 { CountNone(l); }
      for i := 0 to size
        invariant |totalSyms| == 16 && forall l :: 0 <= l <= 15 ==> totalSyms[l] == Count(lens[..i], l)
      {
        forall l ensures Count(lens[..i + 1], l) == Count(lens[..i], l) + (if lens[i] == l then 1 else 0) { CountStep(lens, l, i); }
        totalSyms := totalSyms[codeSize[i] := totalSyms[codeSize[i]] + 1];
      }
      assert lens[..size] == lens;
    }

    /** The first code of every size, and whether the code sizes make a code that can be built. */
    method FirstCodes(size: nat) returns (ok: bool, nextCode: seq<int>)
      requires Shaped() && 0 < size <= MAX_SYMBOLS && Sized(codeSize[..size])
      ensures ok <==> Buildable(codeSize[..size])
      ensures |nextCode| == 17 && forall l :: 1 <= l <= 15 ==> nextCode[l] == First(codeSize[..size], l)
    {
      hide First, Count, Longer;
      ghost var lens := codeSize[..size];
      var totalSyms := CountSizes(size);
      nextCode := seq(17, _ => 0);
      FirstOne(lens);
      var usedSyms, total := 0, 0;
      for i := 1 to 16
        invariant total == First(lens, i) && usedSyms == Longer(lens, 0) - Longer(lens, i - 1)
        invariant |nextCode| == 17 && forall l :: 1 <= l <= i ==> nextCode[l] == First(lens, l)
      {
        LongerStep(lens, i - 1);
        FirstStep(lens, i);
        usedSyms := usedSyms + totalSyms[i];
        total := (total + totalSyms[i]) * 2;
        nextCode := nextCode[i + 1 := total];
      }
      LongerSized(lens, 15);
      ok := !(65536 != total && usedSyms > 1);
    }

    /** The look-up of the decoding macros: symbol and code size for the bits at the bottom of `bitBuf`. */
    method Lookup(bitBuf: nat, ghost lens: seq<nat>) returns (sym: nat, len: nat)
      requires Shaped() && Ready(lens)
      ensures Resolves(lens, bitBuf, sym, len)
      ensures (sym, len) == Found(lens, lookUp[..], tree[..], bitBuf)
    {
      hide CodeBits, Fits, Lsb, Val, Shr, Low, Tracks, Resolves, LongOk;
      ghost var bits := Lsb(bitBuf, 15);
      TrackStart(lens, lookUp[..], tree[..], bitBuf, 15);
      var temp := lookUp[Low(bitBuf, FAST_BITS)];
      assert Entry(lens, tree[..], Low(bitBuf, FAST_BITS), temp);
      if temp >= 0 {
        FastResolves(lens, lookUp[..], tree[..], bitBuf);
        sym, len := temp % 512, temp / 512;
      } else {
        len := FAST_BITS;
        while temp < 0
          invariant 10 <= len <= 15
          invariant Safe(tree[..], temp, len, |lens|) && Found(lens, lookUp[..], tree[..], bitBuf) == Walk(tree[..], temp, len, bitBuf, |lens|)
          invariant Safe(tree[..], temp, len, |lens|) && Tracks(lens, tree[..], bits, temp, len)
          decreases 15 - len
        {
          LsbIndex(bitBuf, 15, len);
          TrackStep(lens, tree[..], bits, temp, len);
          temp := tree[-temp - 1 + Shr(bitBuf, len) % 2];
          len := len + 1;
        }
        WalkResolves(lens, tree[..], bitBuf, lookUp[..], temp, len);
        sym := temp;
      }
    }
  
    /** The test of `TINFL_HUFF_BITBUF_FILL`: is a whole code in the `numBits` bits in hand?  A negative answer means that no
        code is; a positive one that another byte is not needed. */
    method Peek(bitBuf: nat, numBits: nat, ghost lens: seq<nat>) returns (done: bool)
      requires Shaped() && Ready(lens) && numBits < 15
      ensures done ==> !Partial(lens, Lsb(bitBuf, numBits)) && Found(lens, lookUp[..], tree[..], bitBuf).1 <= numBits
      ensures !done ==> NoneStarts(lens, Lsb(bitBuf, numBits))
    {
      hide CodeBits, Fits, Lsb, Val, Shr, Low, Tracks, Partial, NoneStarts, LongOk;
      ghost var bits := Lsb(bitBuf, numBits);
      LowBelow(bitBuf);
      var temp := lookUp[Low(bitBuf, FAST_BITS)];
      assert Entry(lens, tree[..], Low(bitBuf, FAST_BITS), temp);
      done := false;
      if temp >= 0 {
        var len := temp / 512;
        done := len != 0 && numBits >= len;
        if done {
          PeekFastHit(lens, lookUp[..], tree[..], bitBuf, numBits);
        } else {
          PeekFastMiss(lens, lookUp[..], tree[..], bitBuf, numBits);
        }
      } else if numBits > FAST_BITS {
        TrackStart(lens, lookUp[..], tree[..], bitBuf, numBits);
        var len := FAST_BITS;
        while temp < 0 && numBits >= len + 1
          invariant 10 <= len <= numBits
          invariant Safe(tree[..], temp, len, |lens|) && Found(lens, lookUp[..], tree[..], bitBuf) == Walk(tree[..], temp, len, bitBuf, |lens|)
          invariant Safe(tree[..], temp, len, |lens|) && Tracks(lens, tree[..], bits, temp, len)
          decreases 15 - len
        {
          LsbIndex(bitBuf, numBits, len);
          TrackStep(lens, tree[..], bits, temp, len);
          temp := tree[-temp - 1 + Shr(bitBuf, len) % 2];
          len := len + 1;
        }
        done := temp >= 0;
        if done {
          PeekTreeHit(lens, tree[..], bits, temp, len);
        } else {
          PeekTreeMiss(lens, lookUp[..], tree[..], bitBuf, numBits, temp, len);
        }
      } else {
        PeekTreeMiss(lens, lookUp[..], tree[..], bitBuf, numBits, 0, 0);
      }
    }
  }
}
