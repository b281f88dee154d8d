/** Binary element trees: how one is laid out in a file, and what it is for linked records to be such a tree. */
module ElementFormat {
  import opened Bits

  // ----- numbers, low byte first

  function Le(n: nat, k: nat): (s: seq<u8>)
    ensures |s| == k
  {
    if k == 0 then [] else [n % 256] + Le(n / 256, k - 1)
  }

  function FromLe(s: seq<u8>): nat {
    if s == [] then 0 else s[0] as int + 256 * FromLe(s[1..])
  }

  function Limit(k: nat): (l: nat)
    ensures l > 0
  {
    if k == 0 then 1 else 256 * Limit(k - 1)
  }

  lemma {:induction false} LeRead(n: nat, k: nat)
    requires n < Limit(k)
    ensures FromLe(Le(n, k)) == n
  {
    if k > 0 {
      LeRead(n / 256, k - 1);
      assert Le(n, k)[1..] == Le(n / 256, k - 1);
    }
  }

  // ----- trees

  /** A property: its type, and everything after it. */
  datatype Prop = Prop(kind: u8, raw: seq<u8>)

  /** `nested` says whether the element is closed with a sentinel, which it has to be if it has children. */
  datatype Tree = Tree(id: seq<u8>, props: seq<Prop>, children: seq<Tree>, nested: bool)

  function Fixed(kind: u8): nat {
    if kind == 89 then 2 else if kind == 67 then 1 else if kind == 73 || kind == 70 then 4 else 8
  }

  /** 'Y', 'C', 'I', 'F', 'D', 'L' have a fixed size; 'S' and 'R' have their length first; 'b', 'f', 'd', 'l', 'i' are arrays, with
      the number of bytes after two other numbers. */
  predicate PropOk(p: Prop) {
    if p.kind in {89, 67, 73, 70, 68, 76} then |p.raw| == Fixed(p.kind)
    else if p.kind in {83, 82} then |p.raw| >= 4 && |p.raw| == 4 + FromLe(p.raw[..4])
    else p.kind in {98, 102, 100, 108, 105} && |p.raw| >= 12 && |p.raw| == 12 + FromLe(p.raw[8..12])
  }

  /** Offsets are 64-bit numbers from version 7500 on; the version is cut to 16 bits for this. */
  function OffsetSize(version: nat): nat { if version % 65536 >= 7500 then 8 else 4 }

  function Sentinel(version: nat): nat { if version >= 7500 then 25 else 13 }

  /** Up to where offsets can point. */
  function Reach(version: nat): nat { if OffsetSize(version) == 8 then 0x8000_0000_0000_0000 else 0x1_0000_0000 }

  function PropSize(p: Prop): nat { 1 + |p.raw| }

  function PropsSize(ps: seq<Prop>): nat {
    if ps == [] then 0 else PropsSize(ps[..|ps| - 1]) + PropSize(ps[|ps| - 1])
  }

  function HeadSize(t: Tree, version: nat): nat { 3 * OffsetSize(version) + 1 + |t.id| }

  function Size(t: Tree, version: nat): (n: nat)
    ensures n >= HeadSize(t, version) + PropsSize(t.props)
    decreases t, 1
  {
    HeadSize(t, version) + PropsSize(t.props) + (if t.nested then SizeAll(t.children, version) + Sentinel(version) else 0)
  }

  function SizeAll(ts: seq<Tree>, version: nat): nat
    decreases ts, 0
  {
    if ts == [] then 0 else SizeAll(ts[..|ts| - 1], version) + Size(ts[|ts| - 1], version)
  }

  function PropBytes(p: Prop): (s: seq<u8>)
    ensures |s| == PropSize(p)
  {
    [p.kind] + p.raw
  }

  function PropsBytes(ps: seq<Prop>): (s: seq<u8>)
    ensures |s| == PropsSize(ps)
  {
    if ps == [] then [] else PropsBytes(ps[..|ps| - 1]) + PropBytes(ps[|ps| - 1])
  }

  function Head(t: Tree, pos: nat, version: nat): (s: seq<u8>)
    ensures |s| == 3 * OffsetSize(version)
  {
    var k := OffsetSize(version);
    Le(pos + Size(t, version), k) + Le(|t.props|, k) + Le(PropsSize(t.props), k)
  }

  /** An element that begins at byte `pos` of the file. */
  ghost predicate At(data: seq<u8>, pos: nat, t: Tree, version: nat)
    decreases t, 1
  {
    var k := OffsetSize(version);
    var idPos := pos + 3 * k;
    var propPos := pos + HeadSize(t, version);
    var kidPos := propPos + PropsSize(t.props);
    && TreeOk(t) && pos + Size(t, version) <= |data| && pos + Size(t, version) < Reach(version)
    && data[pos..idPos] == Head(t, pos, version) && data[idPos] == |t.id| && data[idPos + 1..propPos] == t.id
    && data[propPos..kidPos] == PropsBytes(t.props)
    && (t.nested ==> AllAt(data, kidPos, t.children, version) && kidPos + SizeAll(t.children, version) + Sentinel(version) <= |data|)
  }

  /** Elements one after the other. */
  ghost predicate AllAt(data: seq<u8>, pos: nat, ts: seq<Tree>, version: nat)
    decreases ts, 0
  {
    forall k :: 0 <= k < |ts| ==> At(data, pos + SizeAll(ts[..k], version), ts[k], version)
  }

  predicate TreeOk(t: Tree) {
    |t.id| < 256 && |t.props| < 0x1_0000_0000 && (forall k :: 0 <= k < |t.props| ==> PropOk(t.props[k])) && (t.children != [] ==> t.nested)
  }

  // ----- linked records

  datatype Link = Null | To(index: nat)

  /** `Property`: its type, the bytes of its value, and the next property. */
  datatype Property = Property(kind: u8, begin: nat, end: nat, next: Link)

  datatype Element = Element(idBegin: nat, idEnd: nat, child: Link, sibling: Link, firstProperty: Link)

  /** The value of a string begins after its length. */
  function ValueBegin(p: Prop, pos: nat): nat { if p.kind == 83 then pos + 5 else pos + 1 }

  function PropPos(ps: seq<Prop>, k: nat, pos: nat): nat
    requires k <= |ps|
  {
    pos + PropsSize(ps[..k])
  }

  /** The properties are records in a row, linked in order. */
  ghost predicate PropsLinked(props: seq<Property>, first: Link, at: nat, ps: seq<Prop>, pos: nat) {
    && at + |ps| <= |props| && first == (if ps == [] then Null else To(at))
    && forall k :: 0 <= k < |ps| ==> PropLinked(props, at, ps, pos, k)
  }

  ghost predicate PropLinked(props: seq<Property>, at: nat, ps: seq<Prop>, pos: nat, k: nat)
    requires k < |ps| && at + |ps| <= |props|
  {
    var p := PropPos(ps, k, pos);
    props[at + k] == Property(ps[k].kind, ValueBegin(ps[k], p), p + PropSize(ps[k]), if k + 1 < |ps| then To(at + k + 1) else Null)
  }

  /** The records from `e` up to `hi` are element `t` and what is below it. */
  ghost predicate Linked(els: seq<Element>, props: seq<Property>, e: nat, t: Tree, pos: nat, hi: nat, version: nat)
    decreases t, 1
  {
    var idPos, propPos := pos + 3 * OffsetSize(version) + 1, pos + HeadSize(t, version);
    && e < hi <= |els| && els[e].idBegin == idPos && els[e].idEnd == idPos + |t.id|
    && (exists at :: PropsLinked(props, els[e].firstProperty, at, t.props, propPos))
    && KidsLinked(els, props, els[e].child, t.children, pos + HeadSize(t, version) + PropsSize(t.props), e + 1, hi, Null, version)
  }

  /** The records from `lo` up to `hi` are the elements `ts`, linked as siblings; `end` is the sibling of the last, and the link to
      the first if there is none. */
  ghost predicate KidsLinked(els: seq<Element>, props: seq<Property>, first: Link, ts: seq<Tree>, pos: nat, lo: nat, hi: nat, end: Link, version: nat)
    decreases ts, 1
  {
    if ts == [] then first == end && lo == hi <= |els|
    else exists mid :: LastLinked(els, props, first, ts, pos, lo, mid, hi, end, version)
  }

  ghost predicate LastLinked(els: seq<Element>, props: seq<Property>, first: Link, ts: seq<Tree>, pos: nat, lo: nat, mid: nat, hi: nat, end: Link, version: nat)
    requires ts != []
    decreases ts, 0
  {
    var n := |ts| - 1;
    && KidsLinked(els, props, first, ts[..n], pos, lo, mid, To(mid), version)
    && Linked(els, props, mid, ts[n], pos + SizeAll(ts[..n], version), hi, version) && els[mid].sibling == end
  }

  // ----- frames

  /** Nothing has changed in the records from `lo` up to `hi`, but perhaps the sibling of the first. */
  ghost predicate SameRecords(els: seq<Element>, els': seq<Element>, lo: nat, hi: nat) {
    && lo < hi <= |els| && hi <= |els'| && els'[lo] == els[lo].(sibling := els'[lo].sibling)
    && forall i :: lo < i < hi ==> els'[i] == els[i]
  }

  lemma {:induction false} LinkedKept(els: seq<Element>, props: seq<Property>, els': seq<Element>, props': seq<Property>, e: nat, t: Tree, pos: nat, hi: nat, version: nat)
    requires Linked(els, props, e, t, pos, hi, version) && SameRecords(els, els', e, hi) && props <= props'
    ensures Linked(els', props', e, t, pos, hi, version)
    decreases t, 2
  {
    hide PropsLinked, KidsLinked;
    var at :| PropsLinked(props, els[e].firstProperty, at, t.props, pos + HeadSize(t, version));
    PropsKept(props, props', els[e].firstProperty, at, t.props, pos + HeadSize(t, version));
    KidsKept(els, props, els', props', els[e].child, t.children, pos + HeadSize(t, version) + PropsSize(t.props), e + 1, hi, Null, version);
  }

  lemma PropsKept(props: seq<Property>, props': seq<Property>, first: Link, at: nat, ps: seq<Prop>, pos: nat)
    requires PropsLinked(props, first, at, ps, pos) && props <= props'
    ensures PropsLinked(props', first, at, ps, pos)
  {
    hide PropPos;
    forall k | 0 <= k < |ps| ensures PropLinked(props', at, ps, pos, k) { assert PropLinked(props, at, ps, pos, k); }
  }

  lemma {:induction false} KidsKept(els: seq<Element>, props: seq<Property>, els': seq<Element>, props': seq<Property>, first: Link, ts: seq<Tree>, pos: nat, lo: nat, hi: nat, end: Link, version: nat)
    requires KidsLinked(els, props, first, ts, pos, lo, hi, end, version) && hi <= |els'| && (forall i :: lo <= i < hi && i < |els| ==> els'[i] == els[i]) && props <= props'
    ensures KidsLinked(els', props', first, ts, pos, lo, hi, end, version)
    decreases ts, 1
  {
    if ts != [] {
      var mid :| LastLinked(els, props, first, ts, pos, lo, mid, hi, end, version);
      KidsRange(els, props, first, ts[..|ts| - 1], pos, lo, mid, To(mid), version);
      LinkedRange(els, props, mid, ts[|ts| - 1], pos + SizeAll(ts[..|ts| - 1], version), hi, version);
      LastKept(els, props, els', props', first, ts, pos, lo, mid, hi, end, version);
    }
  }

  lemma {:induction false} LastKept(els: seq<Element>, props: seq<Property>, els': seq<Element>, props': seq<Property>, first: Link, ts: seq<Tree>, pos: nat, lo: nat, mid: nat, hi: nat, end: Link, version: nat)
    requires ts != [] && LastLinked(els, props, first, ts, pos, lo, mid, hi, end, version) && lo <= mid < hi <= |els| && hi <= |els'|
    requires (forall i :: lo <= i < mid ==> els'[i] == els[i]) && SameRecords(els, els', mid, hi) && props <= props'
    ensures LastLinked(els', props', first, ts, pos, lo, mid, hi, els'[mid].sibling, version)
    decreases ts, 0
  {
    hide Linked, KidsLinked;
    var n := |ts| - 1;
    KidsKept(els, props, els', props', first, ts[..n], pos, lo, mid, To(mid), version);
    LinkedKept(els, props, els', props', mid, ts[n], pos + SizeAll(ts[..n], version), hi, version);
  }

  lemma LinkedRange(els: seq<Element>, props: seq<Property>, e: nat, t: Tree, pos: nat, hi: nat, version: nat)
    requires Linked(els, props, e, t, pos, hi, version)
    ensures e < hi <= |els|
  {
  }

  lemma {:induction false} KidsRange(els: seq<Element>, props: seq<Property>, first: Link, ts: seq<Tree>, pos: nat, lo: nat, hi: nat, end: Link, version: nat)
    requires KidsLinked(els, props, first, ts, pos, lo, hi, end, version)
    ensures lo <= hi <= |els|
    decreases ts
  {
    if ts != [] {
      var mid :| LastLinked(els, props, first, ts, pos, lo, mid, hi, end, version);
      KidsRange(els, props, first, ts[..|ts| - 1], pos, lo, mid, To(mid), version);
      LinkedRange(els, props, mid, ts[|ts| - 1], pos + SizeAll(ts[..|ts| - 1], version), hi, version);
    }
  }

  /** One more sibling, when the last one has been linked to it. */
  lemma KidsSnoc(els: seq<Element>, props: seq<Property>, first: Link, ts: seq<Tree>, pos: nat, lo: nat, mid: nat, hi: nat, t: Tree, version: nat)
    requires KidsLinked(els, props, first, ts, pos, lo, mid, To(mid), version)
    requires Linked(els, props, mid, t, pos + SizeAll(ts, version), hi, version) && els[mid].sibling == Null
    ensures KidsLinked(els, props, first, ts + [t], pos, lo, hi, Null, version)
    ensures LastLinked(els, props, first, ts + [t], pos, lo, mid, hi, Null, version)
    ensures SizeAll(ts + [t], version) == SizeAll(ts, version) + Size(t, version)
  {
    hide Linked, Size;
    assert (ts + [t])[..|ts|] == ts;
    assert LastLinked(els, props, first, ts + [t], pos, lo, mid, hi, Null, version);
  }

  /** The link after the last sibling is set. */
  lemma Relinked(els: seq<Element>, props: seq<Property>, els': seq<Element>, props': seq<Property>, first: Link, ts: seq<Tree>, pos: nat, lo: nat, hi: nat, last: nat, version: nat)
    requires ts != [] && LastLinked(els, props, first, ts, pos, lo, last, hi, Null, version) && props <= props' && hi <= |els'|
    requires (forall i :: lo <= i < hi && i < |els| && i != last ==> els'[i] == els[i]) && last < |els| && last < |els'| && els'[last] == els[last].(sibling := To(hi))
    ensures KidsLinked(els', props', first, ts, pos, lo, hi, To(hi), version)
  {
    hide Linked, KidsLinked;
    KidsRange(els, props, first, ts[..|ts| - 1], pos, lo, last, To(last), version);
    LinkedRange(els, props, last, ts[|ts| - 1], pos + SizeAll(ts[..|ts| - 1], version), hi, version);
    LastKept(els, props, els', props', first, ts, pos, lo, last, hi, Null, version);
    LastGives(els', props', first, ts, pos, lo, last, hi, To(hi), version);
  }

  lemma LastGives(els: seq<Element>, props: seq<Property>, first: Link, ts: seq<Tree>, pos: nat, lo: nat, mid: nat, hi: nat, end: Link, version: nat)
    requires ts != [] && LastLinked(els, props, first, ts, pos, lo, mid, hi, end, version)
    ensures KidsLinked(els, props, first, ts, pos, lo, hi, end, version)
  {
  }

  /** One more property, when the last one has been linked to it. */
  lemma PropsSnoc(props: seq<Property>, props': seq<Property>, first: Link, at: nat, ps: seq<Prop>, pos: nat, p: Prop)
    requires PropsLinked(props, first, at, ps, pos) && |props| == at + |ps| && |props'| == |props| + 1
    requires props'[|props|] == Property(p.kind, ValueBegin(p, pos + PropsSize(ps)), pos + PropsSize(ps) + PropSize(p), Null)
    requires forall i :: 0 <= i < |props| ==> props'[i] == if i + 1 == |props| && ps != [] then props[i].(next := To(|props|)) else props[i]
    ensures PropsLinked(props', if ps == [] then To(|props|) else first, at, ps + [p], pos)
  {
    hide PropSize, ValueBegin;
    var ps' := ps + [p];
    forall k | 0 <= k < |ps'| ensures PropLinked(props', at, ps', pos, k) {
      assert ps'[..k] == ps[..k] && ps[..|ps|] == ps;
      if k < |ps| { assert PropLinked(props, at, ps, pos, k); }
    }
  }

  lemma SliceOf(s: seq<u8>, a: nat, b: nat, c: nat, d: nat)
    requires a <= b <= |s| && c <= d <= b - a
    ensures s[a..b][c..d] == s[a + c..a + d]
  {
    forall i | 0 <= i < d - c ensures s[a..b][c..d][i] == s[a + c..a + d][i] {}
  }

  ghost predicate PropAt(data: seq<u8>, pos: nat, p: Prop) {
    PropOk(p) && pos + PropSize(p) <= |data| && data[pos..pos + PropSize(p)] == PropBytes(p)
  }

  /** Property `k` among the properties. */
  lemma {:induction false} PropsBytesAt(data: seq<u8>, pos: nat, ps: seq<Prop>, k: nat)
    requires k < |ps| && pos + PropsSize(ps) <= |data| && data[pos..pos + PropsSize(ps)] == PropsBytes(ps) && PropOk(ps[k])
    ensures PropAt(data, PropPos(ps, k, pos), ps[k]) && PropPos(ps, k + 1, pos) == PropPos(ps, k, pos) + PropSize(ps[k])
  {
    hide PropOk, PropBytes;
    var n := |ps| - 1;
    var init := ps[..n];
    SliceOf(data, pos, pos + PropsSize(ps), 0, PropsSize(init));
    SliceOf(data, pos, pos + PropsSize(ps), PropsSize(init), PropsSize(ps));
    assert PropsBytes(ps)[..PropsSize(init)] == PropsBytes(init) && PropsBytes(ps)[PropsSize(init)..] == PropBytes(ps[n]);
    if k < n {
      PropsBytesAt(data, pos, init, k);
      assert init[..k] == ps[..k] && init[..k + 1] == ps[..k + 1];
    } else {
      assert ps[..k + 1] == ps;
    }
  }

  lemma {:induction false} SizeAllPart(ts: seq<Tree>, k: nat, version: nat)
    requires k < |ts|
    ensures SizeAll(ts[..k + 1], version) == SizeAll(ts[..k], version) + Size(ts[k], version) <= SizeAll(ts, version)
  {
    hide Size;
    assert ts[..k + 1][..k] == ts[..k];
    if k + 1 < |ts| {
      SizeAllPart(ts[..|ts| - 1], k, version);
      assert ts[..|ts| - 1][..k + 1] == ts[..k + 1] && ts[..|ts| - 1][..k] == ts[..k];
    } else {
      assert ts[..k + 1] == ts;
    }
  }
}
