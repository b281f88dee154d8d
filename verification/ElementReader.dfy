/** The reader of binary element trees: a cursor over the file, and records that are linked as they are read. */
module ElementReader {
  import opened Bits
  import opened ElementFormat

  datatype Option<T> = None | Some(value: T)

  /** `(ptrdiff_t)` of a 64-bit number without a sign. */
  function Signed64(n: nat): int {
    if n < 0x8000_0000_0000_0000 then n else n - 0x1_0000_0000_0000_0000
  }

  function Left(size: nat, current: nat): nat { if current <= size then size - current else 0 }

  class Reader {
    const data: seq<u8>
    const version: nat
    var current: nat
    /** The allocator's elements and properties; a pointer is a place in them. */
    var elements: seq<Element>
    var properties: seq<Property>

    constructor (data: seq<u8>, version: nat)
      ensures this.data == data && this.version == version && current == 0 && elements == [] && properties == []
    {
      this.data, this.version, current, elements, properties := data, version, 0, [], [];
    }

    /** `read<T>` for a number of `k` bytes. */
    method Read(k: nat) returns (r: Option<nat>)
      modifies `current
      ensures if old(current) + k > |data| then r.None? && current == old(current)
              else r == Some(FromLe(data[old(current)..old(current) + k])) && current == old(current) + k
    {
      if current + k > |data| { return None; }
      r := Some(FromLe(data[current..current + k]));
      current := current + k;
    }

    /** `readShortString`, with a length of one byte, and `readLongString`, with one of four. */
    method ReadString(k: nat) returns (r: Option<(nat, nat)>)
      modifies `current
      ensures var start := old(current) + k;
              if start <= |data| && start + FromLe(data[old(current)..start]) <= |data| then r == Some((start, start + FromLe(data[old(current)..start]))) && current == r.value.1
              else r.None? && current >= old(current)
    {
      var length := Read(k);
      if length.None? { return None; }
      if current + length.value > |data| { return None; }
      r := Some((current, current + length.value));
      current := current + length.value;
    }

    /** `readElementOffset` */
    method ReadOffset() returns (r: Option<nat>)
      modifies `current
      ensures var end := old(current) + OffsetSize(version);
              if end > |data| then r.None? && current == old(current) else r == Some(FromLe(data[old(current)..end])) && current == end
    {
      r := Read(OffsetSize(version));
    }

    /** The switch of `readProperty`: past the value. */
    method SkipValue(kind: u8, ghost raw: seq<u8>) returns (ok: bool, begin: nat)
      modifies `current
      ensures current >= old(current)
      ensures ValueAt(data, old(current), kind, raw) ==>
                ok && current == old(current) + |raw| && begin == (if kind == 83 then old(current) + 4 else old(current))
    {
      hide FromLe;
      begin := current;
      ok := true;
      if ValueAt(data, current, kind, raw) { ValueSize(data, current, kind, raw); }
      if kind == 83 {
        var val := ReadString(4);
        if val.None? { return false, begin; }
        begin := val.value.0;
      } else if kind in {89, 67, 73, 70, 68, 76} {
        current := current + Fixed(kind);
      } else if kind == 82 {
        var len := ReadString(4);
        ok := len.Some?;
      } else if kind in {98, 102, 100, 108, 105} {
        var length := Read(4);
        var encoding := Read(4);
        var compLen := Read(4);
        if length.None? || encoding.None? || compLen.None? || current + compLen.value > |data| { return false, begin; }
        current := current + compLen.value;
      } else {
        ok := false;
      }
    }

    /** `readProperty` */
    method ReadProperty(ghost p: Prop) returns (ok: bool, index: nat)
      modifies `current, `properties
      ensures |properties| <= |old(properties)| + 1 && old(properties) <= properties && current >= old(current)
      ensures ok ==> index == |old(properties)| && |properties| == index + 1 && properties[index].next == Null && current > old(current)
      ensures PropAt(data, old(current), p) ==>
                ok && properties[index] == Property(p.kind, ValueBegin(p, old(current)), old(current) + PropSize(p), Null) && current == old(current) + PropSize(p)
    {
      ghost var start := current;
      index := |properties|;
      if current >= |data| { return false, index; }
      var kind := data[current];
      current := current + 1;
      if PropAt(data, start, p) { PropSplit(data, start, p); }
      var begin;
      ok, begin := SkipValue(kind, p.raw);
      properties := properties + [Property(kind, begin, current, Null)];
    }

    /** The property loop of `readElement`. */
    method ReadProperties(e: nat, propCount: nat, ghost ps: seq<Prop>) returns (ok: bool)
      requires e < |elements| && elements[e].firstProperty == Null
      modifies `current, `elements, `properties
      ensures old(properties) <= properties && current >= old(current) && |elements| == |old(elements)|
      ensures elements == old(elements)[e := old(elements)[e].(firstProperty := elements[e].firstProperty)]
      ensures PropsThere(data, old(current), ps) && propCount == |ps| ==>
                ok && current == old(current) + PropsSize(ps) && PropsLinked(properties, elements[e].firstProperty, |old(properties)|, ps, old(current))
    {
      hide PropSize, ValueBegin, PropsLinked, PropAt;
      ghost var start, at, good := current, |properties|, PropsThere(data, current, ps) && propCount == |ps|;
      var last: nat := 0;
      NoProps(properties, start);
      for i := 0 to propCount
        invariant at <= |properties| && old(properties) <= properties && current >= start && |elements| == |old(elements)|
        invariant elements == old(elements)[e := old(elements)[e].(firstProperty := elements[e].firstProperty)]
        invariant |properties| == at + i && (i > 0 ==> last == at + i - 1) && (i == 0 ==> elements[e].firstProperty == Null)
        invariant good ==> i <= |ps| && current == PropPos(ps, i, start) && PropsLinked(properties, elements[e].firstProperty, at, ps[..i], start)
      {
        ghost var p := if good then ps[i] else Prop(0, []);
        ghost var before, first := properties, elements[e].firstProperty;
        if good { PropsBytesAt(data, start, ps, i); }
        var index;
        ok, index := ReadProperty(p);
        if !ok { return; }
        if i == 0 {
          elements := elements[e := elements[e].(firstProperty := To(index))];
        } else {
          properties := properties[last := properties[last].(next := To(index))];
        }
        last := index;
        if good {
          PropsSnoc(before, properties, first, at, ps[..i], start, p);
          assert ps[..i] + [p] == ps[..i + 1];
        }
      }
      ok := true;
      if good { assert ps[..propCount] == ps; }
    }

    /** The loop over the children in `readElement`. */
    method ReadChildren(e: nat, limit: int, ghost ts: seq<Tree>) returns (ok: bool)
      requires e + 1 == |elements| && elements[e].child == Null
      modifies `current, `elements, `properties
      ensures old(properties) <= properties && current >= old(current) && |elements| > e && elements[..e] == old(elements)[..e]
      ensures elements[e] == old(elements)[e].(child := elements[e].child)
      ensures AllAt(data, old(current), ts, version) && limit == old(current) + SizeAll(ts, version) ==>
                ok && current == limit && KidsLinked(elements, properties, elements[e].child, ts, old(current), e + 1, |elements|, Null, version)
      decreases Left(|data|, current), 1
    {
      hide At, AllAt, KidsLinked, LastLinked, Linked, Size, SizeAll;
      ghost var start, good := current, AllAt(data, current, ts, version) && limit == current + SizeAll(ts, version);
      var last: nat := e;
      ghost var k: nat := 0;
      ok := true;
      NoKids(elements, properties, start, e + 1, version);
      assert ts[..0] == [];
      while current < limit
        invariant old(properties) <= properties && current >= start && e <= last < |elements| && elements[..e] == old(elements)[..e] && ok
        invariant elements[e] == old(elements)[e].(child := elements[e].child) && (last == e ==> elements[e].child == Null && |elements| == e + 1)
        invariant last > e ==> elements[last].sibling == Null
        invariant good ==> k <= |ts| && current == start + SizeAll(ts[..k], version)
        invariant good ==> KidsLinked(elements, properties, elements[e].child, ts[..k], start, e + 1, |elements|, Null, version)
        invariant good ==> (k == 0 <==> last == e) && (k > 0 ==> LastLinked(elements, properties, elements[e].child, ts[..k], start, e + 1, last, |elements|, Null, version))
        decreases limit - current
      {
        if good { NextKid(data, ts, k, version, current, start, limit); }
        ghost var t := if good then ts[k] else Tree([], [], [], false);
        ghost var before, props := elements, properties;
        var r;
        ok, r := ReadElement(t);
        if !ok { return; }
        ghost var read := elements;
        if last == e {
          elements := elements[e := elements[e].(child := r)];
        } else {
          elements := elements[last := elements[last].(sibling := r)];
        }
        if r.Null? { break; }
        if good {
          Joined(before, props, read, elements, properties, ts, k, start, e, last, version);
          k := k + 1;
        }
        last := r.index;
      }
      if good { AllKids(ts, k, version, current, start, limit); }
    }

    /** `readElement` */
    method ReadElement(ghost t: Tree) returns (ok: bool, r: Link)
      modifies `current, `elements, `properties
      ensures old(properties) <= properties && old(elements) <= elements && current >= old(current)
      ensures ok && r.To? ==> old(current) < |data| && current > old(current) && r.index == |old(elements)| < |elements| && elements[r.index].sibling == Null
      ensures ok && r.Null? ==> elements == old(elements) && properties == old(properties)
      ensures NullAt(data, old(current), version) ==> ok && r.Null? && current == old(current) + OffsetSize(version)
      ensures At(data, old(current), t, version) ==>
                ok && r.To? && current == old(current) + Size(t, version) && Linked(elements, properties, r.index, t, old(current), |elements|, version)
      decreases Left(|data|, current), 0
    {
      hide Size, PropsSize, At, AllAt, Linked, KidsLinked, PropsLinked, FromLe, PropsThere, HeadSize, SizeAll;
      ghost var start, good := current, At(data, current, t, version);
      if good { HeadRead(data, start, t, version); }
      var endOffset := ReadOffset();
      if endOffset.None? { return false, Null; }
      if endOffset.value == 0 { return true, Null; }
      var propCount := ReadOffset();
      var propLength := ReadOffset();
      if propCount.None? || propLength.None? { return false, Null; }
      var id := ReadString(1);
      if id.None? { return false, Null; }
      var e := |elements|;
      elements := elements + [Element(id.value.0, id.value.1, Null, Null, Null)];
      ok := ReadProperties(e, propCount.value, t.props);
      if !ok { return false, Null; }
      r := To(e);
      ghost var at, props0, kidPos := |old(properties)|, properties, current;
      if current >= Signed64(endOffset.value) {
        if good {
          NoKids(elements, properties, kidPos, e + 1, version);
          ElementLinked(elements, properties, props0, e, t, start, at, version);
        }
        return;
      }
      ok := ReadChildren(e, Signed64(endOffset.value) - Sentinel(version), t.children);
      if !ok || current + Sentinel(version) > |data| { return false, Null; }
      current := current + Sentinel(version);
      if good { ElementLinked(elements, properties, props0, e, t, start, at, version); }
    }
  }

  lemma PropSplit(data: seq<u8>, pos: nat, p: Prop)
    requires PropAt(data, pos, p)
    ensures data[pos] == p.kind && ValueAt(data, pos + 1, p.kind, p.raw)
  {
    assert data[pos] == data[pos..pos + PropSize(p)][0];
    assert data[pos + 1..pos + 1 + |p.raw|] == data[pos..pos + PropSize(p)][1..];
  }

  ghost predicate ValueAt(data: seq<u8>, pos: nat, kind: u8, raw: seq<u8>) {
    PropOk(Prop(kind, raw)) && pos + |raw| <= |data| && data[pos..pos + |raw|] == raw
  }

  lemma ValueSize(data: seq<u8>, pos: nat, kind: u8, raw: seq<u8>)
    requires ValueAt(data, pos, kind, raw)
    ensures kind in {83, 82} ==> pos + 4 <= |data| && |raw| == 4 + FromLe(data[pos..pos + 4])
    ensures kind in {98, 102, 100, 108, 105} ==> pos + 12 <= |data| && |raw| == 12 + FromLe(data[pos + 8..pos + 12])
  {
    if kind in {83, 82} { assert data[pos..pos + 4] == raw[..4]; }
    if kind in {98, 102, 100, 108, 105} { SliceOf(data, pos, pos + |raw|, 8, 12); }
  }

  /** No more elements. */
  ghost predicate NullAt(data: seq<u8>, pos: nat, version: nat) {
    pos + OffsetSize(version) <= |data| && FromLe(data[pos..pos + OffsetSize(version)]) == 0
  }

  ghost predicate PropsThere(data: seq<u8>, pos: nat, ps: seq<Prop>) {
    pos + PropsSize(ps) <= |data| && data[pos..pos + PropsSize(ps)] == PropsBytes(ps) && forall k :: 0 <= k < |ps| ==> PropOk(ps[k])
  }

  lemma NoProps(props: seq<Property>, pos: nat)
    ensures PropsLinked(props, Null, |props|, [], pos) && forall ps: seq<Prop> :: PropPos(ps, 0, pos) == pos
  {
  }

  lemma NoKids(els: seq<Element>, props: seq<Property>, pos: nat, lo: nat, version: nat)
    requires lo == |els|
    ensures KidsLinked(els, props, Null, [], pos, lo, lo, Null, version) && SizeAll([], version) == 0
  {
  }

  lemma NextKid(data: seq<u8>, ts: seq<Tree>, k: nat, version: nat, current: nat, start: nat, limit: int)
    requires AllAt(data, start, ts, version) && limit == start + SizeAll(ts, version) && k <= |ts| && current == start + SizeAll(ts[..k], version) < limit
    ensures k < |ts| && At(data, current, ts[k], version)
  {
    hide At, Size;
    assert ts[..|ts|] == ts;
  }

  lemma AllKids(ts: seq<Tree>, k: nat, version: nat, current: nat, start: nat, limit: int)
    requires limit == start + SizeAll(ts, version) && k <= |ts| && current == start + SizeAll(ts[..k], version) >= limit
    ensures k == |ts| && ts[..k] == ts
  {
    if k < |ts| { SizeAllPart(ts, k, version); }
  }

  /** A child has been read and linked behind the others. */
  lemma Joined(before: seq<Element>, props: seq<Property>, read: seq<Element>, els: seq<Element>, props': seq<Property>, ts: seq<Tree>, k: nat, start: nat, e: nat, last: nat, version: nat)
    requires k < |ts| && e <= last < |before| < |read| && before <= read && (k == 0 <==> last == e) && (k == 0 ==> |before| == e + 1) && props <= props'
    requires KidsLinked(before, props, before[e].child, ts[..k], start, e + 1, |before|, Null, version)
    requires k > 0 ==> LastLinked(before, props, before[e].child, ts[..k], start, e + 1, last, |before|, Null, version)
    requires els == read[last := if k == 0 then before[e].(child := To(|before|)) else before[last].(sibling := To(|before|))]
    requires Linked(read, props', |before|, ts[k], start + SizeAll(ts[..k], version), |read|, version) && read[|before|].sibling == Null
    ensures KidsLinked(els, props', els[e].child, ts[..k + 1], start, e + 1, |els|, Null, version)
    ensures LastLinked(els, props', els[e].child, ts[..k + 1], start, e + 1, |before|, |els|, Null, version)
    ensures SizeAll(ts[..k + 1], version) == SizeAll(ts[..k], version) + Size(ts[k], version)
  {
    hide Linked, LastLinked, Size;
    assert ts[..k] + [ts[k]] == ts[..k + 1];
    LinkedKept(read, props', els, props', |before|, ts[k], start + SizeAll(ts[..k], version), |read|, version);
    if k == 0 {
      FirstKid(els, props', start, e + 1, version);
    } else {
      hide KidsLinked;
      Relinked(before, props, els, props', before[e].child, ts[..k], start, e + 1, |before|, last, version);
    }
    KidsSnoc(els, props', els[e].child, ts[..k], start, e + 1, |before|, |els|, ts[k], version);
  }

  lemma FirstKid(els: seq<Element>, props: seq<Property>, pos: nat, lo: nat, version: nat)
    requires lo <= |els|
    ensures KidsLinked(els, props, To(lo), [], pos, lo, lo, To(lo), version)
  {
  }

  /** What the head of an element says. */
  lemma HeadRead(data: seq<u8>, pos: nat, t: Tree, version: nat)
    requires At(data, pos, t, version)
    ensures var k := OffsetSize(version); var idPos := pos + 3 * k; var propPos := pos + HeadSize(t, version); var kidPos := propPos + PropsSize(t.props);
            && propPos == idPos + 1 + |t.id| && kidPos <= |data|
            && FromLe(data[pos..pos + k]) == pos + Size(t, version) < 0x8000_0000_0000_0000 && FromLe(data[pos + k..pos + 2 * k]) == |t.props|
            && FromLe(data[idPos..idPos + 1]) == |t.id| && PropsThere(data, propPos, t.props)
            && (!t.nested ==> t.children == [] && pos + Size(t, version) == kidPos)
            && (t.nested ==> AllAt(data, kidPos, t.children, version) && pos + Size(t, version) == kidPos + SizeAll(t.children, version) + Sentinel(version) <= |data|)
  {
    hide Le, FromLe, PropsBytes, PropOk, SizeAll, PropsSize;
    var k := OffsetSize(version);
    var head := Head(t, pos, version);
    Limits();
    assert data[pos..pos + 3 * k] == head;
    SliceOf(data, pos, pos + 3 * k, 0, k);
    SliceOf(data, pos, pos + 3 * k, k, 2 * k);
    assert head[0..k] == Le(pos + Size(t, version), k) && head[k..2 * k] == Le(|t.props|, k);
    LeRead(pos + Size(t, version), k);
    LeRead(|t.props|, k);
    OneByte(data[pos + 3 * k]);
    assert data[pos + 3 * k..pos + 3 * k + 1] == [data[pos + 3 * k]];
  }

  lemma Limits()
    ensures Limit(4) == 0x1_0000_0000 && Limit(8) == 0x1_0000_0000_0000_0000
  {
    assert Limit(2) == 65536;
    assert Limit(5) == 256 * Limit(4) && Limit(6) == 256 * Limit(5) && Limit(7) == 256 * Limit(6);
  }

  lemma OneByte(b: u8)
    ensures FromLe([b]) == b
  {
    assert [b][1..] == [];
  }

  /** The element as a whole. */
  lemma ElementLinked(els: seq<Element>, props: seq<Property>, props0: seq<Property>, e: nat, t: Tree, pos: nat, at: nat, version: nat)
    requires e < |els| && els[e].idBegin == pos + 3 * OffsetSize(version) + 1 && els[e].idEnd == els[e].idBegin + |t.id|
    requires PropsLinked(props0, els[e].firstProperty, at, t.props, pos + HeadSize(t, version)) && props0 <= props
    requires KidsLinked(els, props, els[e].child, t.children, pos + HeadSize(t, version) + PropsSize(t.props), e + 1, |els|, Null, version)
    ensures Linked(els, props, e, t, pos, |els|, version)
  {
    hide PropsLinked, KidsLinked;
    PropsKept(props0, props, els[e].firstProperty, at, t.props, pos + HeadSize(t, version));
  }
}
