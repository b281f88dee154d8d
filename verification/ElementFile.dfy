/** Whole files of element trees: written by a reference encoder, and read back by `tokenize`. */
module ElementFile {
  import opened Bits
  import opened ElementFormat
  import opened ElementReader

  // ----- the encoder

  function Zeros(n: nat): (s: seq<u8>)
    ensures |s| == n
  {
    seq(n, _ => 0)
  }

  function Bytes(t: Tree, pos: nat, version: nat): (s: seq<u8>)
    decreases t, 1
  {
    Start(t, pos, version) + (if t.nested then BytesAll(t.children, pos + HeadSize(t, version) + PropsSize(t.props), version) + Zeros(Sentinel(version)) else [])
  }

  /** An element up to its children. */
  function Start(t: Tree, pos: nat, version: nat): (s: seq<u8>)
    ensures |s| == HeadSize(t, version) + PropsSize(t.props)
  {
    Head(t, pos, version) + [|t.id| % 256] + t.id + PropsBytes(t.props)
  }

  function BytesAll(ts: seq<Tree>, pos: nat, version: nat): (s: seq<u8>)
    decreases ts, 0
  {
    if ts == [] then [] else
      var n := |ts| - 1;
      BytesAll(ts[..n], pos, version) + Bytes(ts[n], pos + SizeAll(ts[..n], version), version)
  }

  /** Every element of the tree can be encoded. */
  ghost predicate DeepOk(t: Tree)
    decreases t
  {
    TreeOk(t) && forall k :: 0 <= k < |t.children| ==> DeepOk(t.children[k])
  }

  lemma {:induction false} BytesSize(t: Tree, pos: nat, version: nat)
    ensures |Bytes(t, pos, version)| == Size(t, version)
    decreases t, 1
  {
    if t.nested { BytesAllSize(t.children, pos + HeadSize(t, version) + PropsSize(t.props), version); }
  }

  lemma {:induction false} BytesAllSize(ts: seq<Tree>, pos: nat, version: nat)
    ensures |BytesAll(ts, pos, version)| == SizeAll(ts, version)
    decreases ts, 0
  {
    hide Bytes, Size;
    if ts != [] {
      var n := |ts| - 1;
      BytesAllSize(ts[..n], pos, version);
      BytesSize(ts[n], pos + SizeAll(ts[..n], version), version);
    }
  }

  ghost predicate There(data: seq<u8>, pos: nat, s: seq<u8>) {
    pos + |s| <= |data| && data[pos..pos + |s|] == s
  }

  lemma ThereSplit(data: seq<u8>, pos: nat, s: seq<u8>, t: seq<u8>)
    requires There(data, pos, s + t)
    ensures There(data, pos, s) && There(data, pos + |s|, t)
  {
    SliceOf(data, pos, pos + |s + t|, 0, |s|);
    SliceOf(data, pos, pos + |s + t|, |s|, |s + t|);
    assert (s + t)[..|s|] == s && (s + t)[|s|..] == t;
  }

  /** What the encoder writes is what the format asks for. */
  lemma {:induction false} BytesAt(data: seq<u8>, pos: nat, t: Tree, version: nat)
    requires DeepOk(t) && There(data, pos, Bytes(t, pos, version)) && pos + Size(t, version) < Reach(version)
    ensures At(data, pos, t, version)
    decreases t, 2
  {
    hide AllAt;
    var kidPos := pos + HeadSize(t, version) + PropsSize(t.props);
    BytesSize(t, pos, version);
    var kids := if t.nested then BytesAll(t.children, kidPos, version) + Zeros(Sentinel(version)) else [];
    ThereSplit(data, pos, Start(t, pos, version), kids);
    StartAt(data, pos, t, version);
    if t.nested {
      BytesAllSize(t.children, kidPos, version);
      ThereSplit(data, kidPos, BytesAll(t.children, kidPos, version), Zeros(Sentinel(version)));
      BytesAllAt(data, kidPos, t.children, version);
    }
  }

  lemma StartAt(data: seq<u8>, pos: nat, t: Tree, version: nat)
    requires There(data, pos, Start(t, pos, version)) && |t.id| < 256
    ensures var idPos := pos + 3 * OffsetSize(version); var propPos := pos + HeadSize(t, version);
            && data[pos..idPos] == Head(t, pos, version) && data[idPos] == |t.id| && data[idPos + 1..propPos] == t.id
            && data[propPos..propPos + PropsSize(t.props)] == PropsBytes(t.props)
  {
    var head, id, props := Head(t, pos, version), [|t.id| % 256], PropsBytes(t.props);
    ThereSplit(data, pos, head + id + t.id, props);
    ThereSplit(data, pos, head + id, t.id);
    ThereSplit(data, pos, head, id);
    var idPos := pos + |head|;
    assert data[idPos] == data[idPos..idPos + 1][0];
  }

  lemma BytesAllLast(ts: seq<Tree>, pos: nat, version: nat)
    requires ts != []
    ensures BytesAll(ts, pos, version) == BytesAll(ts[..|ts| - 1], pos, version) + Bytes(ts[|ts| - 1], pos + SizeAll(ts[..|ts| - 1], version), version)
  {
    hide Bytes, SizeAll;
  }

  lemma {:induction false} BytesAllAt(data: seq<u8>, pos: nat, ts: seq<Tree>, version: nat)
    requires (forall k :: 0 <= k < |ts| ==> DeepOk(ts[k])) && There(data, pos, BytesAll(ts, pos, version)) && pos + SizeAll(ts, version) < Reach(version)
    ensures AllAt(data, pos, ts, version)
    decreases ts, 1
  {
    hide *;
    if ts == [] {
      NoneAt(data, pos, version);
    } else {
      var n := |ts| - 1;
      var p := pos + SizeAll(ts[..n], version);
      BytesAllSize(ts[..n], pos, version);
      BytesAllLast(ts, pos, version);
      SizeAllPart(ts, n, version);
      assert ts[..n + 1] == ts;
      ThereSplit(data, pos, BytesAll(ts[..n], pos, version), Bytes(ts[n], p, version));
      BytesAllAt(data, pos, ts[..n], version);
      BytesAt(data, p, ts[n], version);
      AllAtNext(data, pos, ts, version);
    }
  }

  lemma NoneAt(data: seq<u8>, pos: nat, version: nat)
    ensures AllAt(data, pos, [], version)
  {
  }

  lemma AllAtNext(data: seq<u8>, pos: nat, ts: seq<Tree>, version: nat)
    requires ts != [] && AllAt(data, pos, ts[..|ts| - 1], version) && At(data, pos + SizeAll(ts[..|ts| - 1], version), ts[|ts| - 1], version)
    ensures AllAt(data, pos, ts, version)
  {
    hide At, SizeAll;
    var n := |ts| - 1;
    forall k | 0 <= k < |ts| ensures At(data, pos + SizeAll(ts[..k], version), ts[k], version) {
      if k < n { assert ts[..n][..k] == ts[..k] && ts[..n][k] == ts[k]; }
    }
  }

  // ----- files

  const HEADER_SIZE := 27

  /** A header, whose last four bytes are the version, the elements, an empty element, and anything after that. */
  function File(header: seq<u8>, ts: seq<Tree>, rest: seq<u8>): seq<u8>
    requires |header| == HEADER_SIZE
  {
    var version := FromLe(header[23..27]);
    header + (BytesAll(ts, HEADER_SIZE, version) + (Zeros(OffsetSize(version)) + rest))
  }

  /** `tokenize`: a root element, and everything up to the empty element below it. */
  method Tokenize(data: seq<u8>, ghost ts: seq<Tree>) returns (ok: bool, r: Reader)
    requires HEADER_SIZE <= |data|
    ensures fresh(r) && r.data == data && r.version == FromLe(data[23..27])
    ensures var version := FromLe(data[23..27]);
            AllAt(data, HEADER_SIZE, ts, version) && NullAt(data, HEADER_SIZE + SizeAll(ts, version), version) ==>
              ok && r.elements != [] && r.current == HEADER_SIZE + SizeAll(ts, version) + OffsetSize(version)
              && KidsLinked(r.elements, r.properties, r.elements[0].child, ts, HEADER_SIZE, 1, |r.elements|, Null, version)
  {
    hide At, AllAt, KidsLinked, LastLinked, Linked, Size, SizeAll, FromLe;
    var version := FromLe(data[23..27]);
    r := new Reader(data, version);
    r.current := HEADER_SIZE;
    r.elements := [Element(0, 0, Null, Null, Null)];
    var last: nat := 0;
    ghost var k: nat := 0;
    ghost var start, end, good := HEADER_SIZE, HEADER_SIZE + SizeAll(ts, version), AllAt(data, HEADER_SIZE, ts, version) && NullAt(data, HEADER_SIZE + SizeAll(ts, version), version);
    NoKids(r.elements, r.properties, start, 1, version);
    assert ts[..0] == [];
    while true
      invariant fresh(r) && r.data == data && r.version == version && last < |r.elements|
      invariant last == 0 ==> |r.elements| == 1
      invariant good ==> k <= |ts| && r.current == start + SizeAll(ts[..k], version)
      invariant good ==> KidsLinked(r.elements, r.properties, r.elements[0].child, ts[..k], start, 1, |r.elements|, Null, version)
      invariant good ==> (k == 0 <==> last == 0) && (k > 0 ==> LastLinked(r.elements, r.properties, r.elements[0].child, ts[..k], start, 1, last, |r.elements|, Null, version))
      invariant r.elements[last].sibling == Null && (last == 0 ==> r.elements[0].child == Null)
      decreases Left(|data|, r.current)
    {
      if good { Coming(data, ts, k, version, r.current, start, end); }
      ghost var t := if good && k < |ts| then ts[k] else Tree([], [], [], false);
      ghost var before, props := r.elements, r.properties;
      var link;
      ok, link := r.ReadElement(t);
      if !ok { return; }
      ghost var read := r.elements;
      if last == 0 {
        r.elements := r.elements[0 := r.elements[0].(child := link)];
      } else {
        r.elements := r.elements[last := r.elements[last].(sibling := link)];
      }
      if link.Null? {
        if good { assert ts[..|ts|] == ts && r.elements == before; }
        return;
      }
      if good {
        Joined(before, props, read, r.elements, r.properties, ts, k, start, 0, last, version);
        k := k + 1;
      }
      last := link.index;
    }
  }

  /** What the next record is. */
  lemma Coming(data: seq<u8>, ts: seq<Tree>, k: nat, version: nat, current: nat, start: nat, end: nat)
    requires AllAt(data, start, ts, version) && end == start + SizeAll(ts, version) && NullAt(data, end, version)
    requires k <= |ts| && current == start + SizeAll(ts[..k], version)
    ensures if k < |ts| then At(data, current, ts[k], version) else NullAt(data, current, version) && current == end
  {
    hide At, Size, NullAt;
    assert ts[..|ts|] == ts;
  }

  /** Every file that the encoder writes is read back: each element, property and link. */
  method RoundTrip(header: seq<u8>, ts: seq<Tree>, rest: seq<u8>) returns (ok: bool, r: Reader)
    requires |header| == HEADER_SIZE && (forall k :: 0 <= k < |ts| ==> DeepOk(ts[k]))
    requires HEADER_SIZE + SizeAll(ts, FromLe(header[23..27])) < Reach(FromLe(header[23..27]))
    ensures var version := FromLe(header[23..27]);
            ok && r.elements != [] && r.current == HEADER_SIZE + SizeAll(ts, version) + OffsetSize(version)
            && KidsLinked(r.elements, r.properties, r.elements[0].child, ts, HEADER_SIZE, 1, |r.elements|, Null, version)
  {
    hide AllAt, KidsLinked, SizeAll, DeepOk, NullAt, FromLe, BytesAll;
    var data := File(header, ts, rest);
    FileThere(header, ts, rest);
    ok, r := Tokenize(data, ts);
  }

  lemma FileThere(header: seq<u8>, ts: seq<Tree>, rest: seq<u8>)
    requires |header| == HEADER_SIZE && (forall k :: 0 <= k < |ts| ==> DeepOk(ts[k]))
    requires HEADER_SIZE + SizeAll(ts, FromLe(header[23..27])) < Reach(FromLe(header[23..27]))
    ensures var version := FromLe(header[23..27]); var data := File(header, ts, rest);
            |data| >= HEADER_SIZE && data[23..27] == header[23..27] && AllAt(data, HEADER_SIZE, ts, version) && NullAt(data, HEADER_SIZE + SizeAll(ts, version), version)
  {
    hide AllAt, SizeAll, DeepOk, FromLe, BytesAll, Reach, OffsetSize;
    var version := FromLe(header[23..27]);
    var body, zeros := BytesAll(ts, HEADER_SIZE, version), Zeros(OffsetSize(version));
    var data := header + (body + (zeros + rest));
    BytesAllSize(ts, HEADER_SIZE, version);
    assert There(data, 0, data);
    ThereSplit(data, 0, header, body + (zeros + rest));
    ThereSplit(data, HEADER_SIZE, body, zeros + rest);
    ThereSplit(data, HEADER_SIZE + |body|, zeros, rest);
    BytesAllAt(data, HEADER_SIZE, ts, version);
    ZeroRead(OffsetSize(version));
  }

  lemma {:induction false} ZeroRead(n: nat)
    ensures FromLe(Zeros(n)) == 0
  {
    if n > 0 {
      assert Zeros(n)[1..] == Zeros(n - 1);
      ZeroRead(n - 1);
    }
  }
}
