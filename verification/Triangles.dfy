/** Cutting polygons into triangles.  A polygon is a run of corners, the last of which is coded as a negative number. */
module Triangles {
  function DecodeIndex(idx: int): (v: nat) {
    if idx < 0 then -idx - 1 else idx
  }

  function CodeIndex(idx: int, last: bool): int {
    if last then -idx - 1 else idx
  }

  lemma Coded(v: nat, last: bool)
    ensures DecodeIndex(CodeIndex(v, last)) == v && (CodeIndex(v, last) < 0 <==> last)
  {
  }

  /** How many corners of its polygon come before corner `i`. */
  function InPoly(indices: seq<int>, i: nat): (k: nat)
    requires i <= |indices|
    ensures k <= i
  {
    if i == 0 || indices[i - 1] < 0 then 0 else InPoly(indices, i - 1) + 1
  }

  /** The corners before it are not the last of a polygon. */
  lemma {:induction false} Inside(indices: seq<int>, i: nat, j: nat)
    requires i <= |indices| && i - InPoly(indices, i) <= j < i
    ensures indices[j] >= 0
  {
    if j < i - 1 { Inside(indices, i - 1, j); }
  }

  /** The polygon that corner `i` belongs to. */
  function PolyOf(indices: seq<int>, i: nat): (p: nat)
    requires i <= |indices|
    ensures p <= i
  {
    if i == 0 then 0 else PolyOf(indices, i - 1) + (if indices[i - 1] < 0 then 1 else 0)
  }

  // ----- the reference: a triangle for every corner that has two before it in its polygon

  datatype Triangle = Triangle(first: nat, previous: nat, current: nat)

  function Fan(indices: seq<int>, n: nat): (ts: seq<Triangle>)
    requires n <= |indices|
  {
    if n == 0 then []
    else
      var k := InPoly(indices, n - 1);
      Fan(indices, n - 1) + (if k >= 2 then [Triangle(n - 1 - k, n - 2, n - 1)] else [])
  }

  function Corners(ts: seq<Triangle>): (c: seq<nat>)
    ensures |c| == 3 * |ts|
  {
    if ts == [] then []
    else
      var t := ts[|ts| - 1];
      Corners(ts[..|ts| - 1]) + [t.first, t.previous, t.current]
  }

  lemma CornersNext(ts: seq<Triangle>, t: Triangle)
    ensures Corners(ts + [t]) == Corners(ts) + [t.first, t.previous, t.current]
  {
    assert (ts + [t])[..|ts|] == ts;
  }

  /** The corners of triangle `t` are three in a row of the list. */
  lemma {:induction false} CornersAt(ts: seq<Triangle>, t: nat)
    requires t < |ts|
    ensures Corners(ts)[3 * t] == ts[t].first && Corners(ts)[3 * t + 1] == ts[t].previous && Corners(ts)[3 * t + 2] == ts[t].current
  {
    if t < |ts| - 1 { CornersAt(ts[..|ts| - 1], t); }
  }

  /** Every triangle has three different corners of one polygon. */
  lemma {:induction false} FanOwn(indices: seq<int>, n: nat, t: nat)
    requires n <= |indices| && t < |Fan(indices, n)|
    ensures var tri := Fan(indices, n)[t];
            tri.first < tri.previous == tri.current - 1 < tri.current < n && tri.first == tri.current - InPoly(indices, tri.current)
            && PolyOf(indices, tri.first) == PolyOf(indices, tri.previous) == PolyOf(indices, tri.current)
  {
    if t < |Fan(indices, n - 1)| {
      FanOwn(indices, n - 1, t);
    } else {
      SamePoly(indices, n - 1, InPoly(indices, n - 1));
      SamePoly(indices, n - 1, 1);
    }
  }

  lemma {:induction false} SamePoly(indices: seq<int>, i: nat, k: nat)
    requires i <= |indices| && k <= InPoly(indices, i)
    ensures PolyOf(indices, i - k) == PolyOf(indices, i)
  {
    if k > 0 {
      SamePoly(indices, i, k - 1);
      Inside(indices, i, i - k);
    }
  }

  // ----- what the loop pushes, polygons with too few corners included

  function Pushed(indices: seq<int>, n: nat): (out: seq<nat>)
    requires n <= |indices|
  {
    if n == 0 then []
    else
      var k := InPoly(indices, n - 1);
      Pushed(indices, n - 1) + (if k <= 2 then [n - 1] else [n - 1 - k, n - 2, n - 1])
  }

  /** The corners of polygons of one or two corners up to `n`, and of the polygon that has just begun. */
  function Stray(indices: seq<int>, n: nat): nat
    requires n <= |indices|
  {
    if n == 0 then 0
    else if InPoly(indices, n - 1) < 2 then Stray(indices, n - 1) + 1
    else if InPoly(indices, n - 1) == 2 then Stray(indices, n - 1) - (if Stray(indices, n - 1) >= 2 then 2 else 0)
    else Stray(indices, n - 1)
  }

  /** Every polygon has at least three corners. */
  ghost predicate Proper(indices: seq<int>) {
    (forall i :: 0 <= i < |indices| && indices[i] < 0 ==> InPoly(indices, i) >= 2) && (indices == [] || indices[|indices| - 1] < 0)
  }

  /** The one or two corners pushed of a triangle that is not complete. */
  function Begun(indices: seq<int>, n: nat): seq<nat>
    requires n <= |indices|
  {
    if InPoly(indices, n) == 1 then [n - 1] else if InPoly(indices, n) == 2 then [n - 2, n - 1] else []
  }

  /** The loop pushes the triangles of the fans. */
  lemma {:induction false} PushedFan(indices: seq<int>, n: nat)
    requires n <= |indices| && forall i :: 0 <= i < n && indices[i] < 0 ==> InPoly(indices, i) >= 2
    ensures Pushed(indices, n) == Corners(Fan(indices, n)) + Begun(indices, n)
  {
    hide *;
    if n > 0 {
      PushedFan(indices, n - 1);
      PushedNext(indices, n - 1);
      BegunNext(indices, n - 1);
      var k, c, b := InPoly(indices, n - 1), Corners(Fan(indices, n - 1)), Begun(indices, n - 1);
      if k >= 2 { CornersNext(Fan(indices, n - 1), Triangle(n - 1 - k, n - 2, n - 1)); }
      assert c + b + [n - 1] == c + (b + [n - 1]);
      assert k > 2 ==> c + b == c;
      assert Fan(indices, n - 1) + [] == Fan(indices, n - 1) && Corners(Fan(indices, n)) + [] == Corners(Fan(indices, n));
    } else {
      NothingPushed(indices);
    }
  }

  lemma NothingPushed(indices: seq<int>)
    ensures Pushed(indices, 0) == Corners(Fan(indices, 0)) + Begun(indices, 0)
  {
  }

  lemma PushedNext(indices: seq<int>, i: nat)
    requires i < |indices|
    ensures var k := InPoly(indices, i);
            k <= i && Pushed(indices, i + 1) == Pushed(indices, i) + (if k <= 2 then [i] else [i - k, i - 1, i])
            && Fan(indices, i + 1) == Fan(indices, i) + (if k >= 2 then [Triangle(i - k, i - 1, i)] else [])
  {
    assert Fan(indices, i) + [] == Fan(indices, i);
  }

  lemma BegunNext(indices: seq<int>, i: nat)
    requires i < |indices| && (indices[i] < 0 ==> InPoly(indices, i) >= 2)
    ensures var k := InPoly(indices, i);
            Begun(indices, i + 1) == (if k < 2 then Begun(indices, i) + [i] else []) && (k == 2 ==> Begun(indices, i) + [i] == [i - 2, i - 1, i]) && (k > 2 ==> Begun(indices, i) == [])
  {
  }

  /** So many more corners are pushed than the fans have. */
  lemma {:induction false} PushedMore(indices: seq<int>, n: nat)
    requires n <= |indices|
    ensures |Pushed(indices, n)| == 3 * |Fan(indices, n)| + Stray(indices, n) && Stray(indices, n) >= |Begun(indices, n)|
  {
    if n > 0 { PushedMore(indices, n - 1); }
  }

  lemma {:induction false} StrayKept(indices: seq<int>, i: nat, n: nat)
    requires i < n <= |indices| && indices[i] < 0 && InPoly(indices, i) < 2
    ensures Stray(indices, n) > |Begun(indices, n)|
  {
    if i < n - 1 { StrayKept(indices, i, n - 1); } else { PushedMore(indices, i); }
    PushedMore(indices, n - 1);
  }

  /** The loop pushes exactly the fans' corners when every polygon is closed and has at least three corners, and only then, but for a
      last polygon that is not closed. */
  lemma FanIff(indices: seq<int>)
    requires indices == [] || indices[|indices| - 1] < 0
    ensures Pushed(indices, |indices|) == Corners(Fan(indices, |indices|)) <==> Proper(indices)
  {
    var n := |indices|;
    if Proper(indices) {
      PushedFan(indices, n);
    } else {
      var i :| 0 <= i < n && indices[i] < 0 && InPoly(indices, i) < 2;
      StrayKept(indices, i, n);
      PushedMore(indices, n);
    }
  }

  /** `triangulate` */
  method Triangulate(oldIndices: seq<int>) returns (toOldVertices: seq<int>, toOldIndices: seq<nat>)
    ensures toOldIndices == Pushed(oldIndices, |oldIndices|) && |toOldVertices| == |toOldIndices|
    ensures forall k :: 0 <= k < |toOldIndices| ==> toOldIndices[k] < |oldIndices| && toOldVertices[k] == DecodeIndex(oldIndices[toOldIndices[k]])
  {
    toOldVertices, toOldIndices := [], [];
    var inPolygonIdx: nat := 0;
    for i := 0 to |oldIndices|
      invariant inPolygonIdx == InPoly(oldIndices, i) && toOldIndices == Pushed(oldIndices, i) && |toOldVertices| == |toOldIndices|
      invariant forall k :: 0 <= k < |toOldIndices| ==> toOldIndices[k] < i && toOldVertices[k] == DecodeIndex(oldIndices[toOldIndices[k]])
    {
      var idx := DecodeIndex(oldIndices[i]);
      if inPolygonIdx <= 2 {
        toOldVertices := toOldVertices + [idx];
        toOldIndices := toOldIndices + [i];
      } else {
        Inside(oldIndices, i, i - inPolygonIdx);
        Inside(oldIndices, i, i - 1);
        toOldVertices := toOldVertices + [oldIndices[i - inPolygonIdx], oldIndices[i - 1], idx];
        toOldIndices := toOldIndices + [i - inPolygonIdx, i - 1, i];
      }
      inPolygonIdx := inPolygonIdx + 1;
      if oldIndices[i] < 0 { inPolygonIdx := 0; }
    }
  }

  // ----- materials

  /** A last corner is still to come. */
  ghost predicate Closes(indices: seq<int>, start: nat) {
    exists j :: start <= j < |indices| && indices[j] < 0
  }

  /** The first last corner from `start` on: where the polygon that begins at `start` ends. */
  ghost function PolyEnd(indices: seq<int>, start: nat): (e: nat)
    requires Closes(indices, start)
    ensures start <= e < |indices| && indices[e] < 0 && forall j :: start <= j < e ==> indices[j] >= 0
    decreases |indices| - start
  {
    if indices[start] < 0 then start else PolyEnd(indices, start + 1)
  }

  /** `getTriCountFromPoly`, which takes the first two corners for granted. */
  method GetTriCountFromPoly(indices: seq<int>, idx: nat) returns (count: nat, idx': nat)
    requires Closes(indices, idx + 2)
    ensures idx' == PolyEnd(indices, idx + 2) + 1 && count == PolyEnd(indices, idx + 2) - idx - 1 && count >= 1
  {
    ghost var end := PolyEnd(indices, idx + 2);
    count := 1;
    while indices[idx + 1 + count] >= 0
      invariant 1 <= count && idx + 1 + count <= end
      decreases end - count
    {
      count := count + 1;
    }
    idx' := idx + 2 + count;
  }

  /** It counts the triangles of the polygon and goes to the next one exactly when the polygon has at least three corners. */
  lemma CountsPoly(indices: seq<int>, idx: nat)
    requires Closes(indices, idx + 2) && InPoly(indices, idx) == 0
    ensures Closes(indices, idx)
    ensures var e, f := PolyEnd(indices, idx + 2), PolyEnd(indices, idx);
            e == f <==> f >= idx + 2
    ensures var e, f := PolyEnd(indices, idx + 2), PolyEnd(indices, idx);
            e == f <==> |Fan(indices, e + 1)| - |Fan(indices, idx)| == e - idx - 1
    ensures var e := PolyEnd(indices, idx + 2); |Fan(indices, e + 1)| - |Fan(indices, idx)| <= e - idx - 1
  {
    hide Fan, InPoly, PolyOf;
    var e := PolyEnd(indices, idx + 2);
    assert indices[e] < 0;
    var f := PolyEnd(indices, idx);
    if f >= idx + 2 {
      FanSize(indices, idx, f);
    } else {
      Wasted(indices, idx, e + 1);
      PolysCounted(indices, idx, f, e);
    }
  }

  lemma {:induction false} FanSize(indices: seq<int>, start: nat, i: nat)
    requires start <= i < |indices| && InPoly(indices, start) == 0 && forall j :: start <= j < i ==> indices[j] >= 0
    ensures |Fan(indices, i + 1)| - |Fan(indices, start)| == if i < start + 2 then 0 else i - start - 1
  {
    PolyLength(indices, start, i);
    if start < i { FanSize(indices, start, i - 1); }
  }

  /** Every polygon takes at least one corner more than it has triangles, and two unless it is a single corner. */
  lemma {:induction false} Wasted(indices: seq<int>, start: nat, n: nat)
    requires start <= n <= |indices| && InPoly(indices, start) == 0
    ensures var waste := (n - start) - (|Fan(indices, n)| - |Fan(indices, start)|) - (if InPoly(indices, n) < 2 then InPoly(indices, n) else 2);
            var polys := PolyOf(indices, n) - PolyOf(indices, start);
            waste >= polys >= 0 && (waste == polys ==> n - start == polys + InPoly(indices, n))
  {
    if start < n { Wasted(indices, start, n - 1); }
  }

  lemma PolysCounted(indices: seq<int>, start: nat, f: nat, e: nat)
    requires start <= f < e < |indices| && indices[f] < 0 && indices[e] < 0
    ensures InPoly(indices, e + 1) == 0 && PolyOf(indices, e + 1) >= PolyOf(indices, start) + 2
  {
    PolyGrows(indices, start, f + 1);
    PolyGrows(indices, f + 1, e + 1);
  }

  lemma {:induction false} PolyLength(indices: seq<int>, start: nat, i: nat)
    requires start <= i < |indices| && InPoly(indices, start) == 0 && forall j :: start <= j < i ==> indices[j] >= 0
    ensures InPoly(indices, i) == i - start
    ensures PolyOf(indices, i) == PolyOf(indices, start)
  {
    if start < i { PolyLength(indices, start, i - 1); }
  }

  /** Each triangle's own polygon's material. */
  function FanMaterials(indices: seq<int>, materials: seq<int>, n: nat): (ms: seq<int>)
    requires n <= |indices|
    ensures |ms| == |Fan(indices, n)|
  {
    if n == 0 then []
    else
      var p := PolyOf(indices, n - 1);
      FanMaterials(indices, materials, n - 1) + (if InPoly(indices, n - 1) >= 2 then [if p < |materials| then materials[p] else -1] else [])
  }

  lemma {:induction false} MaterialOf(indices: seq<int>, materials: seq<int>, n: nat, t: nat)
    requires n <= |indices| && t < |Fan(indices, n)|
    ensures Fan(indices, n)[t].current < |indices|
    ensures var p := PolyOf(indices, Fan(indices, n)[t].current); p < |materials| ==> FanMaterials(indices, materials, n)[t] == materials[p]
  {
    if t < |Fan(indices, n - 1)| { MaterialOf(indices, materials, n - 1, t); }
  }

  function Repeat(v: int, n: nat): (s: seq<int>)
    ensures |s| == n
  {
    if n == 0 then [] else Repeat(v, n - 1) + [v]
  }

  /** All triangles of a polygon, up to its corner `start + k`, have its material. */
  lemma {:induction false} PolyMaterials(indices: seq<int>, materials: seq<int>, start: nat, k: nat)
    requires start + k < |indices| && InPoly(indices, start) == 0 && (forall j :: start <= j < start + k ==> indices[j] >= 0)
    requires PolyOf(indices, start) < |materials|
    ensures FanMaterials(indices, materials, start + k + 1) == FanMaterials(indices, materials, start) + Repeat(materials[PolyOf(indices, start)], if k < 2 then 0 else k - 1)
  {
    PolyLength(indices, start, start + k);
    if k > 0 { PolyMaterials(indices, materials, start, k - 1); }
  }

  /** The first `k` calls of `getTriCountFromPoly` stay inside the list. */
  ghost predicate Reads(indices: seq<int>, k: nat)
    decreases k, 0
  {
    k == 0 || (Reads(indices, k - 1) && Closes(indices, Cursor(indices, k - 1) + 2))
  }

  /** Where they end. */
  ghost function Cursor(indices: seq<int>, k: nat): (i: nat)
    requires Reads(indices, k)
    ensures i <= |indices| && InPoly(indices, i) == 0
    decreases k, 1
  {
    if k == 0 then 0 else PolyEnd(indices, Cursor(indices, k - 1) + 2) + 1
  }

  /** What `parseGeometryMaterials` pushes for the first `k` materials. */
  ghost function Counted(indices: seq<int>, materials: seq<int>, k: nat): seq<int>
    requires Reads(indices, k) && k <= |materials|
  {
    if k == 0 then []
    else
      var i := Cursor(indices, k - 1);
      Counted(indices, materials, k - 1) + Repeat(materials[k - 1], PolyEnd(indices, i + 2) - i - 1)
  }

  /** The counting loop of `parseGeometryMaterials`. */
  method ParseMaterials(indices: seq<int>, materials: seq<int>) returns (out: seq<int>, done: nat)
    requires Reads(indices, |materials|)
    ensures done == Cursor(indices, |materials|) && out == Counted(indices, materials, |materials|)
  {
    hide Reads, Cursor, Counted, PolyEnd, Closes;
    var tmpI: nat := 0;
    out := [];
    ReadsNone(indices, materials);
    for poly := 0 to |materials|
      invariant Reads(indices, poly) && tmpI == Cursor(indices, poly) && out == Counted(indices, materials, poly)
    {
      ReadsLess(indices, poly + 1, |materials|);
      ReadsNext(indices, materials, poly);
      var triCount;
      triCount, tmpI := GetTriCountFromPoly(indices, tmpI);
      ghost var before := out;
      for i := 0 to triCount
        invariant out == before + Repeat(materials[poly], i)
      {
        out := out + [materials[poly]];
      }
    }
    done := tmpI;
  }

  lemma ReadsNone(indices: seq<int>, materials: seq<int>)
    ensures Reads(indices, 0) && Cursor(indices, 0) == 0 && Counted(indices, materials, 0) == []
  {
  }

  lemma ReadsNext(indices: seq<int>, materials: seq<int>, k: nat)
    requires Reads(indices, k + 1) && k < |materials|
    ensures Reads(indices, k) && Closes(indices, Cursor(indices, k) + 2) && Cursor(indices, k + 1) == PolyEnd(indices, Cursor(indices, k) + 2) + 1
    ensures var i := Cursor(indices, k);
            Counted(indices, materials, k + 1) == Counted(indices, materials, k) + Repeat(materials[k], PolyEnd(indices, i + 2) - i - 1)
  {
  }

  lemma {:induction false} ReadsLess(indices: seq<int>, j: nat, k: nat)
    requires Reads(indices, k) && j <= k
    ensures Reads(indices, j)
  {
    if j < k { ReadsLess(indices, j, k - 1); }
  }

  /** Every polygon up to `n` has at least three corners. */
  ghost predicate Large(indices: seq<int>, n: nat) {
    forall i :: 0 <= i < n && i < |indices| && indices[i] < 0 ==> InPoly(indices, i) >= 2
  }

  /** The materials that are pushed are, triangle for triangle, those of the polygons, exactly when all polygons passed have at least
      three corners; otherwise they are too many. */
  lemma {:induction false} MaterialsIff(indices: seq<int>, materials: seq<int>, k: nat)
    requires Reads(indices, k) && k <= |materials|
    ensures var n := Cursor(indices, k);
            && |Counted(indices, materials, k)| >= |Fan(indices, n)| && k <= PolyOf(indices, n)
            && (Large(indices, n) <==> |Counted(indices, materials, k)| == |Fan(indices, n)|)
            && (Large(indices, n) <==> PolyOf(indices, n) == k)
            && (Large(indices, n) ==> Counted(indices, materials, k) == FanMaterials(indices, materials, n))
  {
    hide Fan, InPoly, PolyOf, FanMaterials, Large, PolyEnd;
    if k == 0 {
      NothingRead(indices, materials);
    } else {
      MaterialsIff(indices, materials, k - 1);
      var i := Cursor(indices, k - 1);
      var e := PolyEnd(indices, i + 2);
      CountsPoly(indices, i);
      LargeNext(indices, i, PolyEnd(indices, i), e);
      if e == PolyEnd(indices, i) && Large(indices, i) { PolyMaterials(indices, materials, i, e - i); }
    }
  }

  lemma NothingRead(indices: seq<int>, materials: seq<int>)
    ensures Large(indices, 0) && Fan(indices, 0) == [] && FanMaterials(indices, materials, 0) == [] && PolyOf(indices, 0) == 0
  {
  }

  lemma LargeNext(indices: seq<int>, i: nat, f: nat, e: nat)
    requires i <= f <= e < |indices| && InPoly(indices, i) == 0 && i + 2 <= e && (e == f <==> f >= i + 2)
    requires indices[f] < 0 && indices[e] < 0 && forall j :: i <= j < f ==> indices[j] >= 0
    ensures Large(indices, e + 1) <==> Large(indices, i) && e == f
    ensures PolyOf(indices, e + 1) >= PolyOf(indices, i) + 1 && (PolyOf(indices, e + 1) == PolyOf(indices, i) + 1 <==> e == f)
  {
    hide PolyOf;
    PolyLength(indices, i, f);
    PolyStep(indices, f);
    if e > f { PolysCounted(indices, i, f, e); }
    if Large(indices, i) && e == f {
      forall j | 0 <= j < e + 1 && indices[j] < 0 ensures InPoly(indices, j) >= 2 { if j >= i { assert j == f; } }
    }
  }

  lemma PolyStep(indices: seq<int>, f: nat)
    requires f < |indices| && indices[f] < 0
    ensures PolyOf(indices, f + 1) == PolyOf(indices, f) + 1
  {
  }

  /** With a material for every polygon the counting stays inside the list exactly when every polygon has at least three corners. */
  lemma ReadsIff(indices: seq<int>, materials: seq<int>)
    requires (indices == [] || indices[|indices| - 1] < 0) && |materials| == PolyOf(indices, |indices|)
    ensures Reads(indices, |materials|) <==> Proper(indices)
    ensures Proper(indices) ==> Cursor(indices, |materials|) == |indices|
  {
    hide InPoly, PolyOf, Reads, Cursor;
    if Proper(indices) {
      ReadsAll(indices, materials, |materials|);
      AtLast(indices, Cursor(indices, |materials|));
    } else if Reads(indices, |materials|) {
      ReadsProper(indices, materials);
    }
  }

  lemma ReadsProper(indices: seq<int>, materials: seq<int>)
    requires (indices == [] || indices[|indices| - 1] < 0) && |materials| == PolyOf(indices, |indices|) && Reads(indices, |materials|)
    ensures Proper(indices)
  {
    hide InPoly, PolyOf, Large, Fan, Reads, Cursor, Counted, FanMaterials, Proper;
    MaterialsIff(indices, materials, |materials|);
    AtLast(indices, Cursor(indices, |materials|));
    LargeAll(indices);
  }

  lemma AtLast(indices: seq<int>, n: nat)
    requires n <= |indices| && (indices == [] || indices[|indices| - 1] < 0) && PolyOf(indices, n) >= PolyOf(indices, |indices|)
    ensures n == |indices|
  {
    hide PolyOf;
    if n < |indices| { PolyGrows(indices, n, |indices|); }
  }

  lemma LargeAll(indices: seq<int>)
    requires indices == [] || indices[|indices| - 1] < 0
    ensures Large(indices, |indices|) <==> Proper(indices)
  {
    hide InPoly;
  }

  lemma {:induction false} ReadsAll(indices: seq<int>, materials: seq<int>, k: nat)
    requires Proper(indices) && k <= PolyOf(indices, |indices|) && k <= |materials|
    ensures Reads(indices, k) && PolyOf(indices, Cursor(indices, k)) == k
  {
    hide InPoly, PolyOf, Fan, FanMaterials, Proper, Closes, PolyEnd;
    if k == 0 {
      NothingRead(indices, materials);
    } else {
      ReadsAll(indices, materials, k - 1);
      NextPoly(indices, Cursor(indices, k - 1));
    }
  }

  lemma NextPoly(indices: seq<int>, i: nat)
    requires Proper(indices) && i <= |indices| && PolyOf(indices, i) < PolyOf(indices, |indices|) && InPoly(indices, i) == 0
    ensures Closes(indices, i + 2) && PolyOf(indices, PolyEnd(indices, i + 2) + 1) == PolyOf(indices, i) + 1
  {
    hide InPoly, PolyOf, Fan;
    assert i < |indices| && indices[|indices| - 1] < 0;
    var f := PolyEnd(indices, i);
    PolyLength(indices, i, f);
    CountsPoly(indices, i);
    LargeNext(indices, i, f, f);
  }

  lemma {:induction false} PolyGrows(indices: seq<int>, i: nat, n: nat)
    requires i < n <= |indices|
    ensures PolyOf(indices, i) <= PolyOf(indices, n) && (indices[n - 1] < 0 ==> PolyOf(indices, i) < PolyOf(indices, n))
  {
    if i < n - 1 { PolyGrows(indices, i, n - 1); }
  }
}
