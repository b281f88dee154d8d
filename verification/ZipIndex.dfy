/** The sorted index of a ZIP archive: a heap sort in place, a binary search, and the linear scan that they have to agree with. */
module ZipIndex {
  import opened Bits
  import opened ZipNames

  /** Every file number occurs in the index once. */
  ghost predicate Permuted(s: seq<nat>, t: seq<nat>) {
    multiset(s) == multiset(t)
  }

  ghost predicate InRange(dir: Directory, s: seq<nat>) {
    forall i :: 0 <= i < |s| ==> s[i] < |dir.offsets|
  }

  /** File `x` may stand before file `y`. */
  ghost predicate Le(dir: Directory, x: nat, y: nat) {
    dir.Valid() && x < |dir.offsets| && y < |dir.offsets| && !Less(dir.NameOf(y), dir.NameOf(x))
  }

  lemma LeTrans(dir: Directory, x: nat, y: nat, z: nat)
    requires Le(dir, x, y) && Le(dir, y, z)
    ensures Le(dir, x, z)
  {
    LessTransitive(dir.NameOf(x), dir.NameOf(y), dir.NameOf(z));
  }

  lemma LeTotal(dir: Directory, x: nat, y: nat)
    requires dir.Valid() && x < |dir.offsets| && y < |dir.offsets|
    ensures Le(dir, x, y) || Le(dir, y, x)
    ensures Less(dir.NameOf(x), dir.NameOf(y)) ==> Le(dir, x, y)
  {
    LessTotal(dir.NameOf(x), dir.NameOf(y));
  }

  function Parent(i: nat): nat
    requires i > 0
  {
    (i - 1) / 2
  }

  lemma ParentIs(root: nat, i: nat)
    requires i > 0
    ensures Parent(i) < i && (Parent(i) == root <==> i == 2 * root + 1 || i == 2 * root + 2)
  {
  }

  /** Entries from `lo` up to `n` are not above their parents. */
  ghost predicate Heap(dir: Directory, s: seq<nat>, lo: nat, n: nat) {
    n <= |s| && forall i :: 0 < i < n && lo <= Parent(i) ==> Le(dir, s[i], s[Parent(i)])
  }

  /** The same, but for the children of `root`; they are not above the parent of `root`. */
  ghost predicate HeapBut(dir: Directory, s: seq<nat>, lo: nat, n: nat, root: nat) {
    && n <= |s| && lo <= root
    && (forall i :: 0 < i < n && lo <= Parent(i) && Parent(i) != root ==> Le(dir, s[i], s[Parent(i)]))
    && (forall i :: 0 < i < n && Parent(i) == root && root > 0 && lo <= Parent(root) ==> Le(dir, s[i], s[Parent(root)]))
  }

  function Swapped(s: seq<nat>, i: nat, k: nat): (t: seq<nat>)
    requires i < |s| && k < |s|
    ensures |t| == |s|
  {
    s[i := s[k]][k := s[i]]
  }

  lemma SwappedPermuted(s: seq<nat>, i: nat, k: nat)
    requires i < |s| && k < |s|
    ensures Permuted(Swapped(s, i, k), s)
  {
  }

  /** The root changes places with its greater child. */
  lemma Sifted(dir: Directory, s: seq<nat>, lo: nat, n: nat, root: nat, child: nat)
    requires HeapBut(dir, s, lo, n, root) && 0 < child < n && Parent(child) == root && Le(dir, s[root], s[child])
    requires forall i :: 0 < i < n && Parent(i) == root ==> Le(dir, s[i], s[child])
    ensures root < child < |s| && HeapBut(dir, Swapped(s, root, child), lo, n, child)
  {
    hide Le;
    ParentIs(root, child);
    var t := Swapped(s, root, child);
    forall i | 0 < i < n && lo <= Parent(i) && Parent(i) != child ensures Le(dir, t[i], t[Parent(i)]) {
      ParentIs(root, i);
      ParentIs(child, i);
    }
    forall i | 0 < i < n && Parent(i) == child ensures Le(dir, t[i], t[Parent(child)]) {
      ParentIs(root, i);
      ParentIs(child, i);
    }
  }

  /** The root stays. */
  lemma Settled(dir: Directory, s: seq<nat>, lo: nat, n: nat, root: nat)
    requires HeapBut(dir, s, lo, n, root) && forall i :: 0 < i < n && Parent(i) == root ==> Le(dir, s[i], s[root])
    ensures Heap(dir, s, lo, n)
  {
    hide Le;
  }

  lemma HeapStart(dir: Directory, s: seq<nat>, lo: nat, n: nat)
    requires n <= |s| && 2 * lo + 1 >= n
    ensures Heap(dir, s, lo, n)
  {
  }

  lemma HeapLower(dir: Directory, s: seq<nat>, lo: nat, n: nat)
    requires Heap(dir, s, lo + 1, n)
    ensures HeapBut(dir, s, lo, n, lo)
  {
    hide Le;
    if lo > 0 { ParentIs(lo, lo); }
  }

  /** The root of a heap is not below any of its entries. */
  lemma {:induction false} HeapTop(dir: Directory, s: seq<nat>, n: nat, i: nat)
    requires Heap(dir, s, 0, n) && i < n && InRange(dir, s) && dir.Valid()
    ensures Le(dir, s[i], s[0])
  {
    hide Less;
    if i == 0 {
      LeTotal(dir, s[0], s[0]);
    } else {
      ParentIs(0, i);
      HeapTop(dir, s, n, Parent(i));
      LeTrans(dir, s[i], s[Parent(i)], s[0]);
    }
  }

  /** Entry `root` goes down until the entries from `lo` to `n` are a heap. */
  method SiftDown(dir: Directory, a: array<nat>, lo: nat, n: nat)
    requires dir.Valid() && InRange(dir, a[..]) && lo < n && HeapBut(dir, a[..], lo, n, lo)
    modifies a
    ensures Heap(dir, a[..], lo, n) && Permuted(a[..], old(a[..])) && InRange(dir, a[..])
    ensures forall i :: n <= i < a.Length ==> a[i] == old(a[i])
  {
    hide Le, Less, Directory.Valid, Permuted, HeapBut;
    var root := lo;
    PermutedSelf(a[..]);
    Within(dir, a[..], lo, n, lo);
    while true
      invariant root < n <= a.Length && HeapBut(dir, a[..], lo, n, root) && Permuted(a[..], old(a[..])) && InRange(dir, a[..])
      invariant forall i :: n <= i < a.Length ==> a[i] == old(a[i])
      decreases n - root
    {
      ghost var s := a[..];
      if 2 * root + 1 >= n {
        NoChild(dir, s, lo, n, root);
        return;
      }
      var child := GreaterChild(dir, a, n, root);
      var less := dir.FilenameLess(a[root], a[child]);
      LeIs(dir, s[root], s[child]);
      if !less {
        Stays(dir, s, lo, n, root, child);
        return;
      }
      Sifted(dir, s, lo, n, root, child);
      SwappedPermuted(s, root, child);
      a[root], a[child] := a[child], a[root];
      assert a[..] == Swapped(s, root, child);
      PermutedTrans(a[..], s, old(a[..]));
      root := child;
    }
  }

  lemma Within(dir: Directory, s: seq<nat>, lo: nat, n: nat, root: nat)
    requires HeapBut(dir, s, lo, n, root)
    ensures n <= |s|
  {
  }

  lemma NoChild(dir: Directory, s: seq<nat>, lo: nat, n: nat, root: nat)
    requires HeapBut(dir, s, lo, n, root) && 2 * root + 1 >= n
    ensures Heap(dir, s, lo, n)
  {
    hide Le;
    forall i | 0 < i < n ensures Parent(i) != root { ParentIs(root, i); }
  }

  /** What a comparison says about the order. */
  lemma LeIs(dir: Directory, x: nat, y: nat)
    requires dir.Valid() && x < |dir.offsets| && y < |dir.offsets|
    ensures if Less(dir.NameOf(x), dir.NameOf(y)) then Le(dir, x, y) else Le(dir, y, x)
  {
    LeTotal(dir, x, y);
  }

  /** The child that may have to come up. */
  method GreaterChild(dir: Directory, a: array<nat>, n: nat, root: nat) returns (child: nat)
    requires dir.Valid() && InRange(dir, a[..]) && 2 * root + 1 < n <= a.Length
    ensures root < child < n && Parent(child) == root && forall i :: 0 < i < n && Parent(i) == root ==> Le(dir, a[i], a[child])
  {
    hide Le, Less, Directory.Valid;
    child := 2 * root + 1;
    LeTotal(dir, a[child], a[child]);
    if child + 1 < n {
      var less := dir.FilenameLess(a[child], a[child + 1]);
      LeIs(dir, a[child], a[child + 1]);
      LeTotal(dir, a[child + 1], a[child + 1]);
      if less { child := child + 1; }
    }
    forall i | 0 < i < n && Parent(i) == root ensures Le(dir, a[i], a[child]) { ParentIs(root, i); }
  }

  lemma Stays(dir: Directory, s: seq<nat>, lo: nat, n: nat, root: nat, child: nat)
    requires HeapBut(dir, s, lo, n, root) && child < n && root < n && Le(dir, s[child], s[root])
    requires forall i :: 0 < i < n && Parent(i) == root ==> Le(dir, s[i], s[child])
    ensures Heap(dir, s, lo, n)
  {
    forall i | 0 < i < n && Parent(i) == root ensures Le(dir, s[i], s[root]) { LeTrans(dir, s[i], s[child], s[root]); }
    Settled(dir, s, lo, n, root);
  }

  lemma PermutedSelf(s: seq<nat>)
    ensures Permuted(s, s)
  {
  }

  lemma PermutedTrans(s: seq<nat>, t: seq<nat>, u: seq<nat>)
    requires Permuted(s, t) && Permuted(t, u)
    ensures Permuted(s, u)
  {
  }

  /** The entries from `k` on are in order, and none before `k` is above them. */
  ghost predicate SortedFrom(dir: Directory, s: seq<nat>, k: nat) {
    forall i, j :: 0 <= i <= j < |s| && k <= j ==> Le(dir, s[i], s[j])
  }

  /** The root of the heap goes to its end. */
  lemma Extracted(dir: Directory, s: seq<nat>, end: nat)
    requires dir.Valid() && InRange(dir, s) && 0 < end < |s| && Heap(dir, s, 0, end + 1) && SortedFrom(dir, s, end + 1)
    ensures HeapBut(dir, Swapped(s, end, 0), 0, end, 0) && SortedFrom(dir, Swapped(s, end, 0), end)
  {
    hide Le;
    var t := Swapped(s, end, 0);
    forall i | 0 < i < end && Parent(i) != 0 ensures Le(dir, t[i], t[Parent(i)]) { ParentIs(0, i); }
    forall i, j | 0 <= i <= j < |t| && end <= j ensures Le(dir, t[i], t[j]) {
      if j == end {
        HeapTop(dir, s, end + 1, if i == 0 then end else if i == end then 0 else i);
      }
    }
  }

  /** Sifting in the heap leaves the sorted part sorted. */
  lemma SortedKept(dir: Directory, s: seq<nat>, t: seq<nat>, end: nat)
    requires dir.Valid() && |s| == |t| && end <= |s| && SortedFrom(dir, s, end) && Permuted(t, s) && s[end..] == t[end..]
    ensures SortedFrom(dir, t, end)
  {
    hide Le;
    PrefixPermuted(s, t, end);
    forall i, j | 0 <= i <= j < |t| && end <= j ensures Le(dir, t[i], t[j]) {
      assert t[j] == s[end..][j - end];
      if i < end {
        assert t[i] in multiset(t[..end]);
        assert t[i] in s[..end];
        var k :| 0 <= k < end && s[k] == t[i];
      } else {
        assert t[i] == s[end..][i - end];
      }
    }
  }

  lemma PrefixPermuted(s: seq<nat>, t: seq<nat>, end: nat)
    requires |s| == |t| && end <= |s| && Permuted(t, s) && s[end..] == t[end..]
    ensures multiset(s[..end]) == multiset(t[..end])
  {
    assert s == s[..end] + s[end..] && t == t[..end] + t[end..];
    var x, y, z := multiset(s[..end]), multiset(t[..end]), multiset(s[end..]);
    assert multiset(s) == x + z && multiset(t) == y + z;
    assert x == (x + z) - z && y == (y + z) - z;
  }

  lemma PermutedInRange(dir: Directory, s: seq<nat>, t: seq<nat>)
    requires Permuted(t, s) && InRange(dir, s)
    ensures InRange(dir, t) && |s| == |t|
  {
    assert |multiset(s)| == |multiset(t)|;
    forall i | 0 <= i < |t| ensures t[i] < |dir.offsets| {
      assert t[i] in multiset(t);
      assert t[i] in s;
    }
  }

  /** The index: every file number once, by folded name. */
  ghost predicate Index(dir: Directory, s: seq<nat>, all: seq<nat>) {
    Permuted(s, all) && SortedFrom(dir, s, 0)
  }

  /** `mz_zip_reader_sort_central_dir_offsets_by_filename` */
  method SortByFilename(dir: Directory, a: array<nat>)
    requires dir.Valid() && InRange(dir, a[..])
    modifies a
    ensures Index(dir, a[..], old(a[..]))
  {
    hide Le, Less, Directory.Valid, Permuted, Heap, HeapBut, SortedFrom;
    PermutedSelf(a[..]);
    var size := a.Length;
    if size <= 1 {
      OneSorted(dir, a[..]);
      return;
    }
    MakeHeap(dir, a);
    var end: nat := size - 1;
    NoneSorted(dir, a[..]);
    while end > 0
      invariant 0 <= end < size && Heap(dir, a[..], 0, end + 1) && SortedFrom(dir, a[..], end + 1) && Permuted(a[..], old(a[..])) && InRange(dir, a[..])
    {
      ghost var s := a[..];
      Extract(dir, a, end);
      PermutedTrans(a[..], s, old(a[..]));
      end := end - 1;
    }
    LastSorted(dir, a[..]);
  }

  /** The first loop: from the last parent down to the root. */
  method MakeHeap(dir: Directory, a: array<nat>)
    requires dir.Valid() && InRange(dir, a[..]) && a.Length > 1
    modifies a
    ensures Heap(dir, a[..], 0, a.Length) && Permuted(a[..], old(a[..])) && InRange(dir, a[..])
  {
    hide Le, Less, Directory.Valid, Permuted, Heap, HeapBut;
    PermutedSelf(a[..]);
    var start: nat := (a.Length - 2) / 2;
    HeapStart(dir, a[..], start + 1, a.Length);
    while true
      invariant start < a.Length && Heap(dir, a[..], start + 1, a.Length) && Permuted(a[..], old(a[..])) && InRange(dir, a[..])
      decreases start
    {
      ghost var s := a[..];
      HeapLower(dir, a[..], start, a.Length);
      SiftDown(dir, a, start, a.Length);
      PermutedTrans(a[..], s, old(a[..]));
      if start == 0 { break; }
      start := start - 1;
    }
  }

  /** A pass of the second loop. */
  method Extract(dir: Directory, a: array<nat>, end: nat)
    requires dir.Valid() && InRange(dir, a[..]) && 0 < end < a.Length && Heap(dir, a[..], 0, end + 1) && SortedFrom(dir, a[..], end + 1)
    modifies a
    ensures Heap(dir, a[..], 0, end) && SortedFrom(dir, a[..], end) && Permuted(a[..], old(a[..])) && InRange(dir, a[..])
  {
    hide Le, Less, Directory.Valid, Permuted, Heap, HeapBut, SortedFrom;
    ghost var s := a[..];
    Extracted(dir, s, end);
    SwappedPermuted(s, end, 0);
    a[end], a[0] := a[0], a[end];
    ghost var t := a[..];
    assert t == Swapped(s, end, 0);
    SiftDown(dir, a, 0, end);
    assert t[end..] == a[..][end..];
    SortedKept(dir, t, a[..], end);
    PermutedTrans(a[..], t, s);
  }

  lemma OneSorted(dir: Directory, s: seq<nat>)
    requires |s| <= 1 && InRange(dir, s) && dir.Valid()
    ensures SortedFrom(dir, s, 0)
  {
    if s != [] { LeTotal(dir, s[0], s[0]); }
  }

  lemma NoneSorted(dir: Directory, s: seq<nat>)
    ensures SortedFrom(dir, s, |s|)
  {
  }

  lemma LastSorted(dir: Directory, s: seq<nat>)
    requires SortedFrom(dir, s, 1) && InRange(dir, s) && dir.Valid()
    ensures SortedFrom(dir, s, 0)
  {
    if s != [] { LeTotal(dir, s[0], s[0]); }
  }

  // ----- looking a name up

  /** Some file has this name, but for case. */
  ghost predicate Has(dir: Directory, name: Name) {
    dir.Valid() && exists i :: 0 <= i < |dir.offsets| && Same(dir.NameOf(i), name)
  }

  function Identity(n: nat): (s: seq<nat>)
    ensures |s| == n && forall i :: 0 <= i < n ==> s[i] == i
  {
    seq(n, i requires 0 <= i => i)
  }

  datatype Found = Found(index: nat) | NotFound | InvalidParameter

  /** `mz_zip_locate_file_binary_search` */
  method BinarySearch(dir: Directory, a: array<nat>, name: Name) returns (r: Found)
    requires dir.Valid() && a.Length == |dir.offsets| && Index(dir, a[..], Identity(|dir.offsets|))
    ensures !r.InvalidParameter? && (r.Found? <==> Has(dir, Sought(name)))
    ensures r.Found? ==> r.index < |dir.offsets| && Same(dir.NameOf(r.index), Sought(name))
  {
    hide Less, Directory.Valid, Sought, Same, Le, Permuted;
    PermutedInRange(dir, Identity(|dir.offsets|), a[..]);
    var size := a.Length;
    if size > 0 {
      var l, h := 0, size - 1;
      while l <= h
        invariant 0 <= l <= size && -1 <= h < size
        invariant forall i :: 0 <= i < size && (i < l || i > h) ==> !Same(dir.NameOf(a[i]), Sought(name))
        decreases h - l + 1
      {
        var m := l + (h - l) / 2;
        var fileIndex := a[m];
        var comp := dir.FilenameCompare(fileIndex, name);
        if comp == 0 {
          return Found(fileIndex);
        } else if comp < 0 {
          forall i | 0 <= i <= m ensures !Same(dir.NameOf(a[i]), Sought(name)) { Below(dir, a[i], a[m], Sought(name)); }
          l := m + 1;
        } else {
          forall i | m <= i < size ensures !Same(dir.NameOf(a[i]), Sought(name)) { Beyond(dir, a[m], a[i], Sought(name)); }
          h := m - 1;
        }
      }
    }
    forall i | 0 <= i < |dir.offsets| ensures !Same(dir.NameOf(i), Sought(name)) { Somewhere(a[..], |dir.offsets|, i); }
    return NotFound;
  }

  /** No file up to one that comes before the name has the name. */
  lemma Below(dir: Directory, x: nat, y: nat, name: Name)
    requires Le(dir, x, y) && !Same(dir.NameOf(y), name) && (|name| < 65536 ==> Less(dir.NameOf(y), name))
    ensures !Same(dir.NameOf(x), name)
  {
    LessTransitive(name, dir.NameOf(x), dir.NameOf(y));
    LessTransitive(dir.NameOf(x), dir.NameOf(y), name);
    LessTotal(dir.NameOf(x), name);
  }

  lemma Beyond(dir: Directory, x: nat, y: nat, name: Name)
    requires Le(dir, x, y) && !Same(dir.NameOf(x), name) && (|name| < 65536 ==> !Less(dir.NameOf(x), name))
    ensures !Same(dir.NameOf(y), name)
  {
    LessTotal(dir.NameOf(x), name);
    LessTransitive(name, dir.NameOf(x), dir.NameOf(y));
    LessTotal(dir.NameOf(y), name);
  }

  lemma Somewhere(s: seq<nat>, n: nat, i: nat)
    requires Permuted(s, Identity(n)) && i < n
    ensures exists k :: 0 <= k < |s| && s[k] == i
  {
    assert Identity(n)[i] in multiset(Identity(n));
    assert i in multiset(s);
  }

  /** The scan of `mz_zip_reader_locate_file_v2` without flags and without a comment. */
  method Scan(dir: Directory, name: Name) returns (r: Found)
    requires dir.Valid()
    ensures r.InvalidParameter? <==> |name| > 65535
    ensures |name| <= 65535 ==> (r.Found? <==> Has(dir, name))
    ensures r.Found? ==> r.index < |dir.offsets| && Same(dir.NameOf(r.index), name) && forall i :: 0 <= i < r.index ==> !Same(dir.NameOf(i), name)
  {
    hide Directory.Valid;
    if |name| > 65535 { return InvalidParameter; }
    for fileIndex := 0 to |dir.offsets|
      invariant forall i :: 0 <= i < fileIndex ==> !Same(dir.NameOf(i), name)
    {
      dir.Header(fileIndex);
      var filenameLen := dir.NameLen(fileIndex);
      if filenameLen == |name| {
        var equal := StringEqual(dir, fileIndex, name);
        if equal { return Found(fileIndex); }
      }
    }
    return NotFound;
  }

  /** `mz_zip_string_equal` */
  method StringEqual(dir: Directory, i: nat, name: Name) returns (equal: bool)
    requires dir.Valid() && i < |dir.offsets| && dir.NameLen(i) == |name|
    ensures equal == Same(dir.NameOf(i), name)
  {
    hide Directory.Valid, Directory.NameOf;
    dir.Header(i);
    for k := 0 to |name|
      invariant forall j :: 0 <= j < k ==> Fold(dir.NameOf(i)[j]) == Fold(name[j])
    {
      if Fold(dir.bytes[dir.offsets[i] + 46 + k]) != Fold(name[k]) { return false; }
    }
    return true;
  }

  // ----- when the two agree

  /** The binary search succeeds exactly when the scan does, unless the name is so long that its length does not fit 32 bits and
      what is left of it is the name of a file. */
  lemma Agree(dir: Directory, name: Name)
    requires dir.Valid()
    ensures (Has(dir, Sought(name)) <==> |name| <= 65535 && Has(dir, name)) <==> |name| < 0x1_0000_0000 || !Has(dir, Sought(name))
  {
    if |name| < 0x1_0000_0000 { Whole(name); }
    if |name| > 65535 && |name| < 0x1_0000_0000 { TooLong(dir, name); }
  }

  lemma Whole(name: Name)
    requires |name| < 0x1_0000_0000
    ensures Sought(name) == name
  {
  }

  lemma TooLong(dir: Directory, name: Name)
    requires dir.Valid() && |name| > 65535
    ensures !Has(dir, name)
  {
  }

  /** A name of 2^32 characters is found as the empty name. */
  lemma Disagree()
    ensures exists dir: Directory, name: Name :: dir.Valid() && Has(dir, Sought(name)) && !(|name| <= 65535)
  {
    var dir := Directory(seq(46, _ => 0), [0]);
    var name: Name := seq(0x1_0000_0000, _ => 97);
    SoughtIs(name);
    assert dir.NameLen(0) == 0;
    assert Same(dir.NameOf(0), Sought(name));
    assert dir.Valid() && Has(dir, Sought(name)) && !(|name| <= 65535);
  }

  /** If no two files have the same name, the search and the scan find the same file. */
  lemma SameFile(dir: Directory, name: Name, x: nat, y: nat)
    requires dir.Valid() && x < |dir.offsets| && y < |dir.offsets| && Same(dir.NameOf(x), name) && Same(dir.NameOf(y), name)
    requires forall i, j :: 0 <= i < j < |dir.offsets| ==> !Same(dir.NameOf(i), dir.NameOf(j))
    ensures x == y
  {
    if x < y { assert Same(dir.NameOf(x), dir.NameOf(y)); }
    if y < x { assert Same(dir.NameOf(y), dir.NameOf(x)); }
  }
}
