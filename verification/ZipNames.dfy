/** The order of file names in a ZIP archive's index: bytes with ASCII letters folded to lower case, shorter names first. */
module ZipNames {
  import opened Bits

  type Name = seq<u8>

  /** `MZ_TOLOWER` */
  function Fold(c: u8): (r: u8) {
    if 65 <= c <= 90 then c + 32 else c
  }

  /** Equal but for the case of ASCII letters. */
  predicate Same(a: Name, b: Name) {
    |a| == |b| && forall i :: 0 <= i < |a| ==> Fold(a[i]) == Fold(b[i])
  }

  function Less(a: Name, b: Name): bool {
    if b == [] then false
    else if a == [] then true
    else if Fold(a[0]) != Fold(b[0]) then Fold(a[0]) < Fold(b[0])
    else Less(a[1..], b[1..])
  }

  lemma {:induction false} LessIrreflexive(a: Name, b: Name)
    requires Same(a, b)
    ensures !Less(a, b)
  {
    if a != [] { LessIrreflexive(a[1..], b[1..]); }
  }

  lemma {:induction false} LessTransitive(a: Name, b: Name, c: Name)
    ensures Less(a, b) && !Less(c, b) ==> Less(a, c)
    ensures !Less(b, a) && !Less(c, b) ==> !Less(c, a)
  {
    if a != [] && b != [] && c != [] { LessTransitive(a[1..], b[1..], c[1..]); }
  }

  lemma {:induction false} LessTotal(a: Name, b: Name)
    ensures Less(a, b) ==> !Less(b, a)
    ensures !Less(a, b) && !Less(b, a) <==> Same(a, b)
  {
    if a != [] && b != [] {
      LessTotal(a[1..], b[1..]);
      if Fold(a[0]) == Fold(b[0]) && Same(a[1..], b[1..]) {
        forall i | 0 <= i < |a| ensures Fold(a[i]) == Fold(b[i]) { if i > 0 { assert a[i] == a[1..][i - 1] && b[i] == b[1..][i - 1]; } }
      }
      if Same(a, b) { forall i | 0 <= i < |a| - 1 ensures Fold(a[1..][i]) == Fold(b[1..][i]) {} }
    }
  }

  /** Equal beginnings do not matter. */
  lemma {:induction false} LessAt(a: Name, b: Name, k: nat)
    requires k <= |a| && k <= |b| && forall i :: 0 <= i < k ==> Fold(a[i]) == Fold(b[i])
    ensures Less(a, b) == Less(a[k..], b[k..])
  {
    if k > 0 {
      LessAt(a, b, k - 1);
      assert a[k - 1..][1..] == a[k..] && b[k - 1..][1..] == b[k..];
    } else {
      assert a[0..] == a && b[0..] == b;
    }
  }

  /** An archive's central directory, and where its headers begin. */
  datatype Directory = Directory(bytes: seq<u8>, offsets: seq<nat>) {
    /** `MZ_READ_LE16(p + MZ_ZIP_CDH_FILENAME_LEN_OFS)` */
    function NameLen(i: nat): (n: nat)
      requires i < |offsets| && offsets[i] + 46 <= |bytes|
      ensures n < 65536
    {
      var lo: nat, hi: nat := bytes[offsets[i] + 28], bytes[offsets[i] + 29];
      lo + 256 * hi
    }

    /** Every header is there, with its name. */
    ghost predicate Valid() {
      forall i :: 0 <= i < |offsets| ==> offsets[i] + 46 <= |bytes| && offsets[i] + 46 + NameLen(i) <= |bytes|
    }

    ghost function NameOf(i: nat): (s: Name)
      requires Valid() && i < |offsets|
      ensures |s| == NameLen(i) < 65536
    {
      bytes[offsets[i] + 46..offsets[i] + 46 + NameLen(i)]
    }

    /** `mz_zip_reader_filename_less` */
    method FilenameLess(l: nat, r: nat) returns (less: bool)
      requires Valid() && l < |offsets| && r < |offsets|
      ensures less == Less(NameOf(l), NameOf(r))
    {
      hide Less, Valid;
      ghost var a, b := NameOf(l), NameOf(r);
      Header(l);
      Header(r);
      var lLen, rLen, pL, pR := NameLen(l), NameLen(r), offsets[l] + 46, offsets[r] + 46;
      var end := if lLen < rLen then lLen else rLen;
      var k := 0;
      while k < end
        invariant k <= end && forall i :: 0 <= i < k ==> Fold(a[i]) == Fold(b[i])
      {
        var x, y := Fold(bytes[pL + k]), Fold(bytes[pR + k]);
        if x != y {
          LessAt(a, b, k);
          LessHead(a[k..], b[k..]);
          return x < y;
        }
        k := k + 1;
      }
      LessAt(a, b, k);
      LessHead(a[k..], b[k..]);
      return lLen < rLen;
    }

    lemma Header(i: nat)
      requires Valid() && i < |offsets|
      ensures offsets[i] + 46 + NameLen(i) <= |bytes| && forall k :: 0 <= k < NameLen(i) ==> NameOf(i)[k] == bytes[offsets[i] + 46 + k]
    {
    }

    /** `mz_zip_filename_compare`; the length of the name sought is cut to 32 bits, and the difference of the lengths is taken as a
        32-bit number with a sign. */
    method FilenameCompare(l: nat, name: Name) returns (comp: int)
      requires Valid() && l < |offsets|
      ensures comp == 0 <==> Same(NameOf(l), Sought(name))
      ensures |Sought(name)| < 65536 ==> (comp < 0 <==> Less(NameOf(l), Sought(name)))
    {
      hide Less, Valid, Same, Sought;
      ghost var a, b := NameOf(l), Sought(name);
      SoughtIs(name);
      Header(l);
      var lLen, rLen, pL := NameLen(l), |name| % 0x1_0000_0000, offsets[l] + 46;
      var end := if lLen < rLen then lLen else rLen;
      var k := 0;
      while k < end
        invariant k <= end && forall i :: 0 <= i < k ==> Fold(a[i]) == Fold(b[i])
      {
        var x, y := Fold(bytes[pL + k]), Fold(name[k]);
        if x != y {
          LessAt(a, b, k);
          LessHead(a[k..], b[k..]);
          Differ(a, b, k);
          return x as int - y as int;
        }
        k := k + 1;
      }
      LessAt(a, b, k);
      LessHead(a[k..], b[k..]);
      SameEnd(a, b, k);
      comp := Signed((lLen - rLen) % 0x1_0000_0000);
    }
  }

  /** `(int)` of a 32-bit number without a sign. */
  function Signed(x: nat): int {
    if x < 0x8000_0000 then x else x - 0x1_0000_0000
  }

  /** What the search looks for: as much of the name as its length in 32 bits says. */
  function Sought(name: Name): Name {
    name[..|name| % 0x1_0000_0000]
  }

  lemma SoughtIs(name: Name)
    ensures |Sought(name)| == |name| % 0x1_0000_0000 <= |name| && forall i :: 0 <= i < |Sought(name)| ==> Sought(name)[i] == name[i]
  {
  }

  lemma LessHead(a: Name, b: Name)
    ensures b == [] ==> !Less(a, b)
    ensures a == [] && b != [] ==> Less(a, b)
    ensures a != [] && b != [] && Fold(a[0]) != Fold(b[0]) ==> (Less(a, b) <==> Fold(a[0]) < Fold(b[0]))
  {
  }

  lemma Differ(a: Name, b: Name, k: nat)
    requires k < |a| && k < |b| && Fold(a[k]) != Fold(b[k])
    ensures !Same(a, b)
  {
  }

  lemma SameEnd(a: Name, b: Name, k: nat)
    requires k <= |a| && k <= |b| && (k == |a| || k == |b|) && forall i :: 0 <= i < k ==> Fold(a[i]) == Fold(b[i])
    ensures Same(a, b) <==> |a| == |b|
  {
  }
}
