/** Loading one series of DICOM images from a directory (`load_dicom_series` in `dicom2img.py`):
    the names starting with "IM" are kept from the directory listing, sorted in place in
    Python's string order, joined onto the directory, read, and the datasets carrying pixel data
    are kept in that order. Listing the directory and reading a file are parameters. */
module SeriesLoader {
  import opened Sequences
  import PosixPath

  /** `f.startswith('IM')`. */
  predicate StartsWithIM(f: string)
  {
    |f| >= 2 && f[0] == 'I' && f[1] == 'M'
  }

  /** Python's `<=` on `str`: code point by code point, a proper prefix coming first. */
  predicate LexLe(a: string, b: string)
    decreases |a|
  {
    a == [] || (b != [] && (a[0] < b[0] || (a[0] == b[0] && LexLe(a[1..], b[1..]))))
  }

  lemma {:induction false} LexLeTotal(a: string, b: string)
    ensures LexLe(a, b) || LexLe(b, a)
    decreases |a|
  {
    if a != [] && b != [] && a[0] == b[0] {
      LexLeTotal(a[1..], b[1..]);
    }
  }

  lemma {:induction false} LexLeAntisymmetric(a: string, b: string)
    requires LexLe(a, b) && LexLe(b, a)
    ensures a == b
    decreases |a|
  {
    if a != [] {
      LexLeAntisymmetric(a[1..], b[1..]);
    }
  }

  lemma {:induction false} LexLeTransitive(a: string, b: string, c: string)
    requires LexLe(a, b) && LexLe(b, c)
    ensures LexLe(a, c)
    decreases |a|
  {
    if a != [] && a[0] == b[0] && b[0] == c[0] {
      LexLeTransitive(a[1..], b[1..], c[1..]);
    }
  }

  ghost predicate Sorted(s: seq<string>)
  {
    forall i, j :: 0 <= i < j < |s| ==> LexLe(s[i], s[j])
  }

  /** The reference sort: insertion into a sorted list. */
  function Insert(x: string, s: seq<string>): (r: seq<string>)
    ensures multiset(r) == multiset(s) + multiset{x}
    decreases |s|
  {
    if s == [] then [x]
    else if LexLe(x, s[0]) then [x] + s
    else
      assert s == [s[0]] + s[1..];
      [s[0]] + Insert(x, s[1..])
  }

  function Sort(s: seq<string>): (r: seq<string>)
    ensures multiset(r) == multiset(s)
    decreases |s|
  {
    if s == [] then []
    else
      assert s == [s[0]] + s[1..];
      Insert(s[0], Sort(s[1..]))
  }

  lemma {:induction false} InsertSorted(x: string, s: seq<string>)
    requires Sorted(s)
    ensures Sorted(Insert(x, s))
    decreases |s|
  {
    if s != [] && LexLe(x, s[0]) {
      var r := [x] + s;
      forall i, j | 0 <= i < j < |r|
        ensures LexLe(r[i], r[j])
      {
        if i == 0 && j > 1 {
          LexLeTransitive(x, s[0], s[j - 1]);
        }
      }
    } else if s != [] {
      LexLeTotal(x, s[0]);
      var t := Insert(x, s[1..]);
      InsertSorted(x, s[1..]);
      forall y | y in t
        ensures LexLe(s[0], y)
      {
        assert y in multiset(t);
        if y != x {
          assert y in multiset(s[1..]);
          var k :| 0 <= k < |s[1..]| && s[1..][k] == y;
          assert s[k + 1] == y;
        }
      }
      var r := [s[0]] + t;
      forall i, j | 0 <= i < j < |r|
        ensures LexLe(r[i], r[j])
      {
        if i == 0 {
          assert r[j] == t[j - 1];
        } else {
          assert r[i] == t[i - 1] && r[j] == t[j - 1];
        }
      }
    }
  }

  lemma {:induction false} SortSorted(s: seq<string>)
    ensures Sorted(Sort(s))
    decreases |s|
  {
    if s != [] {
      SortSorted(s[1..]);
      InsertSorted(s[0], Sort(s[1..]));
    }
  }

  lemma SortedTail(a: seq<string>)
    requires a != [] && Sorted(a)
    ensures Sorted(a[1..])
  {
    forall i, j | 0 <= i < j < |a[1..]|
      ensures LexLe(a[1..][i], a[1..][j])
    {
      assert a[1..][i] == a[i + 1] && a[1..][j] == a[j + 1];
    }
  }

  /** The first name of a sorted list sorts before every name of the list. */
  lemma SortedHeadFirst(a: seq<string>, y: string)
    requires Sorted(a) && y in multiset(a)
    ensures LexLe(a[0], y)
  {
    var i :| 0 <= i < |a| && a[i] == y;
    LexLeTotal(a[0], a[0]);
  }

  lemma MultisetTail(a: seq<string>)
    requires a != []
    ensures multiset(a[1..]) == multiset(a) - multiset{a[0]}
  {
    assert a == [a[0]] + a[1..];
  }

  /** A sorted arrangement of a multiset of names is unique: the order on strings is total and
      two different strings never compare both ways. */
  lemma {:induction false} SortedUnique(a: seq<string>, b: seq<string>)
    requires Sorted(a) && Sorted(b) && multiset(a) == multiset(b)
    ensures a == b
    decreases |a|
  {
    if a != [] {
      assert a[0] in multiset(b);
      assert b != [];
      SortedHeadFirst(a, b[0]);
      SortedHeadFirst(b, a[0]);
      LexLeAntisymmetric(a[0], b[0]);
      MultisetTail(a);
      MultisetTail(b);
      SortedTail(a);
      SortedTail(b);
      SortedUnique(a[1..], b[1..]);
      assert a == [a[0]] + a[1..] && b == [b[0]] + b[1..];
    }
  }

  /** Any sorted rearrangement of `s` is `Sort(s)`. */
  lemma SortedIsSort(s: seq<string>, t: seq<string>)
    requires Sorted(t) && multiset(t) == multiset(s)
    ensures t == Sort(s)
  {
    SortSorted(s);
    SortedUnique(t, Sort(s));
  }

  /** While the name at `j` moves down: `s[..i+1]` is sorted apart from position `j`, and the
      name at `j` sorts before everything above it. */
  ghost predicate SortedExcept(s: seq<string>, j: nat, i: nat)
    requires j <= i < |s|
  {
    && (forall k, l :: 0 <= k < l <= i && k != j && l != j ==> LexLe(s[k], s[l]))
    && (forall l :: j < l <= i ==> LexLe(s[j], s[l]))
  }

  lemma SortedExceptStart(s: seq<string>, i: nat)
    requires i < |s| && Sorted(s[..i])
    ensures SortedExcept(s, i, i)
  {
    forall k, l | 0 <= k < l < i
      ensures LexLe(s[k], s[l])
    {
      assert s[..i][k] == s[k] && s[..i][l] == s[l];
    }
  }

  /** Swapping the out-of-order pair below `j` moves the gap down by one. */
  lemma SwapStep(s: seq<string>, j: nat, i: nat)
    requires 0 < j <= i < |s| && SortedExcept(s, j, i) && !LexLe(s[j - 1], s[j])
    ensures SortedExcept(s[j - 1 := s[j]][j := s[j - 1]], j - 1, i)
  {
    LexLeTotal(s[j - 1], s[j]);
  }

  /** Once the moving name is in place, `s[..i+1]` is sorted. */
  lemma SinkDone(s: seq<string>, j: nat, i: nat)
    requires j <= i < |s| && SortedExcept(s, j, i) && (j == 0 || LexLe(s[j - 1], s[j]))
    ensures Sorted(s[..i + 1])
  {
    forall k, l | 0 <= k < l <= i
      ensures LexLe(s[k], s[l])
    {
      if l == j && k < j - 1 {
        LexLeTransitive(s[k], s[j - 1], s[j]);
      }
    }
  }

  /** One pass of the insertion sort: moves `a[i]` down into the sorted `a[..i]`. */
  method SinkInto(a: array<string>, i: nat)
    requires i < a.Length && Sorted(a[..i])
    modifies a
    ensures Sorted(a[..i + 1])
    ensures multiset(a[..]) == multiset(old(a[..]))
    ensures a[i + 1..] == old(a[i + 1..])
  {
    SortedExceptStart(a[..], i);
    var j := i;
    while j > 0 && !LexLe(a[j - 1], a[j])
      invariant 0 <= j <= i
      invariant SortedExcept(a[..], j, i)
      invariant multiset(a[..]) == multiset(old(a[..]))
      invariant a[i + 1..] == old(a[i + 1..])
    {
      SwapStep(a[..], j, i);
      a[j - 1], a[j] := a[j], a[j - 1];
      j := j - 1;
    }
    SinkDone(a[..], j, i);
  }

  /** `dicom_files.sort()`: insertion sort by adjacent swaps, in place. */
  method SortNames(a: array<string>)
    modifies a
    ensures a[..] == Sort(old(a[..]))
  {
    for i := 0 to a.Length
      invariant Sorted(a[..i])
      invariant multiset(a[..]) == multiset(old(a[..]))
    {
      SinkInto(a, i);
    }
    assert a[..a.Length] == a[..];
    SortedIsSort(old(a[..]), a[..]);
  }

  /** The names of the series' images, in the order they are read. */
  function SelectedNames(listing: seq<string>): seq<string>
  {
    Sort(Filter(StartsWithIM, listing))
  }

  /** The selection keeps every listed name starting with "IM", as often as listed, drops every
      other name, and puts them in string order. */
  lemma SelectedNamesSpec(listing: seq<string>)
    ensures Sorted(SelectedNames(listing))
    ensures forall f :: multiset(SelectedNames(listing))[f] ==
                        if StartsWithIM(f) then multiset(listing)[f] else 0
  {
    SortSorted(Filter(StartsWithIM, listing));
    forall f
      ensures multiset(SelectedNames(listing))[f] == if StartsWithIM(f) then multiset(listing)[f] else 0
    {
      FilterMultiset(StartsWithIM, listing, f);
    }
  }

  /** `[os.path.join(directory, f) for f in dicom_files]`. */
  function DicomPaths(directory: string, names: seq<string>): (paths: seq<string>)
    ensures |paths| == |names|
    ensures forall i :: 0 <= i < |names| ==> paths[i] == PosixPath.Join(directory, [names[i]])
  {
    Map((f: string) => PosixPath.Join(directory, [f]), names)
  }

  /** The loop reading every path and keeping the datasets with pixel data. */
  method KeepWithPixelData<D(!new)>(paths: seq<string>, read: string -> D, hasPixelArray: D -> bool)
    returns (images: seq<D>)
    ensures images == Filter(hasPixelArray, Map(read, paths))
  {
    images := [];
    for i := 0 to |paths|
      invariant images == Filter(hasPixelArray, Map(read, paths[..i]))
    {
      var dicomImage := read(paths[i]);
      assert Map(read, paths[..i + 1])[..i] == Map(read, paths[..i]);
      if hasPixelArray(dicomImage) {
        images := images + [dicomImage];
      }
    }
    assert paths[..|paths|] == paths;
  }

  /** `load_dicom_series`: the datasets with pixel data among the "IM" files of the listing, in
      sorted name order. */
  method LoadDicomSeries<D(!new)>(directory: string, listing: seq<string>, read: string -> D,
                                  hasPixelArray: D -> bool)
    returns (images: seq<D>)
    ensures images == Filter(hasPixelArray, Map(read, DicomPaths(directory, SelectedNames(listing))))
  {
    var dicomFiles := Filter(StartsWithIM, listing);
    var names := new string[|dicomFiles|](i requires 0 <= i < |dicomFiles| => dicomFiles[i]);
    assert names[..] == dicomFiles;
    SortNames(names);
    var dicomPaths := DicomPaths(directory, names[..]);
    images := KeepWithPixelData(dicomPaths, read, hasPixelArray);
  }
}
