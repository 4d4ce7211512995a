/** The three `os.path` operations the converter relies on, with their POSIX semantics
    (`posixpath.join`, `posixpath.splitext`, `posixpath.dirname`). */
module PosixPath {

  /** The index of the last occurrence of `c` in `s`, or -1 (Python's `str.rfind`). */
  function RFind(s: string, c: char): (i: int)
    ensures -1 <= i < |s|
    ensures 0 <= i ==> s[i] == c
    ensures forall k :: i < k < |s| ==> s[k] != c
    decreases |s|
  {
    if s == [] then -1
    else if s[|s| - 1] == c then |s| - 1
    else RFind(s[..|s| - 1], c)
  }

  predicate IsAbsolute(s: string)
  {
    |s| > 0 && s[0] == '/'
  }

  predicate EndsWithSep(s: string)
  {
    |s| > 0 && s[|s| - 1] == '/'
  }

  /** `os.path.join(a, *ps)`: each component is appended after a '/' unless the path so far
      is empty or already ends with one; an absolute component discards everything before it. */
  function Join(a: string, ps: seq<string>): string
    decreases |ps|
  {
    if ps == [] then a
    else
      var path, b := Join(a, ps[..|ps| - 1]), ps[|ps| - 1];
      if IsAbsolute(b) then b
      else if path == [] || EndsWithSep(path) then path + b
      else path + "/" + b
  }

  /** A component that joins without surprises: not empty, and no separator at either end. */
  predicate IsPlainComponent(s: string)
  {
    |s| > 0 && s[0] != '/' && s[|s| - 1] != '/'
  }

  /** "/p1/p2/.../pn", the reference reading of a join of plain components. */
  function SlashPrefixed(ps: seq<string>): string
    decreases |ps|
  {
    if ps == [] then "" else SlashPrefixed(ps[..|ps| - 1]) + "/" + ps[|ps| - 1]
  }

  /** Joining plain components onto a directory that does not end in '/' puts exactly one '/'
      before each component. */
  lemma {:induction false} JoinPlain(a: string, ps: seq<string>)
    requires |a| > 0 && !EndsWithSep(a)
    requires forall i :: 0 <= i < |ps| ==> IsPlainComponent(ps[i])
    ensures Join(a, ps) == a + SlashPrefixed(ps)
    ensures !EndsWithSep(Join(a, ps))
    decreases |ps|
  {
    if ps != [] {
      JoinPlain(a, ps[..|ps| - 1]);
    }
  }

  /** An absolute component makes the join forget the directory and every earlier component. */
  lemma {:induction false} JoinAbsoluteResets(a: string, ps: seq<string>, k: nat)
    requires k < |ps| && IsAbsolute(ps[k])
    ensures Join(a, ps) == Join(ps[k], ps[k + 1..])
    decreases |ps|
  {
    if k == |ps| - 1 {
      assert ps[k + 1..] == [];
    } else {
      var init := ps[..|ps| - 1];
      JoinAbsoluteResets(a, init, k);
      assert init[k + 1..] == ps[k + 1..|ps| - 1];
      assert ps[k + 1..][..|ps[k + 1..]| - 1] == init[k + 1..];
    }
  }

  /** `os.path.splitext(p)`: the extension starts at the last '.' of the last path component,
      unless everything before that dot in the component is dots (a leading-dot name such as
      ".bashrc" has no extension). */
  function SplitExt(p: string): (r: (string, string))
    ensures r.0 + r.1 == p
    ensures r.1 != [] ==> r.1[0] == '.'
    ensures forall k :: 0 < k < |r.1| ==> r.1[k] != '.'
    ensures forall k :: 0 <= k < |r.1| ==> r.1[k] != '/'
  {
    var sepIndex, dotIndex := RFind(p, '/'), RFind(p, '.');
    if dotIndex > sepIndex && exists k :: sepIndex + 1 <= k < dotIndex && p[k] != '.' then
      (p[..dotIndex], p[dotIndex..])
    else
      (p, "")
  }

  /** The last path component has a character other than '.'. */
  ghost predicate BaseHasNonDot(s: string)
  {
    exists k :: RFind(s, '/') < k < |s| && s[k] != '.'
  }

  /** A candidate extension: a '.' followed by characters that are neither '.' nor '/'. */
  predicate IsExtension(ext: string)
  {
    && |ext| > 0 && ext[0] == '.'
    && (forall k :: 0 < k < |ext| ==> ext[k] != '.')
    && (forall k :: 0 <= k < |ext| ==> ext[k] != '/')
  }

  /** `splitext` of a stem followed by an extension: the extension is split off exactly when the
      stem's last component has a character other than '.'; leading dots of a name belong to
      the root, so "a/..." + ".png" has no extension. */
  lemma SplitExtOfStem(stem: string, ext: string)
    requires IsExtension(ext)
    ensures SplitExt(stem + ext) == if BaseHasNonDot(stem) then (stem, ext) else (stem + ext, "")
  {
    var q := stem + ext;
    assert q[|stem|] == '.';
    forall k | |stem| < k < |q| ensures q[k] != '.' {
      assert q[k] == ext[k - |stem|];
    }
    RFindAt(q, '.', |stem|);
    RFindAppend(stem, ext, '/');
    assert forall k :: 0 <= k < |stem| ==> q[k] == stem[k];
    assert q[..|stem|] == stem && q[|stem|..] == ext;
  }

  /** A split-off extension is an extension, and the root keeps a character other than '.' in
      its last component. With `SplitExtOfStem` this fixes `splitext` on every path. */
  lemma SplitExtSplits(p: string)
    ensures SplitExt(p).1 != [] ==> IsExtension(SplitExt(p).1) && BaseHasNonDot(SplitExt(p).0)
  {
    var r := SplitExt(p);
    if r.1 != [] {
      SplitExtOfStem(r.0, r.1);
    }
  }

  /** Replacing the extension keeps the directory. */
  lemma DirnameReplaceExt(p: string, ext: string)
    requires forall k :: 0 <= k < |ext| ==> ext[k] != '/'
    ensures Dirname(SplitExt(p).0 + ext) == Dirname(p)
  {
    var stem, was := SplitExt(p).0, SplitExt(p).1;
    RFindAppend(stem, was, '/');
    RFindAppend(stem, ext, '/');
    var n := RFind(stem, '/') + 1;
    assert (stem + was)[..n] == stem[..n] == (stem + ext)[..n];
  }

  predicate AllSeps(s: string)
  {
    forall k :: 0 <= k < |s| ==> s[k] == '/'
  }

  /** `s.rstrip('/')`. */
  function RStripSeps(s: string): (r: string)
    ensures r <= s && !EndsWithSep(r) && AllSeps(s[|r|..])
    decreases |s|
  {
    if EndsWithSep(s) then RStripSeps(s[..|s| - 1]) else s
  }

  /** `os.path.dirname(p)`: everything up to the last '/', with trailing separators removed
      unless the head is made only of separators (the root stays "/"). */
  function Dirname(p: string): (r: string)
    ensures r <= p
    ensures |r| <= RFind(p, '/') + 1
    ensures RFind(p, '/') < 0 ==> r == []
    ensures 0 <= RFind(p, '/') ==>
              && r != []
              && AllSeps(p[|r|..RFind(p, '/') + 1])
              && (EndsWithSep(r) ==> AllSeps(p[..RFind(p, '/') + 1]) && r == p[..RFind(p, '/') + 1])
  {
    var head := p[..RFind(p, '/') + 1];
    if head != [] && !AllSeps(head) then RStripSeps(head) else head
  }

  /** The last occurrence is characterised by its position: `c` there and nowhere after. */
  lemma {:induction false} RFindAt(s: string, c: char, i: nat)
    requires i < |s| && s[i] == c
    requires forall k :: i < k < |s| ==> s[k] != c
    ensures RFind(s, c) == i
    decreases |s|
  {
    if i < |s| - 1 {
      RFindAt(s[..|s| - 1], c, i);
    }
  }

  /** Appending text without `c` does not move the last `c`. */
  lemma {:induction false} RFindAppend(s: string, t: string, c: char)
    requires forall k :: 0 <= k < |t| ==> t[k] != c
    ensures RFind(s + t, c) == RFind(s, c)
    decreases |t|
  {
    if t == [] {
      assert s + t == s;
    } else {
      var u := s + t;
      assert u[..|u| - 1] == s + t[..|t| - 1];
      RFindAppend(s, t[..|t| - 1], c);
    }
  }

  /** Dirname undoes a join of one component without separators onto a directory that does not
      end in '/' and is not the root. */
  lemma DirnameOfJoin(d: string, f: string)
    requires |d| > 0 && !EndsWithSep(d) && forall k :: 0 <= k < |f| ==> f[k] != '/'
    ensures Dirname(Join(d, [f])) == d
  {
    assert Join(d, [f]) == d + "/" + f by {
      assert [f][..0] == [];
      assert Join(d, []) == d;
    }
    DirnameAfterSep(d, f);
  }

  lemma DirnameAfterSep(d: string, f: string)
    requires |d| > 0 && !EndsWithSep(d) && forall k :: 0 <= k < |f| ==> f[k] != '/'
    ensures Dirname(d + "/" + f) == d
  {
    var p := d + "/" + f;
    forall k | |d| < k < |p| ensures p[k] != '/' {
      assert p[k] == f[k - |d| - 1];
    }
    RFindAt(p, '/', |d|);
    var head := p[..|d| + 1];
    assert head == d + "/";
    assert head[|d| - 1] != '/';
    assert RStripSeps(head) == RStripSeps(d);
  }

  /** A DICOMDIR in the working directory has directory "". */
  lemma DirnameOfBareName()
    ensures Dirname("DICOMDIR") == ""
  {
    assert RFind("DICOMDIR", '/') == -1;
  }

  /** A DICOMDIR at the root has directory "/". */
  lemma DirnameAtRoot()
    ensures Dirname("/DICOMDIR") == "/"
  {
    RFindAt("/DICOMDIR", '/', 0);
    assert "/DICOMDIR"[..1] == "/";
  }

  /** A DICOMDIR in "cd" has directory "cd". */
  lemma DirnameInDirectory()
    ensures Dirname("cd/DICOMDIR") == "cd"
  {
    DirnameAfterSep("cd", "DICOMDIR");
    assert "cd" + "/" + "DICOMDIR" == "cd/DICOMDIR";
  }
}
