/** Converting one DICOM file (`dicom.py`): the default output path and the choice of what to
    save from the lower-cased extension of the output path. Reading the file and writing the
    outputs are the decoder's and the encoders' business; the model says which save happens. */
module Dicom {
  import opened Wrappers
  import PosixPath

  /** `IMG_EXT`: the extensions written as images. */
  const ImgExt: seq<string> := [".jpeg", ".jpg", ".png"]

  const NpyExt: string := ".npy"

  function LowerChar(c: char): char
  {
    if 'A' <= c <= 'Z' then (c as int - 'A' as int + 'a' as int) as char else c
  }

  /** `s.lower()` on ASCII letters. */
  function Lower(s: string): (r: string)
    ensures |r| == |s| && forall i :: 0 <= i < |s| ==> r[i] == LowerChar(s[i])
  {
    seq(|s|, i requires 0 <= i < |s| => LowerChar(s[i]))
  }

  /** What `dicom2file` writes: the raw array with `np.save`, or an image with PIL. */
  datatype Save = SaveArray | SaveImage

  /** The output path: the one given, or the input path with its extension replaced by ".png". */
  function OutputPath(dicomPath: string, outputPath: Option<string>): (r: string)
    ensures outputPath.Some? ==> r == outputPath.value
    ensures outputPath.None? ==> PosixPath.Dirname(r) == PosixPath.Dirname(dicomPath)
    ensures outputPath.None? ==> PosixPath.SplitExt(dicomPath).0 <= r
  {
    PosixPath.DirnameReplaceExt(dicomPath, ".png");
    match outputPath
    case Some(path) => path
    case None => PosixPath.SplitExt(dicomPath).0 + ".png"
  }

  /** The saves performed for an output path, tested one after the other on the lower-cased
      extension as `dicom2file` does: ".npy" saves the array; an image extension writes an
      image; any other extension, or none, writes nothing. At most one save happens, because
      ".npy" is no image extension. */
  function Saves(outputPath: string): (r: seq<Save>)
    ensures |r| <= 1
    ensures SaveArray in r <==> Lower(PosixPath.SplitExt(outputPath).1) == NpyExt
    ensures SaveImage in r <==> Lower(PosixPath.SplitExt(outputPath).1) in ImgExt
    ensures r == [] <==> Lower(PosixPath.SplitExt(outputPath).1) !in ImgExt + [NpyExt]
  {
    var outExt := Lower(PosixPath.SplitExt(outputPath).1);
    (if outExt == NpyExt then [SaveArray] else []) + (if outExt in ImgExt then [SaveImage] else [])
  }

  /** `dicom2file`: the path written to and what is saved there. */
  function Dicom2File(dicomPath: string, outputPath: Option<string>): (r: (string, seq<Save>))
    ensures outputPath.Some? ==> r.0 == outputPath.value
    ensures outputPath.None? ==> PosixPath.Dirname(r.0) == PosixPath.Dirname(dicomPath)
    ensures |r.1| <= 1
    ensures SaveArray in r.1 <==> Lower(PosixPath.SplitExt(r.0).1) == NpyExt
    ensures SaveImage in r.1 <==> Lower(PosixPath.SplitExt(r.0).1) in ImgExt
  {
    var path := OutputPath(dicomPath, outputPath);
    (path, Saves(path))
  }

  /** Lower-casing keeps every '.' and '/' where it is and creates none. */
  lemma LowerKeepsSeparators(s: string)
    ensures forall i :: 0 <= i < |s| ==> (Lower(s)[i] == '.' <==> s[i] == '.')
    ensures forall i :: 0 <= i < |s| ==> (Lower(s)[i] == '/' <==> s[i] == '/')
  {
  }

  lemma {:induction false} RFindLower(s: string, c: char)
    requires c == '.' || c == '/'
    ensures PosixPath.RFind(Lower(s), c) == PosixPath.RFind(s, c)
    decreases |s|
  {
    LowerKeepsSeparators(s);
    if s != [] {
      assert Lower(s)[..|s| - 1] == Lower(s[..|s| - 1]);
      RFindLower(s[..|s| - 1], c);
    }
  }

  lemma LowerIdempotent(s: string)
    ensures Lower(Lower(s)) == Lower(s)
  {
  }

  /** Splitting commutes with lower-casing: the extension of the lower-cased path is the
      lower-cased extension. */
  lemma SplitExtLower(p: string)
    ensures PosixPath.SplitExt(Lower(p)).1 == Lower(PosixPath.SplitExt(p).1)
  {
    LowerKeepsSeparators(p);
    RFindLower(p, '/');
    RFindLower(p, '.');
    var dot := PosixPath.RFind(p, '.');
    if dot >= 0 {
      assert Lower(p)[dot..] == Lower(p[dot..]);
    }
  }

  /** The dispatch ignores case: paths equal up to the case of ASCII letters get the same saves,
      so "SCAN.PNG" is written as an image and "scan.NPY" as an array. */
  lemma SavesIgnoreCase(p: string, q: string)
    requires Lower(p) == Lower(q)
    ensures Saves(p) == Saves(q)
  {
    SplitExtLower(p);
    SplitExtLower(q);
    LowerIdempotent(PosixPath.SplitExt(p).1);
    LowerIdempotent(PosixPath.SplitExt(q).1);
  }

  /** The saves for a stem followed by ".png". */
  lemma PngSaves(stem: string)
    ensures Saves(stem + ".png") == if PosixPath.BaseHasNonDot(stem) then [SaveImage] else []
  {
    assert PosixPath.IsExtension(".png");
    PosixPath.SplitExtOfStem(stem, ".png");
    assert Lower(".png") == ".png";
    assert Lower("") == "";
    assert ImgExt[2] == ".png" && ".png" != NpyExt;
  }

  /** Without an output path, the image is written next to the input under its name with ".png"
      in place of its extension, unless the name without extension is made only of dots (as
      for a file named "..."), in which case ".png" is not seen as an extension and nothing is
      written. */
  lemma DefaultOutputSaves(dicomPath: string)
    ensures var stem := PosixPath.SplitExt(dicomPath).0;
            Dicom2File(dicomPath, None) == (stem + ".png", if PosixPath.BaseHasNonDot(stem) then [SaveImage] else [])
  {
    var stem := PosixPath.SplitExt(dicomPath).0;
    assert Dicom2File(dicomPath, None) == (stem + ".png", Saves(stem + ".png"));
    PngSaves(stem);
  }

  /** A file named "..." has no extension to replace, and its default output "....png" has
      none either: the conversion writes nothing. */
  lemma DotsOnlyNameWritesNothing()
    ensures Dicom2File("scans/...", None) == ("scans/....png", [])
  {
    var path := "scans/...";
    PosixPath.RFindAt(path, '/', 5);
    PosixPath.RFindAt(path, '.', 8);
    var stem := PosixPath.SplitExt(path).0;
    assert stem == path;
    assert !PosixPath.BaseHasNonDot(path);
    PngSaves(path);
    assert path + ".png" == "scans/....png";
    assert Dicom2File(path, None) == (path + ".png", Saves(path + ".png"));
  }

  /** An output image made from a pixel array. */
  datatype Image<A> = FromArray(pixels: A)

  /** `dicom2img`: no image when the decoder gives no pixel array. */
  function Dicom2Img<A>(arr: Option<A>): (img: Option<Image<A>>)
    ensures img.None? <==> arr.None?
    ensures img.Some? ==> img.value.pixels == arr.value
  {
    match arr
    case None => None
    case Some(a) => Some(FromArray(a))
  }
}
