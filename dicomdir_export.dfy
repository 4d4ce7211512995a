/** The export decisions of `dicomdir2files`: where each referenced file is read from, the
    output file names, the grouping of layers into series, and the per-series stacking whose
    failure is confined to its own series. */
module DicomdirExport {
  import opened Wrappers
  import opened Dicomdir
  import Sequences
  import PosixPath
  import PyFormat

  /** The output kinds the converter is called with. */
  datatype ImageType = PNG | JPG | NPY

  /** A decoded pixel array: its shape and its values in row-major order. The decoder that
      produces it is a parameter of the model. */
  datatype PixelArray = PixelArray(shape: seq<nat>, values: seq<int>)

  /** Where the file referenced by a register entry is read from: its path components joined
      onto the directory of the DICOMDIR file. An entry without components gets the directory
      itself, which is no DICOM file: reading it raises. */
  function LayerPath(root: string, r: DicomdirRecord): string
  {
    PosixPath.Join(root, r.referencedFileId)
  }

  /** Every entry names a file to read, so reading the layers does not raise. */
  predicate ReadsFiles(records: seq<DicomdirRecord>)
  {
    forall k :: 0 <= k < |records| ==> records[k].referencedFileId != []
  }

  /** `records2layers`: each register entry with the array read from its file, in order. */
  function RecordsToLayers(root: string, records: seq<DicomdirRecord>, read: string -> PixelArray)
    : (layers: seq<(DicomdirRecord, PixelArray)>)
    ensures |layers| == |records|
    ensures forall k :: 0 <= k < |records| ==>
              layers[k].0 == records[k] && layers[k].1 == read(LayerPath(root, records[k]))
  {
    Sequences.Map((r: DicomdirRecord) => (r, read(LayerPath(root, r))), records)
  }

  /** `f'{series_number:03}_{instance_number:05}_{referenced_file_id[-1]}' + ext`; an entry
      with no path components has no last component and the name cannot be formed. */
  function InstanceFileName(r: DicomdirRecord, ext: string): (name: Option<string>)
    ensures name.None? <==> r.referencedFileId == []
  {
    if r.referencedFileId == [] then None
    else
      Some(PyFormat.ZeroPadded(r.seriesNumber, 3) + "_" + PyFormat.ZeroPadded(r.instanceNumber, 5)
           + "_" + r.referencedFileId[|r.referencedFileId| - 1] + ext)
  }

  /** `f'{seq_id:03}' + ext`. */
  function VoxelFileName(seriesId: int, ext: string): (name: string)
    ensures |name| >= 3 + |ext| && name[|name| - |ext|..] == ext
  {
    PyFormat.ZeroPadded(seriesId, 3) + ext
  }

  /** The index of the first `c` in `s`, or |s| when there is none (Python's `str.find`, with
      |s| for -1). */
  function IndexOf(s: string, c: char): (i: nat)
    ensures i <= |s| && (i < |s| ==> s[i] == c)
    ensures forall k :: 0 <= k < i ==> s[k] != c
    decreases |s|
  {
    if s == [] || s[0] == c then 0 else 1 + IndexOf(s[1..], c)
  }

  /** A text without `c` followed by `c` has its first `c` right after it. */
  lemma IndexOfAfter(x: string, c: char, y: string)
    requires forall k :: 0 <= k < |x| ==> x[k] != c
    ensures IndexOf(x + [c] + y, c) == |x|
  {
    var s := x + [c] + y;
    assert s[|x|] == c;
  }

  /** Texts without '_' joined by '_' split back uniquely at the first '_'. */
  lemma SplitAtFirstUnderscore(x: string, y: string, x': string, y': string)
    requires forall k :: 0 <= k < |x| ==> x[k] != '_'
    requires forall k :: 0 <= k < |x'| ==> x'[k] != '_'
    requires x + "_" + y == x' + "_" + y'
    ensures x == x' && y == y'
  {
    var s := x + "_" + y;
    IndexOfAfter(x, '_', y);
    IndexOfAfter(x', '_', y');
    assert x == s[..|x|];
    assert x' == (x' + "_" + y')[..|x'|];
    assert y == s[|x| + 1..];
    assert y' == (x' + "_" + y')[|x'| + 1..];
  }

  lemma ZeroPaddedHasNoUnderscore(n: int, width: nat)
    ensures forall k :: 0 <= k < |PyFormat.ZeroPadded(n, width)| ==> PyFormat.ZeroPadded(n, width)[k] != '_'
  {
  }

  /** Two instances of a run get the same image file name only when they have the same series
      number and instance number: the names cannot collide while those pairs are unique. */
  lemma InstanceFileNameInjective(r1: DicomdirRecord, r2: DicomdirRecord, ext: string)
    requires InstanceFileName(r1, ext).Some? && InstanceFileName(r1, ext) == InstanceFileName(r2, ext)
    ensures r1.seriesNumber == r2.seriesNumber && r1.instanceNumber == r2.instanceNumber
  {
    var s1, s2 := PyFormat.ZeroPadded(r1.seriesNumber, 3), PyFormat.ZeroPadded(r2.seriesNumber, 3);
    var i1, i2 := PyFormat.ZeroPadded(r1.instanceNumber, 5), PyFormat.ZeroPadded(r2.instanceNumber, 5);
    var t1 := r1.referencedFileId[|r1.referencedFileId| - 1] + ext;
    var t2 := r2.referencedFileId[|r2.referencedFileId| - 1] + ext;
    ZeroPaddedHasNoUnderscore(r1.seriesNumber, 3);
    ZeroPaddedHasNoUnderscore(r2.seriesNumber, 3);
    ZeroPaddedHasNoUnderscore(r1.instanceNumber, 5);
    ZeroPaddedHasNoUnderscore(r2.instanceNumber, 5);
    assert InstanceFileName(r1, ext).value == s1 + "_" + (i1 + "_" + t1);
    assert InstanceFileName(r2, ext).value == s2 + "_" + (i2 + "_" + t2);
    SplitAtFirstUnderscore(s1, i1 + "_" + t1, s2, i2 + "_" + t2);
    SplitAtFirstUnderscore(i1, t1, i2, t2);
    PyFormat.ZeroPaddedInjective(r1.seriesNumber, r2.seriesNumber, 3);
    PyFormat.ZeroPaddedInjective(r1.instanceNumber, r2.instanceNumber, 5);
  }

  /** Distinct series get distinct voxel file names. */
  lemma VoxelFileNameInjective(a: int, b: int, ext: string)
    requires VoxelFileName(a, ext) == VoxelFileName(b, ext)
    ensures a == b
  {
    var x, y := PyFormat.ZeroPadded(a, 3), PyFormat.ZeroPadded(b, 3);
    assert |x| == |y|;
    assert x == VoxelFileName(a, ext)[..|x|];
    assert y == VoxelFileName(b, ext)[..|y|];
    PyFormat.ZeroPaddedInjective(a, b, 3);
  }

  predicate Distinct(xs: seq<int>)
  {
    forall i, j :: 0 <= i < j < |xs| ==> xs[i] != xs[j]
  }

  function SeriesNumbers(records: seq<DicomdirRecord>): (xs: seq<int>)
    ensures |xs| == |records| && forall k :: 0 <= k < |records| ==> xs[k] == records[k].seriesNumber
  {
    Sequences.Map((r: DicomdirRecord) => r.seriesNumber, records)
  }

  /** The distinct values of `xs` in the order they first appear: the key order of a dict
      into which the values of `xs` are inserted one after another. */
  function FirstSeen(xs: seq<int>): (ks: seq<int>)
    ensures Distinct(ks)
    ensures forall x :: x in ks <==> x in xs
    decreases |xs|
  {
    if xs == [] then []
    else
      var init, last := xs[..|xs| - 1], xs[|xs| - 1];
      assert xs == init + [last];
      var ks := FirstSeen(init);
      if last in ks then ks else ks + [last]
  }

  /** The position of the first occurrence of `x` in `xs`. */
  function FirstIndex(xs: seq<int>, x: int): (i: nat)
    requires x in xs
    ensures i < |xs| && xs[i] == x && forall k :: 0 <= k < i ==> xs[k] != x
    decreases |xs|
  {
    var init := xs[..|xs| - 1];
    if x in init then FirstIndex(init, x) else |xs| - 1
  }

  /** The keys are in first-seen order: an earlier key first occurs earlier. */
  lemma {:induction false} FirstSeenOrder(xs: seq<int>, i: nat, j: nat)
    requires i < j < |FirstSeen(xs)|
    ensures FirstIndex(xs, FirstSeen(xs)[i]) < FirstIndex(xs, FirstSeen(xs)[j])
    decreases |xs|
  {
    var init, last := xs[..|xs| - 1], xs[|xs| - 1];
    assert xs == init + [last];
    var ks0 := FirstSeen(init);
    if j < |ks0| {
      FirstSeenOrder(init, i, j);
    }
  }

  /** The arrays of series `k`, read from the files of its register entries in encounter order. */
  function SeriesLayers(root: string, records: seq<DicomdirRecord>, read: string -> PixelArray, k: int)
    : seq<PixelArray>
    decreases |records|
  {
    if records == [] then []
    else
      var last := records[|records| - 1];
      SeriesLayers(root, records[..|records| - 1], read, k)
        + (if last.seriesNumber == k then [read(LayerPath(root, last))] else [])
  }

  /** A series' list is empty exactly when no entry has its number. */
  lemma {:induction false} SeriesLayersNonEmpty(root: string, records: seq<DicomdirRecord>,
                                                read: string -> PixelArray, k: int)
    ensures |SeriesLayers(root, records, read, k)| > 0 <==> k in SeriesNumbers(records)
    decreases |records|
  {
    if records != [] {
      var init := records[..|records| - 1];
      SeriesLayersNonEmpty(root, init, read, k);
      assert SeriesNumbers(records) == SeriesNumbers(init) + [records[|records| - 1].seriesNumber];
    }
  }

  /** The total number of layers in the lists of the keys `ks`. */
  function GroupSizes(root: string, records: seq<DicomdirRecord>, read: string -> PixelArray, ks: seq<int>)
    : nat
    decreases |ks|
  {
    if ks == [] then 0
    else GroupSizes(root, records, read, ks[..|ks| - 1]) + |SeriesLayers(root, records, read, ks[|ks| - 1])|
  }

  /** One more entry adds one layer to the total when its series is among the keys. */
  lemma {:induction false} GroupSizesStep(root: string, records: seq<DicomdirRecord>,
                                          read: string -> PixelArray, ks: seq<int>)
    requires records != [] && Distinct(ks)
    ensures GroupSizes(root, records, read, ks)
            == GroupSizes(root, records[..|records| - 1], read, ks)
               + (if records[|records| - 1].seriesNumber in ks then 1 else 0)
    decreases |ks|
  {
    if ks != [] {
      var init := ks[..|ks| - 1];
      assert ks == init + [ks[|ks| - 1]];
      GroupSizesStep(root, records, read, init);
    }
  }

  /** The lists of all keys together hold every layer exactly once: their sizes sum to the
      number of register entries. */
  lemma {:induction false} GroupSizesSum(root: string, records: seq<DicomdirRecord>, read: string -> PixelArray)
    ensures GroupSizes(root, records, read, FirstSeen(SeriesNumbers(records))) == |records|
    decreases |records|
  {
    if records != [] {
      var init, last := records[..|records| - 1], records[|records| - 1];
      var xs := SeriesNumbers(records);
      assert xs[..|xs| - 1] == SeriesNumbers(init);
      var ks0 := FirstSeen(SeriesNumbers(init));
      GroupSizesSum(root, init, read);
      GroupSizesStep(root, records, read, FirstSeen(xs));
      if last.seriesNumber !in ks0 {
        SeriesLayersNonEmpty(root, init, read, last.seriesNumber);
        GroupSizesStep(root, records, read, ks0);
        assert FirstSeen(xs) == ks0 + [last.seriesNumber];
        assert (ks0 + [last.seriesNumber])[..|ks0|] == ks0;
      }
    }
  }

  /** A dict from series number to its list of arrays: the keys in insertion order, the lists. */
  datatype SeriesDict = SeriesDict(keys: seq<int>, lists: map<int, seq<PixelArray>>)
  {
    ghost predicate Valid()
    {
      Distinct(keys) && lists.Keys == set k | k in keys
    }
  }

  /** The NPY branch's grouping: a dict with an empty list per series number, keyed in
      first-seen order, then each layer appended to its series' list as it is read. Reading the
      layer of an entry without a path component raises and ends the run (`None`). */
  method GroupBySeries(root: string, records: seq<DicomdirRecord>, read: string -> PixelArray)
    returns (res: Option<SeriesDict>)
    ensures res.None? <==> !ReadsFiles(records)
    ensures res.Some? ==> res.value.Valid()
    ensures res.Some? ==> res.value.keys == FirstSeen(SeriesNumbers(records))
    ensures res.Some? ==>
              forall k :: k in res.value.lists ==> res.value.lists[k] == SeriesLayers(root, records, read, k)
  {
    var keys := FirstSeen(SeriesNumbers(records));
    var lists: map<int, seq<PixelArray>> := map k | k in keys :: [];
    for i := 0 to |records|
      invariant ReadsFiles(records[..i])
      invariant lists.Keys == set k | k in keys
      invariant forall k :: k in lists ==> lists[k] == SeriesLayers(root, records[..i], read, k)
    {
      var record := records[i];
      if record.referencedFileId == [] {
        return None;
      }
      var arr := read(LayerPath(root, record));
      var seqId := record.seriesNumber;
      assert seqId == SeriesNumbers(records)[i];
      assert records[..i + 1][..i] == records[..i];
      lists := lists[seqId := lists[seqId] + [arr]];
    }
    assert records[..|records|] == records;
    return Some(SeriesDict(keys, lists));
  }

  /** A stacked voxel grid: its shape and its layers along the stacking axis. */
  datatype VoxelGrid = VoxelGrid(shape: seq<nat>, layers: seq<PixelArray>)

  /** The ways `np.stack(arrays, axis=2)` refuses its input, in the order it checks. */
  datatype StackError = NeedAtLeastOneArray | ShapesDiffer | AxisOutOfBounds

  /** `np.stack(arrays, axis=2)`: refused for no arrays, for arrays of different shapes, and
      for arrays of fewer than two dimensions (axis 2 does not exist in the result); otherwise
      the arrays become the layers of a grid whose shape has their count inserted at axis 2. */
  function Stack(arrays: seq<PixelArray>): (r: Result<VoxelGrid, StackError>)
    ensures r == Err(NeedAtLeastOneArray) <==> arrays == []
    ensures r.Ok? ==> forall k :: 0 <= k < |arrays| ==> arrays[k].shape == arrays[0].shape
    ensures r.Ok? ==> && r.value.layers == arrays
                      && |r.value.shape| == |arrays[0].shape| + 1 >= 3
                      && r.value.shape[2] == |arrays|
  {
    if arrays == [] then Err(NeedAtLeastOneArray)
    else if exists k :: 0 <= k < |arrays| && arrays[k].shape != arrays[0].shape then Err(ShapesDiffer)
    else if |arrays[0].shape| + 1 <= 2 then Err(AxisOutOfBounds)
    else
      var shape := arrays[0].shape;
      Ok(VoxelGrid(shape[..2] + [|arrays|] + shape[2..], arrays))
  }

  /** N two-dimensional arrays of one shape (H, W) stack to an (H, W, N) grid whose k-th layer
      is the k-th array; if any two shapes differ, stacking is refused. */
  lemma StackSeries(arrays: seq<PixelArray>, h: nat, w: nat)
    ensures (|arrays| > 0 && forall k :: 0 <= k < |arrays| ==> arrays[k].shape == [h, w]) ==>
              Stack(arrays) == Ok(VoxelGrid([h, w, |arrays|], arrays))
    ensures (exists i, j :: 0 <= i < |arrays| && 0 <= j < |arrays| && arrays[i].shape != arrays[j].shape) ==>
              Stack(arrays) == Err(ShapesDiffer)
  {
    if exists i, j :: 0 <= i < |arrays| && 0 <= j < |arrays| && arrays[i].shape != arrays[j].shape {
      var i, j :| 0 <= i < |arrays| && 0 <= j < |arrays| && arrays[i].shape != arrays[j].shape;
      assert arrays[i].shape != arrays[0].shape || arrays[j].shape != arrays[0].shape;
    } else if |arrays| > 0 && arrays[0].shape == [h, w] {
      assert arrays[0].shape[..2] + [|arrays|] + arrays[0].shape[2..] == [h, w, |arrays|];
    }
  }

  /** What happens to one series in the NPY branch: its grid is saved under its zero-padded
      number, or the stacking error is reported and the series is skipped. */
  datatype SeriesOutcome =
    | Saved(seriesId: int, path: string, grid: VoxelGrid)
    | Failed(seriesId: int, error: StackError)

  function ExportSeries(outputDir: string, seriesId: int, arrays: seq<PixelArray>, ext: string): SeriesOutcome
  {
    match Stack(arrays)
    case Ok(grid) => Saved(seriesId, PosixPath.Join(outputDir, [VoxelFileName(seriesId, ext)]), grid)
    case Err(e) => Failed(seriesId, e)
  }

  /** The NPY branch's save loop: every series in key order is stacked and saved inside its
      own try, so a series that fails leaves the others to be saved. */
  method SaveVoxelGrids(outputDir: string, sequences: SeriesDict, ext: string)
    returns (outcomes: seq<SeriesOutcome>)
    requires sequences.Valid()
    ensures |outcomes| == |sequences.keys|
    ensures forall i :: 0 <= i < |outcomes| ==>
              outcomes[i] == ExportSeries(outputDir, sequences.keys[i], sequences.lists[sequences.keys[i]], ext)
  {
    outcomes := [];
    for i := 0 to |sequences.keys|
      invariant |outcomes| == i
      invariant forall m :: 0 <= m < i ==>
                  outcomes[m] == ExportSeries(outputDir, sequences.keys[m], sequences.lists[sequences.keys[m]], ext)
    {
      var seqId := sequences.keys[i];
      var sequence := sequences.lists[seqId];
      var outcome;
      match Stack(sequence) {
        case Ok(voxelGrid) =>
          var voxelFilename := VoxelFileName(seqId, ext);
          outcome := Saved(seqId, PosixPath.Join(outputDir, [voxelFilename]), voxelGrid);
        case Err(e) =>
          outcome := Failed(seqId, e);
      }
      outcomes := outcomes + [outcome];
    }
  }

  /** An image file written by the PNG/JPG branch: its path and the array it is made from. */
  datatype ImageWrite = ImageWrite(path: string, layer: PixelArray)

  /** The PNG/JPG branch: one image per layer in order. The first entry without a path component
      ends the run, after the images before it were written: reading its layer (the DICOMDIR's
      own directory) raises before its file name is formed. */
  datatype InstanceRun = InstanceRun(writes: seq<ImageWrite>, aborted: bool)

  function ExportInstances(outputDir: string, layers: seq<(DicomdirRecord, PixelArray)>, ext: string)
    : InstanceRun
    decreases |layers|
  {
    if layers == [] then InstanceRun([], false)
    else
      var run := ExportInstances(outputDir, layers[..|layers| - 1], ext);
      var (record, arr) := layers[|layers| - 1];
      if run.aborted then run
      else if record.referencedFileId == [] then InstanceRun(run.writes, true)
      else
        var name := InstanceFileName(record, ext).value;
        InstanceRun(run.writes + [ImageWrite(PosixPath.Join(outputDir, [name]), arr)], false)
  }

  /** The run completes exactly when every entry has a path component; it then writes one image
      per layer, in order, named after that layer's entry. When it stops, it has written the
      images of the entries before the first one without a path component. */
  lemma {:induction false} ExportInstancesWrites(outputDir: string, layers: seq<(DicomdirRecord, PixelArray)>, ext: string)
    ensures var run := ExportInstances(outputDir, layers, ext);
            !run.aborted <==> forall k :: 0 <= k < |layers| ==> layers[k].0.referencedFileId != []
    ensures var run := ExportInstances(outputDir, layers, ext);
            (if run.aborted then |run.writes| < |layers| && layers[|run.writes|].0.referencedFileId == []
             else |run.writes| == |layers|)
            && forall k :: 0 <= k < |run.writes| ==>
                 && InstanceFileName(layers[k].0, ext).Some?
                 && run.writes[k] == ImageWrite(PosixPath.Join(outputDir, [InstanceFileName(layers[k].0, ext).value]), layers[k].1)
    decreases |layers|
  {
    if layers != [] {
      var init := layers[..|layers| - 1];
      ExportInstancesWrites(outputDir, init, ext);
      assert forall k :: 0 <= k < |init| ==> init[k] == layers[k];
    }
  }

  /** What a conversion produces: nothing when the register cannot be built; otherwise the CSV
      index (written before any pixel data is read), the images or voxel grids of the requested
      kind, and whether the run got to its end without raising. */
  datatype Conversion =
    | Fatal(error: ScanError)
    | Converted(csvPath: string, header: seq<string>, rows: seq<seq<CsvValue>>,
                images: seq<ImageWrite>, voxels: seq<SeriesOutcome>, completed: bool)

  /** `dicomdir2files`: build the register, write its CSV index, then either write one image per
      layer (PNG, JPG) or group the layers by series and save one voxel grid per series (NPY).
      The referenced files are read from the DICOMDIR's directory; `fileExt` is the extension
      of the requested kind. */
  method DicomdirToFiles(directoryRecords: seq<DirectoryRecord>, dicomdirPath: string, outputDir: string,
                         itype: ImageType, fileExt: string, read: string -> PixelArray)
    returns (c: Conversion)
    ensures c.Fatal? <==> Flatten(directoryRecords).Err?
    ensures c.Fatal? ==> c.error == Flatten(directoryRecords).error
    ensures c.Converted? ==>
              var records, root := Flatten(directoryRecords).value, PosixPath.Dirname(dicomdirPath);
              var keys := FirstSeen(SeriesNumbers(records));
              && c.csvPath == PosixPath.Join(outputDir, ["index.csv"])
              && c.header == DicomdirKeys()
              && CsvRows(records) == Ok(c.rows)
              && (c.completed <==> ReadsFiles(records))
              && c.images == (if itype == PNG || itype == JPG
                              then ExportInstances(outputDir, RecordsToLayers(root, records, read), fileExt).writes
                              else [])
              && |c.voxels| == (if itype == NPY && c.completed then |keys| else 0)
              && forall i :: 0 <= i < |c.voxels| ==>
                   c.voxels[i] == ExportSeries(outputDir, keys[i], SeriesLayers(root, records, read, keys[i]), fileExt)
  {
    var scanned := DicomdirToRecords(directoryRecords);
    if scanned.Err? {
      return Fatal(scanned.error);
    }
    var records := scanned.value;
    var csvPath := PosixPath.Join(outputDir, ["index.csv"]);
    CsvRowsRoundTrip(records);
    var rows := CsvRows(records).value;
    var root := PosixPath.Dirname(dicomdirPath);
    var images := [];
    var voxels := [];
    var completed := true;
    if itype == PNG || itype == JPG {
      var layers := RecordsToLayers(root, records, read);
      var run := ExportInstances(outputDir, layers, fileExt);
      ExportInstancesWrites(outputDir, layers, fileExt);
      images, completed := run.writes, !run.aborted;
    }
    if itype == NPY {
      var sequences := GroupBySeries(root, records, read);
      if sequences.Some? {
        voxels := SaveVoxelGrids(outputDir, sequences.value, fileExt);
      } else {
        completed := false;
      }
    }
    return Converted(csvPath, DicomdirKeys(), rows, images, voxels, completed);
  }
}
