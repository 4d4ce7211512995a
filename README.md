# dicom2img in Dafny

A model of the core of dicom2img, a small Python tool that converts DICOM medical images into
ordinary files. It covers three parts:

- **`dicom2img/dicomdir.py`** reads a DICOMDIR catalogue. The catalogue is a flat list of
  directory records tagged PATIENT, STUDY, SERIES or IMAGE. `dicomdir2records` walks it once and
  carries the most recent patient, study and series fields forward. Each IMAGE becomes one flat
  `DicomdirRecord`. `dicomdir2files` writes those records as a CSV index (`index.csv`), then
  does one of two things:
  - writes one image per instance, named `SSS_IIIII_<file>` + extension;
  - or groups the arrays by series number, stacks each series along axis 2 and saves it as
    `SSS` + extension. A failure in one series is caught and does not stop the others.
- **`dicom2img/dicom.py`** converts one file. When no output path is given, the default is the
  input path with its extension replaced by `.png`. The lower-cased output extension then
  decides what is written: `.npy` saves the raw array, `.jpeg`/`.jpg`/`.png` write an image, and
  any other extension writes nothing.
- **`dicom2img/dicom2img.py`** loads a series from a directory (`load_dicom_series`):
  1. keeps the listed names that start with `IM`;
  2. sorts them in place;
  3. joins them onto the directory;
  4. keeps the datasets that carry pixel data.

The modules follow the program:

| module | file | what it holds |
|---|---|---|
| `Dicomdir` | `dicomdir.dfy` | the record, its keys, the carried-state scan as a loop proved equal to a reference reading, and the CSV rows |
| `DicomdirExport` | `dicomdir_export.dfy` | file names, the series grouping (a dict of lists filled by a loop), stacking, the per-series outcome and the driver |
| `Dicom` | `dicom.dfy` | `dicom.py` |
| `SeriesLoader` | `series_loader.dfy` | `load_dicom_series`, with the in-place sort on an `array<string>` |

Four support modules model the Python semantics the core relies on:

| module | file | models |
|---|---|---|
| `PosixPath` | `posix_path.dfy` | `os.path.join`, `splitext`, `dirname` with POSIX rules |
| `PyFormat` | `py_format.dfy` | the `{n:03}` / `{n:05}` integer format |
| `Sequences` | `sequences.dfy` | list comprehension with a filter, and map |
| `Wrappers` | `wrappers.dfy` | `Option` and `Result` |

External code becomes a parameter of the model:

- reading one DICOM file's pixel array (`dicom2np`, `pydicom.dcmread`) is a function `read`;
- `hasattr(ds, 'pixel_array')` is a predicate `hasPixelArray`;
- the directory listing is the parameter `listing`;
- the extension for an output kind (`IMAGE_EXT[itype]`) is the parameter `fileExt`.

The side-effecting outputs, the CSV file, the image files and the `.npy` files, are returned as
values that say what would be written, and where.

## Model

| member | source | states |
|---|---|---|
| Dicomdir.DicomdirKeys | dicom2img/dicomdir.py:16-29 | The CSV header has one name per record field, in declaration order. |
| Dicomdir.RecordFieldsComplete | dicom2img/dicomdir.py:16-29 | Every field of the record is a column of the index. |
| Dicomdir.DicomdirKeysDistinct | dicom2img/dicomdir.py:29 | No field appears twice and no two columns share a name. |
| Dicomdir.NearestCharacterized | dicom2img/dicomdir.py:41-50 | The carried value of a level is absent exactly when no record of that type came earlier. Otherwise it is the latest such record: none of that type follows it. |
| Dicomdir.Emit | dicom2img/dicomdir.py:51-56 | An IMAGE fails on the first unbound level (patient, then study, then series), matching the order in which the constructor in the source reads its arguments. It succeeds exactly when all three levels were seen. Its entry takes the nearest patient, study and series fields and the image's own fields. |
| Dicomdir.EntryFitsUnique | dicom2img/dicomdir.py:51-56 | There is one entry that fits an IMAGE record in its context. |
| Dicomdir.FlattenErrPersists | dicom2img/dicomdir.py:37-56 | An error raised at some record ends the scan with that error, whatever follows. |
| Dicomdir.ImagePositions | dicom2img/dicomdir.py:51 | The positions of the IMAGE records, increasing, all of them. |
| Dicomdir.FlattenEntries | dicom2img/dicomdir.py:32-57 | The scan succeeds exactly when every IMAGE can be emitted. It then yields one entry per IMAGE, in input order, each the one emitted from its prefix. |
| Dicomdir.FlattenFailure | dicom2img/dicomdir.py:32-57 | A failing scan reports the error of the first IMAGE that cannot be emitted, and every earlier IMAGE could be. |
| Dicomdir.FlattenOkIffWellFormed | dicom2img/dicomdir.py:32-57 | The scan succeeds exactly when every IMAGE is preceded by a PATIENT, a STUDY and a SERIES record. |
| Dicomdir.NearestIgnoresOthers | dicom2img/dicomdir.py:38-40 | A record of another type, or one without a type, does not change the nearest record of a type. |
| Dicomdir.FlattenIgnoresOthers | dicom2img/dicomdir.py:38-51 | Adding or removing a record without a type, or with an unrecognised type, leaves the result of the scan unchanged. |
| Dicomdir.Flatten | dicom2img/dicomdir.py:32-57 | The reference reading of the scan. It has no contract of its own: `FlattenEntries`, `FlattenFailure`, `FlattenOkIffWellFormed`, `FlattenErrPersists` and `FlattenIgnoresOthers` state what it returns. |
| Dicomdir.DicomdirToRecords | dicom2img/dicomdir.py:32-57 | The imperative scan with three carried locals returns exactly the reference reading `Flatten`. |
| Dicomdir.AsDict | dicom2img/dicomdir.py:69 | `asdict` has one key per field, holding that field's value. |
| Dicomdir.DictRow | dicom2img/dicomdir.py:65-69 | The writer refuses a row exactly when it has a key that is not a column. Otherwise it writes one value per column in column order, and the empty text for a missing key. |
| Dicomdir.RowValues | dicom2img/dicomdir.py:65-69 | A record's dictionary is accepted, and each column holds its field's value. |
| Dicomdir.RowRoundTrip | dicom2img/dicomdir.py:65-69 | A record's row reads back as the record. |
| Dicomdir.CsvRows | dicom2img/dicomdir.py:60-69 | The data rows written under the header. No contract of its own: `CsvRowsRoundTrip` states that every register is written, one row per record, each reading back. |
| Dicomdir.CsvRowsRoundTrip | dicom2img/dicomdir.py:60-69 | The index is written for any register. It has one row per record, in order, and each row reads back as its record. |
| DicomdirExport.RecordsToLayers | dicom2img/dicomdir.py:72-82 | One layer per record, in order: the record and the array read from its joined path. |
| DicomdirExport.InstanceFileName | dicom2img/dicomdir.py:116 | There is no name exactly when the record has no path component, since `[-1]` then has nothing to take. |
| DicomdirExport.InstanceFileNameInjective | dicom2img/dicomdir.py:116-117 | Two records get the same image name only if they have the same series number and the same instance number. |
| DicomdirExport.VoxelFileName | dicom2img/dicomdir.py:132 | The name ends with the extension and has at least three characters before it. |
| DicomdirExport.VoxelFileNameInjective | dicom2img/dicomdir.py:132-133 | Distinct series numbers give distinct voxel file names. |
| DicomdirExport.FirstSeen | dicom2img/dicomdir.py:124 | The dict's keys are the distinct series numbers, each once. |
| DicomdirExport.FirstSeenOrder | dicom2img/dicomdir.py:124 | The keys are in first-seen order. |
| DicomdirExport.SeriesLayers | dicom2img/dicomdir.py:124-127 | The reference list of a series: the arrays of its records in encounter order. No contract of its own: `SeriesLayersNonEmpty` and `GroupSizesSum` state its size. |
| DicomdirExport.SeriesLayersNonEmpty | dicom2img/dicomdir.py:124-127 | A series' list is nonempty exactly when some record has that series number. |
| DicomdirExport.GroupSizesSum | dicom2img/dicomdir.py:124-127 | Together, the lists hold every layer exactly once: their sizes sum to the number of records. |
| DicomdirExport.GroupBySeries | dicom2img/dicomdir.py:124-127 | The appending loop raises exactly when some record has no path component: reading the layer of such a record reads the DICOMDIR's directory. Otherwise it builds a dict keyed in first-seen order, in which each series holds the arrays of its records in encounter order. |
| DicomdirExport.Stack | dicom2img/dicomdir.py:131 | Stacking refuses no arrays with its own error. A stack exists only for arrays of one shape; it has those arrays as layers, one more dimension than they do and at least three in all, and their count at axis 2. |
| DicomdirExport.StackSeries | dicom2img/dicomdir.py:131 | N arrays of one shape (H, W) stack to an (H, W, N) grid of those layers. Arrays of differing shapes are refused. |
| DicomdirExport.ExportSeries | dicom2img/dicomdir.py:130-136 | One series inside its `try`. No contract of its own: `StackSeries` states when it is saved or fails, and `VoxelFileNameInjective` states that saved series get distinct files. |
| DicomdirExport.SaveVoxelGrids | dicom2img/dicomdir.py:129-136 | One outcome per series, in key order, each decided on its own. A failure is recorded and the loop goes on. |
| DicomdirExport.ExportInstances | dicom2img/dicomdir.py:114-119 | The image run. No contract of its own: `ExportInstancesWrites` states what it writes and where it stops. |
| DicomdirExport.ExportInstancesWrites | dicom2img/dicomdir.py:114-119 | The image run completes exactly when every record has a path component. It then writes one image per layer, named from its record and joined onto the output directory. Otherwise it stops at the first record without one, whose layer cannot be read, after writing the images before it. |
| DicomdirExport.DicomdirToFiles | dicom2img/dicomdir.py:85-136 | The run stops before writing anything, with the scan's error, exactly when the register cannot be built. Otherwise it writes the CSV index `index.csv` with the header and one row per record, then the images (PNG/JPG) or the voxel grids (NPY). It reaches its end exactly when every record has a path component. Otherwise the image run stops at the first record without one, and the NPY run saves no grid. |
| PosixPath.Join | dicom2img/dicomdir.py:80 | `os.path.join`. No contract of its own: `JoinPlain`, `JoinAbsoluteResets` and `DirnameOfJoin` state what it builds. |
| PosixPath.JoinPlain | dicom2img/dicomdir.py:80 | Joining plain components onto a directory that does not end in '/' puts one '/' before each. |
| PosixPath.JoinAbsoluteResets | dicom2img/dicomdir.py:80 | An absolute component discards everything joined before it. |
| PosixPath.SplitExt | dicom2img/dicom.py:34-36 | Root and extension concatenate back to the path. The extension is empty or starts with its only '.', and it holds no '/'. |
| PosixPath.SplitExtOfStem | dicom2img/dicom.py:34-36 | A stem followed by an extension splits into that stem and extension exactly when the stem's last component has a character other than '.'. Otherwise nothing is split off. |
| PosixPath.SplitExtSplits | dicom2img/dicom.py:34-36 | What is split off is always an extension, and the root keeps a non-dot character in its last component. With `SplitExtOfStem`, this fixes the value of `splitext` on every path. |
| PosixPath.Dirname | dicom2img/dicomdir.py:109 | A path without '/' has directory "". Otherwise the directory is the part up to the last '/' with trailing separators stripped, unless that part is only separators, in which case it is kept whole. |
| PosixPath.DirnameReplaceExt | dicom2img/dicom.py:34 | Replacing a path's extension keeps its directory. |
| PosixPath.DirnameOfBareName | dicom2img/dicomdir.py:109 | `dirname('DICOMDIR')` is `''`, so the referenced files are read relative to the working directory. |
| PosixPath.DirnameAtRoot | dicom2img/dicomdir.py:109 | `dirname('/DICOMDIR')` is `'/'`. |
| PosixPath.DirnameInDirectory | dicom2img/dicomdir.py:109 | `dirname('cd/DICOMDIR')` is `'cd'`. |
| PosixPath.DirnameOfJoin | dicom2img/dicomdir.py:109 | The directory of `join(d, f)` is `d` for a directory without a trailing '/' and a plain file name. |
| PyFormat.ZeroPadded | dicom2img/dicomdir.py:116 | The formatted number is at least as wide as the field, its digits are the decimal value, and only a leading '-' is not a digit. |
| PyFormat.ZeroPaddedRoundTrip | dicom2img/dicomdir.py:116 | Parsing the padded text gives back the number. |
| PyFormat.ZeroPaddedInjective | dicom2img/dicomdir.py:132 | Distinct numbers format differently at any width. |
| Sequences.Filter | dicom2img/dicom2img.py:20 | The filtered list is no longer than its input, and every element kept satisfies the test. |
| Sequences.FilterMultiset | dicom2img/dicom2img.py:20 | Every element that passes is kept as often as it occurs, and nothing else. |
| Sequences.FilterAppend | dicom2img/dicom2img.py:25-28 | Filtering distributes over concatenation, so the relative order is kept. |
| Dicom.OutputPath | dicom2img/dicom.py:33-34 | A given output path is used as is. Without one, the output keeps the input's directory and its name without extension. |
| Dicom.Lower | dicom2img/dicom.py:36 | Lower-casing maps each character on its own and keeps the length. |
| Dicom.Saves | dicom2img/dicom.py:36-41 | At most one save. The array is saved exactly when the lower-cased extension is `.npy`, and an image is written exactly when it is one of `IMG_EXT`. Nothing is written otherwise. |
| Dicom.SavesIgnoreCase | dicom2img/dicom.py:36 | Paths that differ only in the case of ASCII letters get the same saves. |
| Dicom.SplitExtLower | dicom2img/dicom.py:36 | The extension of the lower-cased path is the lower-cased extension. |
| Dicom.PngSaves | dicom2img/dicom.py:34-41 | A stem followed by `.png` is written as an image exactly when the stem's last component has a character other than '.'. Otherwise nothing is written. |
| Dicom.DefaultOutputSaves | dicom2img/dicom.py:33-41 | Without an output path, the output is the stem plus `.png`. It is written as an image unless the stem's last component is only dots. |
| Dicom.DotsOnlyNameWritesNothing | dicom2img/dicom.py:33-41 | Converting `scans/...` without an output path writes nothing. |
| Dicom.Dicom2File | dicom2img/dicom.py:29-41 | The given output path is used, or else one in the input's directory. At most one save happens: the array exactly when that path's lower-cased extension is `.npy`, an image exactly when it is one of `IMG_EXT`. |
| Dicom.Dicom2Img | dicom2img/dicom.py:19-26 | There is no image exactly when there is no array. Otherwise the image is made from that array. |
| SeriesLoader.LexLeTotal | dicom2img/dicom2img.py:22 | Python's string order is total. |
| SeriesLoader.LexLeAntisymmetric | dicom2img/dicom2img.py:22 | Two strings that compare both ways are equal. |
| SeriesLoader.LexLeTransitive | dicom2img/dicom2img.py:22 | Python's string order is transitive. |
| SeriesLoader.Sort | dicom2img/dicom2img.py:22 | The reference sort rearranges its input. |
| SeriesLoader.SortSorted | dicom2img/dicom2img.py:22 | The reference sort's output is sorted. |
| SeriesLoader.SortedUnique | dicom2img/dicom2img.py:22 | Two sorted arrangements of the same names are equal. |
| SeriesLoader.SortedIsSort | dicom2img/dicom2img.py:22 | Any sorted rearrangement of a list is its reference sort. |
| SeriesLoader.SinkInto | dicom2img/dicom2img.py:22 | One insertion pass extends the sorted prefix by one. It keeps the array's contents as a multiset and leaves everything after the pass's position unchanged. |
| SeriesLoader.SortNames | dicom2img/dicom2img.py:22 | The in-place sort leaves the array holding the reference sort of its old contents. |
| SeriesLoader.SelectedNames | dicom2img/dicom2img.py:20-22 | The names read, in order. No contract of its own: `SelectedNamesSpec` states which names and in what order. |
| SeriesLoader.SelectedNamesSpec | dicom2img/dicom2img.py:20-22 | The selected names are sorted. They hold every listed name starting with `IM` as often as listed, and no other name. |
| SeriesLoader.DicomPaths | dicom2img/dicom2img.py:23 | One path per name: the name joined onto the directory. |
| SeriesLoader.KeepWithPixelData | dicom2img/dicom2img.py:24-28 | The reading loop returns the datasets with pixel data, in path order. |
| SeriesLoader.LoadDicomSeries | dicom2img/dicom2img.py:9-30 | The result is the datasets with pixel data read from the sorted `IM` files joined onto the directory. |

## Left out

- Decoding DICOM files and the DICOMDIR catalogue, and encoding PNG, JPEG and `.npy` files, are not modelled. The decoder is the parameter `read`; the writes are returned as values.
- Writing files and creating the output directory (`os.makedirs`) are not modelled. The progress bars and the command-line wrappers (`rich`, `jsonargparse`) are not modelled either.
- `dicomdir.py` imports `np2img`, `ImageType` and `IMAGE_EXT` from `dicom.py`, which defines none of them. The model declares its own `ImageType` with the three kinds `dicomdir2files` tests for (PNG, JPG, NPY). The extension `IMAGE_EXT[itype]` is the parameter `fileExt`. The conversion of an array to an image (`np2img`) and its `gain` parameter are not modelled.
- Depth normalisation and intensity rescaling are not modelled: neither `dicom.py` nor `dicomdir.py` has such a step.
- Failures to read one instance are not isolated: in the code, an exception while reading a layer ends the whole run. The model has this for a record without a path component, whose layer path is the DICOMDIR's own directory. For every other path, `read` is total, so a missing or unreadable referenced file is not modelled. The per-series `try` around stacking and saving is modelled, as `SaveVoxelGrids`'s `Failed` outcomes.
- Stacking follows encounter order, as the code does. Neither `dicomdir2files` nor the model sorts the layers of a series by instance number.
- A record missing one of its attributes raises `AttributeError`; this is not modelled. Each field group of a directory record is always present.
- `ReferencedFileID` is modelled as a list of path components. pydicom hands over a plain string when there is a single value; that case is not modelled.
- Missing attributes and values that do not match the declared field types are not modelled.
- `np.save` appends `.npy` to a path that does not end in lower-case `.npy`, so `scan.NPY` is saved to `scan.NPY.npy`. The model records the path `dicom2file` passes to `np.save`, not the file name NumPy chooses.
- Dicom.Lower: lower-cases ASCII letters only. Python's `str.lower` also maps a few non-ASCII characters to ASCII letters: the Kelvin sign becomes 'k', and 'İ' becomes 'i' followed by a combining dot. None of `.npy`, `.jpeg`, `.jpg` and `.png` contains those letters, so which save happens is the same as in Python.
- CSV quoting and the textual rendering of values (a list prints as its Python representation) are not modelled. The rows are kept as typed values.
- Path handling follows POSIX `posixpath`; Windows path rules are not modelled.
- `print(f'{e=}')` in the series loop is the recorded `Failed` outcome; the printed text is not modelled.
