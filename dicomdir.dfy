/** The DICOMDIR register: the flat record emitted for every IMAGE item of a DICOMDIR's
    Directory Record Sequence, the linear scan that builds it, and its CSV index rows. */
module Dicomdir {
  import opened Wrappers
  import Sequences

  const PATIENT: string := "PATIENT"
  const STUDY: string := "STUDY"
  const SERIES: string := "SERIES"
  const IMAGE: string := "IMAGE"

  datatype PatientFields = PatientFields(patientId: string, patientName: string)
  datatype StudyFields = StudyFields(studyDate: string, studyId: string, studyDescription: string)
  datatype SeriesFields = SeriesFields(seriesNumber: int, modality: string)
  datatype ImageFields = ImageFields(instanceNumber: int, referencedFileId: seq<string>)

  /** One item of the Directory Record Sequence as the DICOM decoder presents it: its
      DirectoryRecordType when it has that attribute, and the attributes each kind of record
      is read for (PatientID/PatientName, StudyDate/StudyID/StudyDescription,
      SeriesNumber/Modality, InstanceNumber/ReferencedFileID). */
  datatype DirectoryRecord = DirectoryRecord(
    recordType: Option<string>,
    patient: PatientFields,
    study: StudyFields,
    series: SeriesFields,
    image: ImageFields)

  /** The flattened register entry of one IMAGE record. */
  datatype DicomdirRecord = DicomdirRecord(
    patientId: string,
    patientName: string,
    studyDate: string,
    studyId: string,
    studyDescription: string,
    seriesNumber: int,
    modality: string,
    instanceNumber: int,
    referencedFileId: seq<string>)

  /** The fields of a register entry, in declaration order. */
  datatype Field =
    | PatientId | PatientName | StudyDate | StudyId | StudyDescription
    | SeriesNumber | Modality | InstanceNumber | ReferencedFileId

  const RecordFields: seq<Field> := [
    PatientId, PatientName, StudyDate, StudyId, StudyDescription,
    SeriesNumber, Modality, InstanceNumber, ReferencedFileId]

  /** The name `dataclasses.fields` gives a field. */
  function FieldName(f: Field): string
  {
    match f
    case PatientId => "patient_id"
    case PatientName => "patient_name"
    case StudyDate => "study_date"
    case StudyId => "study_id"
    case StudyDescription => "study_description"
    case SeriesNumber => "series_number"
    case Modality => "modality"
    case InstanceNumber => "instance_number"
    case ReferencedFileId => "referenced_file_id"
  }

  /** `DICOMDIR_KEYS`: the names of the register's fields in declaration order, the CSV header. */
  function DicomdirKeys(): (keys: seq<string>)
    ensures |keys| == |RecordFields| && forall i :: 0 <= i < |keys| ==> keys[i] == FieldName(RecordFields[i])
  {
    Sequences.Map(FieldName, RecordFields)
  }

  /** Every field is a column of the index. */
  lemma RecordFieldsComplete()
    ensures forall f :: f in RecordFields
  {
    forall f: Field ensures f in RecordFields {
      match f
      case PatientId => assert RecordFields[0] == f;
      case PatientName => assert RecordFields[1] == f;
      case StudyDate => assert RecordFields[2] == f;
      case StudyId => assert RecordFields[3] == f;
      case StudyDescription => assert RecordFields[4] == f;
      case SeriesNumber => assert RecordFields[5] == f;
      case Modality => assert RecordFields[6] == f;
      case InstanceNumber => assert RecordFields[7] == f;
      case ReferencedFileId => assert RecordFields[8] == f;
    }
  }

  /** Every column of the index is named once. */
  lemma DicomdirKeysDistinct()
    ensures forall i, j :: 0 <= i < j < |RecordFields| ==> RecordFields[i] != RecordFields[j]
    ensures forall i, j :: 0 <= i < j < |DicomdirKeys()| ==> DicomdirKeys()[i] != DicomdirKeys()[j]
  {
  }

  predicate IsOfType(r: DirectoryRecord, t: string)
  {
    r.recordType == Some(t)
  }

  /** No record of type `t` strictly between positions `j` and `i`. */
  ghost predicate NoneOfTypeBetween(rs: seq<DirectoryRecord>, t: string, j: int, i: int)
    requires -1 <= j && i <= |rs|
  {
    forall m :: j < m < i ==> !IsOfType(rs[m], t)
  }

  /** The last record of type `t` in `rs`: the nearest one preceding whatever comes next. */
  function Nearest(rs: seq<DirectoryRecord>, t: string): Option<DirectoryRecord>
    decreases |rs|
  {
    if rs == [] then None
    else if IsOfType(rs[|rs| - 1], t) then Some(rs[|rs| - 1])
    else Nearest(rs[..|rs| - 1], t)
  }

  /** Nearest finds nothing exactly when there is no record of the type, and otherwise a
      record of the type after which none of the type follows. */
  lemma {:induction false} NearestCharacterized(rs: seq<DirectoryRecord>, t: string)
    ensures Nearest(rs, t).None? <==> forall m :: 0 <= m < |rs| ==> !IsOfType(rs[m], t)
    ensures Nearest(rs, t).Some? ==>
      exists j :: 0 <= j < |rs| && rs[j] == Nearest(rs, t).value && IsOfType(rs[j], t)
                  && NoneOfTypeBetween(rs, t, j, |rs|)
    decreases |rs|
  {
    if rs != [] && !IsOfType(rs[|rs| - 1], t) {
      var init := rs[..|rs| - 1];
      NearestCharacterized(init, t);
      assert forall m :: 0 <= m < |init| ==> init[m] == rs[m];
    }
  }

  function PatientContext(rs: seq<DirectoryRecord>): Option<PatientFields>
  {
    match Nearest(rs, PATIENT)
    case None => None
    case Some(r) => Some(r.patient)
  }

  function StudyContext(rs: seq<DirectoryRecord>): Option<StudyFields>
  {
    match Nearest(rs, STUDY)
    case None => None
    case Some(r) => Some(r.study)
  }

  function SeriesContext(rs: seq<DirectoryRecord>): Option<SeriesFields>
  {
    match Nearest(rs, SERIES)
    case None => None
    case Some(r) => Some(r.series)
  }

  /** The ancestor level whose local is still unbound when an IMAGE record is reached:
      the scan raises UnboundLocalError on patient_id, study_date or series_number. */
  datatype Level = PatientLevel | StudyLevel | SeriesLevel
  datatype ScanError = Unbound(level: Level)

  ghost predicate HasOfType(rs: seq<DirectoryRecord>, t: string)
  {
    exists m :: 0 <= m < |rs| && IsOfType(rs[m], t)
  }

  /** Position `j` holds the nearest record of type `t` before the end of `rs`. */
  ghost predicate NearestAt(rs: seq<DirectoryRecord>, t: string, j: int)
  {
    0 <= j < |rs| && IsOfType(rs[j], t) && NoneOfTypeBetween(rs, t, j, |rs|)
  }

  /** The reference reading of a register entry: its patient, study and series fields are
      those of the nearest preceding record of each type, its instance number and file
      reference are the image's own. */
  ghost predicate EntryFits(before: seq<DirectoryRecord>, image: ImageFields, e: DicomdirRecord)
  {
    && (exists j :: NearestAt(before, PATIENT, j)
         && e.patientId == before[j].patient.patientId && e.patientName == before[j].patient.patientName)
    && (exists j :: NearestAt(before, STUDY, j)
         && e.studyDate == before[j].study.studyDate && e.studyId == before[j].study.studyId
         && e.studyDescription == before[j].study.studyDescription)
    && (exists j :: NearestAt(before, SERIES, j)
         && e.seriesNumber == before[j].series.seriesNumber && e.modality == before[j].series.modality)
    && e.instanceNumber == image.instanceNumber
    && e.referencedFileId == image.referencedFileId
  }

  /** The register entry for an IMAGE record preceded by `before`. The missing ancestor that
      fails is the first in the order the record's constructor arguments are evaluated. */
  function Emit(before: seq<DirectoryRecord>, image: ImageFields): (r: Result<DicomdirRecord, ScanError>)
    ensures r == Err(Unbound(PatientLevel)) <==> !HasOfType(before, PATIENT)
    ensures r == Err(Unbound(StudyLevel)) <==> HasOfType(before, PATIENT) && !HasOfType(before, STUDY)
    ensures r == Err(Unbound(SeriesLevel)) <==>
              HasOfType(before, PATIENT) && HasOfType(before, STUDY) && !HasOfType(before, SERIES)
    ensures r.Ok? <==> HasOfType(before, PATIENT) && HasOfType(before, STUDY) && HasOfType(before, SERIES)
    ensures r.Ok? ==> EntryFits(before, image, r.value)
  {
    NearestCharacterized(before, PATIENT);
    NearestCharacterized(before, STUDY);
    NearestCharacterized(before, SERIES);
    match (PatientContext(before), StudyContext(before), SeriesContext(before))
    case (None, _, _) => Err(Unbound(PatientLevel))
    case (Some(_), None, _) => Err(Unbound(StudyLevel))
    case (Some(_), Some(_), None) => Err(Unbound(SeriesLevel))
    case (Some(p), Some(st), Some(se)) =>
      Ok(DicomdirRecord(p.patientId, p.patientName, st.studyDate, st.studyId, st.studyDescription,
                        se.seriesNumber, se.modality, image.instanceNumber, image.referencedFileId))
  }

  /** The nearest record of a type is unique, so the reference reading fixes the entry. */
  lemma EntryFitsUnique(before: seq<DirectoryRecord>, image: ImageFields, e1: DicomdirRecord, e2: DicomdirRecord)
    requires EntryFits(before, image, e1) && EntryFits(before, image, e2)
    ensures e1 == e2
  {
    forall t: string, j1: int, j2: int | NearestAt(before, t, j1) && NearestAt(before, t, j2)
      ensures j1 == j2
    {
    }
  }

  /** The register of a whole record sequence: one entry per IMAGE record in document order,
      or the error of the first IMAGE record that lacks an ancestor. */
  function Flatten(rs: seq<DirectoryRecord>): Result<seq<DicomdirRecord>, ScanError>
    decreases |rs|
  {
    if rs == [] then Ok([])
    else
      var init, last := rs[..|rs| - 1], rs[|rs| - 1];
      match Flatten(init)
      case Err(e) => Err(e)
      case Ok(out) =>
        if !IsOfType(last, IMAGE) then Ok(out)
        else
          match Emit(init, last.image)
          case Err(e) => Err(e)
          case Ok(rec) => Ok(out + [rec])
  }

  /** Once a prefix has failed, the whole sequence fails with the same error. */
  lemma {:induction false} FlattenErrPersists(rs: seq<DirectoryRecord>, n: nat)
    requires n <= |rs| && Flatten(rs[..n]).Err?
    ensures Flatten(rs) == Flatten(rs[..n])
    decreases |rs| - n
  {
    if n < |rs| {
      var p := rs[..n + 1];
      assert p[..|p| - 1] == rs[..n];
      FlattenErrPersists(rs, n + 1);
    } else {
      assert rs[..n] == rs;
    }
  }

  /** The positions of the IMAGE records, in increasing order: every IMAGE record once. */
  function ImagePositions(rs: seq<DirectoryRecord>): (ps: seq<nat>)
    ensures forall k :: 0 <= k < |ps| ==> ps[k] < |rs| && IsOfType(rs[ps[k]], IMAGE)
    ensures forall k, l :: 0 <= k < l < |ps| ==> ps[k] < ps[l]
    ensures forall i :: 0 <= i < |rs| && IsOfType(rs[i], IMAGE) ==> i in ps
    decreases |rs|
  {
    if rs == [] then []
    else
      var init := rs[..|rs| - 1];
      var ps := ImagePositions(init);
      assert forall m :: 0 <= m < |init| ==> init[m] == rs[m];
      if IsOfType(rs[|rs| - 1], IMAGE) then ps + [|rs| - 1] else ps
  }

  /** Every IMAGE record is preceded by a PATIENT, a STUDY and a SERIES record. */
  ghost predicate WellFormed(rs: seq<DirectoryRecord>)
  {
    forall i :: 0 <= i < |rs| && IsOfType(rs[i], IMAGE) ==>
      HasOfType(rs[..i], PATIENT) && HasOfType(rs[..i], STUDY) && HasOfType(rs[..i], SERIES)
  }

  /** The register succeeds exactly when every IMAGE record yields an entry; it then has one
      entry per IMAGE record, in document order, each the entry of that record. */
  lemma {:induction false} FlattenEntries(rs: seq<DirectoryRecord>)
    ensures Flatten(rs).Ok? <==>
              forall i :: 0 <= i < |rs| && IsOfType(rs[i], IMAGE) ==> Emit(rs[..i], rs[i].image).Ok?
    ensures Flatten(rs).Ok? ==>
              var out, ps := Flatten(rs).value, ImagePositions(rs);
              |out| == |ps| && forall k :: 0 <= k < |ps| ==> Emit(rs[..ps[k]], rs[ps[k]].image) == Ok(out[k])
    decreases |rs|
  {
    if rs != [] {
      var init, last := rs[..|rs| - 1], rs[|rs| - 1];
      FlattenEntries(init);
      assert forall i :: 0 <= i <= |init| ==> rs[..i] == init[..i];
      assert forall i :: 0 <= i < |init| ==> rs[i] == init[i];
    }
  }

  /** A failing register is the failure of the first IMAGE record lacking an ancestor: every
      earlier IMAGE record yields an entry, and nothing partial is returned. */
  lemma {:induction false} FlattenFailure(rs: seq<DirectoryRecord>)
    requires Flatten(rs).Err?
    ensures exists i :: 0 <= i < |rs| && IsOfType(rs[i], IMAGE)
                        && Emit(rs[..i], rs[i].image) == Err(Flatten(rs).error)
                        && forall m :: 0 <= m < i && IsOfType(rs[m], IMAGE) ==> Emit(rs[..m], rs[m].image).Ok?
    decreases |rs|
  {
    var init, last := rs[..|rs| - 1], rs[|rs| - 1];
    assert forall i :: 0 <= i <= |init| ==> rs[..i] == init[..i];
    assert forall i :: 0 <= i < |init| ==> rs[i] == init[i];
    if Flatten(init).Err? {
      FlattenFailure(init);
    } else {
      FlattenEntries(init);
      assert rs[..|rs| - 1] == init;
    }
  }

  /** The scan fails exactly on record sequences that are not well formed. */
  lemma FlattenOkIffWellFormed(rs: seq<DirectoryRecord>)
    ensures Flatten(rs).Ok? <==> WellFormed(rs)
  {
    FlattenEntries(rs);
  }

  /** The nearest record of a type is unaffected by inserting a record of another type. */
  lemma {:induction false} NearestIgnoresOthers(a: seq<DirectoryRecord>, u: DirectoryRecord,
                                                  b: seq<DirectoryRecord>, t: string)
    requires !IsOfType(u, t)
    ensures Nearest(a + [u] + b, t) == Nearest(a + b, t)
    decreases |b|
  {
    var x, y := a + [u] + b, a + b;
    if b == [] {
      assert x[..|x| - 1] == a && y == a;
    } else {
      var init := b[..|b| - 1];
      assert x[..|x| - 1] == a + [u] + init && x[|x| - 1] == b[|b| - 1];
      assert y[..|y| - 1] == a + init && y[|y| - 1] == b[|b| - 1];
      NearestIgnoresOthers(a, u, init, t);
    }
  }

  /** An item without a DirectoryRecordType, or of a type other than PATIENT, STUDY, SERIES
      and IMAGE, has no effect wherever it stands: the carried fields are left unchanged. */
  lemma {:induction false} FlattenIgnoresOthers(a: seq<DirectoryRecord>, u: DirectoryRecord,
                                                  b: seq<DirectoryRecord>)
    requires !IsOfType(u, PATIENT) && !IsOfType(u, STUDY) && !IsOfType(u, SERIES) && !IsOfType(u, IMAGE)
    ensures Flatten(a + [u] + b) == Flatten(a + b)
    decreases |b|
  {
    var x, y := a + [u] + b, a + b;
    if b == [] {
      assert x[..|x| - 1] == a && y == a;
    } else {
      var init := b[..|b| - 1];
      assert x[..|x| - 1] == a + [u] + init && x[|x| - 1] == b[|b| - 1];
      assert y[..|y| - 1] == a + init && y[|y| - 1] == b[|b| - 1];
      FlattenIgnoresOthers(a, u, init);
      NearestIgnoresOthers(a, u, init, PATIENT);
      NearestIgnoresOthers(a, u, init, STUDY);
      NearestIgnoresOthers(a, u, init, SERIES);
    }
  }

  /** `dicomdir2records`: one pass over the Directory Record Sequence carrying the fields of
      the most recently seen PATIENT, STUDY and SERIES records, appending a register entry
      for each IMAGE record. Items without a DirectoryRecordType and items of any other type
      change nothing. */
  method DicomdirToRecords(directoryRecords: seq<DirectoryRecord>)
    returns (res: Result<seq<DicomdirRecord>, ScanError>)
    ensures res == Flatten(directoryRecords)
  {
    var records: seq<DicomdirRecord> := [];
    var patient: Option<PatientFields> := None;
    var study: Option<StudyFields> := None;
    var series: Option<SeriesFields> := None;
    for i := 0 to |directoryRecords|
      invariant Flatten(directoryRecords[..i]) == Ok(records)
      invariant patient == PatientContext(directoryRecords[..i])
      invariant study == StudyContext(directoryRecords[..i])
      invariant series == SeriesContext(directoryRecords[..i])
    {
      var record := directoryRecords[i];
      ghost var seen := directoryRecords[..i + 1];
      assert seen[..i] == directoryRecords[..i] && seen[i] == record;
      if record.recordType.None? {
        continue;
      }
      var recordType := record.recordType.value;
      if recordType == PATIENT {
        patient := Some(record.patient);
      } else if recordType == STUDY {
        study := Some(record.study);
      } else if recordType == SERIES {
        series := Some(record.series);
      } else if recordType == IMAGE {
        if patient.None? {
          FlattenErrPersists(directoryRecords, i + 1);
          return Err(Unbound(PatientLevel));
        }
        if study.None? {
          FlattenErrPersists(directoryRecords, i + 1);
          return Err(Unbound(StudyLevel));
        }
        if series.None? {
          FlattenErrPersists(directoryRecords, i + 1);
          return Err(Unbound(SeriesLevel));
        }
        var p, st, se := patient.value, study.value, series.value;
        records := records + [DicomdirRecord(p.patientId, p.patientName, st.studyDate, st.studyId,
                                             st.studyDescription, se.seriesNumber, se.modality,
                                             record.image.instanceNumber, record.image.referencedFileId)];
      }
    }
    assert directoryRecords[..|directoryRecords|] == directoryRecords;
    return Ok(records);
  }

  /** A value of the CSV index as `asdict` hands it to the writer. */
  datatype CsvValue = Text(text: string) | Number(number: int) | Components(components: seq<string>)

  /** The value a register entry holds in a field. */
  function FieldValue(r: DicomdirRecord, f: Field): CsvValue
  {
    match f
    case PatientId => Text(r.patientId)
    case PatientName => Text(r.patientName)
    case StudyDate => Text(r.studyDate)
    case StudyId => Text(r.studyId)
    case StudyDescription => Text(r.studyDescription)
    case SeriesNumber => Number(r.seriesNumber)
    case Modality => Text(r.modality)
    case InstanceNumber => Number(r.instanceNumber)
    case ReferencedFileId => Components(r.referencedFileId)
  }

  /** `dataclasses.asdict(record)`: one entry per field, holding that field's value. */
  function AsDict(r: DicomdirRecord): (d: map<Field, CsvValue>)
    ensures forall f :: f in d && d[f] == FieldValue(r, f)
  {
    RecordFieldsComplete();
    map f: Field | f in RecordFields :: FieldValue(r, f)
  }

  /** `csv.DictWriter(out, fieldnames).writerow(d)`: refused when `d` has a key that is not a
      column; otherwise the values in column order, the empty text for a missing key. */
  function DictRow(fieldnames: seq<Field>, d: map<Field, CsvValue>): (r: Result<seq<CsvValue>, string>)
    ensures r.Ok? <==> forall f :: f in d ==> f in fieldnames
    ensures r.Ok? ==> |r.value| == |fieldnames|
    ensures r.Ok? ==> forall i :: 0 <= i < |fieldnames| ==>
                        r.value[i] == if fieldnames[i] in d then d[fieldnames[i]] else Text("")
  {
    if !(d.Keys <= set f | f in fieldnames) then Err("dict contains fields not in fieldnames")
    else Ok(Sequences.Map((f: Field) => if f in d then d[f] else Text(""), fieldnames))
  }

  /** Reading a CSV row of the index back into a register entry. */
  function RecordOfRow(row: seq<CsvValue>): Option<DicomdirRecord>
  {
    if |row| == 9 && row[0].Text? && row[1].Text? && row[2].Text? && row[3].Text? && row[4].Text?
       && row[5].Number? && row[6].Text? && row[7].Number? && row[8].Components?
    then Some(DicomdirRecord(row[0].text, row[1].text, row[2].text, row[3].text, row[4].text,
                             row[5].number, row[6].text, row[7].number, row[8].components))
    else None
  }

  /** `records2csv` without the file: the data rows under the header `DicomdirKeys()`, one per
      entry, or the writer's refusal of the first entry it cannot write. */
  function CsvRows(records: seq<DicomdirRecord>): Result<seq<seq<CsvValue>>, string>
    decreases |records|
  {
    if records == [] then Ok([])
    else
      match CsvRows(records[..|records| - 1])
      case Err(e) => Err(e)
      case Ok(rows) =>
        match DictRow(RecordFields, AsDict(records[|records| - 1]))
        case Err(e) => Err(e)
        case Ok(row) => Ok(rows + [row])
  }

  /** The index holds every entry: the writer accepts every row, there is one row per entry
      and each row reads back as its entry, field for field. */
  lemma {:induction false} CsvRowsRoundTrip(records: seq<DicomdirRecord>)
    ensures CsvRows(records).Ok?
    ensures |CsvRows(records).value| == |records|
    ensures forall k :: 0 <= k < |records| ==> RecordOfRow(CsvRows(records).value[k]) == Some(records[k])
    decreases |records|
  {
    if records != [] {
      var init, last := records[..|records| - 1], records[|records| - 1];
      CsvRowsRoundTrip(init);
      RowRoundTrip(last);
      var rows, row := CsvRows(init).value, DictRow(RecordFields, AsDict(last)).value;
      assert CsvRows(records) == Ok(rows + [row]);
      forall k | 0 <= k < |records|
        ensures RecordOfRow((rows + [row])[k]) == Some(records[k])
      {
        if k < |init| {
          assert (rows + [row])[k] == rows[k] && records[k] == init[k];
        }
      }
    }
  }

  /** The writer accepts an entry's dictionary and puts each field's value in its column. */
  lemma RowValues(r: DicomdirRecord)
    ensures DictRow(RecordFields, AsDict(r)).Ok?
    ensures |DictRow(RecordFields, AsDict(r)).value| == |RecordFields|
    ensures forall i :: 0 <= i < |RecordFields| ==>
              DictRow(RecordFields, AsDict(r)).value[i] == FieldValue(r, RecordFields[i])
  {
    RecordFieldsComplete();
  }

  /** The row of an entry's fields in column order. */
  function FieldRow(r: DicomdirRecord): seq<CsvValue>
  {
    [Text(r.patientId), Text(r.patientName), Text(r.studyDate), Text(r.studyId),
     Text(r.studyDescription), Number(r.seriesNumber), Text(r.modality),
     Number(r.instanceNumber), Components(r.referencedFileId)]
  }

  lemma FieldRowReadsBack(r: DicomdirRecord)
    ensures RecordOfRow(FieldRow(r)) == Some(r)
  {
  }

  /** One entry's row is accepted by the writer and reads back as the entry. */
  lemma RowRoundTrip(r: DicomdirRecord)
    ensures DictRow(RecordFields, AsDict(r)).Ok?
    ensures RecordOfRow(DictRow(RecordFields, AsDict(r)).value) == Some(r)
  {
    assert DictRow(RecordFields, AsDict(r)).value == FieldRow(r) by {
      RowValues(r);
    }
    FieldRowReadsBack(r);
  }
}
