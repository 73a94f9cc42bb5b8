/** The store of all areas, keyed by local authority code, and the importers that fill it
    from the authority code CSV file and from StatsWales JSON records. */
module AreasModel {
  import opened Wrappers
  import opened StdLib
  import BethYw
  import opened MeasureModel
  import opened AreaModel

  /** The kinds of input file (BethYw::SourceDataType). */
  datatype SourceDataType = AuthorityCodeCSV | WelshStatsJSON | AuthorityByYearCSV

  /** The columns a column mapping can name (BethYw::SourceColumn). */
  datatype SourceColumn =
    | AuthCode | AuthNameEng | MeasureCode | MeasureName
    | SingleMeasureCode | SingleMeasureName | Year | Value

  const NoAreaMessage := "No area found matching "
  const ColumnsMessage := "Not enough columns in cols mapping!"
  const RowMessage := "Line does not have three comma separated values!"
  const UnexpectedTypeMessage := "Areas::populate: Unexpected data type"

  /** The store as a value: authority code to area. */
  type Store = map<string, AreaValue>

  predicate WellFormedStore(store: Store)
  {
    forall code :: code in store ==> WellFormed(store[code])
  }

  /** What setArea leaves: a new code receives the area, an existing one the merge of the
      stored area with it. */
  function WithArea(store: Store, code: string, area: AreaValue): Store
  {
    if code in store then store[code := MergeArea(store[code], area)] else store[code := area]
  }

  lemma WithAreaWellFormed(store: Store, code: string, area: AreaValue)
    requires WellFormedStore(store) && WellFormed(area)
    ensures WellFormedStore(WithArea(store, code, area))
  {
    if code in store {
      MergeAreaWellFormed(store[code], area);
    }
  }

  /** Nothing stored in `before` is lost in `after`: every area, every name language, every
      measure and every year of a measure is still there. */
  ghost predicate Keeps(before: Store, after: Store)
  {
    forall code :: code in before ==>
      code in after &&
      before[code].names.Keys <= after[code].names.Keys &&
      forall key :: key in before[code].measures ==>
        key in after[code].measures &&
        before[code].measures[key].values.Keys <= after[code].measures[key].values.Keys
  }

  lemma KeepsTransitive(a: Store, b: Store, c: Store)
    requires Keeps(a, b) && Keeps(b, c)
    ensures Keeps(a, c)
  {
  }

  /** setArea loses nothing, and the area it was given is then all present under its code. */
  lemma WithAreaKeeps(store: Store, code: string, area: AreaValue)
    ensures Keeps(store, WithArea(store, code, area))
    ensures Keeps(map[code := area], WithArea(store, code, area))
  {
    if code in store {
      MergeAreaLosesNothing(store[code], area);
    }
  }

  // ---------------------------------------------------------------------------------------
  // The authority code CSV file
  // ---------------------------------------------------------------------------------------

  /** The lines after the heading line, which is read and thrown away. */
  function DataRows(lines: seq<string>): seq<string>
  {
    if lines == [] then [] else lines[1..]
  }

  /** The CSV importer's row filter: no filter, an empty filter, or one holding the code. */
  predicate AdmitsArea(areasFilter: Option<set<string>>, code: string)
  {
    areasFilter.None? || areasFilter.value == {} || code in areasFilter.value
  }

  /** The area a row describes: its code and its English and Welsh names. */
  function RowArea(code: string, eng: string, cym: string): AreaValue
  {
    AreaValue(code, map["eng" := eng, "cym" := cym], map[])
  }

  /** The two language codes the importers use are accepted by setName and stored as they are. */
  lemma LanguageCodesLowered()
    ensures IsLanguageCode("eng") && BethYw.Lowered("eng") == "eng"
    ensures IsLanguageCode("cym") && BethYw.Lowered("cym") == "cym"
  {
    BethYw.LoweredWithoutUpper("eng");
    BethYw.LoweredWithoutUpper("cym");
  }

  /** The store an import leaves, and whether it completed or threw. */
  datatype Imported = Imported(store: Store, outcome: Outcome)

  /** The rows imported in order: a row with an empty first, second or third field stops the
      import with runtime_error, keeping what earlier rows merged; an admitted row is merged
      in with setArea. */
  function ImportCsvRows(store: Store, rows: seq<string>, areasFilter: Option<set<string>>): Imported
    decreases |rows|
  {
    if rows == [] then Imported(store, Pass)
    else
      var code := CommaField(rows[0], 0);
      var eng := CommaField(rows[0], 1);
      var cym := CommaField(rows[0], 2);
      if code == "" || eng == "" || cym == "" then Imported(store, Fail(RuntimeError(RowMessage)))
      else
        var next := if AdmitsArea(areasFilter, code) then WithArea(store, code, RowArea(code, eng, cym)) else store;
        ImportCsvRows(next, rows[1..], areasFilter)
  }

  /** populateFromAuthorityCodeCSV on values: a column mapping without exactly three entries
      fails before any line is read. */
  function ImportCsv(store: Store, lines: seq<string>, cols: map<SourceColumn, string>,
                     areasFilter: Option<set<string>>): Imported
  {
    if |cols| != 3 then Imported(store, Fail(OutOfRange(ColumnsMessage)))
    else ImportCsvRows(store, DataRows(lines), areasFilter)
  }

  /** Importing two runs of rows is importing the first, then, if it completed, the second. */
  lemma {:induction false} ImportCsvRowsAppend(store: Store, a: seq<string>, b: seq<string>,
                                               areasFilter: Option<set<string>>)
    ensures var first := ImportCsvRows(store, a, areasFilter);
            ImportCsvRows(store, a + b, areasFilter) ==
              if first.outcome.Pass? then ImportCsvRows(first.store, b, areasFilter) else first
    decreases |a|
  {
    if a == [] {
      assert a + b == b;
    } else {
      assert (a + b)[0] == a[0];
      assert (a + b)[1..] == a[1..] + b;
      var code := CommaField(a[0], 0);
      var eng := CommaField(a[0], 1);
      var cym := CommaField(a[0], 2);
      if !(code == "" || eng == "" || cym == "") {
        var next := if AdmitsArea(areasFilter, code) then WithArea(store, code, RowArea(code, eng, cym)) else store;
        ImportCsvRowsAppend(next, a[1..], b, areasFilter);
      }
    }
  }

  /** A row with an empty field stops the import with runtime_error; the areas merged by the
      rows before it stay, and no later row is read. */
  lemma BadRowStopsImport(store: Store, good: seq<string>, bad: string, rest: seq<string>,
                          areasFilter: Option<set<string>>)
    requires ImportCsvRows(store, good, areasFilter).outcome.Pass?
    requires CommaField(bad, 0) == "" || CommaField(bad, 1) == "" || CommaField(bad, 2) == ""
    ensures ImportCsvRows(store, good + [bad] + rest, areasFilter) ==
            Imported(ImportCsvRows(store, good, areasFilter).store, Fail(RuntimeError(RowMessage)))
  {
    assert good + [bad] + rest == good + ([bad] + rest);
    ImportCsvRowsAppend(store, good, [bad] + rest, areasFilter);
  }

  /** A row `code,eng,cym` (optionally followed by more fields, which are ignored) merges the
      area with those two names when the filter admits the code, and changes nothing
      otherwise. */
  lemma ImportOneRow(store: Store, code: string, eng: string, cym: string, tail: string,
                     areasFilter: Option<set<string>>)
    requires code != "" && eng != "" && cym != ""
    requires ',' !in code && ',' !in eng && ',' !in cym
    requires tail == [] || tail[0] == ','
    ensures var r := ImportCsvRows(store, [code + "," + eng + "," + cym + tail], areasFilter);
            r.outcome == Pass &&
            r.store == (if AdmitsArea(areasFilter, code) then WithArea(store, code, RowArea(code, eng, cym)) else store) &&
            (code in r.store <==> code in store || AdmitsArea(areasFilter, code)) &&
            (AdmitsArea(areasFilter, code) ==> r.store[code].names["eng"] == eng && r.store[code].names["cym"] == cym)
  {
    CommaFieldsOfRow(code, eng, cym, tail);
    var row := code + "," + eng + "," + cym + tail;
    assert [row][1..] == [];
  }

  /** The CSV import loses nothing already stored, whether it completes or throws. */
  lemma {:induction false} ImportCsvRowsKeeps(store: Store, rows: seq<string>, areasFilter: Option<set<string>>)
    ensures Keeps(store, ImportCsvRows(store, rows, areasFilter).store)
    decreases |rows|
  {
    if rows != [] {
      var code := CommaField(rows[0], 0);
      var eng := CommaField(rows[0], 1);
      var cym := CommaField(rows[0], 2);
      if !(code == "" || eng == "" || cym == "") {
        var next := if AdmitsArea(areasFilter, code) then WithArea(store, code, RowArea(code, eng, cym)) else store;
        if AdmitsArea(areasFilter, code) {
          WithAreaKeeps(store, code, RowArea(code, eng, cym));
        }
        ImportCsvRowsKeeps(next, rows[1..], areasFilter);
        KeepsTransitive(store, next, ImportCsvRows(next, rows[1..], areasFilter).store);
      }
    }
  }

  // ---------------------------------------------------------------------------------------
  // StatsWales JSON records
  // ---------------------------------------------------------------------------------------

  /** One element of the JSON `value` array, with the fields the column mapping names already
      read out of it. */
  datatype JsonRecord = JsonRecord(authorityCode: string, authorityNameEng: string,
                                   measureCode: string, measureName: string,
                                   year: Int32, value: real)

  /** The JSON importer's inputs besides the records: the area and measure filters, the
      inclusive year range, whether the file is the train dataset, and that dataset's fixed
      measure code and label. */
  datatype JsonSettings = JsonSettings(areasFilter: set<string>, measuresFilter: set<string>,
                                       yearsFilter: (UInt32, UInt32), isTrainDataset: bool,
                                       trainMeasureCode: string, trainMeasureName: string)

  function RecordMeasureCode(settings: JsonSettings, rec: JsonRecord): string
  {
    if settings.isTrainDataset then settings.trainMeasureCode else rec.measureCode
  }

  function RecordMeasureLabel(settings: JsonSettings, rec: JsonRecord): string
  {
    if settings.isTrainDataset then settings.trainMeasureName else rec.measureName
  }

  /** The three filters: the code and the measure code are in their sets (or the set is empty),
      and the year, converted to unsigned as the comparison with the unsigned bounds does,
      lies in the inclusive range. */
  predicate AdmitsRecord(settings: JsonSettings, rec: JsonRecord)
  {
    (settings.areasFilter == {} || rec.authorityCode in settings.areasFilter) &&
    (settings.measuresFilter == {} || RecordMeasureCode(settings, rec) in settings.measuresFilter) &&
    settings.yearsFilter.0 <= ToUnsigned(rec.year) <= settings.yearsFilter.1
  }

  /** What a record does to the measures of its area: when getMeasure finds the measure code
      as given, setValue on that measure; otherwise a new measure with the record's label
      gets the year's value and is set on the area with setMeasure (which lower-cases the
      code and merges into a measure already stored under it). */
  function SetYearValue(measures: map<string, MeasureValue>, measureCode: string, measureLabel: string,
                        year: UInt32, value: real): map<string, MeasureValue>
  {
    match FindMeasure(measures, measureCode)
    case Success(measure) =>
      measures[measureCode := WithValue(measure, year, value)]
    case Failure(_) =>
      var newMeasure := MeasureValue(BethYw.Lowered(measureCode), measureLabel, map[]);
      Upsert(measures, BethYw.Lowered(measureCode), WithValue(newMeasure, year, value))
  }

  /** The measure code a record's value is stored under is the lower-cased code: the code as
      given when getMeasure finds it (stored keys are lower-case), the code setMeasure
      lower-cases otherwise. No key is lost, and the keys stay lower-case. */
  lemma SetYearValueKeys(measures: map<string, MeasureValue>, measureCode: string, measureLabel: string,
                         year: UInt32, value: real)
    requires forall k :: k in measures ==> IsLowered(k)
    ensures SetYearValue(measures, measureCode, measureLabel, year, value).Keys ==
            measures.Keys + {BethYw.Lowered(measureCode)}
    ensures forall k :: k in SetYearValue(measures, measureCode, measureLabel, year, value) ==> IsLowered(k)
  {
    BethYw.LoweredIsIdempotent(measureCode);
    if measureCode in measures {
      IsLoweredIff(measureCode);
    }
  }

  /** With lower-case keys, the value ends up under the year in the measure stored under the
      lower-cased code (a measure already there keeps its label and its other years; a measure
      created for the record has the lower-cased code, the record's label and only that year),
      and no other measure changes. */
  lemma SetYearValueEffect(measures: map<string, MeasureValue>, measureCode: string, measureLabel: string,
                           year: UInt32, value: real)
    requires forall k :: k in measures ==> IsLowered(k)
    ensures var r := SetYearValue(measures, measureCode, measureLabel, year, value);
            var key := BethYw.Lowered(measureCode);
            key in r && ToSigned(year) in r[key].values && r[key].values[ToSigned(year)] == value &&
            (forall k :: k in measures && k != key ==> r[k] == measures[k]) &&
            (forall k :: k in measures ==> k in r && measures[k].values.Keys <= r[k].values.Keys) &&
            (key in measures ==>
               r[key].labelText == measures[key].labelText &&
               forall y :: y in measures[key].values && y != ToSigned(year) ==>
                 r[key].values[y] == measures[key].values[y]) &&
            (key !in measures ==> r[key] == MeasureValue(key, measureLabel, map[ToSigned(year) := value]))
  {
    var key := BethYw.Lowered(measureCode);
    if measureCode in measures {
      IsLoweredIff(measureCode);
      assert key == measureCode;
    } else {
      var added := WithValue(MeasureValue(key, measureLabel, map[]), year, value);
      assert SetYearValue(measures, measureCode, measureLabel, year, value) == Upsert(measures, key, added);
      if key in measures {
        MergeMeasureContents(measures[key], added);
      }
    }
  }

  /** What one record does to the store: nothing unless it passes the filters and its area is
      already stored; then the area's measures take the year's value. */
  function ApplyRecord(store: Store, settings: JsonSettings, rec: JsonRecord): Store
  {
    if !AdmitsRecord(settings, rec) || rec.authorityCode !in store then store
    else
      var area := store[rec.authorityCode];
      var measures := SetYearValue(area.measures, RecordMeasureCode(settings, rec),
                                   RecordMeasureLabel(settings, rec), ToUnsigned(rec.year), rec.value);
      store[rec.authorityCode := area.(measures := measures)]
  }

  /** The records applied in order. */
  function ApplyRecords(store: Store, settings: JsonSettings, records: seq<JsonRecord>): Store
    decreases |records|
  {
    if records == [] then store else ApplyRecords(ApplyRecord(store, settings, records[0]), settings, records[1..])
  }

  /** A record that passes the filters and names a stored area leaves its value under its year
      in the measure stored under the lower-cased measure code; every other area, the names,
      every other measure of that area, and the label and every other year of that measure
      stay as they were. A measure the record creates holds the record's label and only its
      year. */
  lemma JsonRecordEffect(store: Store, settings: JsonSettings, rec: JsonRecord)
    requires WellFormedStore(store)
    requires AdmitsRecord(settings, rec) && rec.authorityCode in store
    ensures var r := ApplyRecord(store, settings, rec);
            var code := rec.authorityCode;
            var key := BethYw.Lowered(RecordMeasureCode(settings, rec));
            r.Keys == store.Keys &&
            (forall c :: c in store && c != code ==> r[c] == store[c]) &&
            r[code].names == store[code].names &&
            key in r[code].measures && rec.year in r[code].measures[key].values &&
            r[code].measures[key].values[rec.year] == rec.value &&
            (forall k :: k in store[code].measures && k != key ==> r[code].measures[k] == store[code].measures[k]) &&
            (forall y :: key in store[code].measures && y in store[code].measures[key].values && y != rec.year ==>
               r[code].measures[key].values[y] == store[code].measures[key].values[y]) &&
            (key in store[code].measures ==>
               r[code].measures[key].labelText == store[code].measures[key].labelText) &&
            (key !in store[code].measures ==>
               r[code].measures[key] == MeasureValue(key, RecordMeasureLabel(settings, rec), map[rec.year := rec.value]))
  {
    SignedOfUnsigned(rec.year);
    SetYearValueKeys(store[rec.authorityCode].measures, RecordMeasureCode(settings, rec),
                     RecordMeasureLabel(settings, rec), ToUnsigned(rec.year), rec.value);
    SetYearValueEffect(store[rec.authorityCode].measures, RecordMeasureCode(settings, rec),
                       RecordMeasureLabel(settings, rec), ToUnsigned(rec.year), rec.value);
  }

  /** A record changes the store only when it passes all three filters and its area is
      already stored. */
  lemma JsonRecordChangesOnlyAdmitted(store: Store, settings: JsonSettings, rec: JsonRecord)
    ensures ApplyRecord(store, settings, rec) != store ==> AdmitsRecord(settings, rec) && rec.authorityCode in store
  {
  }

  /** With the years filter (0, 0) only year 0 passes: the range is taken literally. */
  lemma ZeroYearsFilterAdmitsOnlyYearZero(settings: JsonSettings, rec: JsonRecord)
    requires settings.yearsFilter == (0, 0)
    ensures AdmitsRecord(settings, rec) ==> rec.year == 0
  {
    SignedOfUnsigned(rec.year);
  }

  /** The JSON import never adds an area, keeps the store well-formed and loses nothing. */
  lemma {:induction false} ApplyRecordsInvariants(store: Store, settings: JsonSettings, records: seq<JsonRecord>)
    requires WellFormedStore(store)
    ensures ApplyRecords(store, settings, records).Keys == store.Keys
    ensures WellFormedStore(ApplyRecords(store, settings, records))
    ensures Keeps(store, ApplyRecords(store, settings, records))
    decreases |records|
  {
    if records != [] {
      var next := ApplyRecord(store, settings, records[0]);
      ApplyRecordInvariants(store, settings, records[0]);
      ApplyRecordsInvariants(next, settings, records[1..]);
      KeepsTransitive(store, next, ApplyRecords(next, settings, records[1..]));
    }
  }

  lemma ApplyRecordInvariants(store: Store, settings: JsonSettings, rec: JsonRecord)
    requires WellFormedStore(store)
    ensures ApplyRecord(store, settings, rec).Keys == store.Keys
    ensures WellFormedStore(ApplyRecord(store, settings, rec))
    ensures Keeps(store, ApplyRecord(store, settings, rec))
  {
    if AdmitsRecord(settings, rec) && rec.authorityCode in store {
      SetYearValueKeys(store[rec.authorityCode].measures, RecordMeasureCode(settings, rec),
                       RecordMeasureLabel(settings, rec), ToUnsigned(rec.year), rec.value);
      SetYearValueEffect(store[rec.authorityCode].measures, RecordMeasureCode(settings, rec),
                         RecordMeasureLabel(settings, rec), ToUnsigned(rec.year), rec.value);
    }
  }

  // ---------------------------------------------------------------------------------------
  // The Areas class
  // ---------------------------------------------------------------------------------------

  class Areas {
    /** std::map<std::string, Area> holds its areas by value: a map of area values. */
    var areas: Store

    ghost predicate Valid()
      reads this
    {
      WellFormedStore(areas)
    }

    /** Areas::Areas: an empty store. */
    constructor ()
      ensures Valid() && areas == map[]
    {
      areas := map[];
    }

    /** Areas::setArea: a copy of the area goes in under a new code; at an existing code the
        stored area is assigned (merged with) it. */
    method SetArea(localAuthorityCode: string, area: Area)
      requires Valid() && area.Valid()
      modifies this
      ensures Valid()
      ensures areas == WithArea(old(areas), localAuthorityCode, area.Value())
      ensures |areas| == |old(areas)| + (if localAuthorityCode in old(areas) then 0 else 1)
    {
      if localAuthorityCode !in areas {
        areas := areas[localAuthorityCode := area.Value()];
      } else {
        areas := areas[localAuthorityCode := MergeArea(areas[localAuthorityCode], area.Value())];
      }
      WithAreaWellFormed(old(areas), localAuthorityCode, area.Value());
    }

    /** Areas::getArea: the stored area, or out_of_range naming the code. */
    function GetArea(localAuthorityCode: string): (r: Result<AreaValue>)
      reads this
      ensures r.Success? <==> localAuthorityCode in areas
      ensures r.Success? ==> r.value == areas[localAuthorityCode]
      ensures r.Failure? ==> r.error == OutOfRange(NoAreaMessage + localAuthorityCode)
    {
      if localAuthorityCode in areas then Success(areas[localAuthorityCode])
      else Failure(OutOfRange(NoAreaMessage + localAuthorityCode))
    }

    /** Areas::size: the number of areas. */
    function Size(): (n: nat)
      reads this
      ensures n == |areas.Keys|
    {
      |areas|
    }

    /** Areas::populateFromAuthorityCodeCSV over the lines of the file. */
    method PopulateFromAuthorityCodeCSV(lines: seq<string>, cols: map<SourceColumn, string>,
                                        areasFilter: Option<set<string>>) returns (outcome: Outcome)
      requires Valid()
      modifies this
      ensures Valid()
      ensures Imported(areas, outcome) == ImportCsv(old(areas), lines, cols, areasFilter)
    {
      if |cols| != 3 {
        return Fail(OutOfRange(ColumnsMessage));
      }
      var rows := DataRows(lines);
      var i := 0;
      while i < |rows|
        invariant 0 <= i <= |rows|
        invariant Valid()
        invariant ImportCsvRows(areas, rows[i..], areasFilter) == ImportCsvRows(old(areas), rows, areasFilter)
      {
        var line := rows[i];
        var authorityCode := CommaField(line, 0);
        var englishName := CommaField(line, 1);
        var welshName := CommaField(line, 2);
        if authorityCode == "" || englishName == "" || welshName == "" {
          assert ImportCsvRows(areas, rows[i..], areasFilter) == Imported(areas, Fail(RuntimeError(RowMessage))) by {
            assert rows[i..][0] == line;
          }
          return Fail(RuntimeError(RowMessage));
        }
        ghost var before := areas;
        if areasFilter.None? || areasFilter.value == {} || authorityCode in areasFilter.value {
          AddRowArea(authorityCode, englishName, welshName);
        }
        assert ImportCsvRows(before, rows[i..], areasFilter) == ImportCsvRows(areas, rows[i + 1..], areasFilter) by {
          assert rows[i..][0] == line && rows[i..][1..] == rows[i + 1..];
        }
        i := i + 1;
      }
      assert rows[i..] == [];
      return Pass;
    }

    /** What populateFromAuthorityCodeCSV does with an admitted row: a new area named in
        English and in Welsh, stored with setArea. */
    method AddRowArea(authorityCode: string, englishName: string, welshName: string)
      requires Valid()
      modifies this
      ensures Valid()
      ensures areas == WithArea(old(areas), authorityCode, RowArea(authorityCode, englishName, welshName))
    {
      LanguageCodesLowered();
      var newArea := new Area(authorityCode);
      var named := newArea.SetName("eng", englishName);
      named := newArea.SetName("cym", welshName);
      SetArea(authorityCode, newArea);
    }

    /** Areas::populateFromWelshStatsJSON over the already decoded records. */
    method PopulateFromWelshStatsJSON(records: seq<JsonRecord>, settings: JsonSettings)
      requires Valid()
      modifies this
      ensures Valid()
      ensures areas == ApplyRecords(old(areas), settings, records)
    {
      for i := 0 to |records|
        invariant Valid()
        invariant ApplyRecords(areas, settings, records[i..]) == ApplyRecords(old(areas), settings, records)
      {
        var data := records[i];
        assert records[i..][0] == data && records[i..][1..] == records[i + 1..];
        ghost var before := areas;
        ImportRecord(data, settings);
        assert areas == ApplyRecord(before, settings, data);
      }
      assert records[|records|..] == [];
    }

    /** One pass of the record loop of populateFromWelshStatsJSON. The area and measure that
        getArea and getMeasure return by reference are updated here by storing the changed
        value back under the same keys. */
    method ImportRecord(data: JsonRecord, settings: JsonSettings)
      requires Valid()
      modifies this
      ensures Valid()
      ensures areas == ApplyRecord(old(areas), settings, data)
    {
      var authorityCode := data.authorityCode;
      if settings.areasFilter == {} || authorityCode in settings.areasFilter {
        var measureCode := if settings.isTrainDataset then settings.trainMeasureCode else data.measureCode;
        if settings.measuresFilter == {} || measureCode in settings.measuresFilter {
          var year := data.year;
          if settings.yearsFilter.0 <= ToUnsigned(year) <= settings.yearsFilter.1 {
            var areaEngName := data.authorityNameEng;
            var value := data.value;
            var measureLabel := if settings.isTrainDataset then settings.trainMeasureName else data.measureName;
            var foundArea := GetArea(authorityCode);
            if foundArea.Success? {
              var area := foundArea.value;
              ghost var measures := SetYearValue(area.measures, measureCode, measureLabel, ToUnsigned(year), value);
              var foundMeasure := FindMeasure(area.measures, measureCode);
              if foundMeasure.Success? {
                var measure := WithValue(foundMeasure.value, ToUnsigned(year), value);
                assert area.measures[measureCode := measure] == measures;
                areas := areas[authorityCode := area.(measures := area.measures[measureCode := measure])];
              } else {
                var newMeasure := new Measure(measureCode, measureLabel);
                newMeasure.SetValue(ToUnsigned(year), value);
                assert Upsert(area.measures, BethYw.Lowered(measureCode), newMeasure.Value()) == measures;
                areas := areas[authorityCode := area.(measures := Upsert(area.measures, BethYw.Lowered(measureCode), newMeasure.Value()))];
              }
              assert AdmitsRecord(settings, data) && authorityCode in old(areas);
              assert areas == old(areas)[authorityCode := area.(measures := measures)];
              assert WellFormed(area.(measures := measures)) by {
                SetYearValueKeys(area.measures, measureCode, measureLabel, ToUnsigned(year), value);
              }
            } else {
              var unstored := BuildArea(authorityCode, areaEngName, measureCode, measureLabel, ToUnsigned(year), value);
            }
          }
        }
      }
    }

    /** The area populateFromWelshStatsJSON builds for a record whose area is not stored: named
        in English, holding the record's measure with its one year. The importer never stores
        it. */
    static method BuildArea(authorityCode: string, areaEngName: string, measureCode: string,
                            measureLabel: string, year: UInt32, value: real) returns (newArea: Area)
      ensures fresh(newArea) && newArea.Valid()
      ensures newArea.Value() ==
              AreaValue(authorityCode, map["eng" := areaEngName],
                        map[BethYw.Lowered(measureCode) :=
                              WithValue(MeasureValue(BethYw.Lowered(measureCode), measureLabel, map[]), year, value)])
    {
      LanguageCodesLowered();
      newArea := new Area(authorityCode);
      var named := newArea.SetName("eng", areaEngName);
      var newMeasure := new Measure(measureCode, measureLabel);
      newMeasure.SetValue(year, value);
      newArea.SetMeasure(measureCode, newMeasure);
    }

    /** Areas::populate without filters: only the authority code CSV is handled. */
    method Populate(lines: seq<string>, dataType: SourceDataType, cols: map<SourceColumn, string>)
      returns (outcome: Outcome)
      requires Valid()
      modifies this
      ensures Valid()
      ensures dataType == AuthorityCodeCSV ==> Imported(areas, outcome) == ImportCsv(old(areas), lines, cols, None)
      ensures dataType != AuthorityCodeCSV ==>
                outcome == Fail(RuntimeError(UnexpectedTypeMessage)) && areas == old(areas)
    {
      if dataType == AuthorityCodeCSV {
        outcome := PopulateFromAuthorityCodeCSV(lines, cols, None);
      } else {
        outcome := Fail(RuntimeError(UnexpectedTypeMessage));
      }
    }

    /** Areas::populate with filters: only the authority code CSV is handled, and only the
        area filter is passed on. */
    method PopulateFiltered(lines: seq<string>, dataType: SourceDataType, cols: map<SourceColumn, string>,
                            areasFilter: Option<set<string>>, measuresFilter: Option<set<string>>,
                            yearsFilter: Option<(UInt32, UInt32)>)
      returns (outcome: Outcome)
      requires Valid()
      modifies this
      ensures Valid()
      ensures dataType == AuthorityCodeCSV ==> Imported(areas, outcome) == ImportCsv(old(areas), lines, cols, areasFilter)
      ensures dataType != AuthorityCodeCSV ==>
                outcome == Fail(RuntimeError(UnexpectedTypeMessage)) && areas == old(areas)
    {
      if dataType == AuthorityCodeCSV {
        outcome := PopulateFromAuthorityCodeCSV(lines, cols, areasFilter);
      } else {
        outcome := Fail(RuntimeError(UnexpectedTypeMessage));
      }
    }
  }
}
