# BethYw statistics store — a Dafny model

BethYw imports statistics about the local authority areas of Wales (StatsWales JSON files and
an authority-code CSV file) into an in-memory store and filters it by area, measure and year.
This project models the core of that store and its importers, and proves properties of the model.

The store has three layers, each a finite map with its own insert, lookup and merge rules:

- **Measure** (`measure.dfy`, module `MeasureModel`) is one statistic. It holds a lower-cased
  code, a label, and an ordered map from year to value.
  - `setValue` inserts or overwrites one year's value; `getValue` throws on a missing year.
  - The summary queries are the difference between the last and the first year, that
    difference as a percentage of the first value, and the average.
  - `operator==` compares code, label and years.
  - The copy-assignment `operator=` *merges* the other measure's years into this one.
  - The JSON year map is keyed by each year's decimal text.
- **Area** (`area.dfy`, module `AreaModel`) is one local authority. It holds a constant
  authority code, names by three-letter language code, and measures by codename.
  - `setName` checks the language code and stores it lower-cased.
  - `setMeasure` lower-cases the codename, then inserts the measure or merges it.
  - `getMeasure` throws on a miss.
  - `operator=` merges names and measures; `operator==` compares all three fields.
  - The header line of `operator<<` is "eng / cym", one name, or "Unnamed", then the code.
- **Areas** (`areas.dfy`, module `AreasModel`) is the store: authority code to area.
  - `setArea` inserts or merges; `getArea` throws on a miss.
  - The authority-code CSV importer reads lines.
  - The StatsWales JSON importer runs a filter-and-update loop over decoded records.
  - The two `populate` overloads dispatch on the source type.
- **BethYw helpers** (`bethyw.dfy`, module `BethYw`):
  - `toLower`, `isInt` and `is4DigitInt`.
  - The years-argument parser: a single year, an `A-B` range, or the `(0, 0)` "all years"
    sentinel.
  - `containsAllArgument`, and the area and measure filter sets built from the command-line
    strings.

Two support modules model what the core borrows from the C and C++ libraries:
- `wrappers.dfy` holds `Result`, `Outcome` and the exception kinds.
- `stdlib.dfy` holds `tolower`/`isalpha`/`isspace` on ASCII, `strtol`, `std::stoi`,
  `std::to_string(int)`, `std::getline` on `','`, and the conversions between `int` and
  `unsigned int`.

Objects whose fields the source updates in place are classes: `Measure`, `Area` and `Areas`.
`Measure` and `Area` each have a `Value()` abstraction; the `Areas` field `areas` is itself the
store value. Each state-changing method is proved to leave exactly a
specification function of its old state, for example:
- `Area.MergeFrom` leaves `MergeArea(old value, other)`;
- `Areas.PopulateFromWelshStatsJSON` leaves `ApplyRecords(old store, settings, records)`.

The properties of those specification functions are lemmas. Exceptions are `Failure`/`Fail`
values that carry the source's exception kind and message. The standard containers hold
their elements by value. So in the model an area's measures are a `map<string, MeasureValue>`
and the store is a `map<string, AreaValue>`.

The model follows the code where it departs from its own doc comments, and states these
facts about the code as written:

- `Area::getMeasure` makes a lower-cased copy of the key but looks up the key as given
  (area.cpp:139-143). The lookup is case-sensitive, although the doc comment at area.cpp:122-123
  asks for a case-insensitive search. A codename with an upper-case letter is never found,
  even right after `setMeasure` stored it (`GetMeasureIsCaseSensitive`).
- For a record whose area is not stored, the JSON importer builds an area and never stores it
  (areas.cpp:330-339), although the doc comment at areas.cpp:214-215 says to create it. For a
  stored area it updates the measure in place through the references `getArea` and
  `getMeasure` return (areas.cpp:315-328).
- The JSON year check is a literal inclusive range (areas.cpp:305). The doc comment at
  areas.cpp:219-220 says `(0, 0)` means "all years", but it admits only year 0
  (`ZeroYearsFilterAdmitsOnlyYearZero`).
- The JSON area and measure filters are compared exactly, so the match is case-sensitive.
  Both are dereferenced without a null check (areas.cpp:294, 302), so they are plain sets in
  the model. The CSV area filter is checked for null (areas.cpp:173) and is an `Option`.
- The doc comment at areas.cpp:226-228 says years are strings in the JSON files. The code
  reads each year as an `int` (areas.cpp:303), so the decoded records carry integer years.
- Both `populate` overloads handle only the authority-code CSV (areas.cpp:445-449, 531-535).
  Any other source type raises `runtime_error`. Neither checks the stream, although the doc
  comments at areas.cpp:438-440 and 493-495 say a stream that is not valid raises
  `runtime_error`.
- `Measure::operator=` copies only the years (measure.cpp:375-377). The code and the label stay.
- `containsAllArgument` matches `"all"` exactly (bethyw.cpp:218). The doc comments at
  bethyw.cpp:237 and 284 accept "all" in any case.

## Model

| member | source | states |
|---|---|---|
| BethYw.Lowered | bethyw.cpp:500-507 | the lowered copy has the input's length and each character is `tolower` of the input's |
| BethYw.ToLower | bethyw.cpp:500-507 | the loop rewriting a copy character by character returns exactly `Lowered(s)`, each character lowered |
| BethYw.LoweredIsIdempotent | bethyw.cpp:500-507 | a lowered string has no upper-case letter, and lowering it again changes nothing |
| BethYw.LoweredWithoutUpper | bethyw.cpp:500-507 | a string with no upper-case letter is its own lowering |
| BethYw.IsInt | bethyw.cpp:403-411 | strtol on the C view of the string leaves `end` on the NUL; the empty C string passes, and any other string that passes is converted by stoi |
| BethYw.Is4DigitInt | bethyw.cpp:413-415 | the number lies strictly between 999 and 10000 |
| BethYw.IsIntIff | bethyw.cpp:403-411 | isInt holds iff the C view of the string is empty or is white space, an optional sign, then one or more digits |
| BethYw.Is4DigitIntIffFourDigits | bethyw.cpp:413-415 | is4DigitInt (999 < n < 10000) holds iff n is non-negative and std::to_string writes it with exactly four digits |
| BethYw.ParseYearsArg | bethyw.cpp:349-395 | a success is (0, 0) or two 4-digit years; every failure is invalid_argument; a non-integer without '-' always fails with "Invalid input for years argument" |
| BethYw.ParseSingleYear | bethyw.cpp:354-358 | a single 4-digit year y parses to (y, y) |
| BethYw.ParseSingleZero | bethyw.cpp:354-361 | the single integer 0 parses to the (0, 0) sentinel |
| BethYw.ParseSingleIntRejected | bethyw.cpp:354-365 | a single integer that is neither 4-digit nor 0 is rejected with invalid_argument "Invalid input for years argument" |
| BethYw.ParseYearRange | bethyw.cpp:367-383 | "A-B" with two 4-digit years parses to (A, B) with no ordering check |
| BethYw.ParseRangeWithZero | bethyw.cpp:378-386 | "A-B" with A or B equal to 0 parses to the (0, 0) sentinel |
| BethYw.ParseRangeRejected | bethyw.cpp:378-390 | "A-B" with neither side 0 and not both 4-digit is rejected with invalid_argument |
| BethYw.RangeSplits | bethyw.cpp:354-376 | "A-B" over digit strings is not an integer as a whole and splits at its first '-' into A and B |
| BethYw.ContainsAllArgument | bethyw.cpp:216-224 | the early-return loop answers true iff some argument equals "all" exactly |
| BethYw.FilterFromArguments | bethyw.cpp:265-273 | the filter is empty when "all" is given, otherwise exactly the set of the given strings |
| BethYw.ParseAreasArg | bethyw.cpp:258-280 | the area filter is empty when "all" is given, otherwise exactly the given areas |
| BethYw.ParseMeasuresArg | bethyw.cpp:305-326 | the measure filter is empty when "all" is given, otherwise exactly the given measures |
| MeasureModel.SumOverRemove | measure.cpp:185-187 | the sum of the years' values does not depend on the order in which the years are added |
| MeasureModel.SumOverBounds | measure.cpp:185-187 | a sum of n values each between lo and hi lies between n copies of lo and n copies of hi |
| MeasureModel.MeanBounds | measure.cpp:181-194 | the average of a non-empty measure lies between its smallest and largest value |
| MeasureModel.MeanOfConstant | measure.cpp:181-194 | a measure with the same value in every year has that value as its average |
| MeasureModel.MergeMeasureContents | measure.cpp:374-380 | after operator= the years are the union of both; years of the other take its value, years only here keep theirs, code and label stay |
| MeasureModel.MergeMeasureIdempotent | measure.cpp:374-380 | assigning the same measure twice is the same as once |
| MeasureModel.MergeMeasureUnchangedIff | measure.cpp:374-380 | operator= leaves a measure unchanged iff every year of the other is already stored with the same value |
| MeasureModel.MergeMeasureSize | measure.cpp:374-380 | the year count after operator= is both counts less the years they share |
| MeasureModel.Measure.constructor | measure.cpp:45-48 | the code is the lower-cased codename, the label is stored verbatim, and there are no years |
| MeasureModel.Measure.SetLabel | measure.cpp:80-82 | the label is replaced and the years are unchanged |
| MeasureModel.Measure.GetValue | measure.cpp:100-106 | succeeds iff the year is stored, with its value; otherwise out_of_range "No value found for year <year>" |
| MeasureModel.Measure.SetValue | measure.cpp:118-120 | the unsigned year, read back as the int key, then holds the value; other years are unchanged; the size grows by one iff the year was new |
| MeasureModel.Measure.Size | measure.cpp:130-132 | the number of stored years |
| MeasureModel.Measure.GetDifference | measure.cpp:143-152 | the value of the largest year less that of the smallest year, and 0 with no years |
| MeasureModel.Measure.GetDifferenceAsPercentage | measure.cpp:163-171 | the difference divided by the first year's value times 100, and 0 with no years |
| MeasureModel.PercentageSignFollowsGrowth | measure.cpp:163-171 | with a positive first value, the percentage is positive iff the last value exceeds the first |
| MeasureModel.Measure.GetAverage | measure.cpp:181-194 | the loop adding the values in year order and dividing by the count yields the mean, and 0 with no years |
| MeasureModel.Measure.Equals | measure.cpp:355-361 | measures are equal iff code, label and year map are all equal |
| MeasureModel.Measure.MergeFrom | measure.cpp:374-380 | the loop over the other's years leaves exactly the merge of the old measure with the other |
| MeasureModel.Measure.YearKeyMap | measure.cpp:384-394 | exactly one entry per stored year, keyed by the year's decimal text, holding that year's value |
| MeasureModel.RenderOneMoreYear | measure.cpp:389-391 | inserting the next year's text never hits a key already present, because distinct years render differently |
| AreaModel.LoweredLanguageCode | area.cpp:116-117 | an accepted language code (three letters) is stored as three lower-case letters |
| AreaModel.UpsertIsMergeOfOne | area.cpp:175-186 | setMeasure's insert-or-assign is operator='s measure merge with a single measure |
| AreaModel.UpsertLosesNothing | area.cpp:175-186 | setMeasure keeps every measure and year, changes no other measure, and stores all years of the given measure |
| AreaModel.MergeMeasureMapsStep | area.cpp:290-299 | merging the other's measures one at a time, in any order, builds the whole merge |
| AreaModel.MergeAreaLosesNothing | area.cpp:285-302 | after operator= every name language of both is present, the other's name winning and a name only here keeping its value; every measure and year here stays, a measure or year the other lacks keeping its value; every year of the other is present with its value |
| AreaModel.MergeAreaIdempotent | area.cpp:285-302 | assigning the same area twice is the same as once |
| AreaModel.MergeIntoEmptyIsCopy | area.cpp:285-302 | assigning an area to an empty area with its code yields an equal area |
| AreaModel.MergeAreaWellFormed | area.cpp:285-302 | operator= keeps language codes and measure codenames in their stored (lower-case) form |
| AreaModel.NameHeaderShape | area.cpp:224-238 | the header ends with " (<authority code>)"; with only one of the English and Welsh names it is that name, and with neither it reads "Unnamed (<code>)" |
| AreaModel.NameHeaderOfBothNames | area.cpp:228-229 | with both names the header is "<eng> / <cym> (<code>)" |
| AreaModel.Area.constructor | area.cpp:37-41 | the given authority code, no names and no measures |
| AreaModel.Area.GetName | area.cpp:68-70 | succeeds iff the language is stored, with its name; otherwise out_of_range |
| AreaModel.Area.HasName | area.cpp:81-83 | true iff getName would succeed |
| AreaModel.Area.SetName | area.cpp:98-118 | succeeds iff the code is three alphabetic characters; on failure invalid_argument with the source's message and names unchanged; on success the name is stored under the lower-cased code, replacing any earlier one; measures unchanged |
| AreaModel.Area.GetMeasure | area.cpp:136-147 | succeeds iff the key as given is stored, with that measure; otherwise out_of_range "No measure found matching <key>" |
| AreaModel.GetMeasureIsCaseSensitive | area.cpp:136-147 | a key with an upper-case letter is never found, since stored keys are lower-case |
| AreaModel.Area.SetMeasure | area.cpp:175-186 | the lower-cased codename receives the measure if new, else the stored measure merged with it; names unchanged |
| AreaModel.Area.Size | area.cpp:196-198 | the number of measures |
| AreaModel.Area.MergeFrom | area.cpp:285-302 | operator= leaves exactly the merge of the old area with the other, keeping its authority code |
| AreaModel.Area.MergeNames | area.cpp:286-288 | the names loop leaves the old names overridden by the other's |
| AreaModel.Area.MergeMeasures | area.cpp:290-299 | the measures loop leaves the measure-by-measure merge of both maps |
| AreaModel.Area.Equals | area.cpp:262-272 | areas are equal iff authority code, names and measures are all equal |
| AreaModel.Area.Header | area.cpp:224-238 | the header is "<eng> / <cym>" with both names, the one name there is, or "Unnamed", followed by " (<authority code>)" |
| AreasModel.WithAreaWellFormed | areas.cpp:61-67 | setArea keeps every stored area's keys in stored form |
| AreasModel.WithAreaKeeps | areas.cpp:61-67 | setArea loses no area, name, measure or year, and everything of the given area is then present under its code |
| AreasModel.LanguageCodesLowered | areas.cpp:175-176 | "eng" and "cym" pass setName's check and are stored unchanged |
| AreasModel.ImportCsvRowsAppend | areas.cpp:155-180 | importing two runs of lines is importing the first, then the second only if the first completed |
| AreasModel.BadRowStopsImport | areas.cpp:163-169 | a line with an empty code, English or Welsh field raises runtime_error; areas merged from earlier lines stay and no later line is read |
| AreasModel.ImportOneRow | areas.cpp:163-178 | a line "code,eng,cym[,...]" merges an area with those two names iff the filter is null, empty or holds the code; later fields are ignored |
| AreasModel.ImportCsvRowsKeeps | areas.cpp:155-180 | the CSV import loses nothing already stored, whether it completes or throws |
| AreasModel.AdmitsRecord | areas.cpp:294-305 | a record passes iff the area filter is empty or holds its code, the measure filter is empty or holds its measure code (the train dataset's fixed code when the flag is set), and its year, converted to unsigned, lies in the inclusive range |
| AreasModel.SetYearValueKeys | areas.cpp:315-328 | the record's value ends up under the lower-cased measure code, no measure is lost, and the keys stay lower-case |
| AreasModel.SetYearValueEffect | areas.cpp:319-328 | the value is stored under the year in the measure under the lower-cased code; an existing measure keeps its label and other years; a created measure is the lower-cased code, the record's label and only that year; no other measure changes |
| AreasModel.JsonRecordEffect | areas.cpp:290-328 | an admitted record for a stored area sets that year's value in the measure under the lower-cased code; every other area, the names, other measures, and an existing measure's label and other years are unchanged; a created measure is the lower-cased code, the record's label and only that year |
| AreasModel.JsonRecordChangesOnlyAdmitted | areas.cpp:294-339 | a record changes the store only if it passes the area, measure and year filters and its area is already stored |
| AreasModel.ZeroYearsFilterAdmitsOnlyYearZero | areas.cpp:305 | with the year range (0, 0) only year 0 is admitted |
| AreasModel.ApplyRecordsInvariants | areas.cpp:290-343 | the JSON import never adds an area, keeps keys in stored form and loses nothing |
| AreasModel.ApplyRecordInvariants | areas.cpp:290-343 | one record never adds an area, keeps keys in stored form and loses nothing |
| AreasModel.Areas.constructor | areas.cpp:40-42 | an empty store |
| AreasModel.Areas.SetArea | areas.cpp:61-67 | a new code receives the area, an existing code the merge of the stored area with it; the size grows by one iff the code was new |
| AreasModel.Areas.GetArea | areas.cpp:82-88 | succeeds iff the code is stored, with that area; otherwise out_of_range "No area found matching <code>" |
| AreasModel.Areas.Size | areas.cpp:106-108 | the number of areas |
| AreasModel.Areas.PopulateFromAuthorityCodeCSV | areas.cpp:142-181 | the line loop leaves the store and outcome of ImportCsv: out_of_range before reading when the column mapping lacks exactly 3 entries, header line skipped, rows merged in order |
| AreasModel.Areas.AddRowArea | areas.cpp:173-178 | an admitted line merges the area with its English and Welsh names through setArea |
| AreasModel.Areas.PopulateFromWelshStatsJSON | areas.cpp:281-344 | the record loop leaves exactly the records applied in order |
| AreasModel.Areas.ImportRecord | areas.cpp:290-343 | one pass of the loop leaves exactly the effect of that record |
| AreasModel.Areas.BuildArea | areas.cpp:333-338 | the area built for an unknown code: English name and the one measure with its one year |
| AreasModel.Areas.Populate | areas.cpp:443-450 | the authority-code CSV is imported with no filter; any other type raises runtime_error "Areas::populate: Unexpected data type" and leaves the store |
| AreasModel.Areas.PopulateFiltered | areas.cpp:527-536 | the authority-code CSV is imported with the area filter only; any other type raises runtime_error and leaves the store |
| StdLib.CommaFieldsOfRow | areas.cpp:163-165 | three getline calls on ',' read the first three comma-separated fields of a line |

## Left out

- Streams and files: input is a sequence of lines (CSV) or of decoded records (JSON). Opening files, stream state and `getline`'s handling of end of file are not modelled (input.cpp, and the `std::istream` parameters).
- JSON decoding and encoding: decoding is done by the nlohmann library, whose field lookups can throw. Records arrive already decoded, with integer years and real values. The column mapping of the JSON importer is reduced to the train-dataset flag and that dataset's fixed code and label. `to_json` for Area and Areas and `Areas::toJSON` are left out. Only the year map `to_json` builds for a Measure is modelled.
- The comparison of the column mapping with the train dataset's table: the table lives in datasets.h, which is not part of this model. Whether the file is the train dataset is an input.
- Rendering: `operator<<` of Measure, Area and Areas beyond the Area name header, and the `formatYear`, `formatValue`, `formatHeading` and `getValueWidth` helpers. They rely on `snprintf` formatting and `log10` on doubles.
- Floating point: values are `real`, so the rounding of the sums in `getAverage` and of the divisions is not modelled.
- MeasureModel.Measure.GetDifferenceAsPercentage: requires a non-zero first value, because the source's IEEE division by zero (infinity or NaN) has no `real` counterpart.
- StdLib.Strtol: does not clamp on overflow, and std::stoi's out_of_range on values too large for `int` is not modelled. Years and codes are taken as exact integers.
- References: `getArea` and `getMeasure` return references that the JSON importer writes through. Containers hold their elements by value here, so the updated measure or area is stored back under the same key. Aliasing between references is not modelled.
- AreasModel.Areas.BuildArea: the area the JSON importer builds for an unknown code is built and dropped as in the source, and it never reaches the store.
- `populateFromAuthorityByYearCSV`, and the helpers declared at areas.h:72-79 and bethyw.h:79, 83: they have no body in the repository.
- Command-line plumbing: `run`, option setup over the cxxopts library, dataset selection (`parseDatasetsArg`, `getInputSource`, `addAllDatasets`, which rely on the datasets.h table), `loadAreas`, and the cxxopts exceptions the argument parsers catch. The parsers take the option's strings directly.
- `getLocalAuthorityCode`, `getCodename` and `getLabel` return a field; the fields are read directly in the model.
- Iteration order over `std::unordered_map` names and over the measures in `Area::operator=`: the merge loops take the keys in any order, and the result is proved not to depend on it.
