/** One local authority area: its authority code, its names by language, and its measures
    by lower-case codename. */
module AreaModel {
  import opened Wrappers
  import opened StdLib
  import BethYw
  import opened MeasureModel

  /** The state of an Area as a value: what `operator==` compares. */
  datatype AreaValue = AreaValue(authorityCode: string, names: map<string, string>,
                                 measures: map<string, MeasureValue>)

  const LanguageCodeMessage := "Area::setName: Language code must be three alphabetical letters only"
  const NoMeasureMessage := "No measure found matching "

  /** Map::at on a missing key (libstdc++ `std::unordered_map`). */
  const MapAtMessage := "_Map_base::at"

  /** A language code setName accepts: exactly three alphabetic characters. */
  predicate IsLanguageCode(lang: string)
  {
    |lang| == 3 && forall i :: 0 <= i < |lang| ==> IsAlpha(lang[i])
  }

  /** A language code as setName stores it: three lower-case letters. */
  predicate IsStoredLanguageCode(lang: string)
  {
    |lang| == 3 && forall i :: 0 <= i < |lang| ==> IsLower(lang[i])
  }

  /** A key as setMeasure stores it: no upper-case letter left. */
  predicate IsLowered(key: string)
  {
    forall i :: 0 <= i < |key| ==> !IsUpper(key[i])
  }

  /** The keys with no upper-case letter are exactly those lower-casing leaves alone. */
  lemma IsLoweredIff(key: string)
    ensures IsLowered(key) <==> BethYw.Lowered(key) == key
  {
    if IsLowered(key) {
      BethYw.LoweredWithoutUpper(key);
    }
    if BethYw.Lowered(key) == key {
      BethYw.LoweredIsIdempotent(key);
    }
  }

  /** The keys setName and setMeasure can produce: stored language codes and lower-case
      measure codenames. */
  predicate WellFormed(v: AreaValue)
  {
    (forall lang :: lang in v.names ==> IsStoredLanguageCode(lang)) &&
    (forall key :: key in v.measures ==> IsLowered(key))
  }

  /** setName stores an accepted language code as a stored one. */
  lemma LoweredLanguageCode(lang: string)
    requires IsLanguageCode(lang)
    ensures IsStoredLanguageCode(BethYw.Lowered(lang))
  {
  }

  // ---------------------------------------------------------------------------------------
  // Merging (Area::setMeasure and Area::operator=)
  // ---------------------------------------------------------------------------------------

  /** What the find/insert-or-assign step leaves in a measures map: a new key receives the
      measure, an existing key the merge of the stored measure with it. */
  function Upsert(measures: map<string, MeasureValue>, key: string, m: MeasureValue): map<string, MeasureValue>
  {
    if key in measures then measures[key := MergeMeasure(measures[key], m)] else measures[key := m]
  }

  /** The lookup of Area::getMeasure on a measures map. */
  function FindMeasure(measures: map<string, MeasureValue>, key: string): Result<MeasureValue>
  {
    if key in measures then Success(measures[key]) else Failure(OutOfRange(NoMeasureMessage + key))
  }

  /** Measure maps merged key by key: keys of both, merged measures where both have one. */
  function MergeMeasureMaps(into: map<string, MeasureValue>, from: map<string, MeasureValue>): (r: map<string, MeasureValue>)
  {
    map k | k in into.Keys + from.Keys ::
      if k in from then (if k in into then MergeMeasure(into[k], from[k]) else from[k]) else into[k]
  }

  /** What `operator=` leaves in the assigned-to area: its own authority code, the names of
      both (the other's name winning per language) and the measures of both, merged. */
  function MergeArea(into: AreaValue, from: AreaValue): AreaValue
  {
    AreaValue(into.authorityCode, into.names + from.names, MergeMeasureMaps(into.measures, from.measures))
  }

  /** The entries of `from` at the keys of `keys`. */
  function Restrict(from: map<string, MeasureValue>, keys: set<string>): (r: map<string, MeasureValue>)
    ensures r.Keys == from.Keys * keys
  {
    map k | k in from && k in keys :: from[k]
  }

  /** Inserting or merging one measure is merging with the one-entry map. */
  lemma UpsertIsMergeOfOne(measures: map<string, MeasureValue>, key: string, m: MeasureValue)
    ensures Upsert(measures, key, m) == MergeMeasureMaps(measures, map[key := m])
  {
  }

  /** setMeasure's step loses nothing: every measure and year stays, and the measure given is
      then stored under the key with all its years and values. */
  lemma UpsertLosesNothing(measures: map<string, MeasureValue>, key: string, m: MeasureValue)
    ensures var r := Upsert(measures, key, m);
            r.Keys == measures.Keys + {key} &&
            (forall k :: k in measures ==> measures[k].values.Keys <= r[k].values.Keys) &&
            (forall k :: k in measures && k != key ==> r[k] == measures[k]) &&
            (forall y :: y in m.values ==> y in r[key].values && r[key].values[y] == m.values[y])
  {
    if key in measures {
      MergeMeasureContents(measures[key], m);
    }
  }

  /** Merging the entries of `from` one at a time, in any order, builds the whole merge. */
  lemma MergeMeasureMapsStep(into: map<string, MeasureValue>, from: map<string, MeasureValue>,
                             done: set<string>, k: string)
    requires k in from && k !in done
    ensures MergeMeasureMaps(into, Restrict(from, done + {k})) ==
            Upsert(MergeMeasureMaps(into, Restrict(from, done)), k, from[k])
  {
    var lhs := MergeMeasureMaps(into, Restrict(from, done + {k}));
    var rhs := Upsert(MergeMeasureMaps(into, Restrict(from, done)), k, from[k]);
    assert lhs.Keys == rhs.Keys;
    forall j | j in lhs
      ensures lhs[j] == rhs[j]
    {
    }
  }

  /** A merge keeps every name, every measure and every year of the area merged into, and
      takes every name, measure and year of the other. */
  lemma {:induction false} MergeAreaLosesNothing(into: AreaValue, from: AreaValue)
    ensures into.names.Keys + from.names.Keys == MergeArea(into, from).names.Keys
    ensures forall lang :: lang in from.names ==> MergeArea(into, from).names[lang] == from.names[lang]
    ensures forall k :: k in into.measures ==>
              (k in MergeArea(into, from).measures &&
               into.measures[k].values.Keys <= MergeArea(into, from).measures[k].values.Keys)
    ensures forall k, y :: k in from.measures && y in from.measures[k].values ==>
              (k in MergeArea(into, from).measures &&
               y in MergeArea(into, from).measures[k].values &&
               MergeArea(into, from).measures[k].values[y] == from.measures[k].values[y])
    ensures forall lang :: lang in into.names && lang !in from.names ==>
              MergeArea(into, from).names[lang] == into.names[lang]
    ensures forall k :: k in into.measures && k !in from.measures ==>
              MergeArea(into, from).measures[k] == into.measures[k]
    ensures forall k, y :: k in into.measures && y in into.measures[k].values &&
                           (k !in from.measures || y !in from.measures[k].values) ==>
              MergeArea(into, from).measures[k].values[y] == into.measures[k].values[y]
  {
  }

  /** Merging again what was just merged changes nothing. */
  lemma MergeAreaIdempotent(into: AreaValue, from: AreaValue)
    ensures MergeArea(MergeArea(into, from), from) == MergeArea(into, from)
  {
    var once := MergeArea(into, from);
    var twice := MergeArea(once, from);
    assert twice.names == once.names;
    forall k | k in twice.measures
      ensures twice.measures[k] == once.measures[k]
    {
      if k in from.measures {
        MergeMeasureIdempotent(if k in into.measures then into.measures[k] else from.measures[k], from.measures[k]);
        if k !in into.measures {
          MergeMeasureUnchangedIff(from.measures[k], from.measures[k]);
        }
      }
    }
    assert twice.measures == once.measures;
  }

  /** Assigning an area into an empty one with the same authority code yields a copy. */
  lemma MergeIntoEmptyIsCopy(from: AreaValue)
    ensures MergeArea(AreaValue(from.authorityCode, map[], map[]), from) == from
  {
    var r := MergeArea(AreaValue(from.authorityCode, map[], map[]), from);
    assert r.names == from.names;
    assert r.measures == from.measures;
  }

  /** Merging keeps the keys well-formed. */
  lemma MergeAreaWellFormed(into: AreaValue, from: AreaValue)
    requires WellFormed(into) && WellFormed(from)
    ensures WellFormed(MergeArea(into, from))
  {
  }

  // ---------------------------------------------------------------------------------------
  // The name header of `operator<<`
  // ---------------------------------------------------------------------------------------

  /** The first line `operator<<` writes for an area: English and Welsh names separated by
      " / " when both exist, else the one that exists, else "Unnamed", then the authority code
      in parentheses. */
  function NameHeader(authorityCode: string, names: map<string, string>): string
  {
    var title :=
      if "eng" in names && "cym" in names then names["eng"] + " / " + names["cym"]
      else if "eng" in names then names["eng"]
      else if "cym" in names then names["cym"]
      else "Unnamed";
    title + " (" + authorityCode + ")"
  }

  /** The header ends with the authority code in parentheses; with one name it is that name,
      and with neither it reads "Unnamed (<code>)". */
  lemma NameHeaderShape(authorityCode: string, names: map<string, string>)
    ensures var h := NameHeader(authorityCode, names);
            |h| >= |authorityCode| + 3 && h[|h| - |authorityCode| - 3..] == " (" + authorityCode + ")"
    ensures "eng" !in names && "cym" !in names ==> NameHeader(authorityCode, names) == "Unnamed (" + authorityCode + ")"
    ensures "eng" in names && "cym" !in names ==> NameHeader(authorityCode, names) == names["eng"] + " (" + authorityCode + ")"
    ensures "cym" in names && "eng" !in names ==> NameHeader(authorityCode, names) == names["cym"] + " (" + authorityCode + ")"
  {
  }

  /** The two names an area gets from a row of the authority code file render as
      "<eng> / <cym> (<code>)". */
  lemma NameHeaderOfBothNames(authorityCode: string, eng: string, cym: string)
    ensures NameHeader(authorityCode, map["eng" := eng, "cym" := cym]) == eng + " / " + cym + " (" + authorityCode + ")"
  {
  }

  // ---------------------------------------------------------------------------------------
  // The Area class
  // ---------------------------------------------------------------------------------------

  class Area {
    const authorityCode: string
    var names: map<string, string>
    /** std::map<std::string, Measure> holds its measures by value: a map of measure values. */
    var measures: map<string, MeasureValue>

    /** The keys are those setName and setMeasure store. */
    ghost predicate Valid()
      reads this
    {
      WellFormed(Value())
    }

    /** The area's state as a value. */
    function Value(): AreaValue
      reads this
    {
      AreaValue(authorityCode, names, measures)
    }

    /** Area::Area: the given authority code, no names, no measures. */
    constructor (localAuthorityCode: string)
      ensures Valid()
      ensures Value() == AreaValue(localAuthorityCode, map[], map[])
    {
      authorityCode := localAuthorityCode;
      names := map[];
      measures := map[];
    }

    /** Area::getName: the name stored for the language, or the library's out_of_range. */
    function GetName(langCode: string): (r: Result<string>)
      reads this
      ensures r.Success? <==> langCode in names
      ensures r.Success? ==> r.value == names[langCode]
      ensures r.Failure? ==> r.error == OutOfRange(MapAtMessage)
    {
      if langCode in names then Success(names[langCode]) else Failure(OutOfRange(MapAtMessage))
    }

    /** Area::hasName: getName would succeed. */
    function HasName(langCode: string): (has: bool)
      reads this
      ensures has <==> GetName(langCode).Success?
    {
      langCode in names
    }

    /** Area::setName: the language code must be three letters; it is stored lower-cased,
        replacing any name already stored for it. */
    method SetName(lang: string, name: string) returns (outcome: Outcome)
      requires Valid()
      modifies this
      ensures Valid() && measures == old(measures)
      ensures outcome.Pass? <==> IsLanguageCode(lang)
      ensures outcome.Fail? ==> outcome == Fail(InvalidArgument(LanguageCodeMessage)) && names == old(names)
      ensures outcome.Pass? ==> names == old(names)[BethYw.Lowered(lang) := name]
    {
      if |lang| != 3 {
        return Fail(InvalidArgument(LanguageCodeMessage));
      }
      var isAlphabetic := true;
      for i := 0 to |lang|
        invariant isAlphabetic <==> forall k :: 0 <= k < i ==> IsAlpha(lang[k])
      {
        if !IsAlpha(lang[i]) {
          isAlphabetic := false;
        }
      }
      if !isAlphabetic {
        return Fail(InvalidArgument(LanguageCodeMessage));
      }
      var lowerCaseCode := BethYw.ToLower(lang);
      LoweredLanguageCode(lang);
      names := names[lowerCaseCode := name];
      return Pass;
    }

    /** Area::getMeasure: looks the key up exactly as given (the lower-cased copy it makes
        is never used), failing with out_of_range naming the key. */
    function GetMeasure(key: string): (r: Result<MeasureValue>)
      reads this
      ensures r.Success? <==> key in measures
      ensures r.Success? ==> r.value == measures[key]
      ensures r.Failure? ==> r.error == OutOfRange(NoMeasureMessage + key)
    {
      FindMeasure(measures, key)
    }

    /** Area::setMeasure: the codename is lower-cased; a copy of the measure goes in under a new
        key, and at an existing key the stored measure is assigned (merged with) it. */
    method SetMeasure(codename: string, measure: Measure)
      requires Valid()
      modifies this
      ensures Valid() && names == old(names)
      ensures measures == Upsert(old(measures), BethYw.Lowered(codename), measure.Value())
    {
      var lowerCaseName := BethYw.ToLower(codename);
      BethYw.LoweredIsIdempotent(codename);
      if lowerCaseName in measures {
        measures := measures[lowerCaseName := MergeMeasure(measures[lowerCaseName], measure.Value())];
      } else {
        measures := measures[lowerCaseName := measure.Value()];
      }
    }

    /** Area::size: the number of measures. */
    function Size(): (n: nat)
      reads this
      ensures n == |measures.Keys|
    {
      |measures|
    }

    /** Area::operator=: every name of `other` is copied over (replacing this area's name for
        the same language), then every measure of `other` is inserted, or assigned to (merged
        into) the measure stored under the same codename. */
    method MergeFrom(other: Area)
      requires Valid() && other.Valid()
      modifies this
      ensures Valid()
      ensures Value() == MergeArea(old(Value()), old(other.Value()))
    {
      var otherNames := other.names;
      var otherMeasures := other.measures;
      MergeNames(otherNames);
      MergeMeasures(otherMeasures);
      MergeAreaWellFormed(old(Value()), old(other.Value()));
    }

    /** The first loop of operator=: each name of the other area, in any order, is stored
        under its language code. */
    method MergeNames(otherNames: map<string, string>)
      modifies this
      ensures measures == old(measures)
      ensures names == old(names) + otherNames
    {
      var restNames := otherNames.Keys;
      while restNames != {}
        invariant restNames <= otherNames.Keys
        invariant measures == old(measures)
        invariant names.Keys == old(names).Keys + (otherNames.Keys - restNames)
        invariant forall k :: k in names ==>
                    names[k] == if k in otherNames && k !in restNames then otherNames[k] else old(names)[k]
        decreases restNames
      {
        if forall k :: k !in restNames {
          assert false;
        }
        var k :| k in restNames;
        names := names[k := otherNames[k]];
        restNames := restNames - {k};
      }
    }

    /** The second loop of operator=: each measure of the other area, in any order, is
        inserted, or merged into the measure stored under the same codename. */
    method MergeMeasures(otherMeasures: map<string, MeasureValue>)
      modifies this
      ensures names == old(names)
      ensures measures == MergeMeasureMaps(old(measures), otherMeasures)
    {
      var rest := otherMeasures.Keys;
      ghost var done: set<string> := {};
      assert measures == MergeMeasureMaps(old(measures), Restrict(otherMeasures, done)) by {
        assert Restrict(otherMeasures, done) == map[];
      }
      while rest != {}
        invariant rest <= otherMeasures.Keys && done == otherMeasures.Keys - rest
        invariant names == old(names)
        invariant measures == MergeMeasureMaps(old(measures), Restrict(otherMeasures, done))
        decreases rest
      {
        if forall k :: k !in rest {
          assert false;
        }
        var k :| k in rest;
        ghost var before := measures;
        if k in measures {
          measures := measures[k := MergeMeasure(measures[k], otherMeasures[k])];
        } else {
          measures := measures[k := otherMeasures[k]];
        }
        assert measures == MergeMeasureMaps(old(measures), Restrict(otherMeasures, done + {k})) by {
          assert measures == Upsert(before, k, otherMeasures[k]);
          MergeMeasureMapsStep(old(measures), otherMeasures, done, k);
        }
        rest := rest - {k};
        done := done + {k};
      }
      assert Restrict(otherMeasures, done) == otherMeasures;
    }

    /** operator== on areas: same authority code, same names, and equal measures under the
        same codenames. */
    function Equals(other: Area): (equal: bool)
      reads this, other
      ensures equal <==> Value() == other.Value()
    {
      authorityCode == other.authorityCode && names == other.names &&
      measures.Keys == other.measures.Keys &&
      forall k :: k in measures ==> measures[k] == other.measures[k]
    }

    /** The name header `operator<<` writes for this area: both names, the one name there is,
        or "Unnamed", followed by the authority code in parentheses. */
    function Header(): (h: string)
      reads this
      ensures h == NameHeader(authorityCode, names)
      ensures "eng" in names && "cym" in names ==> h == names["eng"] + " / " + names["cym"] + " (" + authorityCode + ")"
      ensures "eng" in names && "cym" !in names ==> h == names["eng"] + " (" + authorityCode + ")"
      ensures "cym" in names && "eng" !in names ==> h == names["cym"] + " (" + authorityCode + ")"
      ensures "eng" !in names && "cym" !in names ==> h == "Unnamed (" + authorityCode + ")"
    {
      NameHeaderShape(authorityCode, names);
      NameHeader(authorityCode, names)
    }
  }

  /** getMeasure is case-sensitive while setMeasure stores lower-cased keys: a codename with an
      upper-case letter is never found, even right after setMeasure stored it. */
  lemma GetMeasureIsCaseSensitive(a: Area, key: string)
    requires a.Valid()
    requires exists i :: 0 <= i < |key| && IsUpper(key[i])
    ensures a.GetMeasure(key) == Failure(OutOfRange(NoMeasureMessage + key))
  {
    var i :| 0 <= i < |key| && IsUpper(key[i]);
    if key in a.measures {
      assert false;
    }
  }
}
