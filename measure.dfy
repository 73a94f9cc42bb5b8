/** One statistical measure of an area: a lower-case code, a human-readable label, and the
    measure's value for each year, kept in a map ordered by year. */
module MeasureModel {
  import opened Wrappers
  import opened StdLib
  import BethYw

  /** The state of a Measure as a value: what `operator==` compares. */
  datatype MeasureValue = MeasureValue(code: string, labelText: string, values: map<int, real>)

  // ---------------------------------------------------------------------------------------
  // Years in ascending order (std::map<int, double> iterates from begin() to rbegin())
  // ---------------------------------------------------------------------------------------

  predicate IsFirstYear(years: set<int>, y: int)
  {
    y in years && forall k :: k in years ==> y <= k
  }

  predicate IsLastYear(years: set<int>, y: int)
  {
    y in years && forall k :: k in years ==> k <= y
  }

  /** Every non-empty finite set of years has a smallest and a largest member. */
  lemma {:induction false} ExtremesExist(years: set<int>)
    requires years != {}
    ensures exists y :: IsFirstYear(years, y)
    ensures exists y :: IsLastYear(years, y)
    decreases years
  {
    if forall y :: y !in years {
      assert false;
    }
    var x :| x in years;
    if years == {x} {
      assert IsFirstYear(years, x) && IsLastYear(years, x);
    } else {
      var rest := years - {x};
      ExtremesExist(rest);
      var lo :| IsFirstYear(rest, lo);
      var hi :| IsLastYear(rest, hi);
      assert forall k :: k in years ==> k == x || k in rest;
      assert IsFirstYear(years, if x < lo then x else lo);
      assert IsLastYear(years, if x > hi then x else hi);
    }
  }

  /** The year `begin()` refers to. */
  function FirstYear(years: set<int>): (y: int)
    requires years != {}
    ensures IsFirstYear(years, y)
  {
    ExtremesExist(years);
    var y :| IsFirstYear(years, y); y
  }

  /** The year `rbegin()` refers to. */
  function LastYear(years: set<int>): (y: int)
    requires years != {}
    ensures IsLastYear(years, y)
  {
    ExtremesExist(years);
    var y :| IsLastYear(years, y); y
  }

  // ---------------------------------------------------------------------------------------
  // Sum and mean
  // ---------------------------------------------------------------------------------------

  /** The values at `years`, added in ascending order of year. */
  function SumOver(values: map<int, real>, years: set<int>): real
    requires years <= values.Keys
    decreases years
  {
    if years == {} then 0.0
    else
      var y := FirstYear(years);
      values[y] + SumOver(values, years - {y})
  }

  /** The order of the additions does not matter: any year can be taken out first. */
  lemma {:induction false} SumOverRemove(values: map<int, real>, years: set<int>, y: int)
    requires years <= values.Keys && y in years
    ensures SumOver(values, years) == values[y] + SumOver(values, years - {y})
    decreases years
  {
    var f := FirstYear(years);
    if f != y {
      SumOverRemove(values, years - {f}, y);
      SumOverRemove(values, years - {y}, f);
      assert years - {f} - {y} == years - {y} - {f};
    }
  }

  /** `x` added to itself `n` times. */
  function Repeat(n: nat, x: real): real
  {
    if n == 0 then 0.0 else x + Repeat(n - 1, x)
  }

  lemma {:induction false} RepeatIsProduct(n: nat, x: real)
    ensures Repeat(n, x) == (n as real) * x
  {
    if n > 0 {
      RepeatIsProduct(n - 1, x);
    }
  }

  /** A sum of n values, each between lo and hi, lies between n copies of lo and n copies
      of hi. */
  lemma {:induction false} SumOverBounds(values: map<int, real>, years: set<int>, lo: real, hi: real)
    requires years <= values.Keys
    requires forall y :: y in years ==> lo <= values[y] <= hi
    ensures Repeat(|years|, lo) <= SumOver(values, years) <= Repeat(|years|, hi)
    decreases years
  {
    if years != {} {
      var y := FirstYear(years);
      var rest := years - {y};
      SumOverBounds(values, rest, lo, hi);
      assert |rest| == |years| - 1;
    }
  }

  /** The arithmetic mean of the values, and 0 when there are none. */
  function Mean(values: map<int, real>): real
  {
    if values == map[] then 0.0 else SumOver(values, values.Keys) / (|values| as real)
  }

  /** The mean lies between the smallest and the largest value. */
  lemma MeanBounds(values: map<int, real>, lo: real, hi: real)
    requires values != map[]
    requires forall y :: y in values ==> lo <= values[y] <= hi
    ensures lo <= Mean(values) <= hi
  {
    var n := |values| as real;
    var sum := SumOver(values, values.Keys);
    SumOverBounds(values, values.Keys, lo, hi);
    assert |values.Keys| == |values|;
    RepeatIsProduct(|values|, lo);
    RepeatIsProduct(|values|, hi);
    QuotientBounds(sum, n, lo, hi);
  }

  /** Dividing `n * lo <= sum <= n * hi` by a positive `n`. */
  lemma QuotientBounds(sum: real, n: real, lo: real, hi: real)
    requires n > 0.0 && n * lo <= sum <= n * hi
    ensures lo <= sum / n <= hi
  {
    var q := sum / n;
    assert q * n == sum;
  }

  /** A measure holding the same value for every year has that value as its mean. */
  lemma MeanOfConstant(values: map<int, real>, c: real)
    requires values != map[]
    requires forall y :: y in values ==> values[y] == c
    ensures Mean(values) == c
  {
    MeanBounds(values, c, c);
  }

  // ---------------------------------------------------------------------------------------
  // Merging (Measure::operator=)
  // ---------------------------------------------------------------------------------------

  /** What `operator=` leaves in the assigned-to measure: its own code and label, and the
      union of both year maps, where a year present in `from` takes `from`'s value. */
  function MergeMeasure(into: MeasureValue, from: MeasureValue): MeasureValue
  {
    into.(values := into.values + from.values)
  }

  /** The years after a merge are those of both; a year of `from` has `from`'s value, a year
      only `into` has keeps its value, and the code and label are `into`'s. */
  lemma MergeMeasureContents(into: MeasureValue, from: MeasureValue)
    ensures MergeMeasure(into, from).code == into.code && MergeMeasure(into, from).labelText == into.labelText
    ensures MergeMeasure(into, from).values.Keys == into.values.Keys + from.values.Keys
    ensures forall y :: y in from.values ==> MergeMeasure(into, from).values[y] == from.values[y]
    ensures forall y :: y in into.values && y !in from.values ==> MergeMeasure(into, from).values[y] == into.values[y]
  {
  }

  /** What Measure::setValue leaves: the value stored under the year, read back as the
      signed int the map is keyed by, overwriting any value already there. */
  function WithValue(m: MeasureValue, year: UInt32, value: real): MeasureValue
  {
    m.(values := m.values[ToSigned(year) := value])
  }

  /** Merging again what was just merged changes nothing. */
  lemma MergeMeasureIdempotent(into: MeasureValue, from: MeasureValue)
    ensures MergeMeasure(MergeMeasure(into, from), from) == MergeMeasure(into, from)
  {
  }

  /** A merge leaves the measure as it was exactly when every year of `from` is already
      stored with the same value. */
  lemma MergeMeasureUnchangedIff(into: MeasureValue, from: MeasureValue)
    ensures MergeMeasure(into, from) == into <==>
            forall y :: y in from.values ==> y in into.values && into.values[y] == from.values[y]
  {
    if forall y :: y in from.values ==> y in into.values && into.values[y] == from.values[y] {
      assert MergeMeasure(into, from).values == into.values;
    }
  }

  /** The number of years after a merge: both counts added, less the years both have. */
  lemma MergeMeasureSize(into: MeasureValue, from: MeasureValue)
    ensures |MergeMeasure(into, from).values| ==
            |into.values| + |from.values| - |into.values.Keys * from.values.Keys|
  {
    var a, b := into.values.Keys, from.values.Keys;
    assert MergeMeasure(into, from).values.Keys == a + b;
    assert |a + b| == |a| + |b| - |a * b| by {
      assert a + b == (a - b) + b;
      assert (a - b) !! b;
      assert a == (a - b) + (a * b);
      assert (a - b) !! (a * b);
    }
  }

  // ---------------------------------------------------------------------------------------
  // The Measure class
  // ---------------------------------------------------------------------------------------

  const NoValueMessage := "No value found for year "

  class Measure {
    const code: string
    var labelText: string
    var values: map<int, real>

    /** The measure's state as a value. */
    function Value(): MeasureValue
      reads this
    {
      MeasureValue(code, labelText, values)
    }

    /** Measure::Measure: the codename is stored lower-cased, the label as given. */
    constructor (codename: string, initialLabel: string)
      ensures code == BethYw.Lowered(codename) && labelText == initialLabel && values == map[]
    {
      var lowered := BethYw.ToLower(codename);
      code := lowered;
      labelText := initialLabel;
      values := map[];
    }

    /** Measure::setLabel. */
    method SetLabel(newLabel: string)
      modifies this
      ensures labelText == newLabel && values == old(values)
    {
      labelText := newLabel;
    }

    /** Measure::getValue: the stored value, or out_of_range naming the year. */
    function GetValue(year: int): (r: Result<real>)
      reads this
      ensures r.Success? <==> year in values
      ensures r.Success? ==> r.value == values[year]
      ensures r.Failure? ==> r.error == OutOfRange(NoValueMessage + IntToString(year))
    {
      if year in values then Success(values[year])
      else Failure(OutOfRange(NoValueMessage + IntToString(year)))
    }

    /** Measure::setValue: the year arrives as `unsigned int` and is stored as an `int` key,
        replacing any value already stored for it. */
    method SetValue(year: UInt32, value: real)
      modifies this
      ensures Value() == WithValue(old(Value()), year, value)
      ensures GetValue(ToSigned(year)) == Success(value)
      ensures forall y :: y != ToSigned(year) ==> GetValue(y) == old(GetValue(y))
      ensures Size() == old(Size()) + (if ToSigned(year) in old(values) then 0 else 1)
    {
      values := values[ToSigned(year) := value];
    }

    /** Measure::size: the number of years with a value. */
    function Size(): (n: nat)
      reads this
      ensures n == |values.Keys|
    {
      |values|
    }

    /** Measure::getDifference: the value of the last year less that of the first year. */
    function GetDifference(): (d: real)
      reads this
      ensures values == map[] ==> d == 0.0
      ensures forall first, last :: IsFirstYear(values.Keys, first) && IsLastYear(values.Keys, last) ==>
                d == values[last] - values[first]
    {
      if values != map[] then values[LastYear(values.Keys)] - values[FirstYear(values.Keys)] else 0.0
    }

    /** Measure::getDifferenceAsPercentage: the difference relative to the first year's value,
        times 100. A first value of 0 (a floating-point division by zero) is excluded. */
    function GetDifferenceAsPercentage(): (p: real)
      reads this
      requires values != map[] ==> values[FirstYear(values.Keys)] != 0.0
      ensures values == map[] ==> p == 0.0
      ensures forall first :: IsFirstYear(values.Keys, first) ==> p == GetDifference() / values[first] * 100.0
    {
      if values != map[] then GetDifference() / values[FirstYear(values.Keys)] * 100.0 else 0.0
    }

    /** Measure::getAverage: adds the values in year order, then divides by their count. */
    method GetAverage() returns (average: real)
      ensures average == Mean(values)
    {
      if values != map[] {
        var sum := 0.0;
        var rest := values.Keys;
        while rest != {}
          invariant rest <= values.Keys
          invariant sum + SumOver(values, rest) == SumOver(values, values.Keys)
          decreases rest
        {
          var y := FirstYear(rest);
          sum := sum + values[y];
          rest := rest - {y};
        }
        average := sum / (|values| as real);
      } else {
        average := 0.0;
      }
    }

    /** operator== on measures: same code, label and year map. */
    function Equals(other: Measure): (equal: bool)
      reads this, other
      ensures equal <==> Value() == other.Value()
    {
      code == other.code && labelText == other.labelText && values == other.values
    }

    /** Measure::operator=: copies every year of `other` into this measure, in year order,
        overwriting years both have. The code and the label stay. */
    method MergeFrom(other: Measure)
      modifies this
      ensures Value() == MergeMeasure(old(Value()), old(other.Value()))
    {
      var source := other.values;
      var rest := source.Keys;
      while rest != {}
        invariant rest <= source.Keys
        invariant labelText == old(labelText)
        invariant values.Keys == old(values).Keys + (source.Keys - rest)
        invariant forall y :: y in values ==>
                    values[y] == if y in source && y !in rest then source[y] else old(values)[y]
        decreases rest
      {
        var y := FirstYear(rest);
        values := values[y := source[y]];
        rest := rest - {y};
      }
      assert values.Keys == (old(values) + source).Keys;
      assert forall y :: y in values ==> values[y] == (old(values) + source)[y];
    }

    /** to_json(json&, const Measure&): the year map re-keyed by each year's decimal text,
        built by inserting the years in ascending order. */
    method YearKeyMap() returns (j: map<string, real>)
      ensures forall y :: y in values ==> IntToString(y) in j && j[IntToString(y)] == values[y]
      ensures forall key :: key in j ==> exists y :: y in values && key == IntToString(y)
      ensures |j| == |values|
    {
      j := map[];
      var rest := values.Keys;
      ghost var done: set<int> := {};
      ghost var yearOf: map<string, int> := map[];
      while rest != {}
        invariant rest <= values.Keys && done == values.Keys - rest
        invariant RenderedYears(values, done, j, yearOf)
        decreases rest
      {
        var y := FirstYear(rest);
        var key := IntToString(y);
        RenderOneMoreYear(values, done, j, yearOf, y);
        j := j[key := values[y]];
        rest := rest - {y};
        done := done + {y};
        yearOf := yearOf[key := y];
      }
      RenderedAllYears(values, j, yearOf);
    }
  }

  /** Once every year is rendered, the keys of `j` are exactly the years' decimal texts. */
  lemma RenderedAllYears(values: map<int, real>, j: map<string, real>, yearOf: map<string, int>)
    requires RenderedYears(values, values.Keys, j, yearOf)
    ensures forall y :: y in values ==> IntToString(y) in j && j[IntToString(y)] == values[y]
    ensures forall key :: key in j ==> exists y :: y in values && key == IntToString(y)
    ensures |j| == |values|
  {
    assert |values| == |values.Keys|;
    assert forall key :: key in j ==> yearOf[key] in values && key == IntToString(yearOf[key]);
  }

  /** `j` holds the years of `done` keyed by their decimal text; `yearOf` recalls which year
      each key came from. */
  ghost predicate RenderedYears(values: map<int, real>, done: set<int>, j: map<string, real>,
                                yearOf: map<string, int>)
  {
    done <= values.Keys &&
    (forall y :: y in done ==> IntToString(y) in j && j[IntToString(y)] == values[y]) &&
    j.Keys == yearOf.Keys &&
    (forall key :: key in yearOf ==> yearOf[key] in done && key == IntToString(yearOf[key])) &&
    |j| == |done|
  }

  /** One more year rendered: its key is new, because std::to_string is injective. */
  lemma RenderOneMoreYear(values: map<int, real>, done: set<int>, j: map<string, real>,
                          yearOf: map<string, int>, y: int)
    requires RenderedYears(values, done, j, yearOf) && y in values && y !in done
    ensures IntToString(y) !in j
    ensures RenderedYears(values, done + {y}, j[IntToString(y) := values[y]], yearOf[IntToString(y) := y])
  {
    var key := IntToString(y);
    if key in j {
      IntToStringInjective(y, yearOf[key]);
    }
    assert |done + {y}| == |done| + 1;
  }

  /** The percentage difference of a measure whose first value is positive is positive
      exactly when its last value exceeds its first. */
  lemma PercentageSignFollowsGrowth(m: Measure)
    requires m.values != map[] && m.values[FirstYear(m.values.Keys)] > 0.0
    ensures m.GetDifferenceAsPercentage() > 0.0 <==>
            m.values[LastYear(m.values.Keys)] > m.values[FirstYear(m.values.Keys)]
  {
    var first, last := FirstYear(m.values.Keys), LastYear(m.values.Keys);
    var d := m.GetDifference();
    assert d == m.values[last] - m.values[first];
    RatioSign(d, m.values[first]);
  }

  lemma RatioSign(d: real, f: real)
    requires f > 0.0
    ensures d / f * 100.0 > 0.0 <==> d > 0.0
  {
    var q := d / f;
    assert q * f == d;
    if d > 0.0 {
      assert q > 0.0;
    } else {
      assert q <= 0.0;
    }
  }
}
