/** The free helper functions of namespace BethYw: case conversion, the integer checks used
    on the years argument, the years argument parser, and the construction of the area and
    measure filters from the strings given on the command line. */
module BethYw {
  import opened Wrappers
  import opened StdLib

  // ---------------------------------------------------------------------------------------
  // toLower
  // ---------------------------------------------------------------------------------------

  /** The copy of `s` that BethYw::toLower returns. */
  function Lowered(s: string): (r: string)
    ensures |r| == |s|
    ensures forall i :: 0 <= i < |s| ==> r[i] == ToLowerChar(s[i])
  {
    if s == [] then [] else [ToLowerChar(s[0])] + Lowered(s[1..])
  }

  /** BethYw::toLower: copies `s` and rewrites the copy character by character. */
  method ToLower(s: string) returns (copy: string)
    ensures |copy| == |s|
    ensures forall i :: 0 <= i < |s| ==> copy[i] == ToLowerChar(s[i])
    ensures copy == Lowered(s)
  {
    copy := s;
    var i := 0;
    while i < |copy|
      invariant 0 <= i <= |copy| == |s|
      invariant forall k :: 0 <= k < i ==> copy[k] == ToLowerChar(s[k])
      invariant forall k :: i <= k < |s| ==> copy[k] == s[k]
    {
      copy := copy[i := ToLowerChar(copy[i])];
      i := i + 1;
    }
  }

  /** A lowered string holds no upper-case letter, so lowering it again changes nothing. */
  lemma LoweredIsIdempotent(s: string)
    ensures forall i :: 0 <= i < |s| ==> !IsUpper(Lowered(s)[i])
    ensures Lowered(Lowered(s)) == Lowered(s)
  {
  }

  /** Lowering only changes upper-case letters; strings without them are their own lowering. */
  lemma LoweredWithoutUpper(s: string)
    requires forall i :: 0 <= i < |s| ==> !IsUpper(s[i])
    ensures Lowered(s) == s
  {
  }

  // ---------------------------------------------------------------------------------------
  // isInt and is4DigitInt
  // ---------------------------------------------------------------------------------------

  /** BethYw::isInt: strtol, given `c_str()`, leaves `end` on the terminating NUL. The empty
      C string passes; any other string that passes is one std::stoi converts. */
  predicate IsInt(s: string)
    ensures CStringView(s) == [] ==> IsInt(s)
    ensures IsInt(s) && CStringView(s) != [] ==> Stoi(s).Success?
  {
    var v := CStringView(s);
    Strtol(v).end == |v|
  }

  predicate AllSpaces(s: string) { forall k :: 0 <= k < |s| ==> IsSpace(s[k]) }

  predicate IsSign(c: char) { c == '+' || c == '-' }

  /** Independent description of the strings strtol consumes in full: white space, an
      optional sign, then at least one decimal digit. */
  ghost predicate IntSyntax(v: string)
  {
    exists i, j :: 0 <= i <= j < |v| && AllSpaces(v[..i]) && AllDigits(v[j..]) &&
                   (j == i || (j == i + 1 && IsSign(v[i])))
  }

  /** isInt holds exactly of the strings whose C view is empty or has integer syntax. */
  lemma IsIntIff(s: string)
    ensures IsInt(s) <==> (CStringView(s) == [] || IntSyntax(CStringView(s)))
  {
    var v := CStringView(s);
    if IsInt(s) && v != [] {
      IntSyntaxOfFullScan(v);
    }
    if v != [] && IntSyntax(v) {
      FullScanOfIntSyntax(v);
    }
  }

  lemma IntSyntaxOfFullScan(v: string)
    requires v != [] && Strtol(v).end == |v|
    ensures IntSyntax(v)
  {
    var i := SkipSpaces(v, 0);
    var j := if i < |v| && IsSign(v[i]) then i + 1 else i;
    var k := SkipDigits(v, j);
    assert k == |v| && j < k;
    assert AllSpaces(v[..i]) by {
      forall m | 0 <= m < i ensures IsSpace(v[..i][m]) { assert v[..i][m] == v[m]; }
    }
    assert AllDigits(v[j..]) by {
      forall m | 0 <= m < |v| - j ensures IsDigit(v[j..][m]) { assert v[j..][m] == v[j + m]; }
    }
  }

  lemma FullScanOfIntSyntax(v: string)
    requires IntSyntax(v)
    ensures Strtol(v).end == |v|
  {
    var i, j :| 0 <= i <= j < |v| && AllSpaces(v[..i]) && AllDigits(v[j..]) &&
                (j == i || (j == i + 1 && IsSign(v[i])));
    assert forall m :: 0 <= m < i ==> IsSpace(v[m]) by {
      forall m | 0 <= m < i ensures IsSpace(v[m]) { assert v[..i][m] == v[m]; }
    }
    assert forall m :: j <= m < |v| ==> IsDigit(v[m]) by {
      forall m | j <= m < |v| ensures IsDigit(v[m]) { assert v[j..][m - j] == v[m]; }
    }
    FullScanAt(v, i, j);
  }

  /** strtol consumes all of `v` when `v` is spaces up to `i`, an optional sign, and digits
      from `j` to the end. */
  lemma FullScanAt(v: string, i: nat, j: nat)
    requires i <= j < |v| && (j == i || (j == i + 1 && IsSign(v[i])))
    requires forall m :: 0 <= m < i ==> IsSpace(v[m])
    requires forall m :: j <= m < |v| ==> IsDigit(v[m])
    ensures Strtol(v).end == |v|
  {
    assert !IsSpace(v[i]);
    assert SkipSpaces(v, 0) == i;
    assert SkipDigits(v, j) == |v|;
  }

  /** BethYw::is4DigitInt. */
  predicate Is4DigitInt(n: int)
  {
    999 < n < 10000
  }

  function Pow10(k: nat): nat
  {
    if k == 0 then 1 else 10 * Pow10(k - 1)
  }

  lemma {:induction false} Pow10AtLeastTen(k: nat)
    requires k >= 1
    ensures Pow10(k) >= 10
  {
    if k > 1 {
      Pow10AtLeastTen(k - 1);
    }
  }

  /** `n` needs more than `k` digits exactly when it is at least 10^k. */
  lemma {:induction false} NatToStringLength(n: nat, k: nat)
    requires k >= 1
    ensures |NatToString(n)| > k <==> n >= Pow10(k)
  {
    Pow10AtLeastTen(k);
    if n >= 10 {
      assert |NatToString(n)| == |NatToString(n / 10)| + 1;
      if k > 1 {
        var p := Pow10(k - 1);
        assert Pow10(k) == 10 * p;
        assert n >= 10 * p <==> n / 10 >= p;
        NatToStringLength(n / 10, k - 1);
      }
    }
  }

  /** The 4-digit check accepts exactly the numbers std::to_string writes with four digits. */
  lemma Is4DigitIntIffFourDigits(n: int)
    ensures Is4DigitInt(n) <==> n >= 0 && |IntToString(n)| == 4
  {
    if n >= 0 {
      NatToStringLength(n, 3);
      NatToStringLength(n, 4);
    }
  }

  /** What isInt and stoi make of a number rendered by std::to_string. */
  lemma ReadBackIntToString(n: int)
    ensures IsInt(IntToString(n))
    ensures Stoi(IntToString(n)) == Success(n)
  {
    CStringViewOfIntToString(n);
    StrtolOfIntToString(n);
  }

  // ---------------------------------------------------------------------------------------
  // parseYearsArg
  // ---------------------------------------------------------------------------------------

  const YearsError := "Invalid input for years argument"

  /** BethYw::parseYearsArg on the string given for the years option: one year `YYYY`, a
      range `YYYY-ZZZZ`, or 0 for "all years", which is the sentinel (0, 0). */
  function ParseYearsArg(arg: string): (r: Result<(nat, nat)>)
    ensures r.Success? ==> r.value == (0, 0) || (Is4DigitInt(r.value.0) && Is4DigitInt(r.value.1))
    ensures r.Failure? ==> r.error.InvalidArgument?
    ensures !IsInt(arg) && '-' !in arg ==> r == Failure(InvalidArgument(YearsError))
  {
    if IsInt(arg) then
      var year :- Stoi(arg);
      if Is4DigitInt(year) then Success((year, year))
      else if year == 0 then Success((0, 0))
      else Failure(InvalidArgument(YearsError))
    else
      var hyphen := IndexOf(arg, '-');
      if hyphen == |arg| then Failure(InvalidArgument(YearsError))
      else
        var before, after := arg[..hyphen], arg[hyphen + 1..];
        if IsInt(before) && IsInt(after) then
          var first :- Stoi(before);
          var second :- Stoi(after);
          if Is4DigitInt(first) && Is4DigitInt(second) then Success((first, second))
          else if first == 0 || second == 0 then Success((0, 0))
          else Failure(InvalidArgument(YearsError))
        else Failure(InvalidArgument(YearsError))
  }

  /** A single 4-digit year `y` selects the range (y, y). */
  lemma ParseSingleYear(y: int)
    requires Is4DigitInt(y)
    ensures ParseYearsArg(IntToString(y)) == Success((y, y))
  {
    ReadBackIntToString(y);
  }

  /** The single integer 0 selects the "all years" sentinel (0, 0). */
  lemma ParseSingleZero()
    ensures ParseYearsArg("0") == Success((0, 0))
  {
    assert CStringView("0") == "0";
    assert Strtol("0").end == 1;
  }

  /** Any single integer other than a 4-digit year and 0 is rejected. */
  lemma ParseSingleIntRejected(n: int)
    requires !Is4DigitInt(n) && n != 0
    ensures ParseYearsArg(IntToString(n)) == Failure(InvalidArgument(YearsError))
  {
    ReadBackIntToString(n);
  }

  /** Rendered as text, `a-b` with two 4-digit years parses back to (a, b), in whichever
      order the two years come. */
  lemma ParseYearRange(a: int, b: int)
    requires Is4DigitInt(a) && Is4DigitInt(b)
    ensures ParseYearsArg(IntToString(a) + "-" + IntToString(b)) == Success((a, b))
  {
    var sa, sb := IntToString(a), IntToString(b);
    var arg := sa + "-" + sb;
    RangeSplits(sa, sb);
    ReadBackIntToString(a);
    ReadBackIntToString(b);
  }

  /** A range with 0 on either side is the "all years" sentinel, whatever the other side is. */
  lemma ParseRangeWithZero(a: nat, b: nat)
    requires a == 0 || b == 0
    ensures ParseYearsArg(IntToString(a) + "-" + IntToString(b)) == Success((0, 0))
  {
    RangeSplits(IntToString(a), IntToString(b));
    ReadBackIntToString(a);
    ReadBackIntToString(b);
  }

  /** A range of two numbers, neither 0 and not both 4-digit years, is rejected. */
  lemma ParseRangeRejected(a: nat, b: nat)
    requires a != 0 && b != 0 && !(Is4DigitInt(a) && Is4DigitInt(b))
    ensures ParseYearsArg(IntToString(a) + "-" + IntToString(b)) == Failure(InvalidArgument(YearsError))
  {
    RangeSplits(IntToString(a), IntToString(b));
    ReadBackIntToString(a);
    ReadBackIntToString(b);
  }

  /** `sa-sb` for two digit strings: not an integer as a whole, and split at the hyphen
      between them. */
  lemma RangeSplits(sa: string, sb: string)
    requires |sa| >= 1 && AllDigits(sa) && AllDigits(sb)
    ensures !IsInt(sa + "-" + sb)
    ensures IndexOf(sa + "-" + sb, '-') == |sa|
    ensures (sa + "-" + sb)[..|sa|] == sa && (sa + "-" + sb)[|sa| + 1..] == sb
  {
    RangeHyphenIndex(sa, sb);
    RangeHasNoNul(sa, sb);
    RangeStopsAtHyphen(sa, sb);
  }

  /** The first hyphen of `sa-sb`, with no hyphen in `sa`, is the one between them. */
  lemma RangeHyphenIndex(sa: string, sb: string)
    requires AllDigits(sa)
    ensures IndexOf(sa + "-" + sb, '-') == |sa|
    ensures (sa + "-" + sb)[..|sa|] == sa && (sa + "-" + sb)[|sa| + 1..] == sb
  {
    var arg := sa + "-" + sb;
    assert arg[|sa|] == '-';
    assert forall k :: 0 <= k < |sa| ==> arg[k] == sa[k];
  }

  /** `sa-sb` over digit strings holds no NUL, so its C-string view is the whole string. */
  lemma RangeHasNoNul(sa: string, sb: string)
    requires AllDigits(sa) && AllDigits(sb)
    ensures CStringView(sa + "-" + sb) == sa + "-" + sb
  {
    var arg := sa + "-" + sb;
    forall k | 0 <= k < |arg| ensures arg[k] != '\0' {
      if k < |sa| { assert arg[k] == sa[k]; }
      else if k > |sa| { assert arg[k] == sb[k - |sa| - 1]; }
    }
  }

  /** strtol on `sa-sb` stops at the hyphen, short of the end. */
  lemma RangeStopsAtHyphen(sa: string, sb: string)
    requires |sa| >= 1 && AllDigits(sa) && AllDigits(sb)
    ensures Strtol(sa + "-" + sb).end == |sa|
  {
    var arg := sa + "-" + sb;
    assert arg[0] == sa[0];
    assert SkipSpaces(arg, 0) == 0;
    assert arg[|sa|] == '-';
    assert forall k :: 0 <= k < |sa| ==> arg[k] == sa[k];
    assert SkipDigits(arg, 0) == |sa|;
  }

  // ---------------------------------------------------------------------------------------
  // containsAllArgument, parseAreasArg, parseMeasuresArg
  // ---------------------------------------------------------------------------------------

  /** BethYw::containsAllArgument: some argument is exactly "all" (case-sensitive). */
  method ContainsAllArgument(arguments: seq<string>) returns (found: bool)
    ensures found <==> "all" in arguments
  {
    for i := 0 to |arguments|
      invariant "all" !in arguments[..i]
    {
      if arguments[i] == "all" {
        return true;
      }
    }
    return false;
  }

  /** The filter set both argument parsers build: empty (no filtering) when "all" is among
      the arguments, otherwise every argument given. */
  method FilterFromArguments(arguments: seq<string>) returns (filter: set<string>)
    ensures "all" in arguments ==> filter == {}
    ensures "all" !in arguments ==> forall a :: a in filter <==> a in arguments
  {
    filter := {};
    var all := ContainsAllArgument(arguments);
    if !all {
      for i := 0 to |arguments|
        invariant forall a :: a in filter <==> a in arguments[..i]
      {
        filter := filter + {arguments[i]};
      }
    }
  }

  /** BethYw::parseAreasArg, given the strings of the areas option. */
  method ParseAreasArg(inputAreas: seq<string>) returns (areas: set<string>)
    ensures "all" in inputAreas ==> areas == {}
    ensures "all" !in inputAreas ==> forall a :: a in areas <==> a in inputAreas
  {
    areas := FilterFromArguments(inputAreas);
  }

  /** BethYw::parseMeasuresArg, given the strings of the measures option. */
  method ParseMeasuresArg(inputMeasures: seq<string>) returns (measures: set<string>)
    ensures "all" in inputMeasures ==> measures == {}
    ensures "all" !in inputMeasures ==> forall m :: m in measures <==> m in inputMeasures
  {
    measures := FilterFromArguments(inputMeasures);
  }
}
