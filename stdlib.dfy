/** Models of the C and C++ library routines the program relies on, in the "C" locale:
    character classes, `::tolower`, `strtol` over what `c_str()` exposes, `std::to_string`
    for `int`, and the field splitting done by `std::getline(stream, field, ',')`. */
module StdLib {
  import opened Wrappers

  // ---------------------------------------------------------------------------------------
  // Character classes ("C" locale)
  // ---------------------------------------------------------------------------------------

  predicate IsUpper(c: char) { 'A' <= c <= 'Z' }

  predicate IsLower(c: char) { 'a' <= c <= 'z' }

  /** `std::isalpha`. */
  predicate IsAlpha(c: char) { IsUpper(c) || IsLower(c) }

  /** `std::isspace`: space, '\t', '\n', '\v', '\f' and '\r'. */
  predicate IsSpace(c: char) { c == ' ' || 9 <= c as int <= 13 }

  predicate IsDigit(c: char) { '0' <= c <= '9' }

  predicate AllDigits(s: string) { forall k :: 0 <= k < |s| ==> IsDigit(s[k]) }

  function DigitValue(c: char): nat
    requires IsDigit(c)
  {
    c as int - '0' as int
  }

  function DigitChar(d: nat): char
    requires d < 10
  {
    ('0' as int + d) as char
  }

  /** `::tolower`: upper-case ASCII letters map to lower case, every other character is kept. */
  function ToLowerChar(c: char): (l: char)
    ensures IsUpper(c) ==> IsLower(l) && l as int == c as int + 32
    ensures !IsUpper(c) ==> l == c
  {
    if IsUpper(c) then (c as int + 32) as char else c
  }

  // ---------------------------------------------------------------------------------------
  // 32-bit integers (two's complement, as on the platforms g++ targets)
  // ---------------------------------------------------------------------------------------

  type Int32 = x: int | -0x8000_0000 <= x < 0x8000_0000

  type UInt32 = x: int | 0 <= x < 0x1_0000_0000

  /** Conversion of an `int` to `unsigned int`: reduction modulo 2^32. */
  function ToUnsigned(x: Int32): (u: UInt32)
    ensures x >= 0 ==> u == x
    ensures x < 0 ==> u == x + 0x1_0000_0000
  {
    x % 0x1_0000_0000
  }

  /** Conversion of an `unsigned int` to `int`: values above INT_MAX wrap to negatives. */
  function ToSigned(u: UInt32): (x: Int32)
    ensures x % 0x1_0000_0000 == u
    ensures u < 0x8000_0000 ==> x == u
  {
    if u < 0x8000_0000 then u else u - 0x1_0000_0000
  }

  /** An `int` passed through an `unsigned int` comes back unchanged. */
  lemma SignedOfUnsigned(x: Int32)
    ensures ToSigned(ToUnsigned(x)) == x
  {
  }

  // ---------------------------------------------------------------------------------------
  // Searching
  // ---------------------------------------------------------------------------------------

  /** Index of the first occurrence of `c` in `s` (`std::string::find`), or |s| when absent. */
  function IndexOf(s: string, c: char): (i: nat)
    ensures i <= |s|
    ensures i < |s| ==> s[i] == c
    ensures forall k :: 0 <= k < i ==> s[k] != c
  {
    if s == [] then 0 else if s[0] == c then 0 else 1 + IndexOf(s[1..], c)
  }

  /** What a C routine sees of a std::string through `c_str()`: the characters before the
      first NUL. */
  function CStringView(s: string): (v: string)
    ensures |v| <= |s| && v == s[..|v|]
    ensures forall k :: 0 <= k < |v| ==> v[k] != '\0'
    ensures |v| < |s| ==> s[|v|] == '\0'
  {
    if s == [] || s[0] == '\0' then [] else [s[0]] + CStringView(s[1..])
  }

  // ---------------------------------------------------------------------------------------
  // strtol, base 10
  // ---------------------------------------------------------------------------------------

  /** First index at or after `i` that does not hold white space. */
  function SkipSpaces(s: string, i: nat): (j: nat)
    requires i <= |s|
    ensures i <= j <= |s|
    ensures forall k :: i <= k < j ==> IsSpace(s[k])
    ensures j < |s| ==> !IsSpace(s[j])
    decreases |s| - i
  {
    if i < |s| && IsSpace(s[i]) then SkipSpaces(s, i + 1) else i
  }

  /** First index at or after `i` that does not hold a decimal digit. */
  function SkipDigits(s: string, i: nat): (j: nat)
    requires i <= |s|
    ensures i <= j <= |s|
    ensures forall k :: i <= k < j ==> IsDigit(s[k])
    ensures j < |s| ==> !IsDigit(s[j])
    decreases |s| - i
  {
    if i < |s| && IsDigit(s[i]) then SkipDigits(s, i + 1) else i
  }

  /** The number a string of decimal digits denotes, most significant digit first. */
  function DigitsValue(d: string): nat
    requires AllDigits(d)
  {
    if d == [] then 0 else DigitsValue(d[..|d| - 1]) * 10 + DigitValue(d[|d| - 1])
  }

  /** Where `strtol(s, &end, 10)` leaves `end` (as an index into `s`) and what it returns. */
  datatype StrtolResult = StrtolResult(end: nat, value: int)

  /** `strtol(s, &end, 10)`: optional white space, an optional sign, then the longest run of
      digits. With no digit, nothing is converted: `end` is the start of `s` and the result 0.
      Clamping on overflow is not modelled: the value is exact. */
  function Strtol(s: string): (r: StrtolResult)
    ensures r.end <= |s|
  {
    var i := SkipSpaces(s, 0);
    var negative := i < |s| && s[i] == '-';
    var j := if i < |s| && (s[i] == '+' || s[i] == '-') then i + 1 else i;
    var k := SkipDigits(s, j);
    if k == j then StrtolResult(0, 0)
    else StrtolResult(k, if negative then -(DigitsValue(s[j..k]) as int) else DigitsValue(s[j..k]))
  }

  /** `std::stoi`: `strtol` on `c_str()`, throwing std::invalid_argument when nothing can be
      converted (libstdc++ gives the text "stoi"). Out-of-range values are not modelled. */
  function Stoi(s: string): (r: Result<int>)
    ensures r.Failure? <==> Strtol(CStringView(s)).end == 0
    ensures r.Success? ==> r.value == Strtol(CStringView(s)).value
  {
    var scan := Strtol(CStringView(s));
    if scan.end == 0 then Failure(InvalidArgument("stoi")) else Success(scan.value)
  }

  // ---------------------------------------------------------------------------------------
  // std::to_string(int)
  // ---------------------------------------------------------------------------------------

  /** Decimal digits of `n`, without leading zeros. */
  function NatToString(n: nat): (s: string)
    ensures |s| >= 1 && AllDigits(s)
  {
    if n < 10 then [DigitChar(n)] else NatToString(n / 10) + [DigitChar(n % 10)]
  }

  /** `std::to_string(int)`: a '-' before the digits of a negative number. */
  function IntToString(n: int): (s: string)
    ensures n >= 0 ==> s == NatToString(n)
    ensures n < 0 ==> s == "-" + NatToString(-n)
  {
    if n < 0 then "-" + NatToString(-n) else NatToString(n)
  }

  lemma {:induction false} DigitsValueOfNatToString(n: nat)
    ensures DigitsValue(NatToString(n)) == n
  {
    if n >= 10 {
      var s := NatToString(n);
      var p := NatToString(n / 10);
      assert s == p + [DigitChar(n % 10)];
      assert s[..|s| - 1] == p;
      DigitsValueOfNatToString(n / 10);
    }
  }

  /** strtol reads back exactly what std::to_string wrote, consuming all of it. */
  lemma StrtolOfIntToString(n: int)
    ensures Strtol(IntToString(n)) == StrtolResult(|IntToString(n)|, n)
  {
    var s := IntToString(n);
    var i := SkipSpaces(s, 0);
    if n >= 0 {
      assert IsDigit(s[0]);
      assert i == 0;
      var k := SkipDigits(s, 0);
      assert k == |s|;
      assert s[0..k] == s;
      DigitsValueOfNatToString(n);
    } else {
      var d := NatToString(-n);
      assert s[0] == '-';
      assert i == 0;
      assert forall k :: 1 <= k < |s| ==> s[k] == d[k - 1];
      var k := SkipDigits(s, 1);
      assert k == |s|;
      assert s[1..k] == d;
      DigitsValueOfNatToString(-n);
    }
  }

  /** Distinct numbers render as distinct strings. */
  lemma IntToStringInjective(a: int, b: int)
    requires IntToString(a) == IntToString(b)
    ensures a == b
  {
    StrtolOfIntToString(a);
    StrtolOfIntToString(b);
  }

  /** Rendered numbers hold no NUL, so `c_str()` shows all of them. */
  lemma CStringViewOfIntToString(n: int)
    ensures CStringView(IntToString(n)) == IntToString(n)
  {
    var s := IntToString(n);
    var v := CStringView(s);
    assert forall k :: 0 <= k < |s| ==> s[k] != '\0' by {
      forall k | 0 <= k < |s| ensures s[k] != '\0' {
        if n < 0 && k > 0 {
          assert s[k] == NatToString(-n)[k - 1];
        }
      }
    }
  }

  // ---------------------------------------------------------------------------------------
  // std::getline(lineStream, field, ',')
  // ---------------------------------------------------------------------------------------

  /** The string the `k`-th call of `std::getline(lineStream, field, ',')` leaves in a freshly
      declared `field` when `lineStream` holds `line`: the `k`-th comma-separated piece, or the
      empty string once the line is exhausted. */
  function CommaField(line: string, k: nat): string
  {
    var comma := IndexOf(line, ',');
    if k == 0 then line[..comma]
    else if comma == |line| then ""
    else CommaField(line[comma + 1..], k - 1)
  }

  /** The first three fields of a row written as `a,b,c` (optionally followed by more
      comma-separated columns) are `a`, `b` and `c`. */
  lemma CommaFieldsOfRow(a: string, b: string, c: string, tail: string)
    requires ',' !in a && ',' !in b && ',' !in c
    requires tail == [] || tail[0] == ','
    ensures CommaField(a + "," + b + "," + c + tail, 0) == a
    ensures CommaField(a + "," + b + "," + c + tail, 1) == b
    ensures CommaField(a + "," + b + "," + c + tail, 2) == c
  {
    var rest2 := c + tail;
    var rest1 := b + [','] + rest2;
    var row := a + "," + b + "," + c + tail;
    assert row == a + [','] + rest1;
    assert CommaField(row, 0) == a && CommaField(row, 1) == CommaField(rest1, 0) &&
           CommaField(row, 2) == CommaField(rest1, 1) by {
      CommaFieldAfterPiece(a, rest1, 0);
      CommaFieldAfterPiece(a, rest1, 1);
    }
    assert CommaField(rest1, 0) == b && CommaField(rest1, 1) == CommaField(rest2, 0) by {
      CommaFieldAfterPiece(b, rest2, 0);
    }
    assert CommaField(rest2, 0) == c by {
      LastPieceField(c, tail);
    }
  }

  /** A comma-free piece followed by nothing or by a comma is the first field. */
  lemma LastPieceField(c: string, tail: string)
    requires ',' !in c
    requires tail == [] || tail[0] == ','
    ensures CommaField(c + tail, 0) == c
  {
    if tail == [] {
      assert c + tail == c;
      IndexOfAbsent(c);
      assert c[..|c|] == c;
    } else {
      assert c + tail == c + [','] + tail[1..];
      CommaFieldAfterPiece(c, tail[1..], 0);
    }
  }

  /** After a comma-free piece and its comma, field numbering starts again at the rest. */
  lemma CommaFieldAfterPiece(piece: string, rest: string, k: nat)
    requires ',' !in piece
    ensures CommaField(piece + [','] + rest, 0) == piece
    ensures CommaField(piece + [','] + rest, k + 1) == CommaField(rest, k)
  {
    var s := piece + [','] + rest;
    IndexOfAfterPiece(piece, rest);
    assert s[..|piece|] == piece;
    assert s[|piece| + 1..] == rest;
  }

  lemma IndexOfAfterPiece(piece: string, rest: string)
    requires ',' !in piece
    ensures IndexOf(piece + [','] + rest, ',') == |piece|
  {
    var s := piece + [','] + rest;
    assert s[|piece|] == ',';
    assert forall k :: 0 <= k < |piece| ==> s[k] == piece[k];
  }

  lemma IndexOfAbsent(s: string)
    requires ',' !in s
    ensures IndexOf(s, ',') == |s|
  {
  }
}
