/** `strtol(str, &end, 10)` as section 7.22.1.4 of ISO C11 describes it, and
    convert_to_int of ioandroid.c, which accepts a string only when strtol
    consumed all of it and the value fits an `int`. */
module Strtol {
  import opened Wrappers
  import opened CTypes

  /** The characters `isspace` accepts in the "C" locale. */
  predicate IsSpace(c: char) {
    c == ' ' || c == '\t' || c == '\n' || c == '\U{000B}' || c == '\U{000C}' || c == '\r'
  }

  predicate IsDigit(c: char) { '0' <= c <= '9' }

  predicate AllDigits(s: string) { forall k :: 0 <= k < |s| ==> IsDigit(s[k]) }

  function DigitValue(c: char): nat
    requires IsDigit(c)
  {
    (c - '0') as nat
  }

  function DigitChar(d: nat): (c: char)
    requires d < 10
    ensures IsDigit(c) && DigitValue(c) == d
  {
    ('0' as int + d) as char
  }

  /** The number a run of decimal digits denotes, read left to right. */
  function DigitsValue(s: string): nat
    requires AllDigits(s)
  {
    if |s| == 0 then 0 else DigitsValue(s[..|s| - 1]) * 10 + DigitValue(s[|s| - 1])
  }

  /** The decimal digits of n, most significant first, without leading zeros. */
  function Digits(n: nat): (r: string)
    ensures |r| >= 1 && AllDigits(r) && DigitsValue(r) == n
    ensures |r| > 1 ==> r[0] != '0'
  {
    if n < 10 then [DigitChar(n)]
    else
      var r := Digits(n / 10) + [DigitChar(n % 10)];
      assert r[..|r| - 1] == Digits(n / 10);
      r
  }

  /** How `printf("%d", n)` writes n. */
  function DecimalString(n: int): string {
    if n < 0 then "-" + Digits(-n) else Digits(n)
  }

  /** The range of `long`; at least that of `int`. */
  datatype LongRange = LongRange(min: int, max: int) {
    predicate CoversInt() { min <= INT_MIN && INT_MAX <= max }
  }

  /** `long` on LP64 platforms (64-bit Android). */
  const LP64: LongRange := LongRange(-0x8000_0000_0000_0000, 0x7fff_ffff_ffff_ffff)

  /** The first index at or after i that is not white space. */
  function SpaceEnd(s: string, i: nat): (e: nat)
    requires i <= |s|
    ensures i <= e <= |s|
    ensures forall k :: i <= k < e ==> IsSpace(s[k])
    ensures e < |s| ==> !IsSpace(s[e])
    decreases |s| - i
  {
    if i < |s| && IsSpace(s[i]) then SpaceEnd(s, i + 1) else i
  }

  /** The end of the longest run of digits that starts at i. */
  function DigitsEnd(s: string, i: nat): (e: nat)
    requires i <= |s|
    ensures i <= e <= |s|
    ensures AllDigits(s[i..e])
    ensures e < |s| ==> !IsDigit(s[e])
    decreases |s| - i
  {
    if i < |s| && IsDigit(s[i]) then
      var e := DigitsEnd(s, i + 1);
      assert forall k :: 0 < k < e - i ==> s[i..e][k] == s[i + 1..e][k - 1];
      e
    else i
  }

  /** What strtol returns, where `*end` points, and whether it set ERANGE. */
  datatype Conversion = Conversion(value: int, end: nat, erange: bool)

  /** Where the digits would start: after white space and an optional sign. */
  function DigitsStart(s: string): (b: nat)
    ensures b <= |s|
  {
    var a := SpaceEnd(s, 0);
    if a < |s| && (s[a] == '-' || s[a] == '+') then a + 1 else a
  }

  /** Whether the optional sign is a minus. */
  predicate Negative(s: string) {
    var a := SpaceEnd(s, 0);
    a < |s| && s[a] == '-'
  }

  /** The result for a value v read up to `end`: clamped to `long`, with ERANGE. */
  function Clamp(v: int, end: nat, long: LongRange): Conversion {
    if v > long.max then Conversion(long.max, end, true)
    else if v < long.min then Conversion(long.min, end, true)
    else Conversion(v, end, false)
  }

  /** strtol with base 10: white space, an optional sign, then the longest run
      of digits. With no digits nothing is converted: 0 is returned and `end`
      is the start of the string. A value outside `long` is clamped to its
      bound and ERANGE is set. */
  function StrtolBase10(s: string, long: LongRange): (r: Conversion)
    ensures r.end <= |s|
    ensures r.end == 0 ==> r.value == 0 && !r.erange
    ensures r.end > 0 ==> IsDigit(s[r.end - 1]) && (r.end == |s| || !IsDigit(s[r.end]))
    ensures !r.erange ==> long.min <= r.value <= long.max || r.value == 0
    ensures r.erange ==> r.value == long.min || r.value == long.max
  {
    var b := DigitsStart(s);
    var e := DigitsEnd(s, b);
    assert e > b ==> IsDigit(s[b..e][e - b - 1]);
    Convert(s[b..e], e, Negative(s), long)
  }

  /** The conversion of the digit run `digits` that ends at index `end`. */
  function Convert(digits: string, end: nat, negative: bool, long: LongRange): Conversion
    requires AllDigits(digits)
  {
    if digits == [] then Conversion(0, 0, false)
    else
      var m: int := DigitsValue(digits);
      Clamp(if negative then -m else m, end, long)
  }

  /** convert_to_int: strtol, then reject ERANGE, values outside `int`, the
      empty string and anything left over after the number. */
  function ConvertToInt(s: string, long: LongRange): (r: Option<int>)
    requires long.CoversInt()
    ensures s == [] ==> r.None?
    ensures r.Some? ==> IsInt(r.value) && IsDigit(s[|s| - 1])
  {
    var c := StrtolBase10(s, long);
    if c.erange || c.value < INT_MIN || c.value > INT_MAX || |s| == 0 || c.end != |s| then None
    else Some(c.value)
  }

  // ---------------------------------------------------------------------------
  // Properties

  lemma DigitsEndAll(s: string, i: nat)
    requires i <= |s| && AllDigits(s[i..])
    ensures DigitsEnd(s, i) == |s|
  {
  }

  /** strtol reads back exactly what `%d` wrote, clamping only outside `long`. */
  lemma StrtolOfDecimal(n: int, long: LongRange)
    requires long.CoversInt()
    ensures StrtolBase10(DecimalString(n), long).end == |DecimalString(n)|
    ensures StrtolBase10(DecimalString(n), long).erange == (n < long.min || n > long.max)
    ensures !(n < long.min || n > long.max) ==> StrtolBase10(DecimalString(n), long).value == n
  {
    var s := DecimalString(n);
    var d := Digits(if n < 0 then -n else n);
    assert !IsSpace(s[0]);
    assert SpaceEnd(s, 0) == 0;
    var b := if n < 0 then 1 else 0;
    assert s[b..] == d;
    assert DigitsStart(s) == b && Negative(s) == (n < 0);
    DigitsEndAll(s, b);
    assert s[b..DigitsEnd(s, b)] == d;
  }

  /** convert_to_int accepts the decimal representation of n exactly when n is
      an `int`, and then returns n. */
  lemma {:induction false} ConvertToIntOfDecimal(n: int, long: LongRange)
    requires long.CoversInt()
    ensures ConvertToInt(DecimalString(n), long) == if IsInt(n) then Some(n) else None
  {
    StrtolOfDecimal(n, long);
  }

  /** One more white-space character in front moves `end` by one and changes
      nothing else. */
  lemma {:induction false} StrtolLeadingSpace(c: char, s: string, long: LongRange)
    requires IsSpace(c)
    ensures var r := StrtolBase10(s, long);
            StrtolBase10([c] + s, long)
              == Conversion(r.value, if r.end == 0 then 0 else r.end + 1, r.erange)
  {
    var b := DigitsStart(s);
    var e := DigitsEnd(s, b);
    var d := s[b..e];
    StrtolShifted(c, s, long);
    ConvertMovedEnd(d, e, Negative(s), long);
    StrtolUnfold(s, long);
    var r := Convert(d, e, Negative(s), long);
    assert r.end == (if d == [] then 0 else e);
    assert d != [] ==> e > 0;
  }

  /** With one more space in front, strtol converts the same digits, ending
      one position later. */
  lemma StrtolShifted(c: char, s: string, long: LongRange)
    requires IsSpace(c)
    ensures var b := DigitsStart(s);
            var e := DigitsEnd(s, b);
            StrtolBase10([c] + s, long) == Convert(s[b..e], e + 1, Negative(s), long)
  {
    ScanLeadingSpace(c, s);
    StrtolUnfold([c] + s, long);
  }

  /** The scan positions in a string with one more space in front. */
  lemma ScanLeadingSpace(c: char, s: string)
    requires IsSpace(c)
    ensures DigitsStart([c] + s) == DigitsStart(s) + 1
    ensures Negative([c] + s) == Negative(s)
    ensures DigitsEnd([c] + s, DigitsStart(s) + 1) == DigitsEnd(s, DigitsStart(s)) + 1
    ensures ([c] + s)[DigitsStart(s) + 1..DigitsEnd(s, DigitsStart(s)) + 1]
              == s[DigitsStart(s)..DigitsEnd(s, DigitsStart(s))]
  {
    SignLeadingSpace(c, s);
    var b := DigitsStart(s);
    DigitsEndShift(c, s, b);
    var e := DigitsEnd(s, b);
    SliceShift(c, s, b, e);
  }

  lemma SignLeadingSpace(c: char, s: string)
    requires IsSpace(c)
    ensures DigitsStart([c] + s) == DigitsStart(s) + 1
    ensures Negative([c] + s) == Negative(s)
  {
    var t := [c] + s;
    SpaceEndShift(c, s, 0);
    var a := SpaceEnd(s, 0);
    assert a < |s| ==> t[a + 1] == s[a];
  }

  lemma SliceShift(c: char, s: string, b: nat, e: nat)
    requires b <= e <= |s|
    ensures ([c] + s)[b + 1..e + 1] == s[b..e]
  {
  }

  lemma ConvertMovedEnd(digits: string, end: nat, negative: bool, long: LongRange)
    requires AllDigits(digits)
    ensures var r := Convert(digits, end, negative, long);
            Convert(digits, end + 1, negative, long)
              == Conversion(r.value, if digits == [] then 0 else end + 1, r.erange)
  {
  }

  lemma StrtolUnfold(s: string, long: LongRange)
    ensures var b := DigitsStart(s);
            var e := DigitsEnd(s, b);
            StrtolBase10(s, long) == Convert(s[b..e], e, Negative(s), long)
  {
  }

  /** Leading white space is skipped: one more space in front changes nothing. */
  lemma ConvertToIntLeadingSpace(c: char, s: string, long: LongRange)
    requires long.CoversInt() && IsSpace(c)
    ensures ConvertToInt([c] + s, long) == ConvertToInt(s, long)
  {
    StrtolLeadingSpace(c, s, long);
  }

  lemma {:induction false} SpaceEndShift(c: char, s: string, i: nat)
    requires i <= |s| && IsSpace(c)
    ensures SpaceEnd([c] + s, i + 1) == SpaceEnd(s, i) + 1
    ensures i == 0 ==> SpaceEnd([c] + s, 0) == SpaceEnd(s, 0) + 1
    decreases |s| - i
  {
    var t := [c] + s;
    assert t[i + 1..] == s[i..];
    if i < |s| && IsSpace(s[i]) {
      SpaceEndShift(c, s, i + 1);
    }
  }

  lemma {:induction false} DigitsEndShift(c: char, s: string, i: nat)
    requires i <= |s|
    ensures DigitsEnd([c] + s, i + 1) == DigitsEnd(s, i) + 1
    decreases |s| - i
  {
    var t := [c] + s;
    assert t[i + 1..] == s[i..];
    if i < |s| && IsDigit(s[i]) {
      DigitsEndShift(c, s, i + 1);
    }
  }

  /** Anything after the number other than a digit makes the parse partial,
      and convert_to_int refuses it. */
  lemma ConvertToIntTrailing(s: string, c: char, long: LongRange)
    requires long.CoversInt() && !IsDigit(c)
    ensures ConvertToInt(s + [c], long).None?
  {
  }

  /** What convert_to_int accepts is white space, then at most one sign, then
      a non-empty run of digits to the very end: nothing after the digits
      ever gets through. */
  lemma AcceptedShape(s: string, long: LongRange)
    requires long.CoversInt() && ConvertToInt(s, long).Some?
    ensures forall k :: 0 <= k < SpaceEnd(s, 0) ==> IsSpace(s[k])
    ensures SpaceEnd(s, 0) <= DigitsStart(s) <= SpaceEnd(s, 0) + 1
    ensures DigitsStart(s) == SpaceEnd(s, 0) + 1 ==> s[SpaceEnd(s, 0)] == '+' || s[SpaceEnd(s, 0)] == '-'
    ensures DigitsStart(s) < |s| && AllDigits(s[DigitsStart(s)..])
  {
    SignShape(s);
    AcceptedDigits(s, long);
  }

  lemma AcceptedDigits(s: string, long: LongRange)
    requires long.CoversInt() && ConvertToInt(s, long).Some?
    ensures DigitsStart(s) < |s| && AllDigits(s[DigitsStart(s)..])
  {
    var b := DigitsStart(s);
    var e := DigitsEnd(s, b);
    AcceptedEnd(s, long);
    assert e == |s|;
    assert AllDigits(s[b..e]);
    assert s[b..] == s[b..e];
  }

  /** Before the digits come white space and at most one sign. */
  lemma SignShape(s: string)
    ensures forall k :: 0 <= k < SpaceEnd(s, 0) ==> IsSpace(s[k])
    ensures SpaceEnd(s, 0) <= DigitsStart(s) <= SpaceEnd(s, 0) + 1
    ensures DigitsStart(s) == SpaceEnd(s, 0) + 1 ==> s[SpaceEnd(s, 0)] == '+' || s[SpaceEnd(s, 0)] == '-'
  {
  }

  /** An accepted string's digit run is not empty and reaches its end. */
  lemma AcceptedEnd(s: string, long: LongRange)
    requires long.CoversInt() && ConvertToInt(s, long).Some?
    ensures DigitsStart(s) < DigitsEnd(s, DigitsStart(s)) == |s|
  {
    var b := DigitsStart(s);
    var e := DigitsEnd(s, b);
    StrtolUnfold(s, long);
    ConvertEnd(s[b..e], e, Negative(s), long);
    assert StrtolBase10(s, long).end == |s| > 0;
  }

  lemma ConvertEnd(digits: string, end: nat, negative: bool, long: LongRange)
    requires AllDigits(digits)
    ensures Convert(digits, end, negative, long).end == if digits == [] then 0 else end
  {
  }

  /** In particular an accepted string holds only white space, signs and
      digits: never a '.'. */
  lemma AcceptedChars(s: string, long: LongRange)
    requires long.CoversInt() && ConvertToInt(s, long).Some?
    ensures forall k :: 0 <= k < |s| ==> IsSpace(s[k]) || s[k] == '-' || s[k] == '+' || IsDigit(s[k])
  {
    AcceptedShape(s, long);
    var a := SpaceEnd(s, 0);
    var b := DigitsStart(s);
    forall k | 0 <= k < |s|
      ensures IsSpace(s[k]) || s[k] == '-' || s[k] == '+' || IsDigit(s[k])
    {
      if k >= b {
        assert s[k] == s[b..][k - b];
      }
    }
  }

  /** The converse of AcceptedShape: white space, then an optional sign, then
      digits, is accepted exactly when the value it denotes is an `int`. */
  lemma ConvertToIntOfParts(spaces: string, sign: string, digits: string, long: LongRange)
    requires long.CoversInt()
    requires forall k :: 0 <= k < |spaces| ==> IsSpace(spaces[k])
    requires sign == "" || sign == "+" || sign == "-"
    requires digits != [] && AllDigits(digits)
    ensures var v: int := if sign == "-" then -(DigitsValue(digits) as int) else DigitsValue(digits);
            ConvertToInt(spaces + sign + digits, long) == if IsInt(v) then Some(v) else None
  {
    PartsScan(spaces, sign, digits);
    ConvertToIntOfScan(spaces + sign + digits, |spaces| + |sign|, digits, long);
  }

  /** A string whose digit run, the last thing in it, is `digits`. */
  lemma ConvertToIntOfScan(s: string, b: nat, digits: string, long: LongRange)
    requires long.CoversInt() && digits != [] && AllDigits(digits)
    requires DigitsStart(s) == b && DigitsEnd(s, b) == |s| && s[b..|s|] == digits
    ensures var v: int := if Negative(s) then -(DigitsValue(digits) as int) else DigitsValue(digits);
            ConvertToInt(s, long) == if IsInt(v) then Some(v) else None
  {
    StrtolUnfold(s, long);
    ConvertEnd(digits, |s|, Negative(s), long);
    assert |s| > 0;
  }

  /** Where strtol's scan lands in such a string: the digits start after the
      white space and the sign, and run to the end. */
  lemma PartsScan(spaces: string, sign: string, digits: string)
    requires forall k :: 0 <= k < |spaces| ==> IsSpace(spaces[k])
    requires sign == "" || sign == "+" || sign == "-"
    requires digits != [] && AllDigits(digits)
    ensures var s := spaces + sign + digits;
            var b := |spaces| + |sign|;
            && DigitsStart(s) == b && Negative(s) == (sign == "-")
            && DigitsEnd(s, b) == |s| && s[b..|s|] == digits
  {
    var s := spaces + sign + digits;
    var a := |spaces|;
    var b := a + |sign|;
    assert s[a] == if sign == "" then digits[0] else sign[0];
    assert forall k :: 0 <= k < a ==> s[k] == spaces[k];
    SpaceEndAt(s, 0, a);
    assert s[b..] == digits;
    DigitsEndAll(s, b);
  }

  /** SpaceEnd stops at the first character that is not white space. */
  lemma {:induction false} SpaceEndAt(s: string, i: nat, a: nat)
    requires i <= a <= |s|
    requires forall k :: i <= k < a ==> IsSpace(s[k])
    requires a == |s| || !IsSpace(s[a])
    ensures SpaceEnd(s, i) == a
    decreases a - i
  {
    if i < a {
      SpaceEndAt(s, i + 1, a);
    }
  }

  /** A plus sign is accepted: "+7" reads as 7. */
  lemma ConvertToIntPlusSign()
    ensures ConvertToInt("+7", LP64) == Some(7)
  {
    var digits := "7";
    assert DigitsValue(digits) == 7 by { assert digits[..0] == ""; }
    ConvertToIntOfParts("", "+", digits, LP64);
    assert "" + "+" + digits == "+7";
  }

  /** Leading zeros are accepted: "007" reads as 7. */
  lemma ConvertToIntLeadingZeros()
    ensures ConvertToInt("007", LP64) == Some(7)
  {
    var digits := "007";
    assert DigitsValue(digits) == 7 by {
      assert digits[..2] == "00" && "00"[..1] == "0" && "0"[..0] == "";
    }
    ConvertToIntOfParts("", "", digits, LP64);
    assert "" + "" + digits == "007";
  }

  /** The width of `long` does not matter: convert_to_int gives the same answer
      for every `long` at least as wide as `int` (LP64 or ILP32). */
  lemma ConvertToIntLongWidth(s: string, l1: LongRange, l2: LongRange)
    requires l1.CoversInt() && l2.CoversInt()
    ensures ConvertToInt(s, l1) == ConvertToInt(s, l2)
  {
  }
}
