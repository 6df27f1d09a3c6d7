/**
  JavaScript strings: sequences of 16-bit code units, and how a text encoder reads them as Unicode scalar values.
 */
module Utf16 {
  import opened Utf8

  newtype CodeUnit = x: int | 0 <= x < 0x1_0000

  type JsString = seq<CodeUnit>

  const LF: CodeUnit := 10
  const CR: CodeUnit := 13
  const DOT: CodeUnit := 0x2E

  /** The string holds the characters of `text`. */
  predicate Spells(s: JsString, text: string) {
    |s| == |text| && forall i | 0 <= i < |s| :: s[i] as int == text[i] as int
  }

  predicate IsHigh(u: CodeUnit) {
    0xD800 <= u < 0xDC00
  }

  predicate IsLow(u: CodeUnit) {
    0xDC00 <= u < 0xE000
  }

  predicate StartsWithPair(s: JsString) {
    |s| >= 2 && IsHigh(s[0]) && IsLow(s[1])
  }

  /** The scalar value a surrogate pair stands for. */
  function PairValue(high: CodeUnit, low: CodeUnit): Scalar
    requires IsHigh(high) && IsLow(low)
  {
    (0x1_0000 + (high as int - 0xD800) * 0x400 + (low as int - 0xDC00)) as Scalar
  }

  /** The scalar values of a string, as an encoder sees them: an unpaired surrogate becomes U+FFFD. */
  function ToScalars(s: JsString): seq<Scalar> {
    if s == [] then []
    else if StartsWithPair(s) then [PairValue(s[0], s[1])] + ToScalars(s[2..])
    else if IsHigh(s[0]) || IsLow(s[0]) then [0xFFFD] + ToScalars(s[1..])
    else [(s[0] as int) as Scalar] + ToScalars(s[1..])
  }

  /** A string without unpaired surrogates. */
  predicate WellFormed(s: JsString) {
    if s == [] then true
    else if StartsWithPair(s) then WellFormed(s[2..])
    else !IsHigh(s[0]) && !IsLow(s[0]) && WellFormed(s[1..])
  }

  function UnitsOf(v: Scalar): JsString {
    var x := v as int;
    if x < 0x1_0000 then [x as CodeUnit]
    else [(0xD800 + (x - 0x1_0000) / 0x400) as CodeUnit, (0xDC00 + (x - 0x1_0000) % 0x400) as CodeUnit]
  }

  function FromScalars(vs: seq<Scalar>): JsString {
    if vs == [] then [] else UnitsOf(vs[0]) + FromScalars(vs[1..])
  }

  lemma UnitsOfPair(high: CodeUnit, low: CodeUnit)
    requires IsHigh(high) && IsLow(low)
    ensures UnitsOf(PairValue(high, low)) == [high, low]
  {
  }

  /** A well-formed string is determined by its scalar values. */
  lemma {:induction false} FromToScalars(s: JsString)
    requires WellFormed(s)
    ensures FromScalars(ToScalars(s)) == s
    decreases |s|
  {
    if s == [] {
    } else {
      if StartsWithPair(s) {
        FromToScalars(s[2..]);
        UnitsOfPair(s[0], s[1]);
        assert ToScalars(s)[1..] == ToScalars(s[2..]);
        assert s == [s[0], s[1]] + s[2..];
      } else {
        FromToScalars(s[1..]);
        assert ToScalars(s)[1..] == ToScalars(s[1..]);
      }
    }
  }

  lemma ToScalarsInjective(a: JsString, b: JsString)
    requires WellFormed(a) && WellFormed(b) && ToScalars(a) == ToScalars(b)
    ensures a == b
  {
    FromToScalars(a);
    FromToScalars(b);
  }

  /** On strings with unpaired surrogates the scalar values do not determine the string. */
  lemma UnpairedSurrogatesCollide()
    ensures ToScalars([0xD800]) == ToScalars([0xFFFD]) && ToScalars([0xD800]) == ToScalars([0xDC00])
  {
  }

  /** A text splits wherever no surrogate pair is cut. */
  lemma {:induction false} ToScalarsConcat(a: JsString, b: JsString)
    requires a == [] || b == [] || !IsHigh(a[|a| - 1]) || !IsLow(b[0])
    ensures ToScalars(a + b) == ToScalars(a) + ToScalars(b)
    decreases |a|
  {
    if a == [] {
      assert a + b == b;
    } else if b == [] {
      assert a + b == a;
    } else if StartsWithPair(a) {
      assert (a + b)[2..] == a[2..] + b;
      ToScalarsConcat(a[2..], b);
    } else {
      assert !StartsWithPair(a + b);
      assert (a + b)[1..] == a[1..] + b;
      ToScalarsConcat(a[1..], b);
    }
  }

  /** Only a NUL code unit is read as a NUL. */
  lemma {:induction false} ToScalarsNulFree(s: JsString)
    requires 0 !in s
    ensures 0 !in ToScalars(s)
    decreases |s|
  {
    if s == [] {
    } else {
      if StartsWithPair(s) {
        ToScalarsNulFree(s[2..]);
      } else {
        ToScalarsNulFree(s[1..]);
      }
    }
  }
}
