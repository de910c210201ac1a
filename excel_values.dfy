/**
 * `_clean_imported_excel_values`: a cell read from a spreadsheet is either
 * text or some other value. Other values pass through. Text is the
 * missing-value marker "..", or becomes missing when it holds a letter,
 * or is coerced to an integer, then to a float, and otherwise kept as
 * the stripped text. Text that starts with "." after stripping is read
 * as a float with a "0" put in front, and that conversion is not guarded:
 * it raises `ValueError` when the result is not a float literal.
 *
 * Python's `int()` and `float()` on the stripped, letter-free ASCII text
 * are modelled by their grammars: an optional sign, then digit parts
 * whose single underscores sit between digits, with one optional point
 * for a float. Exponents, `inf` and `nan` need letters and so never reach
 * them. A float is modelled by the exact decimal value of its literal.
 */
module ExcelValues {
  import opened Wrappers
  import opened Text

  datatype Cell<V> = Text(s: string) | Other(v: V)

  datatype Cleaned<V> =
    | Missing               // `None`
    | IntValue(i: int)
    | FloatValue(f: real)
    | TextValue(s: string)
    | Passed(v: V)          // a non-text value, returned as it came

  /** The `ValueError` raised by `float()`, with the literal it refused. */
  datatype ValueError = ValueError(literal: string)

  predicate HasAlpha(s: string) { exists i :: 0 <= i < |s| && IsAlpha(s[i]) }

  /** Python's digitpart: digits, each underscore standing between two
      digits. Read from the end: a digit, preceded by nothing, by a digit
      part, or by an underscore after a digit part. */
  predicate IsDigitPart(s: string)
    decreases |s|
  {
    && s != [] && IsDigit(s[|s| - 1])
    && var p := s[..|s| - 1];
       p == [] || IsDigitPart(p) || (p[|p| - 1] == '_' && IsDigitPart(p[..|p| - 1]))
  }

  /** The number the digits of `s` spell, underscores skipped. */
  function DigitsValue(s: string): nat
  {
    if s == [] then 0
    else if IsDigit(s[|s| - 1]) then DigitsValue(s[..|s| - 1]) * 10 + (s[|s| - 1] as int - '0' as int)
    else DigitsValue(s[..|s| - 1])
  }

  /** How many digits `s` has. */
  function DigitCount(s: string): nat
  {
    if s == [] then 0 else (if IsDigit(s[|s| - 1]) then 1 else 0) + DigitCount(s[..|s| - 1])
  }

  function Pow10(k: nat): (p: nat)
    ensures p >= 1
  {
    if k == 0 then 1 else 10 * Pow10(k - 1)
  }

  predicate HasSign(t: string) { t != [] && (t[0] == '+' || t[0] == '-') }

  /** `t` without its sign. */
  function Unsigned(t: string): (u: string)
    ensures u == if HasSign(t) then t[1..] else t
  {
    if HasSign(t) then t[1..] else t
  }

  function SignOf(t: string): int
  {
    if t != [] && t[0] == '-' then -1 else 1
  }

  /** What `int()` accepts once surrounding whitespace is gone. */
  predicate IsIntLiteral(t: string) { IsDigitPart(Unsigned(t)) }

  function IntLiteralValue(t: string): int
  {
    SignOf(t) * DigitsValue(Unsigned(t))
  }

  /** The index of the first `.` of `s`, or `|s|` when there is none. */
  function FirstDot(s: string): (k: nat)
    ensures k <= |s|
    ensures k < |s| ==> s[k] == '.'
    ensures forall i :: 0 <= i < k ==> s[i] != '.'
  {
    if s == [] then 0 else if s[0] == '.' then 0 else 1 + FirstDot(s[1..])
  }

  /** The digits before the point (all of `b` when there is none). */
  function WholePart(b: string): string { b[..FirstDot(b)] }

  /** The digits after the point (empty when there is none). */
  function FractionPart(b: string): string
  {
    var k := FirstDot(b);
    if k < |b| then b[k + 1..] else []
  }

  /** Python's pointfloat or a bare digit part: `1`, `1.`, `1.5`, `.5`. */
  predicate IsUnsignedFloat(b: string)
  {
    var whole, fraction := WholePart(b), FractionPart(b);
    if FirstDot(b) == |b| then IsDigitPart(b)
    else
      && (whole != [] || fraction != [])
      && (whole == [] || IsDigitPart(whole))
      && (fraction == [] || IsDigitPart(fraction))
  }

  /** What `float()` accepts from letter-free text once surrounding
      whitespace is gone. */
  predicate IsFloatLiteral(t: string) { IsUnsignedFloat(Unsigned(t)) }

  /** The exact value of a float literal. */
  function FloatLiteralValue(t: string): real
  {
    var b := Unsigned(t);
    var fraction := FractionPart(b);
    SignOf(t) as real
      * (DigitsValue(WholePart(b)) as real + DigitsValue(fraction) as real / Pow10(DigitCount(fraction)) as real)
  }

  /** The `try int(x) / try float(x) / x` cascade on stripped text. */
  function Coerce<V>(t: string): (r: Cleaned<V>)
    ensures r.IntValue? || r.FloatValue? || r.TextValue?
    ensures r.IntValue? <==> IsIntLiteral(t)
    ensures r.IntValue? ==> r.i == IntLiteralValue(t)
    ensures r.FloatValue? <==> !IsIntLiteral(t) && IsFloatLiteral(t)
    ensures r.FloatValue? ==> r.f == FloatLiteralValue(t)
    ensures r.TextValue? ==> r.s == t && !IsIntLiteral(t) && !IsFloatLiteral(t)
  {
    if IsIntLiteral(t) then IntValue(IntLiteralValue(t))
    else if IsFloatLiteral(t) then FloatValue(FloatLiteralValue(t))
    else TextValue(t)
  }

  /** The stripped text a text cell is judged on. */
  function Stripped(s: string): string { Strip(s, Whitespace) }

  /** The cleaned value of a cell, or the `ValueError` the unguarded
      float conversion of a text starting with "." raises. The outcome is
      missing exactly for the marker ".." and for text with a letter; an
      error exactly for letter-free text that starts with "." and is not
      a float literal with "0" in front; otherwise a number or text read
      from the stripped text. */
  function Clean<V>(x: Cell<V>): (r: Result<Cleaned<V>, ValueError>)
    requires x.Text? ==> AllAscii(x.s)
    ensures x.Other? ==> r == Success(Passed(x.v))
    ensures r == Success(Missing) <==> x.Text? && (x.s == ".." || HasAlpha(Stripped(x.s)))
    ensures r.Failure? <==>
              && x.Text? && x.s != ".." && !HasAlpha(Stripped(x.s))
              && Stripped(x.s) != [] && Stripped(x.s)[0] == '.'
              && !IsFloatLiteral("0" + Stripped(x.s))
    ensures && x.Text? && x.s != ".." && !HasAlpha(Stripped(x.s))
            && Stripped(x.s) != [] && Stripped(x.s)[0] == '.'
            && IsFloatLiteral("0" + Stripped(x.s))
            ==> r == Success(FloatValue(FloatLiteralValue("0" + Stripped(x.s))))
    ensures r.Success? && r.value.IntValue? ==>
              x.Text? && IsIntLiteral(Stripped(x.s)) && r.value.i == IntLiteralValue(Stripped(x.s))
    ensures r.Success? && r.value.TextValue? ==>
              && x.Text? && r.value.s == Stripped(x.s)
              && !IsIntLiteral(r.value.s) && !IsFloatLiteral(r.value.s)
  {
    match x
    case Other(v) => Success(Passed(v))
    case Text(s) =>
      if s == ".." then Success(Missing)
      else
        var t := Stripped(s);
        if HasAlpha(t) then Success(Missing)
        else if '.' in t && t[0] == '.' then
          var fixed := "0" + t;
          if IsFloatLiteral(fixed) then Success(FloatValue(FloatLiteralValue(fixed)))
          else Failure(ValueError(fixed))
        else Success(Coerce(t))
  }

  /** A cell holding a lone "." (with or without surrounding spaces) is
      read as "0." and becomes the float 0.0. */
  lemma LonePointIsZero<V>(s: string)
    requires AllAscii(s) && Stripped(s) == "."
    ensures Clean<V>(Text(s)) == Success(FloatValue(0.0))
  {
    MarkerIsStripped();
    assert !IsAlpha(Stripped(s)[0]);
    assert "0" + Stripped(s) == "0.";
    LonePointLiteral();
  }

  /** "0." is a float literal whose value is 0.0. */
  lemma LonePointLiteral()
    ensures IsFloatLiteral("0.") && FloatLiteralValue("0.") == 0.0
  {
  }

  /** `str(n)` is an integer literal for `int()` and reads back as `n`. */
  lemma {:induction false} NatToStringReads(n: nat)
    ensures IsDigitPart(NatToString(n))
    ensures DigitsValue(NatToString(n)) == n
    decreases n
  {
    var s := NatToString(n);
    if n >= 10 {
      NatToStringReads(n / 10);
      assert s[..|s| - 1] == NatToString(n / 10);
    }
  }

  /** A text that needs no stripping, is not the marker, has no letter
      and does not start with "." goes through the int/float/text
      cascade. */
  lemma CleanPlainText<V>(s: string)
    requires AllAscii(s) && s != ".." && Stripped(s) == s && !HasAlpha(s)
    requires s != [] ==> s[0] != '.'
    ensures Clean<V>(Text(s)) == Success(Coerce(s))
  {
  }

  /** `str(n)` is made of digits and a leading minus sign. */
  lemma IntToStringChars(n: int)
    ensures forall i :: 0 <= i < |IntToString(n)| ==> IsDigit(IntToString(n)[i]) || IntToString(n)[i] == '-'
  {
    var s := IntToString(n);
    if n < 0 {
      var digits := NatToString(-n);
      forall i | 1 <= i < |s| ensures IsDigit(s[i]) {
        assert s[i] == digits[i - 1];
      }
    }
  }

  /** Text of digits and minus signs is plain: ASCII, no letter, nothing
      to strip, neither the marker nor starting with ".". */
  lemma DigitsAndMinusArePlain(s: string)
    requires s != []
    requires forall i :: 0 <= i < |s| ==> IsDigit(s[i]) || s[i] == '-'
    ensures AllAscii(s) && !HasAlpha(s) && s != ".." && s[0] != '.' && Stripped(s) == s
  {
    StripKeepsUnstripped(s, Whitespace);
  }

  /** `str(n)` is an integer literal of value `n`. */
  lemma IntToStringLiteral(n: int)
    ensures IsIntLiteral(IntToString(n)) && IntLiteralValue(IntToString(n)) == n
  {
    var m: nat := if n < 0 then -n else n;
    NatToStringReads(m);
    assert Unsigned(IntToString(n)) == NatToString(m);
  }

  /** A number rendered as text in a cell comes back as that integer. */
  lemma IntRoundTrip<V>(n: int)
    ensures AllAscii(IntToString(n))
    ensures Clean<V>(Text(IntToString(n))) == Success(IntValue(n))
  {
    IntToStringChars(n);
    DigitsAndMinusArePlain(IntToString(n));
    IntToStringLiteral(n);
    CleanPlainText<V>(IntToString(n));
  }

  /** Stripping keeps ASCII text ASCII. */
  lemma StrippedIsAscii(s: string)
    requires AllAscii(s)
    ensures AllAscii(Stripped(s))
  {
    var t := Stripped(s);
    var lo, hi := StripIsSlice(s, Whitespace);
    forall i | 0 <= i < |t| ensures IsAscii(t[i]) {
      assert t[i] == s[lo + i];
    }
  }

  /** Stripping is idempotent. */
  lemma StripIdempotent(s: string)
    ensures Stripped(Stripped(s)) == Stripped(s)
  {
    StripKeepsUnstripped(Stripped(s), Whitespace);
  }

  /** After stripping, a text result is left as it is by a second
      cleaning. */
  lemma CleanTextIsStable<V>(x: Cell<V>)
    requires x.Text? ==> AllAscii(x.s)
    requires Clean(x).Success? && Clean(x).value.TextValue?
    ensures AllAscii(Clean(x).value.s)
    ensures Clean<V>(Text(Clean(x).value.s)) == Clean(x)
  {
    TextResultIsPlain<V>(x.s);
    CleanPlainText<V>(Stripped(x.s));
  }

  /** Text that cleans to a text result strips to plain text: ASCII,
      nothing left to strip, no letter, not the marker, not starting
      with ".". */
  lemma TextResultIsPlain<V>(s: string)
    requires AllAscii(s)
    requires Clean<V>(Text(s)).Success? && Clean<V>(Text(s)).value.TextValue?
    ensures var t := Stripped(s);
            && AllAscii(t) && Stripped(t) == t && !HasAlpha(t)
            && t != ".." && (t != [] ==> t[0] != '.')
  {
    TextResultShape<V>(s);
    StrippedIsAscii(s);
    StripIdempotent(s);
    assert ".."[0] == '.';
  }

  /** What the cleaning checks let through to a text result: not the
      marker, no letter, and no leading "." after stripping. */
  lemma TextResultShape<V>(s: string)
    requires AllAscii(s)
    requires Clean<V>(Text(s)).Success? && Clean<V>(Text(s)).value.TextValue?
    ensures s != ".." && !HasAlpha(Stripped(s))
    ensures Stripped(s) != [] ==> Stripped(s)[0] != '.'
  {
    var t := Stripped(s);
    assert t != [] ==> t[0] in t;
  }

  /** A digit part starts with a digit. */
  lemma {:induction false} DigitPartStartsWithDigit(s: string)
    requires IsDigitPart(s)
    ensures IsDigit(s[0])
    decreases |s|
  {
    var p := s[..|s| - 1];
    if p != [] {
      if IsDigitPart(p) {
        DigitPartStartsWithDigit(p);
        assert s[0] == p[0];
      } else {
        DigitPartStartsWithDigit(p[..|p| - 1]);
        assert s[0] == p[..|p| - 1][0];
      }
    }
  }

  /** Putting "0" before a text that starts with "." changes what
      `float()` makes of it only for the lone ".": every other such text
      is a float literal with or without the "0", of the same value. */
  lemma LeadingZeroOnlyFixesLonePoint(t: string)
    requires t != [] && t[0] == '.'
    ensures t == "." ==> IsFloatLiteral("0" + t) && !IsFloatLiteral(t) && FloatLiteralValue("0" + t) == 0.0
    ensures t != "." ==> IsFloatLiteral("0" + t) == IsFloatLiteral(t)
    ensures t != "." && IsFloatLiteral(t) ==> FloatLiteralValue("0" + t) == FloatLiteralValue(t)
  {
    PointParts(t);
    assert DigitsValue("0") == 0;
    assert IsDigitPart("0");
    assert t == "." <==> t[1..] == [];
  }

  /** The parts of a text starting with "." and of the same text with
      "0" in front. */
  lemma PointParts(t: string)
    requires t != [] && t[0] == '.'
    ensures Unsigned(t) == t && Unsigned("0" + t) == "0" + t && SignOf(t) == 1 && SignOf("0" + t) == 1
    ensures FirstDot(t) == 0 && FirstDot("0" + t) == 1
    ensures WholePart(t) == [] && WholePart("0" + t) == "0"
    ensures FractionPart(t) == t[1..] && FractionPart("0" + t) == t[1..]
  {
    var z := "0" + t;
    assert z[1..] == t;
    assert z[2..] == t[1..];
  }

  /** A text starting with "." is no integer literal. */
  lemma PointIsNoInt(t: string)
    requires t != [] && t[0] == '.'
    ensures !IsIntLiteral(t)
  {
    if IsIntLiteral(t) {
      DigitPartStartsWithDigit(t);
    }
  }

  /** What a float result is: the value of the stripped float literal
      that is no integer literal, or 0 for the lone ".". */
  lemma CleanFloat<V>(x: Cell<V>)
    requires x.Text? ==> AllAscii(x.s)
    requires Clean(x).Success? && Clean(x).value.FloatValue?
    ensures x.Text? && !IsIntLiteral(Stripped(x.s))
    ensures Stripped(x.s) == "." ==> Clean(x).value.f == 0.0
    ensures Stripped(x.s) != "." ==>
              IsFloatLiteral(Stripped(x.s)) && Clean(x).value.f == FloatLiteralValue(Stripped(x.s))
  {
    var t := Stripped(x.s);
    if t != [] && t[0] == '.' {
      LeadingZeroOnlyFixesLonePoint(t);
      PointIsNoInt(t);
    }
  }

  lemma MarkerHasNoLetter()
    ensures !HasAlpha("..")
  {
    var m := "..";
    forall i | 0 <= i < |m| ensures !IsAlpha(m[i]) {
      assert i == 0 || i == 1;
    }
  }

  lemma MarkerIsStripped()
    ensures Stripped("..") == ".."
  {
    var m := "..";
    assert !Drops(Whitespace, m[0]) && !Drops(Whitespace, m[1]);
    StripKeepsUnstripped(m, Whitespace);
  }

  /** "0.." is no float literal: a second point follows the first. */
  lemma ZeroMarkerIsNoFloat()
    ensures !IsFloatLiteral("0..")
  {
    assert FirstDot("0..") == 1;
  }

  /** Letter-free text starting with "." raises exactly when it is no
      float literal with "0" in front. */
  lemma PointTextRaises<V>(s: string, t: string)
    requires AllAscii(s) && s != ".." && t == Stripped(s) && !HasAlpha(t)
    requires t != [] && t[0] == '.' && !IsFloatLiteral("0" + t)
    ensures Clean<V>(Text(s)) == Failure(ValueError("0" + t))
  {
    assert t[0] in t;
  }

  /** The marker with whitespace around it is not caught by the ".." test
      and raises in the float conversion. */
  lemma PaddedMarkerRaises<V>(s: string)
    requires AllAscii(s) && s != ".." && Stripped(s) == ".."
    ensures Clean<V>(Text(s)) == Failure(ValueError("0.."))
  {
    MarkerRaisesOnFix();
    PointTextRaises<V>(s, "..");
  }

  /** The marker, once it reaches the "0" fix, is no float literal. */
  lemma MarkerRaisesOnFix()
    ensures !HasAlpha("..") && ".."[0] == '.'
    ensures "0" + ".." == "0.." && !IsFloatLiteral("0..")
  {
    MarkerHasNoLetter();
    ZeroMarkerIsNoFloat();
  }

  /** " .." is such a padded marker. */
  lemma SpaceBeforeMarker()
    ensures AllAscii(" ..") && " .." != ".." && Stripped(" ..") == ".."
  {
    SpaceBeforeMarkerIsAscii();
    SpaceBeforeMarkerStrips();
    assert |" .."| != |".."|;
  }

  lemma SpaceBeforeMarkerIsAscii()
    ensures AllAscii(" ..")
  {
    var padded := " ..";
    forall i | 0 <= i < |padded| ensures IsAscii(padded[i]) {
      assert i == 0 || i == 1 || i == 2;
    }
  }

  lemma SpaceBeforeMarkerStrips()
    ensures Stripped(" ..") == ".."
  {
    var padded := " ..";
    assert Drops(Whitespace, padded[0]) && padded[1..] == "..";
    assert !Drops(Whitespace, ".."[0]) && !Drops(Whitespace, ".."[1]);
    assert StripLeft("..", Whitespace) == "..";
    assert StripLeft(padded, Whitespace) == "..";
    assert StripRight("..", Whitespace) == "..";
  }

  /** Three points raise as well. */
  lemma ThreePointsRaise<V>()
    ensures Clean<V>(Text("...")) == Failure(ValueError("0..."))
  {
    var dots := "...";
    ThreePointsArePlain();
    ZeroThreePointsIsNoFloat();
    assert "0" + dots == "0...";
    assert dots != ".." by {
      assert |dots| != |".."|;
    }
    PointTextRaises<V>(dots, dots);
  }

  lemma ThreePointsArePlain()
    ensures AllAscii("...") && !HasAlpha("...") && Stripped("...") == "..."
  {
    ThreePointsAreAscii();
    ThreePointsHaveNoLetter();
    ThreePointsAreStripped();
  }

  lemma ThreePointsAreAscii()
    ensures AllAscii("...")
  {
    var dots := "...";
    forall i | 0 <= i < |dots| ensures IsAscii(dots[i]) {
      assert i == 0 || i == 1 || i == 2;
    }
  }

  lemma ThreePointsHaveNoLetter()
    ensures !HasAlpha("...")
  {
    var dots := "...";
    forall i | 0 <= i < |dots| ensures !IsAlpha(dots[i]) {
      assert i == 0 || i == 1 || i == 2;
    }
  }

  lemma ThreePointsAreStripped()
    ensures Stripped("...") == "..."
  {
    var dots := "...";
    assert !Drops(Whitespace, dots[0]) && !Drops(Whitespace, dots[2]);
    StripKeepsUnstripped(dots, Whitespace);
  }

  lemma ZeroThreePointsIsNoFloat()
    ensures !IsFloatLiteral("0...")
  {
    var fixed := "0...";
    assert Unsigned(fixed) == fixed;
    assert fixed[1..][0] == '.';
    assert FirstDot(fixed) == 1;
    assert FractionPart(fixed) == "..";
    assert !IsDigitPart("..");
  }

  /** The cleaning the checks evidently aim at: the marker is recognised
      after stripping, and a text starting with "." that is no float
      literal even with "0" in front falls through to the
      `int()`/`float()`/text cascade instead of raising. It never fails;
      it agrees with `Clean` wherever `Clean` succeeds; it is missing
      exactly for the marker and for text with a letter. */
  function CleanIntended<V>(x: Cell<V>): (r: Cleaned<V>)
    requires x.Text? ==> AllAscii(x.s)
    ensures r == Missing <==> x.Text? && (Stripped(x.s) == ".." || HasAlpha(Stripped(x.s)))
  {
    match x
    case Other(v) => Passed(v)
    case Text(s) =>
      var t := Stripped(s);
      if t == ".." || HasAlpha(t) then Missing
      else if t != [] && t[0] == '.' && IsFloatLiteral("0" + t) then FloatValue(FloatLiteralValue("0" + t))
      else Coerce(t)
  }

  /** `CleanIntended` differs from `Clean` only where `Clean` raises. */
  lemma CleanIntendedAgrees<V>(x: Cell<V>)
    requires x.Text? ==> AllAscii(x.s)
    requires Clean(x).Success?
    ensures CleanIntended(x) == Clean(x).value
  {
    if x.Text? {
      var t := Stripped(x.s);
      if x.s == ".." {
        MarkerIsStripped();
      } else if t == ".." {
        PaddedMarkerRaises<V>(x.s);
      } else if !HasAlpha(t) && t != [] && t[0] == '.' {
        assert IsFloatLiteral("0" + t);
        assert Clean(x) == Success(FloatValue(FloatLiteralValue("0" + t)));
      } else if !HasAlpha(t) {
        assert Clean(x) == Success(Coerce(t));
      }
    }
  }
}
