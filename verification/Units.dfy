/**
 Amounts as decimal text and back (ts-sdk/src/codec/units.ts).
 */
module Units {
  import opened Naturals
  import opened FixedPoint
  import opened Wrappers
  import opened Decimal

  // ----- printing -----

  function PadStart(s: string, width: nat): string {
    if |s| >= width then s else Zeros(width - |s|) + s
  }

  // The first characters of a string, at most `n`.
  function Slice(s: string, n: nat): string {
    if n < |s| then s[..n] else s
  }

  // Without the zeros at the end.
  function TrimZeros(s: string): string {
    if s != "" && s[|s| - 1] == '0' then TrimZeros(s[..|s| - 1]) else s
  }

  function Fraction(rem: nat, decimals: nat, precision: Option<nat>, trim: bool): string {
    var frac := PadStart(Digits(rem), decimals);
    var sliced := if precision.Some? then Slice(frac, precision.value) else frac;
    if trim then TrimZeros(sliced) else sliced
  }

  function FormatAmount(value: int, decimals: nat, precision: Option<nat>, trim: bool): string {
    var scale := Pow10(decimals);
    var neg := value < 0;
    var abs := Abs(value);
    var whole := Digits(Quotient(abs, scale));
    var frac := Fraction(Remainder(abs, scale), decimals, precision, trim);
    var sign := if neg then "-" else "";
    if |frac| > 0 then sign + whole + "." + frac else sign + whole
  }

  // ----- parsing -----

  // The white space and line ends `String.prototype.trim` strips.
  predicate IsSpace(c: char) {
    var n := c as int;
    || 9 <= n <= 13 || n == 32 || n == 160 || n == 0x1680 || 0x2000 <= n <= 0x200A
    || n == 0x2028 || n == 0x2029 || n == 0x202F || n == 0x205F || n == 0x3000 || n == 0xFEFF
  }

  function Trim(s: string): string {
    if s != "" && IsSpace(s[0]) then Trim(s[1..])
    else if s != "" && IsSpace(s[|s| - 1]) then Trim(s[..|s| - 1])
    else s
  }

  function FirstDot(s: string): (n: nat)
    ensures n <= |s|
  {
    if s == "" || s[0] == '.' then 0 else 1 + FirstDot(s[1..])
  }

  // The text before the first dot and between the first two; the second is empty without a dot.
  function SplitAtDot(s: string): (string, string) {
    var n := FirstDot(s);
    if n == |s| then (s, "")
    else
      var rest := s[n + 1..];
      (s[..n], rest[..FirstDot(rest)])
  }

  // The number digits spell, 0 for the empty string, an exception on anything else.
  function BigIntOf(s: string): Option<nat> {
    if AllDigits(s) then Some(Value(s)) else None
  }

  function PadTo(frac: string, decimals: nat): (s: string)
    ensures |s| == decimals
  {
    (frac + Zeros(decimals))[..decimals]
  }

  function Scaled(whole: nat, frac: nat, decimals: nat): nat {
    whole * Pow10(decimals) + frac
  }

  function Signed(neg: bool, n: nat): int { if neg then 0 - n else n }

  function ParseUnsigned(clean: string, decimals: nat): Option<nat> {
    var (whole, frac) := SplitAtDot(clean);
    var w, f := BigIntOf(whole), BigIntOf(PadTo(frac, decimals));
    if w == None || f == None then None else Some(Scaled(w.value, f.value, decimals))
  }

  function ParseAmount(value: string, decimals: nat): Option<int> {
    var trimmed := Trim(value);
    var neg := trimmed != "" && trimmed[0] == '-';
    var clean := if neg then trimmed[1..] else trimmed;
    match ParseUnsigned(clean, decimals)
    case None => None
    case Some(scaled) => Some(Signed(neg, scaled))
  }

  // ----- the text of an amount takes apart again -----

  lemma {:induction false} FirstDotAfterDigits(s: string, rest: string)
    requires AllDigits(s) && (rest == "" || rest[0] == '.')
    ensures FirstDot(s + rest) == |s|
    decreases |s|
  {
    if s == "" {
      assert s + rest == rest;
    } else {
      FirstDotAfterDigits(s[1..], rest);
      assert (s + rest)[1..] == s[1..] + rest;
    }
  }

  lemma SplitDigits(whole: string, frac: string)
    requires AllDigits(whole) && AllDigits(frac)
    ensures SplitAtDot(whole) == (whole, "")
    ensures SplitAtDot(whole + "." + frac) == (whole, frac)
  {
    FirstDotAfterDigits(whole, "");
    assert whole + "" == whole;
    var all := whole + "." + frac;
    assert all == whole + ("." + frac);
    FirstDotAfterDigits(whole, "." + frac);
    assert all[|whole| + 1..] == frac;
    FirstDotAfterDigits(frac, "");
    assert frac + "" == frac;
  }

  // Text that starts and ends with visible characters is not trimmed.
  lemma NothingToTrim(s: string)
    requires s != "" && !IsSpace(s[0]) && !IsSpace(s[|s| - 1])
    ensures Trim(s) == s
  {
  }

  // Digits, and a dot with more digits when there are any.
  function Body(whole: string, frac: string): string {
    if |frac| > 0 then whole + "." + frac else whole
  }

  lemma ParseBody(whole: string, frac: string, decimals: nat)
    requires AllDigits(whole) && AllDigits(frac)
    ensures AllDigits(PadTo(frac, decimals))
    ensures ParseUnsigned(Body(whole, frac), decimals)
         == Some(Scaled(Value(whole), Value(PadTo(frac, decimals)), decimals))
  {
    SplitDigits(whole, frac);
    assert SplitAtDot(Body(whole, frac)) == (whole, frac);
    assert BigIntOf(whole) == Some(Value(whole));
  }

  lemma ParseSigned(neg: bool, body: string, decimals: nat)
    requires body != "" && !IsSpace(body[0]) && body[0] != '-' && !IsSpace(body[|body| - 1])
    requires ParseUnsigned(body, decimals).Some?
    ensures var scaled := ParseUnsigned(body, decimals).value;
            ParseAmount((if neg then "-" else "") + body, decimals) == Some(Signed(neg, scaled))
  {
    var text := (if neg then "-" else "") + body;
    assert text[|text| - 1] == body[|body| - 1];
    NothingToTrim(text);
    if neg {
      assert text[1..] == body;
    } else {
      assert text == body;
    }
  }

  // ----- trimming and slicing the fraction -----

  lemma {:induction false} TrimmedZerosComeBack(s: string, decimals: nat)
    requires AllDigits(s) && |s| <= decimals
    ensures AllDigits(TrimZeros(s)) && PadTo(TrimZeros(s), decimals) == PadTo(s, decimals)
    decreases |s|
  {
    if s != "" && s[|s| - 1] == '0' {
      var init := s[..|s| - 1];
      TrimmedZerosComeBack(init, decimals);
      assert s == init + "0";
    }
  }

  // The number the padded fraction spells is the remainder, cut to `keep` digits.
  lemma SlicedFractionValue(frac: string, keep: nat, decimals: nat)
    requires AllDigits(frac) && |frac| == decimals && keep <= decimals
    ensures var unit := Pow10(decimals - keep);
            Value(PadTo(frac[..keep], decimals)) == Quotient(Value(frac), unit) * unit
  {
    var unit, head, tail := Pow10(decimals - keep), frac[..keep], frac[keep..];
    assert frac == head + tail;
    ValueOfConcat(head, tail);
    ValueBound(tail);
    assert PadTo(head, decimals) == head + Zeros(decimals - keep);
    ValueOfConcat(head, Zeros(decimals - keep));
    ValueOfZeros(decimals - keep);
    QuotientIsUnique(Value(frac), unit, Value(head));
  }

  lemma PaddedRemainder(rem: nat, decimals: nat)
    requires decimals > 0 && rem < Pow10(decimals)
    ensures var s := PadStart(Digits(rem), decimals);
            AllDigits(s) && |s| == decimals && Value(s) == rem
  {
    var digits := Digits(rem);
    DigitsLength(rem, decimals);
    ValueOfDigits(rem);
    if |digits| < decimals {
      LeadingZeros(digits, decimals - |digits|);
    }
  }

  lemma LeadingZeros(s: string, n: nat)
    requires AllDigits(s)
    ensures AllDigits(Zeros(n) + s) && Value(Zeros(n) + s) == Value(s)
  {
    ValueOfZeros(n);
    ValueOfConcat(Zeros(n), s);
  }

  // How many fraction digits survive.
  function Kept(decimals: nat, precision: Option<nat>): nat {
    if precision.Some? && precision.value < decimals then precision.value else decimals
  }

  lemma FractionValue(rem: nat, decimals: nat, precision: Option<nat>, trim: bool)
    requires rem < Pow10(decimals)
    ensures var f, unit := Fraction(rem, decimals, precision, trim), Pow10(decimals - Kept(decimals, precision));
            AllDigits(f) && Value(PadTo(f, decimals)) == Quotient(rem, unit) * unit
  {
    var keep := Kept(decimals, precision);
    var frac := PadStart(Digits(rem), decimals);
    var sliced := if precision.Some? then Slice(frac, precision.value) else frac;
    if decimals == 0 {
      assert frac == "0";
      assert TrimZeros("0") == TrimZeros("") by {
        assert "0"[..0] == "";
      }
    } else {
      PaddedRemainder(rem, decimals);
      assert sliced == frac[..keep];
      SlicedFractionValue(frac, keep, decimals);
      TrimmedZerosComeBack(sliced, decimals);
    }
  }

  // ----- round trip -----

  // `v` cut toward zero to a multiple of `unit`.
  function TruncateTo(v: int, unit: nat): int
    requires unit > 0
  {
    Signed(v < 0, Quotient(Abs(v), unit) * unit)
  }

  lemma {:induction false} Pow10Splits(d: nat, k: nat)
    requires k <= d
    ensures Pow10(d) == Pow10(d - k) * Pow10(k)
    decreases k
  {
    if k == 0 {
    } else {
      Pow10Splits(d, k - 1);
      assert Pow10(d - k + 1) == 10 * Pow10(d - k);
      assert (10 * Pow10(d - k)) * Pow10(k - 1) == Pow10(d - k) * (10 * Pow10(k - 1));
    }
  }

  // Cutting the remainder cuts the whole number.
  lemma CutRemainder(abs: nat, scale: nat, m: nat, unit: nat)
    requires unit > 0 && scale > 0 && scale == m * unit
    ensures Quotient(abs, unit) * unit == Quotient(abs, scale) * scale + Quotient(Remainder(abs, scale), unit) * unit
  {
    var whole, rem := Quotient(abs, scale), Remainder(abs, scale);
    var q := Quotient(rem, unit);
    assert whole * (m * unit) == (whole * m) * unit;
    assert (whole * m) * unit + q * unit == (whole * m + q) * unit;
    QuotientIsUnique(abs, unit, whole * m + q);
  }

  // The unsigned text of an amount.
  function Magnitude(abs: nat, decimals: nat, precision: Option<nat>, trim: bool): string {
    Body(Digits(Quotient(abs, Pow10(decimals))), Fraction(Remainder(abs, Pow10(decimals)), decimals, precision, trim))
  }

  lemma ParseMagnitude(abs: nat, decimals: nat, precision: Option<nat>, trim: bool)
    ensures var unit := Pow10(decimals - Kept(decimals, precision));
            ParseUnsigned(Magnitude(abs, decimals, precision, trim), decimals) == Some(Quotient(abs, unit) * unit)
  {
    var scale := Pow10(decimals);
    var whole, rem := Quotient(abs, scale), Remainder(abs, scale);
    var frac := Fraction(rem, decimals, precision, trim);
    var keep := Kept(decimals, precision);
    FractionValue(rem, decimals, precision, trim);
    ParseBody(Digits(whole), frac, decimals);
    ValueOfDigits(whole);
    Pow10Splits(decimals, decimals - keep);
    CutRemainder(abs, scale, Pow10(keep), Pow10(decimals - keep));
  }

  lemma MagnitudeEnds(abs: nat, decimals: nat, precision: Option<nat>, trim: bool)
    ensures var body := Magnitude(abs, decimals, precision, trim);
            body != "" && IsDigit(body[0]) && IsDigit(body[|body| - 1])
  {
    FractionValue(Remainder(abs, Pow10(decimals)), decimals, precision, trim);
  }

  // The text is a sign followed by the magnitude.
  lemma PrintedText(value: int, decimals: nat, precision: Option<nat>, trim: bool)
    ensures FormatAmount(value, decimals, precision, trim)
         == (if value < 0 then "-" else "")
            + Magnitude(Abs(value), decimals, precision, trim)
  {
    var abs := Abs(value);
    var whole := Digits(Quotient(abs, Pow10(decimals)));
    var frac := Fraction(Remainder(abs, Pow10(decimals)), decimals, precision, trim);
    var sign := if value < 0 then "-" else "";
    assert sign + (whole + "." + frac) == sign + whole + "." + frac;
  }

  /** Parsing a printed amount gives it back, cut toward zero to the digits that were printed,
      for every amount, number of decimals and precision, trimmed or not. */
  lemma ParsePrinted(value: int, decimals: nat, precision: Option<nat>, trim: bool)
    ensures ParseAmount(FormatAmount(value, decimals, precision, trim), decimals)
         == Some(TruncateTo(value, Pow10(decimals - Kept(decimals, precision))))
  {
    var abs := Abs(value);
    var body := Magnitude(abs, decimals, precision, trim);
    ParseMagnitude(abs, decimals, precision, trim);
    MagnitudeEnds(abs, decimals, precision, trim);
    ParseSigned(value < 0, body, decimals);
    PrintedText(value, decimals, precision, trim);
  }

  /** Without a precision, or with one of at least all decimals, the round trip is exact. */
  lemma RoundTrip(value: int, decimals: nat, precision: Option<nat>, trim: bool)
    requires precision.Some? ==> precision.value >= decimals
    ensures ParseAmount(FormatAmount(value, decimals, precision, trim), decimals) == Some(value)
  {
    ParsePrinted(value, decimals, precision, trim);
    QuotientIsUnique(Abs(value), 1, Abs(value));
  }

  // ----- the printed text -----

  lemma {:induction false} TrimTakesZeros(s: string) returns (n: nat)
    ensures s == TrimZeros(s) + Zeros(n) && (TrimZeros(s) == "" || TrimZeros(s)[|TrimZeros(s)| - 1] != '0')
    decreases |s|
  {
    if s != "" && s[|s| - 1] == '0' {
      var k := TrimTakesZeros(s[..|s| - 1]);
      n := k + 1;
      assert s == s[..|s| - 1] + "0" && Zeros(n) == Zeros(k) + "0";
    } else {
      n := 0;
      assert s == s + Zeros(0);
    }
  }

  /** What is printed: a sign for negative amounts only, the whole units, and the fraction if any of
      it is left. Fixed decimals have their full width, cut to the precision; trimming takes off
      zeros at the end, all of them and nothing else. */
  lemma PrintedShape(value: int, decimals: nat, precision: Option<nat>, trim: bool) returns (zeros: nat)
    ensures var scale := Pow10(decimals);
            var rem := Remainder(Abs(value), scale);
            var shown, fixed := Fraction(rem, decimals, precision, trim), Fraction(rem, decimals, precision, false);
            var width := if decimals == 0 then 1 else decimals;
            && FormatAmount(value, decimals, precision, trim)
               == (if value < 0 then "-" else "") + Digits(Quotient(Abs(value), scale)) + (if shown == "" then "" else "." + shown)
            && |fixed| == (if precision.Some? && precision.value < width then precision.value else width)
            && (if trim then fixed == shown + Zeros(zeros) && (shown == "" || shown[|shown| - 1] != '0') else shown == fixed)
  {
    var rem := Remainder(Abs(value), Pow10(decimals));
    if decimals > 0 {
      PaddedRemainder(rem, decimals);
    }
    zeros := TrimTakesZeros(Fraction(rem, decimals, precision, false));
    PrintedPieces(value, decimals, precision, trim);
  }

  lemma PrintedPieces(value: int, decimals: nat, precision: Option<nat>, trim: bool)
    ensures var abs, scale := Abs(value), Pow10(decimals);
            var shown := Fraction(Remainder(abs, scale), decimals, precision, trim);
            FormatAmount(value, decimals, precision, trim)
            == (if value < 0 then "-" else "") + Digits(Quotient(abs, scale)) + (if shown == "" then "" else "." + shown)
  {
    var abs, scale := Abs(value), Pow10(decimals);
    var whole, shown := Digits(Quotient(abs, scale)), Fraction(Remainder(abs, scale), decimals, precision, trim);
    var sign := if value < 0 then "-" else "";
    assert sign + whole + "." + shown == sign + whole + ("." + shown);
    assert sign + whole + "" == sign + whole;
  }

  // ----- any decimal text -----

  // The fraction in units of the last decimal: extra digits are dropped.
  function CutFraction(frac: string, decimals: nat): nat
    requires AllDigits(frac)
  {
    if |frac| <= decimals then Value(frac) * Pow10(decimals - |frac|) else Value(frac[..decimals])
  }

  lemma PaddedValue(frac: string, decimals: nat)
    requires AllDigits(frac)
    ensures AllDigits(PadTo(frac, decimals)) && Value(PadTo(frac, decimals)) == CutFraction(frac, decimals)
  {
    if |frac| <= decimals {
      assert PadTo(frac, decimals) == frac + Zeros(decimals - |frac|);
      ValueOfConcat(frac, Zeros(decimals - |frac|));
      ValueOfZeros(decimals - |frac|);
    } else {
      assert PadTo(frac, decimals) == frac[..decimals];
    }
  }

  lemma SplitPieces(whole: string, frac: string, rest: string)
    requires AllDigits(whole) && AllDigits(frac) && (rest == "" || rest[0] == '.')
    ensures SplitAtDot(whole + ("." + (frac + rest))) == (whole, frac)
  {
    var tail := frac + rest;
    var all := whole + ("." + tail);
    FirstDotAfterDigits(whole, "." + tail);
    assert all[|whole| + 1..] == tail;
    FirstDotAfterDigits(frac, rest);
    assert tail[..|frac|] == frac;
  }

  lemma ParsePieces(clean: string, whole: string, frac: string, decimals: nat)
    requires AllDigits(whole) && AllDigits(frac) && SplitAtDot(clean) == (whole, frac)
    ensures ParseUnsigned(clean, decimals) == Some(Value(whole) * Pow10(decimals) + CutFraction(frac, decimals))
  {
    PaddedValue(frac, decimals);
    assert BigIntOf(whole) == Some(Value(whole));
  }

  /** Parsing unsigned text: whole units and the first digits of the fraction, at any length; what
      follows a second dot does not count. */
  lemma ParseExact(whole: string, frac: string, rest: string, decimals: nat)
    requires AllDigits(whole) && AllDigits(frac) && (rest == "" || rest[0] == '.')
    ensures ParseUnsigned(whole + ("." + (frac + rest)), decimals)
         == Some(Value(whole) * Pow10(decimals) + CutFraction(frac, decimals))
  {
    SplitPieces(whole, frac, rest);
    ParsePieces(whole + ("." + (frac + rest)), whole, frac, decimals);
  }

  // Without a dot there are whole units only.
  lemma ParseWhole(whole: string, decimals: nat)
    requires AllDigits(whole)
    ensures ParseUnsigned(whole, decimals) == Some(Value(whole) * Pow10(decimals))
  {
    SplitDigits(whole, "");
    ParsePieces(whole, whole, "", decimals);
  }

  lemma {:induction false} TrimIgnoresTrailing(s: string, c: char)
    requires IsSpace(c)
    ensures Trim(s + [c]) == Trim(s)
    decreases |s|
  {
    var more := s + [c];
    if s == "" {
      assert more == [c] && [c][1..] == "";
    } else if IsSpace(s[0]) {
      assert more[1..] == s[1..] + [c];
      TrimIgnoresTrailing(s[1..], c);
      assert Trim(more) == Trim(more[1..]);
    } else {
      assert more[..|s|] == s;
      assert Trim(more) == Trim(more[..|s|]);
    }
  }

  // No visible character of ASCII is white space; blank, tab and line ends are.
  lemma VisibleIsKept(c: char)
    ensures '!' <= c <= '~' ==> !IsSpace(c)
    ensures c in " \t\n\r" ==> IsSpace(c)
  {
  }

  /** White space around an amount does not count. */
  lemma SpaceAroundIgnored(text: string, c: char, decimals: nat)
    requires IsSpace(c)
    ensures ParseAmount([c] + text, decimals) == ParseAmount(text, decimals) == ParseAmount(text + [c], decimals)
  {
    assert ([c] + text)[1..] == text;
    TrimIgnoresTrailing(text, c);
  }

  // One unit is 10^18 of the last of 18 decimals.
  lemma OneUnit()
    ensures ParseAmount("1", 18) == Some(WAD) && WAD == Pow10(18)
  {
    assert Pow10(6) == 1_000_000;
    Pow10Splits(12, 6);
    Pow10Splits(18, 6);
    assert "1"[..0] == "";
    assert Value("1") == 1;
    ParseWhole("1", 18);
    ParseSigned(false, "1", 18);
    assert "" + "1" == "1";
  }
}
