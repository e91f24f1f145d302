/** Token amounts in fixed-point decimal: the printer and the parser of the user interface. */
module Amounts {
  import opened Words

  const DECIMALS: nat := 7

  datatype ParseError = InvalidAmount | TooManyDecimals | MustBeNonNegative

  // ----- decimal digits -----

  predicate IsDigit(c: char) {
    '0' <= c <= '9'
  }

  predicate AllDigits(s: string) {
    forall i :: 0 <= i < |s| ==> IsDigit(s[i])
  }

  function DigitValue(c: char): nat
    requires IsDigit(c)
  {
    c as int - '0' as int
  }

  function DigitChar(d: nat): (c: char)
    requires d < 10
    ensures IsDigit(c) && DigitValue(c) == d
  {
    '0' + d as char
  }

  /** `BigInt` of a string of digits. */
  function ToNat(s: string): nat
    requires AllDigits(s)
  {
    if s == "" then 0 else 10 * ToNat(s[..|s| - 1]) + DigitValue(s[|s| - 1])
  }

  /** `toString` of a non-negative integer. */
  function ToString(n: nat): (s: string)
    ensures AllDigits(s) && |s| >= 1
  {
    if n < 10 then [DigitChar(n)] else ToString(n / 10) + [DigitChar(n % 10)]
  }

  function Zeros(n: nat): (s: string)
    ensures |s| == n && AllDigits(s) && forall i :: 0 <= i < n ==> s[i] == '0'
  {
    seq(n, _ => '0')
  }

  function PadStart(s: string, w: nat): (r: string) {
    if |s| >= w then s else Zeros(w - |s|) + s
  }

  function PadEnd(s: string, w: nat): (r: string) {
    if |s| >= w then s else s + Zeros(w - |s|)
  }

  function StripZeros(s: string): (r: string)
    ensures r <= s
    ensures r != "" ==> r[|r| - 1] != '0'
    ensures forall i :: |r| <= i < |s| ==> s[i] == '0'
  {
    if s != "" && s[|s| - 1] == '0' then StripZeros(s[..|s| - 1]) else s
  }

  function Exp10(n: nat): nat {
    if n == 0 then 1 else 10 * Exp10(n - 1)
  }

  /** At least `w` digits of `n`, by division alone. */
  function Decimal(n: nat, w: nat): (s: string)
    ensures AllDigits(s) && |s| >= w
    decreases n + w
  {
    if n == 0 && w == 0 then "" else Decimal(n / 10, if w == 0 then 0 else w - 1) + [DigitChar(n % 10)]
  }

  lemma {:induction false} DecimalOfZero(w: nat)
    ensures Decimal(0, w) == Zeros(w)
  {
    if w > 0 {
      DecimalOfZero(w - 1);
      assert Zeros(w) == Zeros(w - 1) + ['0'];
      assert DigitChar(0) == '0';
    }
  }

  lemma {:induction false} PaddedIsDecimal(n: nat, w: nat)
    ensures PadStart(ToString(n), w + 1) == Decimal(n, w + 1)
    decreases n
  {
    if n < 10 {
      DecimalOfZero(w);
      assert Zeros(w) + [DigitChar(n)] == Decimal(n, w + 1);
    } else if w == 0 {
      PaddedIsDecimal(n / 10, 0);
      assert Decimal(n / 10, 1) == Decimal(n / 10, 0) by { assert n / 10 > 0; DecimalWidths(n / 10); }
    } else {
      PaddedIsDecimal(n / 10, w - 1);
      var head := ToString(n / 10);
      if |head| < w {
        var last := [DigitChar(n % 10)];
        assert Zeros(w + 1 - |head + last|) + (head + last) == Zeros(w - |head|) + head + last;
      }
    }
  }

  lemma {:induction false} DecimalWidths(n: nat)
    requires n > 0
    ensures Decimal(n, 1) == Decimal(n, 0)
  {
  }

  lemma {:induction false} ValueOfDecimal(n: nat, w: nat)
    ensures ToNat(Decimal(n, w)) == n
    decreases n + w
  {
    if n != 0 || w != 0 {
      var w' := if w == 0 then 0 else w - 1;
      ValueOfDecimal(n / 10, w');
      var s := Decimal(n, w);
      assert s[..|s| - 1] == Decimal(n / 10, w');
    }
  }

  lemma {:induction false} LeadingDigit(s: string)
    requires AllDigits(s) && s != "" && s[0] != '0'
    ensures ToNat(s) > 0
  {
    if |s| > 1 { LeadingDigit(s[..|s| - 1]); }
  }

  /** A string of digits without superfluous zeros in front is what its value prints as. */
  lemma {:induction false} DecimalIsUnique(s: string, w: nat)
    requires AllDigits(s) && |s| >= w && (|s| > w ==> s[0] != '0')
    ensures s == Decimal(ToNat(s), w)
    decreases |s|
  {
    if s != "" {
      var head, n := s[..|s| - 1], ToNat(s);
      if |s| > w { LeadingDigit(s); }
      assert n / 10 == ToNat(head) && n % 10 == DigitValue(s[|s| - 1]);
      DecimalIsUnique(head, if w == 0 then 0 else w - 1);
      assert s == head + [s[|s| - 1]];
      assert DigitChar(n % 10) == s[|s| - 1] by { DigitRoundTrip(s[|s| - 1]); }
    }
  }

  lemma {:induction false} DigitRoundTrip(c: char)
    requires IsDigit(c)
    ensures DigitChar(DigitValue(c)) == c
  {
  }

  lemma {:induction false} ScaleTen(x: nat, y: nat)
    ensures x * (10 * y) == 10 * (x * y)
  {
  }

  lemma {:induction false} ValueOfConcat(a: string, b: string)
    requires AllDigits(a) && AllDigits(b)
    ensures AllDigits(a + b) && ToNat(a + b) == ToNat(a) * Exp10(|b|) + ToNat(b)
    decreases |b|
  {
    if b == "" {
      assert a + b == a;
    } else {
      var n := |b| - 1;
      var b' := b[..n];
      var all := a + b;
      assert all[..|all| - 1] == a + b' && all[|all| - 1] == b[n];
      ValueOfConcat(a, b');
      assert AllDigits(all);
      assert ToNat(all) == 10 * ToNat(a + b') + DigitValue(b[n]);
      assert ToNat(b) == 10 * ToNat(b') + DigitValue(b[n]);
      ScaleTen(ToNat(a), Exp10(n));
    }
  }

  // ----- the printer -----

  /** The number `formatTokenAmount` prints, before the unit is appended. */
  function FormatNumber(v: int): string {
    var digits := PadStart(ToString(if v < 0 then -v else v), DECIMALS + 1);
    var intPart := digits[..|digits| - DECIMALS];
    var frac := StripZeros(digits[|digits| - DECIMALS..]);
    (if v < 0 then "-" else "") + (if frac != "" then intPart + "." + frac else intPart)
  }

  function FormatTokenAmount(v: int, symbol: string): string {
    FormatNumber(v) + " " + symbol
  }

  // ----- the parser -----

  /** The white space that `trim` removes. */
  predicate IsSpace(c: char) {
    c in {' ', '\t', '\n', '\r', '\U{000B}', '\U{000C}', '\U{00A0}', '\U{1680}', '\U{2028}', '\U{2029}', '\U{202F}',
          '\U{205F}', '\U{3000}', '\U{FEFF}'} || '\U{2000}' <= c <= '\U{200A}'
  }

  function TrimStart(s: string): string {
    if s != "" && IsSpace(s[0]) then TrimStart(s[1..]) else s
  }

  function TrimEnd(s: string): string {
    if s != "" && IsSpace(s[|s| - 1]) then TrimEnd(s[..|s| - 1]) else s
  }

  /** The position of the first dot, or the length of the string. */
  function DotIndex(s: string): (k: nat)
    ensures k <= |s| && (k < |s| ==> s[k] == '.') && forall i :: 0 <= i < k ==> s[i] != '.'
  {
    if s == "" || s[0] == '.' then 0 else 1 + DotIndex(s[1..])
  }

  predicate IsSign(c: char) {
    c == '+' || c == '-'
  }

  /** Sign, integer digits and fraction digits, as the regular expression captures them. */
  function Sign(raw: string): string {
    if raw != "" && IsSign(raw[0]) then raw[..1] else ""
  }

  function IntPart(raw: string): string {
    var body := raw[|Sign(raw)|..];
    body[..DotIndex(body)]
  }

  function Fraction(raw: string): string {
    var body := raw[|Sign(raw)|..];
    if DotIndex(body) == |body| then "" else body[DotIndex(body) + 1..]
  }

  function ParseAmount(value: string, allowNegative: bool): Result<int, ParseError> {
    var raw := TrimEnd(TrimStart(value));
    if raw == "" then Ok(0)
    else if !AllDigits(IntPart(raw)) || !AllDigits(Fraction(raw)) then Err(InvalidAmount)
    else if |Fraction(raw)| > DECIMALS then Err(TooManyDecimals)
    else
      var amount := Amount(IntPart(raw), Fraction(raw));
      if Sign(raw) == "-" && !allowNegative && amount != 0 then Err(MustBeNonNegative)
      else Ok(Signed(Sign(raw), amount))
  }

  /** Integer digits times ten to the seventh, plus the padded fraction digits. */
  function Amount(intPart: string, frac: string): nat
    requires AllDigits(intPart) && AllDigits(frac)
  {
    PadEndDigits(frac, DECIMALS);
    ToNat(intPart) * Exp10(DECIMALS) + ToNat(PadEnd(frac, DECIMALS))
  }

  function Signed(sign: string, n: int): int {
    if sign == "-" then -n else n
  }

  lemma {:induction false} PadEndDigits(s: string, w: nat)
    requires AllDigits(s)
    ensures AllDigits(PadEnd(s, w))
  {
  }

  // ----- round trip -----

  lemma {:induction false} NothingToTrim(s: string)
    requires s != "" && !IsSpace(s[0]) && !IsSpace(s[|s| - 1])
    ensures TrimEnd(TrimStart(s)) == s
  {
  }

  lemma {:induction false} DotAfterDigits(a: string, b: string)
    requires AllDigits(a)
    ensures DotIndex(a + "." + b) == |a|
    ensures DotIndex(a) == |a|
  {
    if a != "" {
      assert (a + "." + b)[1..] == a[1..] + "." + b;
      DotAfterDigits(a[1..], b);
    }
  }

  function Body(intPart: string, dot: bool, frac: string): string {
    if dot then intPart + "." + frac else intPart
  }

  /** What the regular expression takes: a sign, digits, and perhaps a dot with digits; any part may be empty. */
  predicate IsNumeral(sign: string, intPart: string, dot: bool, frac: string) {
    && (sign == "" || sign == "-" || sign == "+") && AllDigits(intPart) && AllDigits(frac)
    && (frac != "" ==> dot)
  }

  function Text(sign: string, intPart: string, dot: bool, frac: string): string {
    sign + Body(intPart, dot, frac)
  }

  /** A number written from its pieces, with a dot only before fraction digits. */
  function Written(sign: string, intPart: string, frac: string): string {
    Text(sign, intPart, frac != "", frac)
  }

  lemma {:induction false} VisibleEnds(sign: string, intPart: string, dot: bool, frac: string)
    requires IsNumeral(sign, intPart, dot, frac) && Text(sign, intPart, dot, frac) != ""
    ensures var raw := Text(sign, intPart, dot, frac);
            TrimEnd(TrimStart(raw)) == raw && (if sign == "" then !IsSign(raw[0]) else raw[0] == sign[0])
  {
    var raw := Text(sign, intPart, dot, frac);
    assert raw[0] == if sign != "" then sign[0] else if intPart != "" then intPart[0] else '.';
    assert raw[|raw| - 1] == if frac != "" then frac[|frac| - 1] else if dot then '.'
                             else if intPart != "" then intPart[|intPart| - 1] else sign[0];
    NothingToTrim(raw);
  }

  lemma {:induction false} BodyPieces(intPart: string, dot: bool, frac: string)
    requires AllDigits(intPart) && (frac != "" ==> dot)
    ensures var body := Body(intPart, dot, frac);
            && body[..DotIndex(body)] == intPart
            && (if DotIndex(body) == |body| then "" else body[DotIndex(body) + 1..]) == frac
  {
    var body := Body(intPart, dot, frac);
    DotAfterDigits(intPart, frac);
    assert body[..|intPart|] == intPart;
    if dot { assert body[|intPart| + 1..] == frac; }
  }

  /** The pieces of a numeral are the pieces it was written from. */
  lemma {:induction false} PiecesOf(sign: string, intPart: string, dot: bool, frac: string)
    requires IsNumeral(sign, intPart, dot, frac) && Text(sign, intPart, dot, frac) != ""
    ensures var raw := Text(sign, intPart, dot, frac);
            && TrimEnd(TrimStart(raw)) == raw
            && Sign(raw) == sign && IntPart(raw) == intPart && Fraction(raw) == frac
  {
    var raw := Text(sign, intPart, dot, frac);
    VisibleEnds(sign, intPart, dot, frac);
    assert Sign(raw) == sign by { assert sign != "" ==> raw[..1] == sign; }
    assert raw[|sign|..] == Body(intPart, dot, frac);
    BodyPieces(intPart, dot, frac);
  }

  lemma {:induction false} AmountOfPieces(intPart: string, frac: string)
    requires AllDigits(intPart) && AllDigits(frac) && |frac| <= DECIMALS
    ensures AllDigits(intPart + PadEnd(frac, DECIMALS))
    ensures Amount(intPart, frac) == ToNat(intPart + PadEnd(frac, DECIMALS))
  {
    var tail := PadEnd(frac, DECIMALS);
    PadEndDigits(frac, DECIMALS);
    assert |tail| == DECIMALS;
    ValueOfConcat(intPart, tail);
  }

  /** The value of the digits, with seven of them after the point. */
  function Units(intPart: string, frac: string): nat
    requires AllDigits(intPart) && AllDigits(frac) && |frac| <= DECIMALS
  {
    AmountOfPieces(intPart, frac);
    ToNat(intPart + PadEnd(frac, DECIMALS))
  }

  /** What the parser should answer to a numeral. */
  function NumeralVerdict(sign: string, intPart: string, frac: string, allowNegative: bool): Result<int, ParseError>
    requires AllDigits(intPart) && AllDigits(frac)
  {
    if |frac| > DECIMALS then Err(TooManyDecimals)
    else if sign == "-" && !allowNegative && Units(intPart, frac) != 0 then Err(MustBeNonNegative)
    else Ok(Signed(sign, Units(intPart, frac)))
  }

  lemma {:induction false} ParseRaw(raw: string, allowNegative: bool)
    requires TrimEnd(TrimStart(raw)) == raw && raw != "" && AllDigits(IntPart(raw)) && AllDigits(Fraction(raw))
    ensures ParseAmount(raw, allowNegative) == NumeralVerdict(Sign(raw), IntPart(raw), Fraction(raw), allowNegative)
  {
    if |Fraction(raw)| <= DECIMALS { AmountOfPieces(IntPart(raw), Fraction(raw)); }
  }

  lemma {:induction false} NoDigits()
    ensures AllDigits("") && Units("", "") == 0
  {
    PadEndDigits("", DECIMALS);
    assert "" + PadEnd("", DECIMALS) == Zeros(DECIMALS);
    AllZeros(Zeros(DECIMALS));
  }

  /** Every numeral, with any sign and any part left empty, parses to the number it denotes or to the right error. */
  lemma {:induction false} ParseNumeral(sign: string, intPart: string, dot: bool, frac: string, allowNegative: bool)
    requires IsNumeral(sign, intPart, dot, frac)
    ensures ParseAmount(Text(sign, intPart, dot, frac), allowNegative)
         == NumeralVerdict(sign, intPart, frac, allowNegative)
  {
    var raw := Text(sign, intPart, dot, frac);
    if raw == "" {
      assert sign == "" && intPart == "" && frac == "";
      NoDigits();
    } else {
      PiecesOf(sign, intPart, dot, frac);
      ParseRaw(raw, allowNegative);
    }
  }

  /** A text is valid as a whole when its pieces are. */
  lemma {:induction false} PutTogether(raw: string)
    requires AllDigits(IntPart(raw)) && AllDigits(Fraction(raw))
    ensures var dot := DotIndex(raw[|Sign(raw)|..]) < |raw[|Sign(raw)|..]|;
            IsNumeral(Sign(raw), IntPart(raw), dot, Fraction(raw))
            && Text(Sign(raw), IntPart(raw), dot, Fraction(raw)) == raw
  {
    var sign := Sign(raw);
    var body := raw[|sign|..];
    assert raw == sign + body;
    assert body == Body(IntPart(raw), DotIndex(body) < |body|, Fraction(raw));
  }

  lemma {:induction false} NumeralIsValid(sign: string, intPart: string, dot: bool, frac: string, value: string)
    requires IsNumeral(sign, intPart, dot, frac) && Text(sign, intPart, dot, frac) == TrimEnd(TrimStart(value))
    ensures forall allowNegative :: ParseAmount(value, allowNegative) != Err(InvalidAmount)
  {
    if Text(sign, intPart, dot, frac) != "" { PiecesOf(sign, intPart, dot, frac); }
  }

  /** Only texts that are no numerals are called invalid. */
  lemma {:induction false} InvalidExactly(value: string, allowNegative: bool)
    ensures ParseAmount(value, allowNegative) == Err(InvalidAmount) <==>
            !exists sign, intPart, dot, frac :: IsNumeral(sign, intPart, dot, frac)
                                                && Text(sign, intPart, dot, frac) == TrimEnd(TrimStart(value))
  {
    if ParseAmount(value, allowNegative) != Err(InvalidAmount) {
      PutTogether(TrimEnd(TrimStart(value)));
    }
    forall sign, intPart, dot, frac |
      IsNumeral(sign, intPart, dot, frac) && Text(sign, intPart, dot, frac) == TrimEnd(TrimStart(value))
      ensures ParseAmount(value, allowNegative) != Err(InvalidAmount)
    {
      NumeralIsValid(sign, intPart, dot, frac, value);
    }
  }

  /** What a written number parses to. */
  lemma {:induction false} ParseWritten(sign: string, intPart: string, frac: string)
    requires IsNumeral(sign, intPart, frac != "", frac) && |frac| <= DECIMALS
    ensures AllDigits(intPart + PadEnd(frac, DECIMALS))
    ensures ParseAmount(Written(sign, intPart, frac), true)
         == Ok(Signed(sign, ToNat(intPart + PadEnd(frac, DECIMALS))))
  {
    AmountOfPieces(intPart, frac);
    ParseNumeral(sign, intPart, frac != "", frac, true);
  }

  lemma {:induction false} StripThenPad(s: string)
    ensures PadEnd(StripZeros(s), |s|) == s
  {
  }

  /** The pieces that the printer writes. */
  lemma {:induction false} PrintedPieces(v: int) returns (sign: string, intPart: string, frac: string)
    ensures sign == (if v < 0 then "-" else "") && AllDigits(intPart) && intPart != ""
    ensures AllDigits(frac) && |frac| <= DECIMALS
    ensures frac != "" ==> frac[|frac| - 1] != '0'
    ensures intPart + PadEnd(frac, DECIMALS) == Decimal(if v < 0 then -v else v, DECIMALS + 1)
    ensures Written(sign, intPart, frac) == FormatNumber(v)
  {
    var n: nat := if v < 0 then -v else v;
    var digits := PadStart(ToString(n), DECIMALS + 1);
    PaddedIsDecimal(n, DECIMALS);
    var k := |digits| - DECIMALS;
    sign, intPart, frac := if v < 0 then "-" else "", digits[..k], StripZeros(digits[k..]);
    StripThenPad(digits[k..]);
    assert digits == digits[..k] + digits[k..];
  }

  /** For every integer, parsing the printed number gives it back. */
  lemma {:induction false} FormatThenParse(v: int)
    ensures ParseAmount(FormatNumber(v), true) == Ok(v)
  {
    var sign, intPart, frac := PrintedPieces(v);
    ParseWritten(sign, intPart, frac);
    ValueOfDecimal(if v < 0 then -v else v, DECIMALS + 1);
  }

  /** The same for the full text, once the unit and the space before it are cut off. */
  lemma {:induction false} DropUnitThenParse(v: int, symbol: string)
    ensures var text := FormatTokenAmount(v, symbol);
            |text| > |symbol| && ParseAmount(text[..|text| - |symbol| - 1], true) == Ok(v)
  {
    var text := FormatTokenAmount(v, symbol);
    assert text[..|text| - |symbol| - 1] == FormatNumber(v);
    FormatThenParse(v);
  }

  /** The text ends in a space and the unit. */
  lemma {:induction false} PrintedUnit(v: int, symbol: string)
    ensures var text := FormatTokenAmount(v, symbol);
            |text| > |symbol| && text[|text| - |symbol| - 1..] == " " + symbol
  {
  }

  // ----- white space -----

  predicate AllSpace(s: string) {
    forall i :: 0 <= i < |s| ==> IsSpace(s[i])
  }

  /** Empty, or with something visible at both ends. */
  predicate Visible(s: string) {
    s == "" || (!IsSpace(s[0]) && !IsSpace(s[|s| - 1]))
  }

  lemma {:induction false} TrimFront(a: string, x: string)
    requires AllSpace(a) && (x == "" || !IsSpace(x[0]))
    ensures TrimStart(a + x) == x
  {
    if a == "" {
      assert a + x == x;
    } else {
      assert (a + x)[1..] == a[1..] + x;
      TrimFront(a[1..], x);
    }
  }

  lemma {:induction false} TrimBack(x: string, b: string)
    requires AllSpace(b) && (x == "" || !IsSpace(x[|x| - 1]))
    ensures TrimEnd(x + b) == x
  {
    if b == "" {
      assert x + b == x;
    } else {
      assert (x + b)[..|x + b| - 1] == x + b[..|b| - 1];
      TrimBack(x, b[..|b| - 1]);
    }
  }

  lemma {:induction false} AllSpaceTrims(s: string)
    requires AllSpace(s)
    ensures TrimStart(s) == ""
  {
    if s != "" { AllSpaceTrims(s[1..]); }
  }

  /** White space around a text is exactly what trimming takes away. */
  lemma {:induction false} TrimAround(a: string, x: string, b: string)
    requires AllSpace(a) && AllSpace(b) && Visible(x)
    ensures TrimEnd(TrimStart(a + x + b)) == x
  {
    if x == "" {
      assert AllSpace(a + x + b);
      AllSpaceTrims(a + x + b);
    } else {
      assert a + x + b == a + (x + b) && (x + b)[0] == x[0];
      TrimFront(a, x + b);
      TrimBack(x, b);
    }
  }

  /** White space around a text does not change how it is parsed. */
  lemma {:induction false} SpacesIgnored(a: string, x: string, b: string, allowNegative: bool)
    requires AllSpace(a) && AllSpace(b) && Visible(x)
    ensures ParseAmount(a + x + b, allowNegative) == ParseAmount(x, allowNegative)
  {
    TrimAround(a, x, b);
    TrimAround("", x, "");
    assert "" + x + "" == x;
  }

  lemma {:induction false} DigitsVisible(s: string)
    requires AllDigits(s)
    ensures Visible(s)
  {
  }

  lemma {:induction false} PointVisible(intPart: string, frac: string)
    requires AllDigits(intPart) && AllDigits(frac) && frac != ""
    ensures Visible(intPart + "." + frac)
  {
    var text := intPart + "." + frac;
    assert text[0] == if intPart == "" then '.' else intPart[0];
    assert text[|text| - 1] == frac[|frac| - 1];
  }

  lemma {:induction false} SevenZeros()
    ensures Exp10(7) == 10_000_000
  {
    assert Exp10(1) == 10 && Exp10(2) == 100 && Exp10(3) == 1000 && Exp10(4) == 10_000;
    assert Exp10(5) == 100_000 && Exp10(6) == 1_000_000;
  }

  lemma {:induction false} WholeValue(digits: string)
    requires AllDigits(digits)
    ensures AllDigits("") && Units(digits, "") == ToNat(digits) * 10_000_000
  {
    var zeros := Zeros(7);
    assert PadEnd("", DECIMALS) == zeros;
    ValueOfConcat(digits, zeros);
    AllZeros(zeros);
    SevenZeros();
  }

  lemma {:induction false} SingleValue(intPart: string, frac: string)
    requires AllDigits(intPart) && AllDigits(frac) && |frac| == 7
    ensures Units(intPart, frac) == ToNat(intPart) * 10_000_000 + ToNat(frac)
  {
    assert PadEnd(frac, DECIMALS) == frac;
    ValueOfConcat(intPart, frac);
    SevenZeros();
  }

  /** A numeral without a sign, with white space around it. */
  lemma {:induction false} SpacedNumeral(a: string, intPart: string, dot: bool, frac: string, b: string,
                                         allowNegative: bool)
    requires AllSpace(a) && AllSpace(b) && IsNumeral("", intPart, dot, frac) && |frac| <= DECIMALS
    requires Visible(Body(intPart, dot, frac))
    ensures ParseAmount(a + Body(intPart, dot, frac) + b, allowNegative) == Ok(Units(intPart, frac))
  {
    SpacesIgnored(a, Body(intPart, dot, frac), b, allowNegative);
    ParseNumeral("", intPart, dot, frac, allowNegative);
    assert Text("", intPart, dot, frac) == Body(intPart, dot, frac);
  }

  /** Digits count whole units of ten million, whatever white space is around them. */
  lemma {:induction false} WholeUnits(a: string, digits: string, b: string, allowNegative: bool)
    requires AllSpace(a) && AllSpace(b) && AllDigits(digits)
    ensures ParseAmount(a + digits + b, allowNegative) == Ok(ToNat(digits) * 10_000_000)
  {
    DigitsVisible(digits);
    WholeValue(digits);
    SpacedNumeral(a, digits, false, "", b, allowNegative);
  }

  /** Seven digits after the point count single units. */
  lemma {:induction false} SingleUnits(a: string, intPart: string, frac: string, b: string, allowNegative: bool)
    requires AllSpace(a) && AllSpace(b) && AllDigits(intPart) && AllDigits(frac) && |frac| == 7
    ensures ParseAmount(a + (intPart + "." + frac) + b, allowNegative) == Ok(ToNat(intPart) * 10_000_000 + ToNat(frac))
  {
    PointVisible(intPart, frac);
    SingleValue(intPart, frac);
    SpacedNumeral(a, intPart, true, frac, b, allowNegative);
  }

  // ----- normal form -----

  /** No plus sign, no superfluous zero, no minus before zero. */
  predicate IsNormal(sign: string, intPart: string, frac: string) {
    && (sign == "" || sign == "-") && AllDigits(intPart) && AllDigits(frac)
    && intPart != "" && (|intPart| > 1 ==> intPart[0] != '0')
    && |frac| <= DECIMALS && (frac != "" ==> frac[|frac| - 1] != '0')
    && (sign == "-" ==> intPart != "0" || frac != "")
  }

  lemma {:induction false} StripPadded(frac: string, w: nat)
    requires |frac| <= w && (frac != "" ==> frac[|frac| - 1] != '0')
    ensures StripZeros(PadEnd(frac, w)) == frac
    decreases w - |frac|
  {
    var padded := PadEnd(frac, w);
    if |frac| < w {
      assert padded[..w - 1] == PadEnd(frac, w - 1);
      StripPadded(frac, w - 1);
    }
  }

  lemma {:induction false} ZeroValue(s: string)
    requires AllDigits(s) && ToNat(s) == 0
    ensures forall i :: 0 <= i < |s| ==> s[i] == '0'
  {
    if s != "" { ZeroValue(s[..|s| - 1]); }
  }

  /** The digits and the sign of a normal string are those of its value. */
  lemma {:induction false} NormalDigits(sign: string, intPart: string, frac: string, v: int)
    requires IsNormal(sign, intPart, frac) && ParseAmount(Written(sign, intPart, frac), true) == Ok(v)
    ensures sign == (if v < 0 then "-" else "")
    ensures intPart + PadEnd(frac, DECIMALS) == Decimal(if v < 0 then -v else v, DECIMALS + 1)
  {
    var tail := PadEnd(frac, DECIMALS);
    var digits := intPart + tail;
    ParseWritten(sign, intPart, frac);
    DecimalIsUnique(digits, DECIMALS + 1);
    if ToNat(digits) == 0 {
      ZeroValue(digits);
      NotMinusZero(intPart, frac, tail);
    }
  }

  /** Among the normal strings, the printed one is the only one with its value. */
  lemma {:induction false} NormalFormIsPrinted(sign: string, intPart: string, frac: string, v: int)
    requires IsNormal(sign, intPart, frac) && ParseAmount(Written(sign, intPart, frac), true) == Ok(v)
    ensures Written(sign, intPart, frac) == FormatNumber(v)
  {
    NormalDigits(sign, intPart, frac, v);
    var sign', intPart', frac' := PrintedPieces(v);
    SplitLast(intPart, PadEnd(frac, DECIMALS), intPart', PadEnd(frac', DECIMALS));
    StripPadded(frac, DECIMALS);
    StripPadded(frac', DECIMALS);
  }

  lemma {:induction false} SplitLast(a: string, b: string, c: string, d: string)
    requires a + b == c + d && |b| == |d|
    ensures a == c && b == d
  {
    assert a == (a + b)[..|a|] && c == (c + d)[..|c|];
    assert b == (a + b)[|a|..] && d == (c + d)[|c|..];
  }

  lemma {:induction false} NotMinusZero(intPart: string, frac: string, tail: string)
    requires AllDigits(intPart) && intPart != "" && (|intPart| > 1 ==> intPart[0] != '0')
    requires tail == PadEnd(frac, DECIMALS)
    requires |frac| <= DECIMALS && (frac != "" ==> frac[|frac| - 1] != '0')
    requires forall i :: 0 <= i < |intPart + tail| ==> (intPart + tail)[i] == '0'
    ensures intPart == "0" && frac == ""
  {
    var all := intPart + tail;
    assert all[0] == intPart[0];
    assert forall i :: 0 <= i < |tail| ==> tail[i] == all[|intPart| + i];
    assert forall i :: 0 <= i < |frac| ==> frac[i] == tail[i];
  }

  /** What is printed is normal. */
  lemma {:induction false} PrintedIsNormal(v: int) returns (sign: string, intPart: string, frac: string)
    ensures IsNormal(sign, intPart, frac) && Written(sign, intPart, frac) == FormatNumber(v)
  {
    var n: nat := if v < 0 then -v else v;
    sign, intPart, frac := PrintedPieces(v);
    NoZeroInFront(n, intPart, PadEnd(frac, DECIMALS));
    if intPart == "0" && frac == "" { PrintedZero(n, intPart, PadEnd(frac, DECIMALS)); }
  }

  lemma {:induction false} NoZeroInFront(n: nat, intPart: string, tail: string)
    requires intPart != "" && |tail| == DECIMALS && intPart + tail == Decimal(n, DECIMALS + 1)
    ensures |intPart| > 1 ==> intPart[0] != '0'
  {
    NoLeadingZero(n, DECIMALS + 1);
    assert (intPart + tail)[0] == intPart[0];
  }

  lemma {:induction false} PrintedZero(n: nat, intPart: string, tail: string)
    requires intPart + tail == Decimal(n, DECIMALS + 1) && intPart == "0"
    requires forall i :: 0 <= i < |tail| ==> tail[i] == '0'
    ensures n == 0
  {
    ValueOfDecimal(n, DECIMALS + 1);
    AllZeros(intPart + tail);
  }

  lemma {:induction false} AllZeros(s: string)
    requires AllDigits(s) && forall i :: 0 <= i < |s| ==> s[i] == '0'
    ensures ToNat(s) == 0
  {
    if s != "" { AllZeros(s[..|s| - 1]); }
  }

  lemma {:induction false} NoLeadingZero(n: nat, w: nat)
    ensures |Decimal(n, w)| > w ==> Decimal(n, w)[0] != '0'
    decreases n + w
  {
    if n != 0 || w != 0 { NoLeadingZero(n / 10, if w == 0 then 0 else w - 1); }
  }

  /** Whatever was typed, printing the parsed value and parsing that again changes nothing. */
  lemma {:induction false} ParsePrintParse(s: string, allowNegative: bool)
    requires ParseAmount(s, allowNegative).Ok?
    ensures ParseAmount(FormatNumber(ParseAmount(s, allowNegative).value), true) == ParseAmount(s, allowNegative)
  {
    FormatThenParse(ParseAmount(s, allowNegative).value);
  }
}
