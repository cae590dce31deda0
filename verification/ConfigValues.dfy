/** The values of src/cfg.c: how they are scanned, and what atof reads. */
module ConfigValues {
  import opened Basics
  import opened ConfigLines

  // ---- numerals ------------------------------------------------------------------------------------------

  const MANY: nat := 36

  /** The value of a character as a digit; MANY when it is none. */
  function DigitOf(c: char): (d: nat)
    ensures d <= MANY
  {
    if '0' <= c <= '9' then c as int - '0' as int
    else if 'a' <= c <= 'z' then c as int - 'a' as int + 10
    else if 'A' <= c <= 'Z' then c as int - 'A' as int + 10
    else MANY
  }

  predicate IsDigit(c: char) { '0' <= c <= '9' }

  /** How many digits of the base `s` begins with. */
  function LeadingDigits(s: string, base: nat): (n: nat)
    requires base <= MANY
    ensures n <= |s|
  {
    if s != [] && DigitOf(s[0]) < base then 1 + LeadingDigits(s[1..], base) else 0
  }

  /** The digits are there, and what comes after them is none. */
  lemma {:induction false} LeadingDigitsMean(s: string, base: nat)
    requires base <= MANY
    ensures var n := LeadingDigits(s, base);
      (forall i :: 0 <= i < n ==> DigitOf(s[i]) < base) && (n < |s| ==> DigitOf(s[n]) >= base)
  {
    if s != [] && DigitOf(s[0]) < base {
      LeadingDigitsMean(s[1..], base);
    }
  }

  function DigitsValue(s: string, base: nat): nat {
    if s == [] then 0 else DigitsValue(s[..|s| - 1], base) * base + DigitOf(s[|s| - 1])
  }

  function Power(base: nat, n: nat): (p: nat)
    requires base > 0
    ensures p > 0
  {
    if n == 0 then 1 else base * Power(base, n - 1)
  }

  /** How many digits there are after a point that `s` begins with. */
  function FractionDigits(s: string, base: nat): nat
    requires base <= MANY
  {
    if s != [] && s[0] == '.' then LeadingDigits(s[1..], base) else 0
  }

  /** Where a numeral, digits with an optional point and more digits, ends in `s`. */
  function FixedEnd(s: string, base: nat): (end: nat)
    requires base <= MANY
    ensures end <= |s|
  {
    var n := LeadingDigits(s, base);
    if n < |s| && s[n] == '.' then n + 1 + FractionDigits(s[n..], base) else n
  }

  /** A numeral: all its digits as one number, and how many of them are after the point. */
  datatype Numeral = Numeral(digits: nat, places: nat)

  /** The numeral that `s` begins with. */
  function Fixed(s: string, base: nat): Numeral
    requires base <= MANY
  {
    var n := LeadingDigits(s, base);
    var m := FractionDigits(s[n..], base);
    Numeral(DigitsValue(s[..n] + (if m == 0 then [] else s[n + 1..n + 1 + m]), base), m)
  }

  function ValueOf(numeral: Numeral, base: nat): real
    requires base > 0
  {
    numeral.digits as real / Power(base, numeral.places) as real
  }

  // ---- atof ----------------------------------------------------------------------------------------------

  function SignLength(s: string): (n: nat)
    ensures n <= |s|
  {
    if s != [] && (s[0] == '-' || s[0] == '+') then 1 else 0
  }

  function Signed(s: string, magnitude: real): real { if s != [] && s[0] == '-' then -magnitude else magnitude }

  /** The factor of an exponent part that `s` begins with; 1 when there is none. */
  function Scale(s: string, mark: char, base: nat): real
    requires base > 0
  {
    if s == [] || DigitOf(s[0]) != DigitOf(mark) then 1.0
    else
      var sign := SignLength(s[1..]);
      var digits := s[1 + sign..];
      var power := Power(base, DigitsValue(digits[..LeadingDigits(digits, 10)], 10)) as real;
      if sign == 1 && s[1] == '-' then 1.0 / power else power
  }

  /** A hexadecimal number: 0x, and a digit or a point and a digit. */
  predicate IsHex(s: string) {
    && |s| >= 3 && s[0] == '0' && (s[1] == 'x' || s[1] == 'X')
    && (DigitOf(s[2]) < 16 || (|s| >= 4 && s[2] == '.' && DigitOf(s[3]) < 16))
  }

  /** atof of a string that begins with a sign, a digit or a point: the longest number it begins with. */
  function Atof(s: string): real { Signed(s, Magnitude(s[SignLength(s)..])) }

  function Magnitude(body: string): real {
    if IsHex(body)
    then ValueOf(Fixed(body[2..], 16), 16) * Scale(body[2 + FixedEnd(body[2..], 16)..], 'p', 2)
    else ValueOf(Fixed(body, 10), 10) * Scale(body[FixedEnd(body, 10)..], 'e', 10)
  }

  /** The value of a decimal numeral with an optional sign. */
  function Decimal(s: string): real { Signed(s, ValueOf(Fixed(s[SignLength(s)..], 10), 10)) }

  /** How much of `s` is a decimal numeral with an optional sign. */
  function NumeralLength(s: string): (n: nat)
    ensures n <= |s|
  {
    SignLength(s) + FixedEnd(s[SignLength(s)..], 10)
  }

  // ---- values --------------------------------------------------------------------------------------------

  /** What an entry holds; Unset is the unspecified content of an entry that was never given a value. */
  datatype Value = Unset | Str(str: string) | Num(f64: real) | Bool(b: bool)

  datatype Scan = Failed | Scanned(value: Value, rest: string)

  /** line_is_comment. */
  predicate IsComment(s: string) {
    s == [] || s[0] == '#' || (|s| >= 2 && s[0] == '/' && s[1] == '/')
  }

  /** The text after a value may only be white space and a comment. */
  predicate TrailingOk(rest: string) { IsComment(Trimmed(rest)) }

  predicate StartsNumber(s: string) {
    var body := s[SignLength(s)..];
    body != [] && (IsDigit(body[0]) || body[0] == '.')
  }

  /** parse_number. */
  function ScanNumber(s: string): Scan {
    if StartsNumber(s) then Scanned(Num(Atof(s)), s[NumeralLength(s)..]) else Failed
  }

  /** Where `c` first is in `s`; the length of `s` when it is not there. */
  function Find(s: string, c: char): (n: nat)
    ensures n <= |s| && c !in s[..n]
    ensures n < |s| ==> s[n] == c
  {
    if s == [] || s[0] == c then 0
    else
      var n := Find(s[1..], c);
      assert s[..1 + n] == [s[0]] + s[1..][..n];
      1 + n
  }

  /** parse_string. */
  function ScanString(s: string): Scan
    requires s != []
  {
    var body := s[1..];
    var end := Find(body, s[0]);
    if end == |body| then Failed else Scanned(Str(body[..end]), body[end + 1..])
  }

  /** parse_bool. */
  function ScanBool(s: string): Scan {
    if "true" <= s then Scanned(Bool(true), s[4..])
    else if "false" <= s then Scanned(Bool(false), s[5..])
    else Failed
  }

  /** parse_value. */
  function ScanValue(s: string): Scan {
    if s == [] then Failed
    else if s[0] == '.' || s[0] == '+' || s[0] == '-' || IsDigit(s[0]) then ScanNumber(s)
    else if s[0] == 't' || s[0] == 'f' then ScanBool(s)
    else if s[0] == '\'' || s[0] == '\"' then ScanString(s)
    else Failed
  }

  // ---- the numeral scanned is the numeral read -----------------------------------------------------------

  lemma {:induction false} LeadingDigitsOfPrefix(s: string, base: nat, end: nat)
    requires base <= MANY && LeadingDigits(s, base) <= end <= |s|
    ensures LeadingDigits(s[..end], base) == LeadingDigits(s, base)
    decreases |s|
  {
    if s != [] && DigitOf(s[0]) < base {
      LeadingDigitsOfPrefix(s[1..], base, end - 1);
      assert s[..end][1..] == s[1..][..end - 1];
    }
  }

  lemma FractionOfPrefix(s: string, base: nat, end: nat)
    requires base <= MANY && s != [] && s[0] == '.' && end == 1 + FractionDigits(s, base)
    ensures FractionDigits(s[..end], base) == FractionDigits(s, base)
  {
    LeadingDigitsOfPrefix(s[1..], base, end - 1);
    assert s[..end][1..] == s[1..][..end - 1];
  }

  /** A numeral has the same value without what follows it. */
  lemma FixedOfPrefix(s: string, base: nat, end: nat)
    requires base <= MANY && end == FixedEnd(s, base)
    ensures Fixed(s[..end], base) == Fixed(s, base)
  {
    var t := s[..end];
    var n := LeadingDigits(s, base);
    var m := FractionDigits(s[n..], base);
    LeadingDigitsOfPrefix(s, base, end);
    assert t[..n] == s[..n];
    assert t[n..] == s[n..][..end - n];
    if end > n {
      FractionOfPrefix(s[n..], base, end - n);
      assert t[n + 1..n + 1 + m] == s[n + 1..n + 1 + m];
    }
  }

  lemma MagnitudeIsFixed(body: string, end: nat)
    requires !IsHex(body) && end == FixedEnd(body, 10) && (end == |body| || DigitOf(body[end]) == MANY)
    ensures Magnitude(body) == ValueOf(Fixed(body[..end], 10), 10)
  {
    FixedOfPrefix(body, 10, end);
    assert Scale(body[end..], 'e', 10) == 1.0;
  }

  lemma NumeralBody(s: string, end: nat)
    requires SignLength(s) + end <= |s| && end > 0
    ensures var numeral := s[..SignLength(s) + end];
      SignLength(numeral) == SignLength(s) && numeral[SignLength(s)..] == s[SignLength(s)..][..end]
  {
  }

  lemma NumeralEnds(s: string)
    requires StartsNumber(s) && TrailingOk(s[NumeralLength(s)..])
    ensures var body := s[SignLength(s)..]; var end := FixedEnd(body, 10);
      end > 0 && !IsHex(body) && (end == |body| || DigitOf(body[end]) == MANY)
  {
    var body := s[SignLength(s)..];
    assert body[FixedEnd(body, 10)..] == s[NumeralLength(s)..];
    Follows(s[NumeralLength(s)..]);
    NotHex(body);
  }

  /** On an accepted line the numeral that is scanned is exactly what atof reads. */
  lemma AtofReadsNumeral(s: string)
    requires StartsNumber(s) && TrailingOk(s[NumeralLength(s)..])
    ensures NumeralLength(s) > 0 && Atof(s) == Decimal(s[..NumeralLength(s)])
  {
    var body := s[SignLength(s)..];
    var end := FixedEnd(body, 10);
    NumeralEnds(s);
    MagnitudeIsFixed(body, end);
    NumeralBody(s, end);
  }

  /** What may follow a value does not continue a number. */
  lemma Follows(rest: string)
    requires TrailingOk(rest)
    ensures rest == [] || DigitOf(rest[0]) == MANY
  {
  }

  lemma NotHex(body: string)
    requires body != [] && (IsDigit(body[0]) || body[0] == '.')
    requires var rest := body[FixedEnd(body, 10)..]; rest == [] || DigitOf(rest[0]) == MANY
    ensures !IsHex(body) && FixedEnd(body, 10) > 0
  {
    var n := LeadingDigits(body, 10);
    LeadingDigitsMean(body, 10);
    if |body| > 1 && DigitOf(body[0]) < 10 {
      assert n > 0;
      assert n == 1 ==> DigitOf(body[1]) >= 10;
    }
  }
}
