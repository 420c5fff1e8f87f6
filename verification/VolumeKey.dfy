/** Volume numbers and the keys they are normalised to. A volume number is held exactly, in
    ten-thousandths; below 1024 the single-precision arithmetic of the code prints the same four
    decimals, and whole numbers below 2^24 are exact in it. */
module VolumeKey {
  import opened Options

  const SCALE: nat := 10_000
  const LIMIT: nat := 1024 * SCALE
  const WHOLE_LIMIT: nat := 0x100_0000 * SCALE

  predicate IsDigit(c: char) { '0' <= c <= '9' }

  predicate IsDigits(text: string) { forall i :: 0 <= i < |text| ==> IsDigit(text[i]) }

  predicate IsZeros(text: string) { forall i :: 0 <= i < |text| ==> text[i] == '0' }

  function DigitValue(c: char): nat
    requires IsDigit(c)
  {
    c as int - '0' as int
  }

  function DigitChar(n: nat): (c: char)
    requires n < 10
    ensures IsDigit(c) && DigitValue(c) == n
  {
    ('0' as int + n) as char
  }

  /** The number a string of digits stands for. */
  function Value(digits: string): nat
    requires IsDigits(digits)
  {
    if digits == "" then 0 else 10 * Value(digits[..|digits| - 1]) + DigitValue(digits[|digits| - 1])
  }

  /** The decimal digits of a number, without leading zeros. */
  function Decimal(n: nat): (digits: string)
    ensures digits != "" && IsDigits(digits) && Value(digits) == n
  {
    if n < 10 then [DigitChar(n)] else Decimal(n / 10) + [DigitChar(n % 10)]
  }

  /** The last `width` decimal digits of a number. */
  function Padded(n: nat, width: nat): (digits: string)
    ensures |digits| == width && IsDigits(digits)
  {
    if width == 0 then "" else Padded(n / 10, width - 1) + [DigitChar(n % 10)]
  }

  function Pow10(n: nat): nat { if n == 0 then 1 else 10 * Pow10(n - 1) }

  // ---------------------------------------------------------------- reading

  predicate IsSpace(c: char) { c == ' ' || '\t' <= c <= '\r' }

  function TrimStart(text: string): string {
    if text != "" && IsSpace(text[0]) then TrimStart(text[1..]) else text
  }

  function TrimEnd(text: string): string {
    if text != "" && IsSpace(text[|text| - 1]) then TrimEnd(text[..|text| - 1]) else text
  }

  function Trim(text: string): string { TrimEnd(TrimStart(text)) }

  /** The position of the first dot, or the length. */
  function Dot(text: string): (at: nat)
    ensures at <= |text| && (at < |text| ==> text[at] == '.') && forall i :: 0 <= i < at ==> text[i] != '.'
  {
    if text == "" || text[0] == '.' then 0 else 1 + Dot(text[1..])
  }

  function Whole(text: string): string { text[..Dot(text)] }

  function Fraction(text: string): string { if Dot(text) < |text| then text[Dot(text) + 1..] else "" }

  /** The position of the first exponent mark, or the length. */
  function ExponentAt(text: string): (at: nat)
    ensures at <= |text|
  {
    if text == "" || text[0] in {'e', 'E'} then 0 else 1 + ExponentAt(text[1..])
  }

  function Unsigned(text: string): string { if text != "" && text[0] in {'+', '-'} then text[1..] else text }

  predicate IsNegative(text: string) { text != "" && text[0] == '-' }

  predicate IsMantissa(text: string) {
    IsDigits(Whole(text)) && IsDigits(Fraction(text)) && |Whole(text)| + |Fraction(text)| > 0
  }

  /** What the parser of floating-point numbers reads as a number, words for infinity and NaN aside: an
      optional sign, digits with at most one dot, and possibly an exponent. */
  predicate IsNumber(text: string) {
    var body := Unsigned(text);
    var at := ExponentAt(body);
    && IsMantissa(body[..at])
    && (at < |body| ==> Unsigned(body[at + 1..]) != "" && IsDigits(Unsigned(body[at + 1..])))
  }

  /** A plain decimal with at most four fractional digits. */
  predicate IsPlain(text: string) { IsMantissa(text) && |Fraction(text)| <= 4 }

  /** The value of a plain decimal, in ten-thousandths. */
  function Scaled(text: string): nat
    requires IsPlain(text)
  {
    Value(Whole(text)) * SCALE + Value(Fraction(text)) * Pow10(4 - |Fraction(text)|)
  }

  function Signed(text: string): int
    requires IsPlain(Unsigned(text))
  {
    var n: int := Scaled(Unsigned(text));
    if IsNegative(text) then -n else n
  }

  /** The spellings of numbers the model speaks about. */
  predicate IsSpelling(volume: string) {
    IsPlain(Unsigned(Trim(volume))) && IsInRange(Scaled(Unsigned(Trim(volume))))
  }

  predicate IsInRange(scaled: nat) { scaled < LIMIT || (scaled % SCALE == 0 && scaled < WHOLE_LIMIT) }

  function Parsed(volume: string): int
    requires IsSpelling(volume)
  {
    Signed(Trim(volume))
  }

  lemma {:induction false} NoExponent(text: string)
    requires forall i :: 0 <= i < |text| ==> text[i] !in {'e', 'E'}
    ensures ExponentAt(text) == |text|
  {
    if text != "" {
      NoExponent(text[1..]);
    }
  }

  lemma MantissaChars(text: string)
    requires IsMantissa(text)
    ensures forall i :: 0 <= i < |text| ==> IsDigit(text[i]) || text[i] == '.'
  {
    var at := Dot(text);
    forall i | 0 <= i < |text| ensures IsDigit(text[i]) || text[i] == '.' {
      assert if i < at then Whole(text)[i] == text[i] else i == at || Fraction(text)[i - at - 1] == text[i];
    }
  }

  lemma SpellingIsNumber(volume: string)
    requires IsSpelling(volume)
    ensures IsNumber(Trim(volume))
  {
    var body := Unsigned(Trim(volume));
    MantissaChars(body);
    NoExponent(body);
    assert body[..|body|] == body;
  }

  // ---------------------------------------------------------------- writing

  /** What is left of a text after its trailing zeros are popped, as long as it has a dot. */
  function PopZeros(text: string): string {
    if '.' in text && text[|text| - 1] == '0' then PopZeros(text[..|text| - 1]) else text
  }

  function Sign(value: int): string { if value < 0 then "-" else "" }

  function Magnitude(value: int): nat { if value < 0 then -value else value }

  /** The key of a value. */
  function Key(value: int): string {
    var n := Magnitude(value);
    if n % SCALE == 0 then Sign(value) + Decimal(n / SCALE)
    else PopZeros(Sign(value) + Decimal(n / SCALE) + "." + Padded(n % SCALE, 4))
  }

  /** The texts the model speaks about: spellings of numbers in range, and whatever is no number at all. */
  predicate IsCovered(volume: string) { IsNumber(Trim(volume)) ==> IsSpelling(volume) }

  /** The normalised key; text that is no finite number has none. */
  function NormalKey(volume: string): Option<string>
    requires IsCovered(volume)
  {
    if IsNumber(Trim(volume)) then Some(Key(Parsed(volume))) else None
  }

  method NormalizedVolumeKey(volume: string) returns (key: Option<string>)
    requires IsCovered(volume)
    ensures key == NormalKey(volume)
  {
    if !IsNumber(Trim(volume)) {
      return None;
    }
    var number := Signed(Trim(volume));
    var n := Magnitude(number);
    if n % SCALE == 0 {
      return Some(Sign(number) + Decimal(n / SCALE));
    }
    var value := Sign(number) + Decimal(n / SCALE) + "." + Padded(n % SCALE, 4);
    while '.' in value && value[|value| - 1] == '0'
      invariant PopZeros(value) == Key(number)
      decreases |value|
    {
      value := value[..|value| - 1];
    }
    return Some(value);
  }

  /** A key that cannot be read as a number counts as fractional. */
  predicate IsFractionalVolumeKey(key: string) {
    IsPlain(Unsigned(key)) ==> Signed(key) % SCALE != 0
  }

  // ---------------------------------------------------------------- round trip

  lemma {:induction false} PaddedValue(n: nat, width: nat)
    requires n < Pow10(width)
    ensures Value(Padded(n, width)) == n
  {
    if width > 0 {
      PaddedValue(n / 10, width - 1);
      var digits := Padded(n, width);
      assert digits[..width - 1] == Padded(n / 10, width - 1);
    }
  }

  lemma {:induction false} DotAfterDigits(whole: string, rest: string)
    requires IsDigits(whole)
    ensures Dot(whole + "." + rest) == |whole| && Dot(whole) == |whole|
  {
    if whole == "" {
      assert whole + "." + rest == "." + rest;
    } else {
      assert (whole + "." + rest)[1..] == whole[1..] + "." + rest;
      DotAfterDigits(whole[1..], rest);
    }
  }

  lemma Parts(whole: string, fraction: string)
    requires IsDigits(whole)
    ensures Whole(whole + "." + fraction) == whole && Fraction(whole + "." + fraction) == fraction
    ensures Whole(whole) == whole && Fraction(whole) == ""
  {
    DotAfterDigits(whole, fraction);
  }

  lemma ScaledParts(whole: string, fraction: string)
    requires IsDigits(whole) && IsDigits(fraction) && |fraction| <= 4 && |whole| + |fraction| > 0
    ensures var text := whole + "." + fraction;
            IsPlain(text) && Scaled(text) == Value(whole) * SCALE + Value(fraction) * Pow10(4 - |fraction|)
  {
    Parts(whole, fraction);
  }

  lemma DropZeroDigit(fraction: string)
    requires IsDigits(fraction) && fraction != "" && |fraction| <= 4 && fraction[|fraction| - 1] == '0'
    ensures var shorter := fraction[..|fraction| - 1];
            && Value(fraction) == 10 * Value(shorter)
            && Value(fraction) * Pow10(4 - |fraction|) == Value(shorter) * Pow10(4 - |shorter|)
  {
    var shorter := fraction[..|fraction| - 1];
    assert Pow10(4 - |shorter|) == 10 * Pow10(4 - |fraction|);
  }

  /** Popping trailing zeros of a fraction leaves a fraction of the same value. */
  lemma {:induction false} PopZerosKeeps(whole: string, fraction: string) returns (shorter: string)
    requires IsDigits(fraction) && |fraction| <= 4 && Value(fraction) > 0
    ensures PopZeros(whole + "." + fraction) == whole + "." + shorter
    ensures IsDigits(shorter) && 0 < |shorter| <= 4
    ensures Value(shorter) * Pow10(4 - |shorter|) == Value(fraction) * Pow10(4 - |fraction|)
  {
    var text := whole + "." + fraction;
    assert text[|whole|] == '.';
    assert text[|text| - 1] == fraction[|fraction| - 1];
    if fraction[|fraction| - 1] == '0' {
      DropZeroDigit(fraction);
      assert text[..|text| - 1] == whole + "." + fraction[..|fraction| - 1];
      shorter := PopZerosKeeps(whole, fraction[..|fraction| - 1]);
    } else {
      shorter := fraction;
    }
  }

  /** A key read back. */
  predicate Reads(key: string, value: int) {
    IsPlain(Unsigned(key)) && Signed(key) == value && Trim(key) == key
  }

  lemma SignedKey(value: int, digits: string)
    requires IsPlain(digits) && Scaled(digits) == Magnitude(value) && digits != "" && IsDigits([digits[0]])
    requires forall c :: c in digits ==> !IsSpace(c)
    ensures Reads(Sign(value) + digits, value)
  {
    var key := Sign(value) + digits;
    NoBlanks(key);
    assert Unsigned(digits) == digits by {
      assert IsDigit([digits[0]][0]);
    }
    assert Unsigned(key) == digits;
  }

  lemma WholeKey(value: int)
    requires Magnitude(value) % SCALE == 0
    ensures Reads(Key(value), value)
  {
    var digits := Decimal(Magnitude(value) / SCALE);
    Parts(digits, "");
    SignedKey(value, digits);
  }

  lemma FractionDigits(before: string, rest: nat) returns (shorter: string)
    requires 0 < rest < SCALE
    ensures PopZeros(before + "." + Padded(rest, 4)) == before + "." + shorter
    ensures IsDigits(shorter) && 0 < |shorter| <= 4 && Value(shorter) * Pow10(4 - |shorter|) == rest
  {
    assert Pow10(4) == SCALE && Pow10(0) == 1;
    PaddedValue(rest, 4);
    shorter := PopZerosKeeps(before, Padded(rest, 4));
  }

  lemma FractionText(before: string, whole: string, rest: nat) returns (text: string)
    requires whole != "" && IsDigits(whole) && 0 < rest < SCALE
    ensures PopZeros(before + whole + "." + Padded(rest, 4)) == before + text
    ensures IsPlain(text) && Scaled(text) == Value(whole) * SCALE + rest && text != "" && IsDigits([text[0]])
    ensures forall c :: c in text ==> !IsSpace(c)
  {
    var shorter := FractionDigits(before + whole, rest);
    ScaledParts(whole, shorter);
    text := whole + "." + shorter;
    assert before + whole + "." + shorter == before + text;
  }

  lemma FractionKey(value: int)
    requires Magnitude(value) % SCALE != 0
    ensures Reads(Key(value), value)
  {
    var n := Magnitude(value);
    var text := FractionText(Sign(value), Decimal(n / SCALE), n % SCALE);
    SignedKey(value, text);
  }

  /** A key is a plain decimal of the very value it was made from, without blanks around it. */
  lemma KeyValue(value: int)
    ensures Reads(Key(value), value)
  {
    if Magnitude(value) % SCALE == 0 {
      WholeKey(value);
    } else {
      FractionKey(value);
    }
  }

  /** Trimming takes white space off both ends, and all of it. */
  lemma TrimSplits(text: string) returns (before: string, after: string)
    ensures text == before + Trim(text) + after
    ensures forall c :: c in before || c in after ==> c as int in {9, 10, 11, 12, 13, 32}
    ensures var rest := Trim(text);
            rest != "" ==> rest[0] as int !in {9, 10, 11, 12, 13, 32}
                           && rest[|rest| - 1] as int !in {9, 10, 11, 12, 13, 32}
  {
    before := TrimStartSplits(text);
    after := TrimEndSplits(TrimStart(text));
  }

  lemma {:induction false} TrimStartSplits(text: string) returns (before: string)
    ensures text == before + TrimStart(text)
    ensures forall c :: c in before ==> IsSpace(c)
    ensures TrimStart(text) != "" ==> !IsSpace(TrimStart(text)[0])
  {
    before := "";
    if text != "" && IsSpace(text[0]) {
      var rest := TrimStartSplits(text[1..]);
      before := [text[0]] + rest;
    }
  }

  lemma {:induction false} TrimEndSplits(text: string) returns (after: string)
    ensures text == TrimEnd(text) + after
    ensures forall c :: c in after ==> IsSpace(c)
    ensures TrimEnd(text) != "" ==> TrimEnd(text)[0] == text[0] && !IsSpace(TrimEnd(text)[|TrimEnd(text)| - 1])
  {
    after := "";
    if text != "" && IsSpace(text[|text| - 1]) {
      var rest := TrimEndSplits(text[..|text| - 1]);
      after := rest + [text[|text| - 1]];
    }
  }

  lemma NoBlanks(text: string)
    requires forall c :: c in text ==> !IsSpace(c)
    ensures Trim(text) == text
  {
  }

  /** Two texts have one key exactly when they spell one value, or when neither spells any. */
  lemma KeyIdentifiesValue(a: string, b: string)
    requires IsCovered(a) && IsCovered(b)
    ensures NormalKey(a) == NormalKey(b) <==>
            if IsSpelling(a) && IsSpelling(b) then Parsed(a) == Parsed(b) else !IsSpelling(a) && !IsSpelling(b)
  {
    if IsSpelling(a) {
      SpellingIsNumber(a);
      KeyValue(Parsed(a));
    }
    if IsSpelling(b) {
      SpellingIsNumber(b);
      KeyValue(Parsed(b));
    }
  }

  lemma KeySpelling(value: int)
    requires IsInRange(Magnitude(value))
    ensures IsSpelling(Key(value)) && Parsed(Key(value)) == value
  {
    KeyValue(value);
  }

  lemma KeyOfKey(value: int)
    requires IsInRange(Magnitude(value))
    ensures IsCovered(Key(value)) && NormalKey(Key(value)) == Some(Key(value))
  {
    KeySpelling(value);
    SpellingIsNumber(Key(value));
  }

  lemma ParsedInRange(volume: string)
    requires IsSpelling(volume)
    ensures IsInRange(Magnitude(Parsed(volume)))
  {
  }

  /** Normalising a key gives the key back. */
  lemma KeyIsNormal(volume: string)
    requires IsCovered(volume) && NormalKey(volume).Some?
    ensures var key := NormalKey(volume).value; IsCovered(key) && NormalKey(key) == Some(key)
  {
    ParsedInRange(volume);
    KeyOfKey(Parsed(volume));
  }

  /** Digits, possibly followed by a dot and more digits. */
  predicate IsPlainNumber(text: string) {
    IsMantissa(text) && Whole(text) != "" && (Dot(text) < |text| ==> Fraction(text) != "")
  }

  lemma PlainShape(whole: string, fraction: string)
    requires IsDigits(whole) && whole != "" && IsDigits(fraction) && fraction != ""
    ensures IsPlainNumber(whole) && IsPlainNumber(whole + "." + fraction)
  {
    Parts(whole, fraction);
  }

  lemma NegativeShape(text: string)
    requires IsNegative(text)
    ensures !IsPlainNumber(text)
  {
    assert Dot(text) > 0 ==> Whole(text)[0] == '-';
  }

  lemma WholeShape(before: string, whole: string)
    requires before == "" && IsDigits(whole) && whole != ""
    ensures IsPlainNumber(before + whole)
  {
    assert before + whole == whole;
    PlainShape(whole, "0");
  }

  lemma FractionShape(before: string, whole: string, rest: nat)
    requires before == "" && IsDigits(whole) && whole != "" && 0 < rest < SCALE
    ensures IsPlainNumber(PopZeros(before + whole + "." + Padded(rest, 4)))
  {
    assert before + whole == whole;
    var shorter := FractionDigits(whole, rest);
    PlainShape(whole, shorter);
  }

  lemma PositiveShape(value: nat)
    ensures IsPlainNumber(Key(value))
  {
    var n: nat := Magnitude(value);
    if n % SCALE == 0 {
      WholeShape(Sign(value), Decimal(n / SCALE));
    } else {
      FractionShape(Sign(value), Decimal(n / SCALE), n % SCALE);
    }
  }

  /** The key of a number that is not negative is a plain number; that of a negative one has a sign. */
  lemma KeyShape(value: int)
    ensures IsPlainNumber(Key(value)) <==> value >= 0
  {
    if value >= 0 {
      PositiveShape(value);
    } else {
      KeyValue(value);
      NegativeShape(Key(value));
    }
  }

  // ---------------------------------------------------------------- what a key looks like

  lemma {:induction false} NoLeadingZero(n: nat)
    ensures Decimal(n)[0] == '0' ==> |Decimal(n)| == 1
    ensures n > 0 ==> Decimal(n)[0] != '0'
  {
    if n >= 10 {
      NoLeadingZero(n / 10);
    }
  }

  lemma {:induction false} PoppedEnd(before: string, fraction: string)
    requires IsDigits(fraction) && Value(fraction) > 0
    ensures var text := PopZeros(before + "." + fraction);
            text != "" && '1' <= text[|text| - 1] <= '9'
    decreases |fraction|
  {
    var text := before + "." + fraction;
    assert text[|before|] == '.';
    var last := fraction[|fraction| - 1];
    assert text[|text| - 1] == last;
    if last == '0' {
      assert text[..|text| - 1] == before + "." + fraction[..|fraction| - 1];
      PoppedEnd(before, fraction[..|fraction| - 1]);
    }
  }

  lemma FractionEnd(before: string, rest: nat)
    requires 0 < rest < SCALE
    ensures var text := PopZeros(before + "." + Padded(rest, 4)); text != "" && '1' <= text[|text| - 1] <= '9'
  {
    assert Pow10(4) == SCALE;
    PaddedValue(rest, 4);
    PoppedEnd(before, Padded(rest, 4));
  }

  /** How a key is written: with a minus sign for a negative value only, without leading zeros, with a dot
      only for a value that is not whole, and then ending in a digit other than zero. */
  lemma KeyIsShort(value: int)
    ensures var key := Key(value);
            var k := if value < 0 then 1 else 0;
            && |key| > k && (value < 0 ==> key[0] == '-')
            && '0' <= key[k] <= '9'
            && (key[k] == '0' ==> |key| == k + 1 || key[k + 1] == '.')
            && ('.' in key <==> value % 10_000 != 0)
            && ('.' in key ==> '1' <= key[|key| - 1] <= '9')
  {
    var n := Magnitude(value);
    var digits := Decimal(n / SCALE);
    var whole := Sign(value) + digits;
    NoLeadingZero(n / SCALE);
    assert whole[|Sign(value)|] == digits[0];
    if n % SCALE == 0 {
      assert forall c :: c in whole ==> c != '.';
    } else {
      FractionEnd(whole, n % SCALE);
      var shorter := FractionDigits(whole, n % SCALE);
      assert Key(value) == whole + "." + shorter && Key(value)[|whole|] == '.';
    }
    WholeMagnitude(value);
  }

  lemma WholeMagnitude(value: int)
    ensures Magnitude(value) % SCALE == 0 <==> value % 10_000 == 0
  {
  }

  lemma UnsignedOf(sign: string, digits: string)
    requires IsPlain(digits) && sign in {"", "+", "-"}
    ensures Trim(sign + digits) == sign + digits && Unsigned(sign + digits) == digits
    ensures IsNegative(sign + digits) <==> sign == "-"
  {
    MantissaChars(digits);
    NoBlanks(sign + digits);
    assert digits != "";
    var text := sign + digits;
    assert if sign == "" then text == digits else text[0] == sign[0] && text[1..] == digits;
  }

  /** A plus sign makes no difference to the number read, and a minus sign that of the value. */
  lemma SignsMatter(sign: string, digits: string)
    requires IsPlain(digits) && IsInRange(Scaled(digits)) && sign in {"", "+", "-"}
    ensures IsSpelling(sign + digits)
    ensures Parsed(sign + digits) == if sign == "-" then 0 - Scaled(digits) else Scaled(digits)
  {
    UnsignedOf(sign, digits);
    var text := sign + digits;
    assert Trim(text) == text && Unsigned(text) == digits;
  }

  lemma ReadsAs(whole: string, fraction: string, text: string)
    requires IsDigits(whole) && whole != "" && IsDigits(fraction) && |fraction| <= 4
    requires text == whole + "." + fraction
    requires Value(whole) * SCALE + Value(fraction) * Pow10(4 - |fraction|) < LIMIT
    ensures IsSpelling(text)
    ensures Parsed(text) == Value(whole) * SCALE + Value(fraction) * Pow10(4 - |fraction|)
  {
    ScaledParts(whole, fraction);
    UnsignedOf("", text);
    assert "" + text == text;
  }

  lemma DocumentedValues()
    ensures Value("01") == 1 && Value("10") == 10 && Value("500") == 500 && Value("2500") == 2500
  {
    assert "01"[..1] == "0" && "10"[..1] == "1" && "500"[..2] == "50" && "50"[..1] == "5";
    assert "2500"[..3] == "250" && "250"[..2] == "25" && "25"[..1] == "2";
    assert Value("5") == 5 && Value("50") == 50 && Value("2") == 2 && Value("25") == 25 && Value("250") == 250;
  }

  /** Two of the spellings in the repository's own tests. */
  lemma DocumentedSpellings()
    ensures IsSpelling("01.500") && Parsed("01.500") == 15_000
    ensures IsSpelling("10.2500") && Parsed("10.2500") == 102_500
  {
    PaddedHalf();
    PaddedQuarter();
  }

  lemma PaddedHalf()
    ensures IsSpelling("01.500") && Parsed("01.500") == 15_000
  {
    DocumentedValues();
    assert Pow10(1) == 10;
    ReadsAs("01", "500", "01.500");
  }

  lemma PaddedQuarter()
    ensures IsSpelling("10.2500") && Parsed("10.2500") == 102_500
  {
    DocumentedValues();
    assert Pow10(0) == 1;
    ReadsAs("10", "2500", "10.2500");
  }

  lemma MantissaHasDigit(text: string) returns (i: nat)
    requires IsMantissa(text)
    ensures i < |text| && '0' <= text[i] <= '9'
  {
    i := if Whole(text) != "" then 0 else Dot(text) + 1;
    assert if Whole(text) != "" then IsDigit(Whole(text)[0]) else IsDigit(Fraction(text)[0]);
  }

  /** Whatever is read as a number has a digit. */
  lemma NumberHasDigit(text: string) returns (i: nat)
    requires IsNumber(text)
    ensures i < |text| && '0' <= text[i] <= '9'
  {
    var body := Unsigned(text);
    var k := MantissaHasDigit(body[..ExponentAt(body)]);
    i := k + (|text| - |body|);
  }

  /** An exponent is part of a number. */
  lemma ExponentIsRead(mantissa: string, mark: char, exponent: string)
    requires IsMantissa(mantissa) && mantissa[0] !in {'+', '-'} && mark in {'e', 'E'}
    requires Unsigned(exponent) != "" && IsDigits(Unsigned(exponent))
    ensures IsNumber(mantissa + [mark] + exponent)
  {
    var text := mantissa + [mark] + exponent;
    MantissaChars(mantissa);
    MarkAt(mantissa, mark, exponent);
    assert Unsigned(text) == text && text[..|mantissa|] == mantissa && text[|mantissa| + 1..] == exponent;
  }

  lemma {:induction false} MarkAt(before: string, mark: char, after: string)
    requires mark in {'e', 'E'} && forall i :: 0 <= i < |before| ==> before[i] !in {'e', 'E'}
    ensures ExponentAt(before + [mark] + after) == |before|
  {
    var text := before + [mark] + after;
    if before != "" {
      assert text[0] == before[0] && text[1..] == before[1..] + [mark] + after;
      MarkAt(before[1..], mark, after);
    }
  }

  /** The fractional keys are exactly those of values that are not whole. */
  lemma FractionalIsNotWhole(volume: string)
    requires IsSpelling(volume)
    ensures IsFractionalVolumeKey(Key(Parsed(volume))) <==> Parsed(volume) % SCALE != 0
  {
    KeyValue(Parsed(volume));
  }

  /** Zeros before a number and zeros after its fraction do not change its value, hence not its key. */
  lemma SpellingsAgree(whole: string, fraction: string, before: string, after: string)
    requires whole != "" && IsDigits(whole) && IsDigits(fraction) && IsZeros(before) && IsZeros(after)
    requires |fraction| + |after| <= 4
    ensures var text := whole + "." + fraction;
            var padded := (before + whole) + "." + (fraction + after);
            IsPlain(text) && IsPlain(padded) && Scaled(text) == Scaled(padded)
  {
    LeadingZeros(before, whole);
    TrailingZeros(fraction, after);
    ScaledParts(whole, fraction);
    ScaledParts(before + whole, fraction + after);
  }

  lemma {:induction false} LeadingZeros(zeros: string, digits: string)
    requires IsDigits(digits) && IsZeros(zeros)
    ensures IsDigits(zeros + digits) && Value(zeros + digits) == Value(digits)
    decreases |zeros| + |digits|
  {
    if digits != "" {
      assert (zeros + digits)[..|zeros + digits| - 1] == zeros + digits[..|digits| - 1];
      LeadingZeros(zeros, digits[..|digits| - 1]);
    } else if zeros != "" {
      assert (zeros + digits)[..|zeros + digits| - 1] == zeros[..|zeros| - 1] + digits;
      LeadingZeros(zeros[..|zeros| - 1], digits);
    }
  }

  lemma {:induction false} TrailingZeros(digits: string, zeros: string)
    requires IsDigits(digits) && IsZeros(zeros) && |digits| + |zeros| <= 4
    ensures IsDigits(digits + zeros)
    ensures Value(digits + zeros) * Pow10(4 - |digits + zeros|) == Value(digits) * Pow10(4 - |digits|)
  {
    var all := digits + zeros;
    if zeros == "" {
      assert all == digits;
    } else {
      TrailingZeros(digits, zeros[..|zeros| - 1]);
      assert all[..|all| - 1] == digits + zeros[..|zeros| - 1];
      DropZeroDigit(all);
    }
  }
}
