/** Sizes somebody types and the fields that show them (src/domain/policies/presets.rs).

    The source reads amounts as 64-bit floats; here an amount is the real number
    that its float is.
 */
module Sizes {
  import opened Floats
  import opened Text

  const KB := 1024
  const MB := 1024 * 1024
  const GB := 1024 * 1024 * 1024
  const TB := 1024 * 1024 * 1024 * 1024

  const U64_MAX := 0xFFFF_FFFF_FFFF_FFFF

  const MIN_MEMORY := 6 * MB
  const MIN_MILLICORES := 100

  datatype Error = NotASize | NotAUnit | TooLarge | TooSmall

  // ---------- amounts ----------

  function Pow10(n: nat): (p: nat)
    ensures p > 0
  {
    if n == 0 then 1 else 10 * Pow10(n - 1)
  }

  /** Digits with perhaps a point among them. */
  function ReadDecimal(s: string): (x: Option<real>)
    ensures x.Some? ==> x.value >= 0.0
  {
    var n := Find(s, '.');
    var whole, fraction := s[..n], if n < |s| then s[n + 1..] else "";
    if !AllDigits(whole + fraction) || whole + fraction == "" then None
    else Some(DigitsValue(whole + fraction) as real / Pow10(|fraction|) as real)
  }

  function FindExponent(s: string): (n: nat)
    ensures n <= |s|
    ensures n == |s| <==> 'e' !in s && 'E' !in s
  {
    if s == "" || s[0] == 'e' || s[0] == 'E' then 0 else 1 + FindExponent(s[1..])
  }

  /** A sign, digits with a point, and an exponent. */
  function ReadNumber(s: string): (x: Option<real>)
    ensures x.Some? ==> x.value >= 0.0
  {
    var number := if s != "" && s[0] == '+' then s[1..] else s;
    var n := FindExponent(number);
    if n == |number| then ReadDecimal(number)
    else match ReadDecimal(number[..n])
      case None => None
      case Some(x) => Scaled(x, number[n + 1..])
  }

  function Scaled(x: real, exponent: string): (y: Option<real>)
    requires x >= 0.0
    ensures y.Some? ==> y.value >= 0.0
  {
    var digits := if exponent != "" && (exponent[0] == '+' || exponent[0] == '-') then exponent[1..] else exponent;
    if digits == "" || !AllDigits(digits) then None
    else if exponent[0] == '-' then Some(x / Pow10(DigitsValue(digits)) as real)
    else Some(x * Pow10(DigitsValue(digits)) as real)
  }

  /** `f64::from_str` and the test that follows it: the nearest float, unless it is
      nought or infinite. A number below nought or none at all is refused with the
      same words as what does not read. */
  function AmountOf(x: Option<real>): (a: Option<real>)
    requires x.Some? ==> x.value >= 0.0
    ensures a.Some? ==> a.value > 0.0
  {
    if x.None? || x.value == 0.0 || Nearest(x.value) <= 0.0 || Nearest(x.value) >= INFINITE then None
    else Some(Nearest(x.value))
  }

  // ---------- memory ----------

  /** How many characters at the start are digits or points. */
  function NumberLength(s: string): (n: nat)
    ensures n <= |s|
  {
    if s != "" && (IsDigit(s[0]) || s[0] == '.') then 1 + NumberLength(s[1..]) else 0
  }

  function Multiplier(unit: string): (times: Option<nat>)
    ensures times.Some? ==> times.value > 0
  {
    if unit in ["", "m", "mb", "mib"] then Some(MB)
    else if unit == "b" then Some(1)
    else if unit in ["k", "kb", "kib"] then Some(KB)
    else if unit in ["g", "gb", "gib"] then Some(GB)
    else if unit in ["t", "tb", "tib"] then Some(TB)
    else None
  }

  /** The product is rounded as a float, and then to a whole number. What is one above
      the largest number passes the test and saturates. */
  function BytesOf(amount: real, times: nat): Result<Option<nat>, Error> {
    Saturated(Round(Nearest(amount * times as real)))
  }

  function Saturated(bytes: int): Result<Option<nat>, Error> {
    if bytes > U64_MAX + 1 then Err(TooLarge)
    else if bytes > U64_MAX then Ok(Some(U64_MAX))
    else if bytes < 0 then Ok(Some(0))
    else Ok(Some(bytes))
  }

  /** `parse_bytes`. */
  function ParseBytes(typed: string): Result<Option<nat>, Error> {
    var text := Trim(typed);
    if text == "" then Ok(None)
    else
      var n := NumberLength(text);
      match AmountOf(ReadDecimal(text[..n]))
      case None => Err(NotASize)
      case Some(amount) =>
        match Multiplier(Lower(Trim(text[n..])))
        case None => Err(NotAUnit)
        case Some(times) => BytesOf(amount, times)
  }

  /** `parse_size`. */
  function ParseSize(typed: string): Result<Option<nat>, Error> {
    match ParseBytes(typed)
    case Ok(Some(bytes)) => if bytes < MIN_MEMORY then Err(TooSmall) else Ok(Some(bytes))
    case other => other
  }

  /** `size_field`. */
  function SizeField(bytes: nat): string {
    if bytes % GB == 0 then Decimal(bytes / GB) + " GB"
    else if bytes % MB == 0 then Decimal(bytes / MB) + " MB"
    else Decimal(bytes) + " B"
  }

  // ---------- processors ----------

  predicate InMillicores(text: string) { text != "" && (text[|text| - 1] == 'm' || text[|text| - 1] == 'M') }

  function CoresOf(millicores: int): Result<Option<nat>, Error> {
    if millicores > U32_MAX then Err(TooLarge)
    else if millicores < MIN_MILLICORES then Err(TooSmall)
    else Ok(Some(millicores))
  }

  /** `parse_cores`. */
  function ParseCores(typed: string): Result<Option<nat>, Error> {
    var text := Trim(typed);
    if text == "" then Ok(None)
    else if InMillicores(text) then
      match AmountOf(ReadNumber(Trim(text[..|text| - 1])))
      case None => Err(NotASize)
      case Some(amount) => CoresOf(Round(amount))
    else
      match AmountOf(ReadNumber(text))
      case None => Err(NotASize)
      case Some(amount) => CoresOf(Round(Nearest(amount * 1000.0)))
  }

  /** Hundredths of a core after the point, without a nought at the end. */
  function Hundredths(h: nat): string
    requires h < 100
  {
    if h % 10 == 0 then [DigitChar(h / 10)] else [DigitChar(h / 10), DigitChar(h % 10)]
  }

  /** `cores_field`: cores, with up to two decimals, or millicores. The source prints
      the shortest decimal that reads as the float, which is the exact one. */
  function CoresField(millicores: nat): string {
    if millicores % 1000 == 0 then Decimal(millicores / 1000)
    else if millicores % 10 == 0 then Decimal(millicores / 1000) + "." + Hundredths(millicores % 1000 / 10)
    else Decimal(millicores) + "m"
  }

  // ---------- a field reads back ----------

  lemma {:induction false} NumberLengthThen(digits: string, more: string)
    requires AllDigits(digits) && (more == "" || (!IsDigit(more[0]) && more[0] != '.'))
    ensures NumberLength(digits + more) == |digits|
  {
    if digits == "" {
      assert digits + more == more;
    } else {
      assert (digits + more)[1..] == digits[1..] + more;
      NumberLengthThen(digits[1..], more);
    }
  }

  lemma DecimalReads(n: nat)
    ensures ReadDecimal(Decimal(n)) == Some(n as real)
    ensures ReadNumber(Decimal(n)) == Some(n as real)
  {
    hide Text.Decimal, Text.DigitsValue;
    var s := Decimal(n);
    DecimalValue(n);
    assert AllDigits(s) && forall c :: c in s ==> IsDigit(c);
    assert Find(s, '.') == |s| && s[..|s|] == s && s + "" == s;
    assert Pow10(0) == 1;
    assert IsDigit(s[0]);
  }

  lemma WholeIsWhole(n: nat)
    ensures Whole(n as real) && Round(n as real) == n
  {
    FloorOfWhole(n);
  }

  /** What a whole number of up to 64 bits is read as. */
  lemma AmountOfWhole(n: nat)
    requires 0 < n <= U64_MAX
    ensures AmountOf(Some(n as real)) == Some(Nearest(n as real))
    ensures n < 0x20_0000_0000_0000 ==> Nearest(n as real) == n as real
  {
    hide Nearest;
    NearestIsNear(n as real);
    WholeIsWhole(n);
    NearestOfWhole(n as real);
    FitsIs53(n);
    BelowInfinite(n as real);
  }

  lemma BelowInfinite(x: real)
    requires 0.0 < x <= TWO64
    ensures x + x / TWO53 < INFINITE && x * 1000.0 + x < INFINITE
  {
    assert TWO256 == 115792089237316195423570985008687907853269984665640564039457584007913129639936.0;
    assert TWO256 * TWO256 > TWO256 && TWO256 * TWO256 * TWO256 > TWO256 && INFINITE > TWO256;
  }

  /** A whole number and a unit. */
  lemma UnitReads(n: nat, unit: string, times: nat)
    requires 0 < n <= U64_MAX && unit in ["GB", "MB", "B"] && Multiplier(Lower(unit)) == Some(times)
    ensures ParseBytes(Decimal(n) + " " + unit) == BytesOf(Nearest(n as real), times)
  {
    hide Text.Decimal, Text.Trim, ReadDecimal, Multiplier, Text.Lower, NumberLength, AmountOf, Nearest, BytesOf;
    var digits, more := Decimal(n), " " + unit;
    var text := digits + more;
    assert text == digits + " " + unit;
    assert Trimmed(text) && Trimmed(unit);
    TrimIsTrimmed(text);
    NumberLengthThen(digits, more);
    assert text[..|digits|] == digits && text[|digits|..] == more;
    TrimIsTrimmed(unit);
    UnitIsTrimmed(unit);
    DecimalReads(n);
    AmountOfWhole(n);
  }

  lemma UnitIsTrimmed(unit: string)
    requires Trimmed(unit)
    ensures Trim(" " + unit) == unit
  {
    hide Text.Trim;
    TrimPadded(" ", unit, "");
    assert " " + unit + "" == " " + unit;
  }

  lemma Units()
    ensures Multiplier(Lower("GB")) == Some(GB) && Multiplier(Lower("MB")) == Some(MB)
    ensures Multiplier(Lower("B")) == Some(1)
  {
    assert Lower("GB") == "gb" && Lower("MB") == "mb" && Lower("B") == "b";
  }

  lemma TimesKilo(x: real)
    requires x >= 0.0 && Fits(x)
    ensures Fits(1024.0 * x)
  {
    hide Fits;
    FitsTwice(x);
    FitsTwice(2.0 * x);
    FitsTwice(4.0 * x);
    FitsTwice(8.0 * x);
    FitsTwice(16.0 * x);
    FitsTwice(32.0 * x);
    FitsTwice(64.0 * x);
    FitsTwice(128.0 * x);
    FitsTwice(256.0 * x);
    FitsTwice(512.0 * x);
    assert 2.0 * (512.0 * x) == 1024.0 * x && 2.0 * (256.0 * x) == 512.0 * x && 2.0 * (128.0 * x) == 256.0 * x;
    assert 2.0 * (64.0 * x) == 128.0 * x && 2.0 * (32.0 * x) == 64.0 * x && 2.0 * (16.0 * x) == 32.0 * x;
    assert 2.0 * (8.0 * x) == 16.0 * x && 2.0 * (4.0 * x) == 8.0 * x && 2.0 * (2.0 * x) == 4.0 * x;
  }

  lemma InKilos(x: real, times: nat)
    requires IsMultiplier(times)
    ensures x * times as real ==
            if times == 1 then x else if times == KB then 1024.0 * x else if times == MB then 1024.0 * (1024.0 * x)
            else if times == GB then 1024.0 * (1024.0 * (1024.0 * x))
            else 1024.0 * (1024.0 * (1024.0 * (1024.0 * x)))
  {
  }

  predicate IsMultiplier(times: nat) { times == 1 || times == KB || times == MB || times == GB || times == TB }

  /** A fitting whole number of any unit is multiplied exactly. */
  lemma ProductIsExact(n: nat, times: nat)
    requires 0 < n < 0x20_0000_0000_0000 && IsMultiplier(times)
    ensures BytesOf(Nearest(n as real), times) == Saturated(n * times)
  {
    hide Nearest, Fits, Round, Fits53, Saturated;
    var x := n as real;
    WholeIsWhole(n);
    NearestOfWhole(x);
    FitsIs53(n);
    SmallFits53(n);
    TimesKilo(x);
    TimesKilo(1024.0 * x);
    TimesKilo(1024.0 * (1024.0 * x));
    TimesKilo(1024.0 * (1024.0 * (1024.0 * x)));
    var product := x * times as real;
    InKilos(x, times);
    assert product == (n * times) as real;
    WholeIsWhole(n * times);
    NearestOfWhole(product);
  }

  lemma SmallFits53(n: nat)
    requires n <= 0x20_0000_0000_0000
    ensures Fits53(n)
  {
    assert Fits53(0x20_0000_0000_0000 / 2);
  }

  lemma MegabytesRead(bytes: nat)
    requires 0 < bytes <= U64_MAX && bytes % MB == 0
    ensures ParseBytes(SizeField(bytes)) == Ok(Some(bytes))
  {
    hide ParseBytes, Text.Decimal, Multiplier, Text.Lower, Nearest, Round, BytesOf;
    Units();
    if bytes % GB == 0 {
      assert Decimal(bytes / GB) + " " + "GB" == SizeField(bytes);
      UnitReads(bytes / GB, "GB", GB);
      ProductIsExact(bytes / GB, GB);
    } else {
      assert Decimal(bytes / MB) + " " + "MB" == SizeField(bytes);
      UnitReads(bytes / MB, "MB", MB);
      ProductIsExact(bytes / MB, MB);
    }
  }

  /** Reading a number of bytes and multiplying by one is reading it. */
  lemma BytesRound(bytes: nat)
    requires bytes > 0
    ensures var d := Nearest(bytes as real);
            && BytesOf(d, 1) == Saturated(Round(d)) && Round(d) as real == d
            && (Round(d) == bytes <==> Fits53(bytes))
  {
    hide Nearest, Fits, Round, Fits53, Saturated;
    var d := Nearest(bytes as real);
    WholeIsWhole(bytes);
    NearestOfWhole(bytes as real);
    FitsIs53(bytes);
    NearestFits(bytes as real);
    FitsIsWhole(d);
    NearestOfWhole(d);
    TwiceWhole(d);
    TimesOne(d);
  }

  lemma TimesOne(x: real)
    ensures x * 1 as real == x
  {
  }

  lemma BytesRead(bytes: nat)
    requires 0 < bytes <= U64_MAX && bytes % MB != 0
    ensures ParseBytes(SizeField(bytes)) == Ok(Some(bytes)) <==> Fits53(bytes) || bytes == U64_MAX
  {
    hide ParseBytes, Text.Decimal, Multiplier, Text.Lower, Nearest, Round, Fits53, BytesOf;
    Units();
    BytesField(bytes);
    UnitReads(bytes, "B", 1);
    BytesRound(bytes);
    LargestSaturates();
  }

  lemma BytesField(bytes: nat)
    requires bytes % MB != 0
    ensures SizeField(bytes) == Decimal(bytes) + " " + "B"
  {
    hide Text.Decimal;
    NotGigabytes(bytes);
    SpaceThenUnit(Decimal(bytes), 'B');
  }

  lemma NoRemainder(n: nat)
    ensures n * MB % MB == 0
  {
  }

  lemma NotGigabytes(bytes: nat)
    ensures bytes % GB == 0 ==> bytes % MB == 0
  {
    var k := bytes / GB;
    assert bytes % GB == 0 ==> k * 1024 * MB == bytes;
    NoRemainder(k * 1024);
  }

  lemma SpaceThenUnit(digits: string, unit: char)
    ensures digits + " " + [unit] == digits + [' ', unit]
  {
  }

  lemma LargestSaturates()
    ensures Round(Nearest(U64_MAX as real)) == U64_MAX + 1
  {
    hide Nearest;
    LargestReadsAsTwo64();
    assert U64_MAX as real == 18446744073709551615.0;
    FloorOfWhole(U64_MAX + 1);
  }

  /** A stored size shown in the field reads back as itself exactly if it is one a
      container may have, and is a number of megabytes, or has 53 bits and zeros after
      them, or is the largest there is; as a budget, it need only not be nought. Every
      size up to two to the fifty-third is such. */
  lemma SizeFieldReadsBack(bytes: nat)
    requires bytes <= U64_MAX
    ensures ParseSize(SizeField(bytes)) == Ok(Some(bytes))
            <==> bytes >= 6 * 1048576 && (bytes % 1048576 == 0 || Fits53(bytes) || bytes == U64_MAX)
    ensures ParseBytes(SizeField(bytes)) == Ok(Some(bytes))
            <==> bytes > 0 && (bytes % 1048576 == 0 || Fits53(bytes) || bytes == U64_MAX)
    ensures bytes <= 0x20_0000_0000_0000 ==> Fits53(bytes)
  {
    hide ParseBytes, SizeField, Fits53;
    if bytes == 0 {
      NoughtIsNoSize();
    } else if bytes % MB == 0 {
      MegabytesRead(bytes);
    } else {
      BytesRead(bytes);
    }
    if bytes <= 0x20_0000_0000_0000 { SmallFits53(bytes); }
  }

  lemma NoughtIsNoSize()
    ensures ParseBytes(SizeField(0)) == Err(NotASize)
  {
    hide Text.Decimal, Text.Trim, ReadDecimal, Multiplier, Text.Lower, NumberLength;
    var digits, text := Decimal(0), Decimal(0) + " GB";
    assert SizeField(0) == text;
    TrimIsTrimmed(text);
    NumberLengthThen(digits, " GB");
    assert text[..|digits|] == digits;
    DecimalReads(0);
  }

  /** One byte past two to the fifty-third is read as one byte less. */
  lemma FirstSizeThatDoesNotReadBack()
    ensures ParseSize(SizeField(9007199254740993)) != Ok(Some(9007199254740993))
  {
    hide ParseBytes, ParseSize, SizeField;
    var n := 9007199254740993;
    assert n % 2 == 1 && n % MB == 1;
    SizeFieldReadsBack(n);
  }

  // ---------- what is typed ----------

  /** The unit that was typed, in any case, is this many bytes: a bare number is
      megabytes, and so is `m`. */
  predicate IsUnit(unit: string, times: nat) {
    || (times == 1 && Lowers(unit, "b"))
    || (times == 1024 && (Lowers(unit, "k") || Lowers(unit, "kb") || Lowers(unit, "kib")))
    || (times == 1048576
        && (Lowers(unit, "") || Lowers(unit, "m") || Lowers(unit, "mb") || Lowers(unit, "mib")))
    || (times == 1073741824 && (Lowers(unit, "g") || Lowers(unit, "gb") || Lowers(unit, "gib")))
    || (times == 1099511627776 && (Lowers(unit, "t") || Lowers(unit, "tb") || Lowers(unit, "tib")))
  }

  lemma UnitIs(unit: string, times: nat)
    ensures Multiplier(Lower(unit)) == Some(times) <==> IsUnit(unit, times)
  {
    var lower := Lower(unit);
    hide Text.Lowers;
    LowersIs(unit, "b");
    LowersIs(unit, "k");
    LowersIs(unit, "kb");
    LowersIs(unit, "kib");
    LowersIs(unit, "");
    LowersIs(unit, "m");
    LowersIs(unit, "mb");
    LowersIs(unit, "mib");
    LowersIs(unit, "g");
    LowersIs(unit, "gb");
    LowersIs(unit, "gib");
    LowersIs(unit, "t");
    LowersIs(unit, "tb");
    LowersIs(unit, "tib");
  }

  /** A unit as the parser cuts it off: trimmed, and not more of the number. */
  predicate Stands(unit: string) { Trimmed(unit) && (unit == "" || (!IsDigit(unit[0]) && unit[0] != '.')) }

  lemma TextOfSize(n: nat, gap: string, unit: string)
    requires Blank(gap) && Stands(unit)
    ensures var text, digits := Trim(Decimal(n) + gap + unit), Decimal(n);
            && text != "" && NumberLength(text) == |digits|
            && text[..|digits|] == digits && Trim(text[|digits|..]) == unit
  {
    hide Text.Decimal, Text.Trim, NumberLength, Text.Blank;
    var digits := Decimal(n);
    assert IsDigit(digits[0]) && IsDigit(digits[|digits| - 1]);
    if unit == "" {
      TrimPadded("", digits, gap);
      assert "" + digits + gap == digits + gap + unit;
      NumberLengthThen(digits, "");
      assert digits + "" == digits;
      TrimIsTrimmed("");
    } else {
      var text, more := digits + gap + unit, gap + unit;
      TrimIsTrimmed(text);
      ConcatAssociates(digits, gap, unit);
      GapThenUnit(gap, unit);
      NumberLengthThen(digits, more);
      TrimPadded(gap, unit, "");
      assert gap + unit + "" == more;
    }
  }

  lemma GapThenUnit(gap: string, unit: string)
    requires Blank(gap) && unit != "" && Stands(unit)
    ensures (gap + unit)[0] != '.' && !IsDigit((gap + unit)[0])
  {
  }

  lemma SizeIsProduct(n: nat, gap: string, unit: string, times: nat)
    requires 0 < n < 0x20_0000_0000_0000 && Blank(gap) && IsMultiplier(times) && Stands(unit)
    requires Multiplier(Lower(unit)) == Some(times)
    ensures ParseBytes(Decimal(n) + gap + unit) == BytesOf(Nearest(n as real), times)
  {
    hide Text.Decimal, Text.Trim, ReadDecimal, Multiplier, Text.Lower, NumberLength, AmountOf, Nearest, BytesOf,
      Stands, IsMultiplier, Text.Blank;
    TextOfSize(n, gap, unit);
    DecimalReads(n);
    AmountOfWhole(n);
  }

  lemma SaturatedIs(bytes: nat)
    ensures Saturated(bytes) ==
            if bytes > 18446744073709551616 then Err(TooLarge)
            else Ok(Some(if bytes == 18446744073709551616 then bytes - 1 else bytes))
  {
  }

  /** A whole number of a unit is that many bytes: `6 MB`, `2g`, `512`. Two to the
      64th is taken for the largest size there is, and more is too large. */
  lemma TypedSizeIsRead(n: nat, gap: string, unit: string, times: nat)
    requires 0 < n < 0x20_0000_0000_0000 && Blank(gap) && IsUnit(unit, times)
    ensures ParseBytes(Decimal(n) + gap + unit) ==
            var bytes := n * times;
            if bytes > 18446744073709551616 then Err(TooLarge)
            else Ok(Some(if bytes == 18446744073709551616 then bytes - 1 else bytes))
  {
    hide *;
    UnitStands(unit, times);
    UnitIs(unit, times);
    SizeIsProduct(n, gap, unit, times);
    ProductIsExact(n, times);
    SaturatedIs(n * times);
  }

  lemma UnitStands(unit: string, times: nat)
    requires IsUnit(unit, times)
    ensures Stands(unit) && IsMultiplier(times)
  {
    assert unit != "" ==> 'A' <= unit[0] <= 'Z' || 'a' <= unit[0] <= 'z';
    assert unit != "" ==> 'A' <= unit[|unit| - 1] <= 'Z' || 'a' <= unit[|unit| - 1] <= 'z';
  }

  /** Any other unit is refused. */
  lemma OtherUnitIsRefused(n: nat, gap: string, unit: string)
    requires 0 < n <= U64_MAX && Blank(gap) && Stands(unit) && forall times :: !IsUnit(unit, times)
    ensures ParseBytes(Decimal(n) + gap + unit) == Err(NotAUnit)
  {
    hide IsUnit, Text.Decimal, Text.Trim, ReadDecimal, Multiplier, Text.Lower, NumberLength, AmountOf, Nearest,
      Stands, Text.Blank;
    TextOfSize(n, gap, unit);
    if Multiplier(Lower(unit)).Some? { UnitIs(unit, Multiplier(Lower(unit)).value); }
    DecimalReads(n);
    AmountOfWhole(n);
  }

  lemma DigitsValueAppend(s: string, c: char)
    requires AllDigits(s) && IsDigit(c)
    ensures AllDigits(s + [c]) && DigitsValue(s + [c]) == 10 * DigitsValue(s) + DigitValue(c)
  {
    assert (s + [c])[..|s|] == s;
  }

  lemma PointReads(whole: string, fraction: string)
    requires AllDigits(whole) && AllDigits(fraction) && fraction != "" && whole != ""
    ensures ReadNumber(whole + "." + fraction)
            == Some(DigitsValue(whole + fraction) as real / Pow10(|fraction|) as real)
  {
    hide Text.DigitsValue, Pow10;
    var s := whole + ['.'] + fraction;
    assert forall c :: c in s ==> IsDigit(c) || c == '.';
    assert '.' !in whole;
    FindIs(whole, '.', fraction);
    assert s[..|whole|] == whole && s[|whole| + 1..] == fraction;
    assert IsDigit(s[0]);
  }

  /** The two-decimal spelling is the exact number of cores. */
  lemma HundredthsRead(n: nat)
    requires n % 10 == 0 && n % 1000 != 0
    ensures ReadNumber(CoresField(n)) == Some(n as real / 1000.0)
  {
    hide Text.Decimal, ReadNumber, Text.DigitsValue, Pow10;
    var whole, h := Decimal(n / 1000), n % 1000 / 10;
    DecimalValue(n / 1000);
    HundredthsAre(whole, n / 1000, h);
    assert n == 1000 * (n / 1000) + 10 * h;
    PointReads(whole, Hundredths(h));
    if h % 10 != 0 {
      SameQuotient(n, n / 10, 10, 100);
    } else {
      SameQuotient(n, n / 100, 100, 10);
    }
  }

  lemma HundredthsAre(whole: string, n: nat, h: nat)
    requires h < 100 && AllDigits(whole) && DigitsValue(whole) == n
    ensures var more := Hundredths(h);
            && more != "" && AllDigits(more) && AllDigits(whole + more)
            && Pow10(|more|) == (if h % 10 == 0 then 10 else 100)
            && DigitsValue(whole + more) == if h % 10 == 0 then 10 * n + h / 10 else 100 * n + h
  {
    hide Text.DigitsValue;
    var tens, ones := DigitChar(h / 10), DigitChar(h % 10);
    assert Pow10(0) == 1 && Pow10(1) == 10 && Pow10(2) == 100;
    DigitsValueAppend(whole, tens);
    if h % 10 != 0 {
      DigitsValueAppend(whole + [tens], ones);
      assert whole + [tens, ones] == whole + [tens] + [ones];
    }
  }

  lemma SameQuotient(n: nat, m: nat, k: nat, parts: nat)
    requires n == m * k && k * parts == 1000 && (k == 10 || k == 100)
    ensures m as real / parts as real == n as real / 1000.0
  {
    assert n as real == m as real * k as real;
  }

  lemma CoresFieldShape(n: nat)
    ensures var s := CoresField(n);
            && s != "" && Trimmed(s) && IsDigit(s[0]) && (InMillicores(s) <==> n % 10 != 0)
  {
    hide Text.Decimal;
    assert IsDigit(Decimal(n)[|Decimal(n)| - 1]) && IsDigit(Decimal(n / 1000)[|Decimal(n / 1000)| - 1]);
    assert n % 1000 == 0 ==> n % 10 == 0;
  }

  lemma CoresFieldReads(n: nat)
    requires n > 0
    ensures var s := CoresField(n);
            if InMillicores(s) then ReadNumber(Trim(s[..|s| - 1])) == Some(n as real)
            else ReadNumber(s) == Some(n as real / 1000.0)
  {
    hide Text.Decimal, ReadNumber, Text.Trim;
    var s := CoresField(n);
    CoresFieldShape(n);
    if n % 1000 == 0 {
      DecimalReads(n / 1000);
      assert n == n / 1000 * 1000;
      assert n as real == (n / 1000) as real * 1000.0;
    } else if n % 10 == 0 {
      HundredthsRead(n);
    } else {
      assert s[..|s| - 1] == Decimal(n);
      DecimalIsTrimmed(n);
      TrimIsTrimmed(Decimal(n));
      DecimalReads(n);
    }
  }

  lemma DecimalIsTrimmed(n: nat)
    ensures Trimmed(Decimal(n))
  {
    hide Text.Decimal;
    assert IsDigit(Decimal(n)[0]) && IsDigit(Decimal(n)[|Decimal(n)| - 1]);
  }

  /** A number of cores, read and multiplied with a rounding each, is still nearest to
      its number of millicores. */
  lemma CoresRound(n: nat)
    requires MIN_MILLICORES <= n <= U32_MAX
    ensures AmountOf(Some(n as real / 1000.0)) == Some(Nearest(n as real / 1000.0))
    ensures Nearest(n as real / 1000.0) > 0.0
    ensures Round(Nearest(Nearest(n as real / 1000.0) * 1000.0)) == n
  {
    hide Nearest;
    var m, x := n as real, n as real / 1000.0;
    NearestIsNear(x);
    BelowInfinite(x);
    var y := Nearest(x) * 1000.0;
    assert m - 0.001 <= y <= m + 0.001;
    NearestIsNear(y);
    assert m - 0.5 < Nearest(y) < m + 0.5;
  }

  lemma TooFewCores(typed: string, n: nat)
    requires n < MIN_MILLICORES
    ensures ParseCores(typed) != Ok(Some(n))
  {
    hide Text.Trim, ReadNumber, Nearest, AmountOf, Round;
  }

  /** A stored number of millicores shown in the field reads back as itself, in
      each of the three spellings, exactly if a container may have it. */
  lemma CoresFieldReadsBack(n: nat)
    requires n <= U32_MAX
    ensures ParseCores(CoresField(n)) == Ok(Some(n)) <==> n >= 100
  {
    hide CoresField, ReadNumber, Text.Trim, Round, Nearest, AmountOf;
    if n < MIN_MILLICORES {
      TooFewCores(CoresField(n), n);
    } else {
      CoresFieldShape(n);
      TrimIsTrimmed(CoresField(n));
      CoresFieldReads(n);
      CoresRound(n);
      AmountOfWhole(n);
      WholeIsWhole(n);
    }
  }
}
