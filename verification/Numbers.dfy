/** The text `sh_putint` and `sh_printf` emit, and what can be read back from it. */
module Numbers {
  import opened Words

  const ZERO: Byte := 48
  const MINUS: Byte := 45
  const PERCENT: Byte := 37

  /** `sizeof(buffer) - 1`: how many digits the buffer takes. */
  const DIGIT_LIMIT: nat := 31

  type Base = b: nat | 2 <= b <= 16 witness 2

  /** `"0123456789abcdef"[d]` */
  function DigitChar(d: nat): Byte
    requires d < 16
  {
    if d < 10 then ZERO + d else 97 + (d - 10)
  }

  /** A digit as a reader of numbers takes it. */
  function DigitValue(c: Byte): int {
    if c <= '9' as int then c - '0' as int else c - 'a' as int + 10
  }

  /** The characters printed are those of the source's string. */
  lemma DigitCharacters(d: nat)
    requires d < 16
    ensures DigitChar(d) as char == "0123456789abcdef"[d]
    ensures DigitValue("0123456789abcdef"[d] as int) == d
  {
  }

  /** The `limit` lowest digits of `u`, most significant first, without leading zeros beyond `u`. */
  function Numeral(u: nat, base: Base, limit: nat): seq<Byte> {
    if u == 0 || limit == 0 then [] else Numeral(u / base, base, limit - 1) + [DigitChar(u % base)]
  }

  predicate Negative(value: I32, base: Base) {
    base == 10 && value < 0
  }

  /** The number whose digits are printed. */
  function Magnitude(value: I32, base: Base): U32 {
    Wrap32(if Negative(value, base) then 0 - value else value)
  }

  function Digits(value: I32, base: Base): seq<Byte> {
    var u := Magnitude(value, base);
    if u == 0 then [ZERO] else Numeral(u, base, DIGIT_LIMIT)
  }

  function IntText(value: I32, base: Base): seq<Byte> {
    (if Negative(value, base) then [MINUS] else []) + Digits(value, base)
  }

  // ---------------------------------------------------------------- reading numbers back

  function Parse(text: seq<Byte>, base: Base): int {
    if text == [] then 0 else Parse(text[..|text| - 1], base) * base + DigitValue(text[|text| - 1])
  }

  function ParseInt(text: seq<Byte>, base: Base): int {
    if text != [] && text[0] == '-' as int then -Parse(text[1..], base) else Parse(text, base)
  }

  function Power(b: nat, n: nat): nat {
    if n == 0 then 1 else Power(b, n - 1) * b
  }

  lemma PowerZero(b: nat)
    ensures Power(b, 0) == 1
  {
  }

  lemma {:induction false} PowerPositive(b: nat, n: nat)
    requires b > 0
    ensures Power(b, n) > 0
  {
    if n > 0 {
      PowerPositive(b, n - 1);
      MulMono(1, Power(b, n - 1), b);
    }
  }

  lemma Unfold(u: nat, base: Base, limit: nat)
    requires u > 0 && limit > 0
    ensures Numeral(u, base, limit) == Numeral(u / base, base, limit - 1) + [DigitChar(u % base)]
    ensures Power(base, limit) == Power(base, limit - 1) * base
  {
  }

  lemma DivideOut(u: nat, base: nat)
    requires base > 0
    ensures u == (u / base) * base + u % base
  {
  }

  lemma QuotientBound(u: nat, base: nat, p: nat)
    requires base > 0 && u < p * base
    ensures u / base < p
  {
    DivideOut(u, base);
    if p <= u / base {
      MulMono(p, u / base, base);
    }
  }

  /** The buffer keeps the number modulo `base^limit`. */
  lemma {:induction false} NumeralValue(u: nat, base: Base, limit: nat)
    ensures Power(base, limit) > 0
    ensures Parse(Numeral(u, base, limit), base) == u % Power(base, limit)
    decreases limit
  {
    hide Power, Numeral, Parse;
    PowerPositive(base, limit);
    NoDigits(u, base, limit);
    if u == 0 {
      QuotientRemainder(0, Power(base, limit), 0);
    } else if limit == 0 {
      PowerZero(base);
    } else {
      NumeralValue(u / base, base, limit - 1);
      Unfold(u, base, limit);
      DivideOut(u, base);
      ParseDigit(Numeral(u / base, base, limit - 1), base, u % base);
      ShiftDigit(u / base, base, Power(base, limit - 1), u % base);
    }
  }

  lemma NoDigits(u: nat, base: Base, limit: nat)
    ensures u == 0 || limit == 0 ==> Numeral(u, base, limit) == []
    ensures Parse([], base) == 0
  {
  }

  lemma ParseDigit(digits: seq<Byte>, base: Base, r: nat)
    requires r < base
    ensures Parse(digits + [DigitChar(r)], base) == Parse(digits, base) * base + r
  {
    assert (digits + [DigitChar(r)])[..|digits|] == digits;
  }

  lemma ShiftDigit(q: nat, base: nat, p: nat, r: nat)
    requires p > 0 && r < base
    ensures p * base > 0
    ensures (q * base + r) % (p * base) == (q % p) * base + r
  {
    var k, m, pb := q / p, q % p, p * base;
    assert m * base + r < pb by { MulMono(m + 1, p, base); MulSum(m, 1, base); }
    assert q * base == k * pb + m * base by { MulSum(k * p, m, base); MulRegroup(k, p, base); }
    QuotientRemainder(k, pb, m * base + r);
  }

  lemma OneDigit(u: nat, base: Base, limit: nat)
    requires u > 0 && limit > 0 && u / base == 0
    ensures Numeral(u, base, limit) == [DigitChar(u)] && DigitChar(u) != ZERO
  {
    DivideOut(u, base);
  }

  /** The first digit is zero only if digits were cut off. */
  lemma {:induction false} NoLeadingZero(u: nat, base: Base, limit: nat)
    requires 0 < u < Power(base, limit)
    ensures Numeral(u, base, limit) != [] && Numeral(u, base, limit)[0] != ZERO
    decreases limit
  {
    hide Power, Numeral;
    if limit == 0 {
      PowerZero(base);
      return;
    }
    Unfold(u, base, limit);
    QuotientBound(u, base, Power(base, limit - 1));
    if u / base > 0 {
      NoLeadingZero(u / base, base, limit - 1);
    } else {
      OneDigit(u, base, limit);
    }
  }

  lemma {:induction false} NoMinus(u: nat, base: Base, limit: nat)
    ensures MINUS !in Numeral(u, base, limit)
    decreases limit
  {
    if u > 0 && limit > 0 {
      NoMinus(u / base, base, limit - 1);
    }
  }

  lemma {:induction false} PowerMono(b: nat, c: nat, n: nat)
    requires b <= c
    ensures Power(b, n) <= Power(c, n)
  {
    if n > 0 {
      PowerMono(b, c, n - 1);
      MulMono(Power(b, n - 1), Power(c, n - 1), b);
      MulMono(b, c, Power(c, n - 1));
    }
  }

  lemma Capacity(base: Base)
    ensures if base == 2 then Power(base, DIGIT_LIMIT) == 0x8000_0000 else Power(base, DIGIT_LIMIT) > 0x1_0000_0000
  {
    assert Power(2, 8) == 0x100;
    assert Power(2, 7) == 0x80;
    PowerSum(2, 8, 8);
    PowerSum(2, 8, 7);
    PowerSum(2, 16, 15);
    assert Power(3, 8) == 6561;
    PowerSum(3, 8, 8);
    PowerSum(3, 16, 8);
    PowerSum(3, 24, 7);
    assert Power(3, 7) >= 1;
    if base > 2 {
      PowerMono(3, base, DIGIT_LIMIT);
    }
  }

  lemma {:induction false} PowerSum(b: nat, m: nat, n: nat)
    ensures Power(b, m + n) == Power(b, m) * Power(b, n)
  {
    if n > 0 {
      PowerSum(b, m, n - 1);
      MulRegroup(Power(b, m), Power(b, n - 1), b);
    }
  }

  // ---------------------------------------------------------------- the round trip

  lemma DigitsAreNoSign(value: I32, base: Base)
    ensures MINUS !in Digits(value, base)
  {
    NoMinus(Magnitude(value, base), base, DIGIT_LIMIT);
  }

  lemma ParseText(digits: seq<Byte>, base: Base)
    requires MINUS !in digits
    ensures ParseInt(digits, base) == Parse(digits, base)
    ensures ParseInt([MINUS] + digits, base) == -Parse(digits, base)
  {
    assert ([MINUS] + digits)[1..] == digits;
    assert digits != [] ==> digits[0] in digits;
  }

  lemma ParseMagnitude(u: U32, base: Base)
    ensures Parse(if u == 0 then [ZERO] else Numeral(u, base, DIGIT_LIMIT), base) == u
            <==> base != 2 || u < 0x8000_0000
  {
    hide Numeral, Parse, Power;
    var p := Power(base, DIGIT_LIMIT);
    Capacity(base);
    ParseZero(base);
    NumeralValue(u, base, DIGIT_LIMIT);
    if u < p {
      QuotientRemainder(0, p, u);
    } else {
      assert u % p < p;
    }
  }

  /** The text reads back as the value for every base and value, except in base 2 from 2^31 on,
      where the 32-byte buffer drops the top digit. */
  lemma PrintedIntReadsBack(value: I32, base: Base)
    ensures ParseInt(IntText(value, base), base) ==
            (if base == 10 || value >= 0 then value else value + 0x1_0000_0000)
            <==> base != 2 || value >= 0
  {
    hide Numeral, Parse, ParseInt;
    DigitsAreNoSign(value, base);
    ParseText(Digits(value, base), base);
    ParseMagnitude(Magnitude(value, base), base);
    assert [] + Digits(value, base) == Digits(value, base);
  }

  lemma ParseZero(base: Base)
    ensures Parse([ZERO], base) == 0
  {
  }

  lemma {:induction false} OnlyDigits(u: nat, base: Base, limit: nat)
    ensures forall k | 0 <= k < |Numeral(u, base, limit)| ::
              Numeral(u, base, limit)[k] as char in "0123456789abcdef"
    decreases limit
  {
    if u > 0 && limit > 0 {
      OnlyDigits(u / base, base, limit - 1);
      DigitCharacters(u % base);
      assert "0123456789abcdef"[u % base] in "0123456789abcdef";
    }
  }

  /** The first digit when at least as many digits as the limit are there. */
  lemma {:induction false} FirstOfMany(u: nat, base: Base, limit: nat)
    requires limit > 0 && Power(base, limit - 1) <= u
    ensures Power(base, limit - 1) > 0
    ensures Numeral(u, base, limit) != []
    ensures Numeral(u, base, limit)[0] == DigitChar(Mod(Div(u, Power(base, limit - 1)), base))
    decreases limit
  {
    hide Power, Numeral, Div, Mod;
    PowerPositive(base, limit - 1);
    Unfold(u, base, limit);
    if limit == 1 {
      NoDigits(u / base, base, 0);
      DivByOne(u, base);
      PowerZero(base);
    } else {
      PowerUnfold(base, limit - 1);
      var p := Power(base, limit - 2);
      PowerPositive(base, limit - 2);
      DivTwice(u, base, p);
      FirstOfMany(u / base, base, limit - 1);
    }
  }

  lemma PowerUnfold(b: nat, n: nat)
    requires n > 0
    ensures Power(b, n) == Power(b, n - 1) * b
  {
  }

  lemma DivByOne(u: nat, base: Base)
    ensures Div(u, 1) == u && Mod(u, base) == u % base
  {
  }

  lemma DivTwice(u: nat, base: nat, p: nat)
    requires base > 0 && p > 0 && p * base <= u
    ensures p * base > 0
    ensures p <= u / base && Div(u, p * base) == Div(u / base, p)
  {
    hide Div, Mod;
    var q, r := u / base, u % base;
    DivideOut(u, base);
    var k, m := Div(q, p), Mod(q, p);
    DivMod(q, p);
    MulMono(1, p, base);
    assert m * base + r < p * base by { MulMono(m + 1, p, base); MulSum(m, 1, base); }
    assert u == k * (p * base) + (m * base + r) by { MulSum(k * p, m, base); MulRegroup(k, p, base); }
    DivModIs(k, p * base, m * base + r);
    if q < p {
      MulMono(q + 1, p, base);
      MulSum(q, 1, base);
    }
  }

  /** In base 2 the digit that comes first, once the buffer is full, is bit 30. */
  lemma FirstBinaryDigit(u: U32)
    requires u >= 0x8000_0000
    ensures Numeral(u, 2, DIGIT_LIMIT) != []
    ensures Numeral(u, 2, DIGIT_LIMIT)[0] == ZERO <==> u < 0xC000_0000
  {
    hide Numeral;
    BinaryLimit();
    FirstOfMany(u, 2, DIGIT_LIMIT);
    hide Power;
  }

  lemma BinaryLimit()
    ensures Power(2, DIGIT_LIMIT - 1) == 0x4000_0000
  {
    assert Power(2, 8) == 0x100;
    assert Power(2, 6) == 0x40;
    PowerSum(2, 8, 8);
    PowerSum(2, 8, 6);
    PowerSum(2, 16, 14);
  }

  /** There are digits, with a sign before them exactly for negative numbers in base 10, and the first
      is a zero only in the text of 0, or in base 2 when the digit cut off was a 1 followed by a 0. */
  lemma PrintedIntIsCanonical(value: I32, base: Base)
    ensures var text, digits := IntText(value, base), Digits(value, base);
            && digits != [] && (forall k | 0 <= k < |digits| :: digits[k] as char in "0123456789abcdef")
            && text == (if base == 10 && value < 0 then ['-' as int] + digits else digits)
            && (value == 0 ==> digits == ['0' as int])
            && (digits[0] == '0' as int <==>
                value == 0 || (base == 2 && 0x8000_0000 <= Wrap32(value) < 0xC000_0000))
  {
    DigitsForm(value, base);
    hide Digits, Numeral;
    assert [] + Digits(value, base) == Digits(value, base);
  }

  lemma DigitsForm(value: I32, base: Base)
    ensures var digits := Digits(value, base);
            && digits != [] && (forall k | 0 <= k < |digits| :: digits[k] as char in "0123456789abcdef")
            && (value == 0 ==> digits == [ZERO])
            && (digits[0] == ZERO <==> value == 0 || (base == 2 && 0x8000_0000 <= Wrap32(value) < 0xC000_0000))
  {
    hide Numeral, Power, DigitChar;
    var u := Magnitude(value, base);
    assert u == 0 <==> value == 0;
    if u == 0 {
      ZeroIsDigit();
    } else {
      OnlyDigits(u, base, DIGIT_LIMIT);
      Capacity(base);
      if base == 2 && u >= 0x8000_0000 {
        FirstBinaryDigit(u);
      } else {
        NoLeadingZero(u, base, DIGIT_LIMIT);
      }
    }
  }

  lemma ZeroIsDigit()
    ensures ZERO as char in "0123456789abcdef"
  {
    assert "0123456789abcdef"[0] == '0';
  }

  /** What is printed when the top digit is cut off: the 31 low binary digits. */
  lemma CutOffText(value: I32)
    requires value < 0
    ensures |IntText(value, 2)| == 31 && Parse(IntText(value, 2), 2) == value + 0x8000_0000
  {
    hide Numeral, Parse, Power;
    var u := Magnitude(value, 2);
    Capacity(2);
    NumeralValue(u, 2, DIGIT_LIMIT);
    QuotientRemainder(1, 0x8000_0000, u - 0x8000_0000);
    BinaryLimit();
    FullNumeral(u, 2, DIGIT_LIMIT);
    assert [] + Digits(value, 2) == Digits(value, 2);
  }

  lemma {:induction false} FullNumeral(u: nat, base: Base, limit: nat)
    requires limit > 0 ==> Power(base, limit - 1) <= u
    ensures |Numeral(u, base, limit)| == limit
    decreases limit
  {
    hide Power, Numeral;
    if limit == 0 {
      NoDigits(u, base, 0);
    } else {
      PowerPositive(base, limit - 1);
      Unfold(u, base, limit);
      if limit > 1 {
        PowerUnfold(base, limit - 1);
        PowerPositive(base, limit - 2);
        DivTwice(u, base, Power(base, limit - 2));
      }
      DivNonNegative(u, base);
      FullNumeral(u / base, base, limit - 1);
    }
  }

  // ---------------------------------------------------------------- format strings

  /** A variadic argument: a machine word, or a pointer to a C string that may be null. */
  datatype Arg = Word(w: U32) | Str(s: Option<seq<Byte>>) {
    predicate IsString() {
      Str? && (s.Some? ==> 0 in s.value)
    }
  }

  const NULL_TEXT: seq<Byte> := [40, 110, 117, 108, 108, 41, 0]   // "(null)"
  const HEX_PREFIX: seq<Byte> := [ZERO, 120, 0]                   // "0x"

  const CONV_S: Byte := 115
  const CONV_D: Byte := 100
  const CONV_U: Byte := 117
  const CONV_X: Byte := 120
  const CONV_P: Byte := 112
  const CONV_C: Byte := 99

  predicate TakesWord(c: Byte) {
    c in {CONV_D, CONV_U, CONV_X, CONV_P, CONV_C}
  }

  /** How much of the format the next step of `sh_printf` consumes. */
  function Width(fmt: seq<Byte>): nat {
    if fmt != [] && fmt[0] == PERCENT then 2 else 1
  }

  /** Whether that step takes an argument. */
  function Arity(fmt: seq<Byte>): nat {
    if |fmt| > 1 && fmt[0] == PERCENT && (fmt[1] == CONV_S || TakesWord(fmt[1])) then 1 else 0
  }

  predicate StepFits(fmt: seq<Byte>, args: seq<Arg>) {
    && Width(fmt) <= |fmt|
    && Arity(fmt) <= |args|
    && (Arity(fmt) == 1 ==> if fmt[1] == CONV_S then args[0].IsString() else args[0].Word?)
  }

  /** The arguments fit the conversions, none of which is cut off by the end of the format; there may
      be more arguments than conversions. */
  predicate Fits(fmt: seq<Byte>, args: seq<Arg>)
    decreases fmt
  {
    fmt == [] || (StepFits(fmt, args) && Fits(fmt[Width(fmt)..], args[Arity(fmt)..]))
  }

  /** How many arguments the conversions of a format take. */
  function Uses(fmt: seq<Byte>): nat
    decreases fmt
  {
    if |fmt| < Width(fmt) then 0 else Arity(fmt) + Uses(fmt[Width(fmt)..])
  }

  /** What a conversion that takes an argument emits. */
  function Conversion(c: Byte, a: Arg): seq<Byte>
    requires if c == CONV_S then a.IsString() else TakesWord(c) && a.Word?
  {
    if c == CONV_S then CString(if a.s.Some? then a.s.value else NULL_TEXT)
    else if c == CONV_X then IntText(AsSigned(a.w), 16)
    else if c == CONV_P then CString(HEX_PREFIX) + IntText(AsSigned(a.w), 16)
    else if c == CONV_C then [a.w % 0x100]
    else IntText(AsSigned(a.w), 10)
  }

  /** What the next step emits. */
  function Piece(fmt: seq<Byte>, args: seq<Arg>): seq<Byte>
    requires StepFits(fmt, args)
  {
    if fmt[0] != PERCENT then [fmt[0]]
    else if Arity(fmt) == 1 then Conversion(fmt[1], args[0])
    else if fmt[1] == PERCENT then [PERCENT]
    else [PERCENT, fmt[1]]
  }

  function Format(fmt: seq<Byte>, args: seq<Arg>): seq<Byte>
    requires Fits(fmt, args)
    decreases fmt
  {
    if fmt == [] then [] else Piece(fmt, args) + Format(fmt[Width(fmt)..], args[Arity(fmt)..])
  }

  /** Text without conversions is emitted as it stands. */
  lemma {:induction false} FormatLiteral(fmt: seq<Byte>)
    requires PERCENT !in fmt
    ensures Fits(fmt, []) && Format(fmt, []) == fmt && Uses(fmt) == 0
    decreases fmt
  {
    if fmt != [] {
      assert fmt[0] in fmt;
      FormatLiteral(fmt[1..]);
    }
  }

  /** The bytes of a string literal. */
  function Text(s: string): (t: seq<Byte>)
    requires forall i | 0 <= i < |s| :: s[i] as int < 0x100
    ensures |t| == |s| && forall i | 0 <= i < |s| :: t[i] == s[i] as int
  {
    seq(|s|, i requires 0 <= i < |s| => s[i] as int)
  }

  /** What each conversion of a number emits. */
  lemma NumberConversions(w: U32)
    ensures var value: I32 := if w < 0x8000_0000 then w else w - 0x1_0000_0000;
            && Fits(Text("%d"), [Word(w)]) && Format(Text("%d"), [Word(w)]) == IntText(value, 10)
            && Fits(Text("%u"), [Word(w)]) && Format(Text("%u"), [Word(w)]) == IntText(value, 10)
            && Fits(Text("%x"), [Word(w)]) && Format(Text("%x"), [Word(w)]) == IntText(value, 16)
            && Fits(Text("%p"), [Word(w)]) && Format(Text("%p"), [Word(w)]) == Text("0x") + IntText(value, 16)
            && Fits(Text("%c"), [Word(w)]) && Format(Text("%c"), [Word(w)]) == [w % 0x100]
            && Uses(Text("%d")) == Uses(Text("%u")) == Uses(Text("%x")) == Uses(Text("%p")) == Uses(Text("%c")) == 1
  {
    hide IntText, Fits, Format, CString;
    OneConversion('d' as int, Word(w));
    OneConversion('u' as int, Word(w));
    OneConversion('x' as int, Word(w));
    OneConversion('p' as int, Word(w));
    OneConversion('c' as int, Word(w));
    assert Text("%d") == ['%' as int, 'd' as int] && Text("%u") == ['%' as int, 'u' as int];
    assert Text("%x") == ['%' as int, 'x' as int] && Text("%p") == ['%' as int, 'p' as int];
    assert Text("%c") == ['%' as int, 'c' as int];
    StringOf(Text("0x"), []);
    assert HEX_PREFIX == Text("0x") + [0] + [];
  }

  /** What a string conversion emits. */
  lemma StringConversions(text: seq<Byte>, rest: seq<Byte>)
    requires 0 !in text
    ensures Str(Some(text + [0] + rest)).IsString() && Uses(Text("%s")) == 1
    ensures Fits(Text("%s"), [Str(Some(text + [0] + rest))])
    ensures Format(Text("%s"), [Str(Some(text + [0] + rest))]) == text
    ensures Fits(Text("%s"), [Str(None)]) && Format(Text("%s"), [Str(None)]) == Text("(null)")
  {
    hide Fits, Format, CString;
    StringOf(text, rest);
    OneConversion('s' as int, Str(Some(text + [0] + rest)));
    OneConversion('s' as int, Str(None));
    assert Text("%s") == ['%' as int, 's' as int];
    StringOf(Text("(null)"), []);
    assert NULL_TEXT == Text("(null)") + [0] + [];
  }

  /** A percent sign emits itself when doubled, and itself and the next character when that is none of
      the source's conversions. */
  lemma OtherConversions(c: Byte)
    requires c as char !in "sduxpc%"
    ensures Fits(Text("%%"), []) && Format(Text("%%"), []) == Text("%") && Uses(Text("%%")) == 0
    ensures Fits(['%' as int, c], []) && Format(['%' as int, c], []) == ['%' as int, c]
    ensures Uses(['%' as int, c]) == 0
  {
    hide Fits, Format;
    assert Text("%%") == ['%' as int, '%' as int] && Text("%") == ['%' as int];
    NoConversion('%' as int);
    var known := "sduxpc%";
    assert known[0] == 's' && known[1] == 'd' && known[2] == 'u' && known[3] == 'x' && known[4] == 'p';
    assert known[5] == 'c' && known[6] == '%';
    NoConversion(c);
  }

  lemma StringOf(text: seq<Byte>, rest: seq<Byte>)
    requires 0 !in text
    ensures (text + [0] + rest)[|text|] == 0 && CString(text + [0] + rest) == text
  {
    var memory := text + [0] + rest;
    assert memory[|text|] == 0;
  }

  lemma OneConversion(c: Byte, a: Arg)
    requires if c == CONV_S then a.IsString() else TakesWord(c) && a.Word?
    ensures Fits([PERCENT, c], [a]) && Format([PERCENT, c], [a]) == Conversion(c, a)
    ensures Uses([PERCENT, c]) == 1
  {
    hide Conversion;
    assert [PERCENT, c][2..] == [] && [a][1..] == [];
  }

  lemma NoConversion(c: Byte)
    requires c != CONV_S && !TakesWord(c)
    ensures Fits([PERCENT, c], []) && Uses([PERCENT, c]) == 0
    ensures Format([PERCENT, c], []) == if c == PERCENT then [PERCENT] else [PERCENT, c]
  {
    assert [PERCENT, c][2..] == [];
  }

  /** `%d` and `%x` tell every two words apart. */
  lemma ConversionsAreInjective(v: U32, w: U32)
    requires v != w
    ensures Conversion(CONV_D, Word(v)) != Conversion(CONV_D, Word(w))
    ensures Conversion(CONV_X, Word(v)) != Conversion(CONV_X, Word(w))
  {
    hide IntText, ParseInt;
    PrintedIntReadsBack(AsSigned(v), 10);
    PrintedIntReadsBack(AsSigned(w), 10);
    PrintedIntReadsBack(AsSigned(v), 16);
    PrintedIntReadsBack(AsSigned(w), 16);
  }

  /** `%x` prints the unsigned value; `%u` prints it only below 2^31 and the negative int from there on. */
  lemma UnsignedConversions(w: U32)
    ensures ParseInt(Conversion(CONV_X, Word(w)), 16) == w
    ensures ParseInt(Conversion(CONV_U, Word(w)), 10) == if w < 0x8000_0000 then w else w - 0x1_0000_0000
  {
    hide IntText, ParseInt;
    PrintedIntReadsBack(AsSigned(w), 16);
    PrintedIntReadsBack(AsSigned(w), 10);
  }

  lemma StepLocal(f: seq<Byte>, a: seq<Arg>, g: seq<Byte>, b: seq<Arg>)
    requires f != [] && StepFits(f, a)
    ensures StepFits(f + g, a + b) && Width(f + g) == Width(f) && Arity(f + g) == Arity(f)
    ensures Piece(f + g, a + b) == Piece(f, a)
    ensures (f + g)[Width(f)..] == f[Width(f)..] + g && (a + b)[Arity(f)..] == a[Arity(f)..] + b
  {
    hide Conversion;
  }

  /** Formatting is compositional: a format may be split wherever no conversion is cut. */
  lemma {:induction false} FormatConcat(f: seq<Byte>, a: seq<Arg>, g: seq<Byte>, b: seq<Arg>)
    requires Fits(f, a) && |a| == Uses(f) && Fits(g, b)
    ensures Fits(f + g, a + b) && Uses(f + g) == Uses(f) + Uses(g)
    ensures Format(f + g, a + b) == Format(f, a) + Format(g, b)
    decreases f
  {
    hide Conversion, Piece;
    if f == [] {
      assert f + g == g && a + b == b;
    } else {
      StepLocal(f, a, g, b);
      FormatConcat(f[Width(f)..], a[Arity(f)..], g, b);
      hide StepFits, Width, Arity;
      assert Format(f + g, a + b) == Piece(f, a) + (Format(f[Width(f)..], a[Arity(f)..]) + Format(g, b));
    }
  }

  /** Surplus arguments change nothing. */
  lemma SurplusIgnored(f: seq<Byte>, a: seq<Arg>, more: seq<Arg>)
    requires Fits(f, a) && |a| == Uses(f)
    ensures Fits(f, a + more) && Format(f, a + more) == Format(f, a)
  {
    FormatConcat(f, a, [], more);
    assert f + [] == f && Format(f, a) + [] == Format(f, a);
  }
}
