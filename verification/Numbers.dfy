/** Printing and parsing integers: the digit printers of the kernel and shell printf and the
    parsers of the shell command, which are inverse to each other. */
module Numbers {
  import opened Division64

  // Digits -----------------------------------------------------------------------------------

  function DigitChar(d: nat, upper: bool): char
    requires d < 16
  {
    if upper then "0123456789ABCDEF"[d] else "0123456789abcdef"[d]
  }

  /** digit_value */
  function DigitValue(c: char): int {
    if '0' <= c <= '9' then c as int - '0' as int
    else if 'a' <= c <= 'f' then 10 + (c as int - 'a' as int)
    else if 'A' <= c <= 'F' then 10 + (c as int - 'A' as int)
    else -1
  }

  lemma DigitRoundTrip(d: nat, upper: bool)
    requires d < 16
    ensures DigitValue(DigitChar(d, upper)) == d
    ensures DigitChar(d, upper) == '0' <==> d == 0
  {
  }

  /** The digits are those of ASCII: `0` to `9`, and from ten on letters of the case asked for. */
  lemma DigitAlphabet(d: nat, upper: bool)
    requires d < 16
    ensures d < 10 ==> DigitChar(d, upper) as int == 0x30 + d
    ensures d >= 10 ==> DigitChar(d, upper) as int == (if upper then 0x41 else 0x61) + d - 10
  {
  }

  /** Conversely a character that counts as a digit is one of either case. */
  lemma DigitAccepted(c: char)
    ensures DigitValue(c) < 16
    ensures DigitValue(c) >= 0 ==> c == DigitChar(DigitValue(c), false) || c == DigitChar(DigitValue(c), true)
  {
  }

  type Base = b: nat | 2 <= b <= 16 witness 10

  /** The digits of `v`, most significant first. */
  function Digits(v: nat, base: Base, upper: bool): (s: string)
    ensures s != []
  {
    if v < base then [DigitChar(v, upper)] else Digits(v / base, base, upper) + [DigitChar(v % base, upper)]
  }

  predicate AllDigits(s: string, base: Base) {
    forall k :: 0 <= k < |s| ==> 0 <= DigitValue(s[k]) < base
  }

  /** The number that digits denote. */
  function Value(s: string, base: Base): nat
    requires AllDigits(s, base)
  {
    if s == [] then 0 else Value(s[..|s| - 1], base) * base + DigitValue(s[|s| - 1])
  }

  lemma ValueOne(c: char, base: Base)
    requires 0 <= DigitValue(c) < base
    ensures AllDigits([c], base) && Value([c], base) == DigitValue(c)
  {
    assert [c][..0] == [];
  }

  lemma ValueAppend(s: string, c: char, base: Base)
    requires AllDigits(s, base) && 0 <= DigitValue(c) < base
    ensures AllDigits(s + [c], base) && Value(s + [c], base) == Value(s, base) * base + DigitValue(c)
  {
    assert (s + [c])[..|s|] == s;
  }

  lemma DivisionParts(v: nat, base: Base)
    ensures v / base * base + v % base == v && 0 <= v % base < base
    ensures v > 0 ==> 0 <= v / base < v
    ensures v >= base ==> v / base > 0
    ensures v < base ==> v / base == 0 && v % base == v
  {
    DivideSmaller(v, base);
    MultiplyLarger(v / base, 2, base);
  }

  /** Printed digits denote the number printed. */
  lemma {:induction false} DigitsValue(v: nat, base: Base, upper: bool)
    ensures AllDigits(Digits(v, base, upper), base) && Value(Digits(v, base, upper), base) == v
  {
    DivisionParts(v, base);
    var q, r := v / base, v % base;
    DigitRoundTrip(r, upper);
    if v < base {
      ValueOne(DigitChar(v, upper), base);
    } else {
      DigitsValue(q, base, upper);
      ValueAppend(Digits(q, base, upper), DigitChar(r, upper), base);
    }
  }

  /** The characters are digits of the chosen case and the number is written without leading
      zeros. */
  predicate Canonical(s: string, base: Base, upper: bool) {
    && s != []
    && AllDigits(s, base)
    && (forall k :: 0 <= k < |s| ==> s[k] == DigitChar(DigitValue(s[k]), upper))
    && (|s| > 1 ==> s[0] != '0')
  }

  /** No leading zero, except for zero itself. */
  lemma {:induction false} DigitsCanonical(v: nat, base: Base, upper: bool)
    ensures Canonical(Digits(v, base, upper), base, upper)
    ensures v > 0 ==> Digits(v, base, upper)[0] != '0'
  {
    DivisionParts(v, base);
    var q, r := v / base, v % base;
    DigitRoundTrip(r, upper);
    if v >= base {
      DigitsCanonical(q, base, upper);
      CanonicalAppend(Digits(q, base, upper), r, base, upper);
    }
  }

  lemma CanonicalAppend(s: string, d: nat, base: Base, upper: bool)
    requires Canonical(s, base, upper) && s[0] != '0' && d < base
    ensures Canonical(s + [DigitChar(d, upper)], base, upper)
  {
    DigitRoundTrip(d, upper);
  }

  lemma {:induction false} ValuePositive(s: string, base: Base)
    requires AllDigits(s, base) && s != [] && s[0] != '0'
    ensures Value(s, base) > 0
  {
    if |s| == 1 {
      ValueOne(s[0], base);
      assert s == [s[0]];
    } else {
      ValuePositive(s[..|s| - 1], base);
      StaysPositive(s, base);
    }
  }

  lemma StaysPositive(s: string, base: Base)
    requires s != [] && AllDigits(s, base) && Value(s[..|s| - 1], base) > 0
    ensures Value(s, base) > 0
  {
    Growing(Value(s[..|s| - 1], base), base, DigitValue(s[|s| - 1]));
  }

  lemma Growing(q: nat, base: nat, d: nat)
    requires q > 0 && base > 0
    ensures q * base + d > 0
  {
    MultiplyLarger(base, 1, q);
  }

  /** Conversely a canonical text is what its number prints as. */
  lemma {:induction false} PrintedValue(s: string, base: Base, upper: bool)
    requires Canonical(s, base, upper)
    ensures Digits(Value(s, base), base, upper) == s
    decreases |s|
  {
    var init, c := s[..|s| - 1], s[|s| - 1];
    assert s == init + [c];
    if init == [] {
      assert s == [c];
      ValueOne(c, base);
    } else {
      CanonicalInit(s, base, upper, init, c);
      PrintedValue(init, base, upper);
      ValuePositive(init, base);
      ValueAppend(init, c, base);
      DigitsAppend(Value(s, base), Value(init, base), DigitValue(c), base, upper);
    }
  }

  lemma CanonicalInit(s: string, base: Base, upper: bool, init: string, c: char)
    requires Canonical(s, base, upper) && s == init + [c] && init != []
    ensures Canonical(init, base, upper) && init[0] != '0'
    ensures 0 <= DigitValue(c) < base && c == DigitChar(DigitValue(c), upper)
  {
    assert s[|init|] == c && s[0] == init[0];
    assert forall k :: 0 <= k < |init| ==> init[k] == s[k];
  }

  lemma DigitsAppend(v: nat, q: nat, d: nat, base: Base, upper: bool)
    requires q > 0 && d < base && v == q * base + d
    ensures Digits(v, base, upper) == Digits(q, base, upper) + [DigitChar(d, upper)]
  {
    QuotientAndRest(q, base, d);
  }

  lemma QuotientAndRest(q: nat, base: Base, d: nat)
    requires d < base
    ensures (q * base + d) / base == q && (q * base + d) % base == d
    ensures q > 0 ==> q * base + d >= base
  {
    UniqueQuotient(q * base + d, base, q, d);
    if q > 0 {
      MultiplyLarger(base, 1, q);
    }
  }

  /** A number below 2^64 has at most 64 digits in any base. */
  lemma {:induction false} FewDigits(v: nat, base: Base, upper: bool, k: nat)
    requires v < Pow2(k) && k > 0
    ensures |Digits(v, base, upper)| <= k
    decreases k
  {
    if v >= base {
      assert k > 1;
      HalfFits(v, base, k);
      FewDigits(v / base, base, upper, k - 1);
    }
  }

  lemma HalfFits(v: nat, base: Base, k: nat)
    requires v < Pow2(k) && k > 0
    ensures v / base < Pow2(k - 1)
  {
    var q := v / base;
    assert q * base <= v by {
      DivideSmaller(v, base);
    }
    MultiplyLarger(q, 2, base);
  }

  // Printing -----------------------------------------------------------------------------------

  function Clamped(base: nat): Base {
    if base < 2 || base > 16 then 10 else base
  }

  /** emit_unsigned_base, and write_unsigned of the shell command: digits are collected in a
      buffer of 65 bytes, which never truncates them, and written in reverse. */
  method WriteUnsigned(v: u64, base: nat, upper: bool) returns (out: string)
    ensures out == Digits(v, Clamped(base), upper)
    ensures Canonical(out, if 2 <= base <= 16 then base else 10, upper)
    ensures Value(out, if 2 <= base <= 16 then base else 10) == v
    ensures |out| <= 64
  {
    DigitsCanonical(v, Clamped(base), upper);
    DigitsValue(v, Clamped(base), upper);
    var b := Clamped(base);
    var buffer := new char[65](_ => '0');
    PowersOfTwo();
    FewDigits(v, b, upper, 64);
    var len := 0;
    if v == 0 {
      buffer[len] := '0';
      len := len + 1;
    } else {
      len := CollectDigits(v, b, upper, buffer);
    }
    out := EmitReversed(buffer, len);
  }

  lemma StepFits(value: nat, base: Base, room: nat)
    requires 0 < value < Pow2(room)
    ensures room > 0 && value / base < Pow2(room - 1)
    ensures 0 <= value / base < value && 0 <= value % base < base
  {
    HalfFits(value, base, room);
    DivisionParts(value, base);
  }

  /** The loop that collects the digits; its guard on the buffer never ends it. */
  method CollectDigits(v: u64, base: Base, upper: bool, buffer: array<char>) returns (len: nat)
    requires v > 0 && buffer.Length == 65
    modifies buffer
    ensures len <= 64 && Reversed(buffer[..len]) == Digits(v, base, upper)
  {
    len := 0;
    PowersOfTwo();
    var value: nat := v;
    ghost var all := Digits(v, base, upper);
    while value > 0 && len < buffer.Length
      invariant 0 <= len <= 64 && Collecting(all, base, upper, value, buffer[..len], 64 - len)
      decreases value
    {
      ghost var low := buffer[..len];
      CollectingStep(all, base, upper, value, low, 64 - len);
      var digit: char := DigitChar(value % base, upper);
      value := value / base;
      buffer[len] := digit;
      assert buffer[..len + 1] == low + [digit];
      len := len + 1;
    }
  }

  /** Besides, what is still to come fits the rest of the buffer. */
  ghost predicate Collecting(all: string, base: Base, upper: bool, value: nat, low: string, room: nat) {
    value < Pow2(room) && Collected(all, base, upper, value, low)
  }

  lemma CollectingStep(all: string, base: Base, upper: bool, value: nat, low: string, room: nat)
    requires value > 0 && Collecting(all, base, upper, value, low, room)
    ensures room > 0 && 0 <= value / base < value && 0 <= value % base < base
    ensures Collecting(all, base, upper, value / base, low + [DigitChar(value % base, upper)], room - 1)
  {
    StepFits(value, base, room);
    CollectedStep(all, base, upper, value, low, value / base, DigitChar(value % base, upper));
  }

  /** The loop that writes the collected digits. */
  method EmitReversed(buffer: array<char>, count: nat) returns (out: string)
    requires count <= buffer.Length
    ensures out == Reversed(buffer[..count])
  {
    out := [];
    var len := count;
    while len > 0
      invariant 0 <= len <= count
      invariant out + Reversed(buffer[..len]) == Reversed(buffer[..count])
    {
      assert buffer[..len][..len - 1] == buffer[..len - 1];
      len := len - 1;
      out := out + [buffer[len]];
    }
  }

  function Reversed(s: string): string {
    if s == [] then [] else [s[|s| - 1]] + Reversed(s[..|s| - 1])
  }

  /** The low digits of `all` are collected and those of `value` are still to come. */
  predicate Collected(all: string, base: Base, upper: bool, value: nat, low: string) {
    all == (if value == 0 then [] else Digits(value, base, upper)) + Reversed(low)
  }

  lemma CollectedStep(all: string, base: Base, upper: bool, value: nat, low: string, q: nat, c: char)
    requires value > 0 && Collected(all, base, upper, value, low)
    requires q == value / base && c == DigitChar(value % base, upper)
    ensures Collected(all, base, upper, q, low + [c])
  {
    ReversedMore(low, c);
    LastDigit(value, base, upper, q);
    var rest := if q == 0 then [] else Digits(q, base, upper);
    Associate(rest, [c], Reversed(low));
  }

  lemma LastDigit(value: nat, base: Base, upper: bool, q: nat)
    requires value > 0 && q == value / base
    ensures 0 <= value % base < base
    ensures Digits(value, base, upper) == (if q == 0 then [] else Digits(q, base, upper)) + [DigitChar(value % base, upper)]
  {
    DivisionParts(value, base);
  }

  lemma Associate(a: string, b: string, c: string)
    ensures a + b + c == a + (b + c)
  {
  }

  lemma ReversedMore(low: string, c: char)
    ensures Reversed(low + [c]) == [c] + Reversed(low)
  {
    assert (low + [c])[..|low|] == low;
  }

  // Parsing --------------------------------------------------------------------------------------

  /** parse_unsigned_base: fails on an empty text or a character that is no digit of the base;
      the value is taken modulo 2^64. */
  method ParseUnsigned(s: string, base: Base) returns (ok: bool, value: u64)
    ensures ok <==> s != [] && AllDigits(s, base)
    ensures ok ==> value == Value(s, base) % RANGE64
  {
    value := 0;
    if s == [] {
      return false, 0;
    }
    var k := 0;
    while k < |s|
      invariant 0 <= k <= |s|
      invariant AllDigits(s[..k], base) && value == Value(s[..k], base) % RANGE64
    {
      var digit := DigitValue(s[k]);
      if digit < 0 || digit >= base {
        return false, 0;
      }
      assert s[..k + 1][..k] == s[..k];
      WrapsOnce(Value(s[..k], base), base, digit);
      value := (value * base + digit) % RANGE64;
      k := k + 1;
    }
    assert s[..k] == s;
    return true, value;
  }

  lemma WrapsOnce(v: nat, base: nat, digit: nat)
    ensures (v % RANGE64 * base + digit) % RANGE64 == (v * base + digit) % RANGE64
  {
    var q := v / RANGE64;
    assert v * base + digit == (v % RANGE64 * base + digit) + RANGE64 * (q * base);
    ModuloShift(v % RANGE64 * base + digit, q * base);
  }

  lemma ModuloShift(a: nat, q: nat)
    ensures (a + RANGE64 * q) % RANGE64 == a % RANGE64
  {
    UniqueQuotient(a + RANGE64 * q, RANGE64, a / RANGE64 + q, a % RANGE64);
  }

  predicate HexPrefixed(s: string) {
    |s| > 2 && s[0] == '0' && (s[1] == 'x' || s[1] == 'X')
  }

  predicate Number(s: string) {
    if HexPrefixed(s) then AllDigits(s[2..], 16) else s != [] && AllDigits(s, 10)
  }

  function NumberValue(s: string): nat
    requires Number(s)
  {
    if HexPrefixed(s) then Value(s[2..], 16) else Value(s, 10)
  }

  /** parse_unsigned_auto */
  method ParseAuto(s: string) returns (ok: bool, value: u64)
    ensures ok <==> Number(s)
    ensures ok ==> value == NumberValue(s) % RANGE64
  {
    if s == [] {
      return false, 0;
    }
    if HexPrefixed(s) {
      ok, value := ParseUnsigned(s[2..], 16);
      return ok, value;
    }
    ok, value := ParseUnsigned(s, 10);
  }

  /** parse_unsigned_hex */
  method ParseHex(s: string) returns (ok: bool, value: u64)
    ensures var digits := if HexPrefixed(s) then s[2..] else s;
      (ok <==> digits != [] && AllDigits(digits, 16)) && (ok ==> value == Value(digits, 16) % RANGE64)
  {
    ok, value := ParseUnsigned(if HexPrefixed(s) then s[2..] else s, 16);
  }

  const HALF64: int := 0x8000_0000_0000_0000

  type i64 = x: int | -HALF64 <= x < HALF64

  /** The cast from unsigned to signed. */
  function AsSigned(v: u64): i64 {
    if v < HALF64 then v else v - RANGE64
  }

  /** Two's complement negation. (C leaves the negation of -2^63 undefined.) */
  function Negated(v: i64): i64 {
    if v == -HALF64 then v else 0 - v
  }

  predicate SignedNumber(s: string) {
    s != [] && Number(if s[0] == '-' || s[0] == '+' then s[1..] else s)
  }

  function SignedValue(s: string): i64
    requires SignedNumber(s)
  {
    var magnitude := AsSigned(NumberValue(if s[0] == '-' || s[0] == '+' then s[1..] else s) % RANGE64);
    if s[0] == '-' then Negated(magnitude) else magnitude
  }

  /** parse_signed */
  method ParseSigned(s: string) returns (ok: bool, value: i64)
    ensures ok <==> SignedNumber(s)
    ensures ok ==> value == SignedValue(s)
  {
    if s == [] {
      return false, 0;
    }
    var negative := s[0] == '-';
    var rest := if s[0] == '-' || s[0] == '+' then s[1..] else s;
    if rest == [] {
      return false, 0;
    }
    var magnitude;
    ok, magnitude := ParseAuto(rest);
    if !ok {
      return false, 0;
    }
    return true, if negative then Negated(AsSigned(magnitude)) else AsSigned(magnitude);
  }

  function SignedDigits(v: i64): string {
    if v < 0 then ['-'] + Digits(0 - v as int, 10, false) else Digits(v, 10, false)
  }

  /** emit_signed and write_signed */
  method WriteSigned(v: i64) returns (out: string)
    ensures out == SignedDigits(v)
    ensures var digits := if v < 0 then out[1..] else out;
      && out[0] == (if v < 0 then '-' else digits[0])
      && Canonical(digits, 10, false) && Value(digits, 10) == (if v < 0 then 0 - v as int else v)
  {
    DigitsCanonical(if v < 0 then 0 - v as int else v, 10, false);
    DigitsValue(if v < 0 then 0 - v as int else v, 10, false);
    if v < 0 {
      var magnitude: u64 := -(v + 1) + 1;
      var digits := WriteUnsigned(magnitude, 10, false);
      out := ['-'] + digits;
    } else {
      out := WriteUnsigned(v, 10, false);
    }
  }

  /** Which texts are numbers, and of which value: decimal digits, or hexadecimal ones behind a prefix of either
      case; the prefix alone is none. */
  lemma NumberTexts(digits: string)
    requires digits != []
    ensures AllDigits(digits, 10) ==> Number(digits) && NumberValue(digits) == Value(digits, 10)
    ensures var s := "0x" + digits;
      (Number(s) <==> AllDigits(digits, 16)) && (Number(s) ==> NumberValue(s) == Value(digits, 16))
    ensures var s := "0X" + digits;
      (Number(s) <==> AllDigits(digits, 16)) && (Number(s) ==> NumberValue(s) == Value(digits, 16))
    ensures !Number("") && !Number("0x") && !Number("0X")
  {
    assert ("0x" + digits)[2..] == digits && ("0X" + digits)[2..] == digits;
    assert "0x"[1] == 'x' && "0X"[1] == 'X';
    if HexPrefixed(digits) {
      assert DigitValue(digits[1]) == -1;
    }
  }

  /** A sign in front: the value is the number's or its negative, in 64 bits. */
  lemma SignedTexts(t: string)
    requires Number(t) && t[0] != '-' && t[0] != '+'
    ensures SignedNumber(t) && (SignedValue(t) - NumberValue(t)) % RANGE64 == 0
    ensures SignedNumber("+" + t) && SignedValue("+" + t) == SignedValue(t)
    ensures SignedNumber("-" + t) && (SignedValue("-" + t) + NumberValue(t)) % RANGE64 == 0
  {
    var n := NumberValue(t);
    assert ("+" + t)[1..] == t && ("-" + t)[1..] == t;
    WrappedPlus(n);
    WrappedMinus(n);
  }

  lemma WrappedPlus(n: nat)
    ensures (AsSigned(n % RANGE64) - n) % RANGE64 == 0
  {
    assert n == n / RANGE64 * RANGE64 + n % RANGE64;
  }

  lemma WrappedMinus(n: nat)
    ensures (Negated(AsSigned(n % RANGE64)) + n) % RANGE64 == 0
  {
    assert n == n / RANGE64 * RANGE64 + n % RANGE64;
  }

  // Round trips --------------------------------------------------------------------------------------

  /** Every value below 2^64 printed in any base and case parses back without wrapping. */
  lemma UnsignedRoundTrip(v: u64, base: Base, upper: bool)
    ensures var s := Digits(v, base, upper);
      s != [] && AllDigits(s, base) && Value(s, base) % RANGE64 == v
  {
    DigitsValue(v, base, upper);
  }

  lemma DecimalIsNumber(v: nat)
    ensures Number(Digits(v, 10, false)) && NumberValue(Digits(v, 10, false)) == v
    ensures Digits(v, 10, false)[0] !in {'-', '+'}
  {
    var s := Digits(v, 10, false);
    DigitsValue(v, 10, false);
    assert 0 <= DigitValue(s[0]) < 10;
    if |s| > 1 {
      assert 0 <= DigitValue(s[1]) < 10;
    }
  }

  /** Every signed value printed in decimal parses back. */
  lemma SignedRoundTrip(v: i64)
    ensures SignedNumber(SignedDigits(v)) && SignedValue(SignedDigits(v)) == v
  {
    var m: nat := if v < 0 then 0 - v as int else v;
    DecimalIsNumber(m);
    var digits := Digits(m, 10, false);
    MagnitudeCast(m);
    if v < 0 {
      assert (['-'] + digits)[1..] == digits;
    }
  }

  lemma MagnitudeCast(m: nat)
    requires m <= HALF64
    ensures m % RANGE64 == m && Negated(AsSigned(m)) == 0 - m
    ensures m < HALF64 ==> AsSigned(m) == m
  {
  }

  /** A pointer printed as "0x" and lower-case digits parses back. */
  lemma PointerRoundTrip(v: u64)
    ensures Number(['0', 'x'] + Digits(v, 16, false)) && NumberValue(['0', 'x'] + Digits(v, 16, false)) == v
  {
    var s := ['0', 'x'] + Digits(v, 16, false);
    DigitsValue(v, 16, false);
    assert s[2..] == Digits(v, 16, false);
  }

  // Formatting into a buffer ----------------------------------------------------------------------------

  class BufferContext {
    const buffer: array<char>
    const size: nat
    var pos: nat

    predicate Valid() {
      size <= buffer.Length
    }

    constructor (buffer: array<char>, size: nat)
      requires size <= buffer.Length
      ensures Valid() && this.buffer == buffer && this.size == size && pos == 0
    {
      this.buffer, this.size, pos := buffer, size, 0;
    }

    /** buffer_emit */
    method Emit(c: char)
      requires Valid()
      modifies this, buffer
      ensures pos == old(pos) + 1
      ensures buffer[..] == if old(pos) + 1 < size then old(buffer[..])[old(pos) := c] else old(buffer[..])
    {
      if size == 0 {
        pos := pos + 1;
        return;
      }
      if pos + 1 < size {
        buffer[pos] := c;
      }
      pos := pos + 1;
    }
  }

  /** vsnprintf, with the formatting reduced to the characters it emits: as much of the text as
      fits is stored and terminated, nothing behind is touched, and the full length is returned. */
  method FormatInto(buffer: array<char>, size: nat, text: string) returns (length: nat)
    requires size <= buffer.Length
    modifies buffer
    ensures length == |text|
    ensures size == 0 ==> buffer[..] == old(buffer[..])
    ensures size > 0 ==>
              var n := if |text| < size - 1 then |text| else size - 1;
              buffer[..] == text[..n] + ['\0'] + old(buffer[..])[n + 1..]
  {
    var ctx := new BufferContext(buffer, size);
    ghost var before := buffer[..];
    var k := 0;
    while k < |text|
      invariant 0 <= k <= |text| && ctx.Valid() && ctx.buffer == buffer && ctx.size == size && ctx.pos == k
      invariant buffer[..] == Stored(before, size, text[..k])
    {
      ctx.Emit(text[k]);
      StoredStep(before, size, text, k);
      k := k + 1;
    }
    assert text[..k] == text;
    if size > 0 {
      var index := if ctx.pos < size - 1 then ctx.pos else size - 1;
      Terminated(before, size, text);
      buffer[index] := '\0';
    }
    return ctx.pos;
  }

  /** The buffer after the characters of `text` were emitted. */
  function Stored(before: string, size: nat, text: string): (s: string)
    requires size <= |before|
    ensures |s| == |before|
  {
    var n := if |text| < size then |text| else if size == 0 then 0 else size - 1;
    text[..n] + before[n..]
  }

  lemma Terminated(before: string, size: nat, text: string)
    requires 0 < size <= |before|
    ensures var n := if |text| < size - 1 then |text| else size - 1;
      Stored(before, size, text)[n := '\0'] == text[..n] + ['\0'] + before[n + 1..]
  {
  }

  lemma StoredStep(before: string, size: nat, text: string, k: nat)
    requires size <= |before| && k < |text|
    ensures Stored(before, size, text[..k + 1]) ==
            if k + 1 < size then Stored(before, size, text[..k])[k := text[k]] else Stored(before, size, text[..k])
  {
    var a, b := text[..k], text[..k + 1];
    assert b == a + [text[k]];
    if k + 1 < size {
      assert Stored(before, size, a)[k := text[k]] == b + before[k + 1..];
    } else if size > 0 {
      assert b[..size - 1] == a[..size - 1];
    }
  }
}
