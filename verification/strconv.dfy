/** The parts of Go's `strconv` package the image code relies on:
    `ParseUint` with an explicit base and `Atoi`, together with the
    formatting functions that invert them. */
module Strconv {
  import opened Bytes
  import opened Results

  /** A base Go's `ParseUint` accepts besides the prefix-sniffing base 0. */
  type Base = b: nat | 2 <= b <= 36 witness 10

  /** A bit size `ParseUint` accepts besides 0 (the platform word size). */
  type BitSize = n: nat | n == 8 || n == 16 || n == 32 || n == 64 witness 64

  /** Range of Go's `int` on a 64-bit platform. */
  const MaxInt: int := 0x7FFF_FFFF_FFFF_FFFF
  const MinInt: int := -0x8000_0000_0000_0000

  /** Largest value of an unsigned integer of the given width: 1<<bitSize - 1. */
  function MaxUint(bitSize: BitSize): nat
  {
    if bitSize == 8 then 0xFF
    else if bitSize == 16 then 0xFFFF
    else if bitSize == 32 then 0xFFFF_FFFF
    else 0xFFFF_FFFF_FFFF_FFFF
  }

  function Pow(b: nat, e: nat): nat
  {
    if e == 0 then 1 else b * Pow(b, e - 1)
  }

  /** The value `ParseUint` gives a byte: 0-9 for decimal digits, 10-35 for
      letters of either case (Go lower-cases letters before comparing), and
      36 for every other byte, which no base accepts. */
  function DigitValue(c: uint8): (d: nat)
    ensures d <= 36
    ensures d < 10 <==> DIGIT_0 <= c <= DIGIT_9
    ensures d == 36 <==> !(DIGIT_0 <= c <= DIGIT_9 || UPPER_A <= c <= UPPER_Z || LOWER_A <= c <= LOWER_Z)
  {
    if DIGIT_0 <= c <= DIGIT_9 then c - DIGIT_0
    else if UPPER_A <= c <= UPPER_Z then c - UPPER_A + 10
    else if LOWER_A <= c <= LOWER_Z then c - LOWER_A + 10
    else 36
  }

  predicate IsDigit(c: uint8, base: Base) {
    DigitValue(c) < base
  }

  predicate AllDigits(s: GoString, base: Base) {
    forall i :: 0 <= i < |s| ==> IsDigit(s[i], base)
  }

  /** The number a digit string denotes, most significant digit first. */
  function DigitsValue(s: GoString, base: Base): nat
    requires AllDigits(s, base)
  {
    if |s| == 0 then 0
    else DigitsValue(s[..|s| - 1], base) * base + DigitValue(s[|s| - 1])
  }

  /** A string of k digits denotes a number below base^k. */
  lemma {:induction false} DigitsValueBound(s: GoString, base: Base)
    requires AllDigits(s, base)
    ensures DigitsValue(s, base) < Pow(base, |s|)
  {
    if |s| > 0 {
      var high := DigitsValue(s[..|s| - 1], base);
      DigitsValueBound(s[..|s| - 1], base);
      DigitStep(high, DigitValue(s[|s| - 1]), base, Pow(base, |s| - 1));
    }
  }

  /** Appending a digit to a number below p gives a number below p * base. */
  lemma DigitStep(high: nat, d: nat, base: nat, p: nat)
    requires high < p && d < base
    ensures high * base + d < base * p
  {
    MulMono(high + 1, p, base);
    assert p * base == base * p;
  }

  lemma MulMono(a: nat, b: nat, c: nat)
    requires a <= b
    ensures a * c <= b * c
  {
  }

  /** strconv.ParseUint(s, base, bitSize) for a non-zero base: at least one
      digit of the base, no sign, no base prefix, no underscores, and a value
      that fits in bitSize bits. A syntax error and a range error are both
      `None`: the image code only asks whether the call failed. */
  function ParseUint(s: GoString, base: Base, bitSize: BitSize): (r: Option<nat>)
    ensures r.Some? ==> r.value <= MaxUint(bitSize)
    ensures r.Some? ==> 0 < |s| && AllDigits(s, base)
    ensures r.Some? ==> r.value == DigitsValue(s, base)
    ensures r.Some? <==> 0 < |s| && AllDigits(s, base) && DigitsValue(s, base) <= MaxUint(bitSize)
  {
    if |s| == 0 || !AllDigits(s, base) then None
    else if DigitsValue(s, base) > MaxUint(bitSize) then None
    else Some(DigitsValue(s, base))
  }

  /** strconv.Atoi on a 64-bit platform: an optional '+' or '-', then decimal
      digits whose value lies in the range of `int`. */
  function Atoi(s: GoString): (r: Option<int>)
    ensures r.Some? ==> MinInt <= r.value <= MaxInt
  {
    if |s| == 0 then None
    else
      var neg := s[0] == MINUS;
      var body := if s[0] == PLUS || s[0] == MINUS then s[1..] else s;
      match ParseUint(body, 10, 64)
      case None => None
      case Some(u) =>
        if !neg && u > MaxInt then None
        else if neg && u > -MinInt then None
        else
          var v: int := u;
          if neg then Some(-v) else Some(v)
  }

  /** A byte '0' to '9'. */
  predicate IsDecimalDigit(c: uint8) {
    DIGIT_0 <= c <= DIGIT_9
  }

  /** The length of a leading sign: 1 when the text opens with '+' or '-',
      0 otherwise. */
  function SignLength(s: GoString): (k: nat)
    ensures k <= |s|
  {
    if 0 < |s| && (s[0] == PLUS || s[0] == MINUS) then 1 else 0
  }

  /** The syntax Go's Atoi accepts: an optional '+' or '-', then one or more
      decimal digits and nothing else. */
  predicate IsDecimalText(s: GoString) {
    SignLength(s) < |s| && forall i :: SignLength(s) <= i < |s| ==> IsDecimalDigit(s[i])
  }

  /** The signed number a decimal text denotes, whatever its size. */
  function DecimalTextValue(s: GoString): int
    requires IsDecimalText(s)
  {
    var digits := s[SignLength(s)..];
    DecimalDigitsAreDigits(s);
    var v: int := DigitsValue(digits, 10);
    if s[0] == MINUS then -v else v
  }

  /** The digits after the sign are digits of base 10, and conversely. */
  lemma DecimalDigitsAreDigits(s: GoString)
    ensures var digits := s[SignLength(s)..];
      AllDigits(digits, 10) <==> forall i :: SignLength(s) <= i < |s| ==> IsDecimalDigit(s[i])
  {
  }

  /** Atoi succeeds exactly on a decimal text whose value fits in a 64-bit
      `int`, and then returns that value, sign included. */
  lemma AtoiMeaning(s: GoString)
    ensures Atoi(s).Some? <==> IsDecimalText(s) && MinInt <= DecimalTextValue(s) <= MaxInt
    ensures Atoi(s).Some? ==> Atoi(s).value == DecimalTextValue(s)
  {
  }

  /** The byte Go prints for a digit value. */
  function DigitByte(d: nat, upper: bool): (c: uint8)
    requires d < 36
    ensures DigitValue(c) == d
  {
    if d < 10 then DIGIT_0 + d
    else if upper then UPPER_A + d - 10
    else LOWER_A + d - 10
  }

  /** strconv.FormatUint(n, base) (with a choice of letter case): the digits
      of n without leading zeros. */
  function FormatUint(n: nat, base: Base, upper: bool): (s: GoString)
    ensures 0 < |s| && AllDigits(s, base)
    ensures 1 < |s| ==> s[0] != DIGIT_0
    decreases n
  {
    if n < base then [DigitByte(n, upper)]
    else
      DivStep(n, base);
      var high := FormatUint(n / base, base, upper);
      var s := high + [DigitByte(n % base, upper)];
      assert s[0] == high[0];
      s
  }

  /** strconv.Itoa. */
  function Itoa(n: int): (s: GoString)
  {
    if n < 0 then [MINUS] + FormatUint(-n, 10, false) else FormatUint(n, 10, false)
  }

  /** Reading back the digits FormatUint wrote gives the number again. */
  lemma {:induction false} FormatUintValue(n: nat, base: Base, upper: bool)
    ensures DigitsValue(FormatUint(n, base, upper), base) == n
    decreases n
  {
    if n < base {
      DigitsValueSnoc([], DigitByte(n, upper), base);
      assert [] + [DigitByte(n, upper)] == FormatUint(n, base, upper);
    } else {
      var high, d := n / base, n % base;
      DivStep(n, base);
      var hs := FormatUint(high, base, upper);
      assert FormatUint(n, base, upper) == hs + [DigitByte(d, upper)];
      FormatUintValue(high, base, upper);
      DigitsValueSnoc(hs, DigitByte(d, upper), base);
    }
  }

  lemma DivStep(n: nat, base: Base)
    requires n >= base
    ensures 1 <= n / base < n
    ensures n == (n / base) * base + n % base
  {
  }

  /** Appending one digit multiplies the value by the base and adds the digit. */
  lemma DigitsValueSnoc(s: GoString, c: uint8, base: Base)
    requires AllDigits(s, base) && IsDigit(c, base)
    ensures AllDigits(s + [c], base)
    ensures DigitsValue(s + [c], base) == DigitsValue(s, base) * base + DigitValue(c)
  {
  }

  /** Decimal digits never contain '#', a sign or the letter 'x'. */
  lemma DecimalBytes(s: GoString, i: nat)
    requires AllDigits(s, 10) && i < |s|
    ensures s[i] != HASH && s[i] != PLUS && s[i] != MINUS && s[i] != LOWER_X
  {
  }

  /** ParseUint reads back every value FormatUint prints that fits in bitSize bits. */
  lemma ParseFormatUint(n: nat, base: Base, bitSize: BitSize, upper: bool)
    requires n <= MaxUint(bitSize)
    ensures ParseUint(FormatUint(n, base, upper), base, bitSize) == Some(n)
  {
    FormatUintValue(n, base, upper);
  }

  /** Atoi reads back every `int` Itoa prints. */
  lemma AtoiItoa(n: int)
    requires MinInt <= n <= MaxInt
    ensures Atoi(Itoa(n)) == Some(n)
  {
    var a := if n < 0 then -n else n;
    var digits := FormatUint(a, 10, false);
    FormatUintValue(a, 10, false);
    DecimalBytes(digits, 0);
    if n < 0 {
      assert Itoa(n)[1..] == digits;
    }
  }

  /** Atoi accepts a leading '+' and leading zeros: both leave the value unchanged. */
  lemma AtoiPlusZeros(n: nat, zeros: nat)
    requires n <= MaxInt
    ensures Atoi([PLUS] + seq(zeros, _ => DIGIT_0) + Itoa(n)) == Some(n)
  {
    var digits := Itoa(n);
    var padded := seq(zeros, _ => DIGIT_0) + digits;
    FormatUintValue(n, 10, false);
    LeadingZerosValue(zeros, digits);
    var input := [PLUS] + seq(zeros, _ => DIGIT_0) + Itoa(n);
    assert input == [PLUS] + padded;
    assert input[1..] == padded;
    assert ParseUint(padded, 10, 64) == Some(n);
  }

  lemma {:induction false} LeadingZerosValue(zeros: nat, s: GoString)
    requires AllDigits(s, 10)
    ensures AllDigits(seq(zeros, _ => DIGIT_0) + s, 10)
    ensures DigitsValue(seq(zeros, _ => DIGIT_0) + s, 10) == DigitsValue(s, 10)
    decreases |s|
  {
    var p := seq(zeros, _ => DIGIT_0) + s;
    assert forall i :: 0 <= i < |p| ==> IsDigit(p[i], 10) by {
      forall i | 0 <= i < |p| ensures IsDigit(p[i], 10) {
        if i < zeros { assert p[i] == DIGIT_0; } else { assert p[i] == s[i - zeros]; }
      }
    }
    if |s| == 0 {
      AllZerosValue(zeros);
      assert p == seq(zeros, _ => DIGIT_0);
    } else {
      LeadingZerosValue(zeros, s[..|s| - 1]);
      assert p[..|p| - 1] == seq(zeros, _ => DIGIT_0) + s[..|s| - 1];
    }
  }

  lemma {:induction false} AllZerosValue(zeros: nat)
    ensures AllDigits(seq(zeros, _ => DIGIT_0), 10)
    ensures DigitsValue(seq(zeros, _ => DIGIT_0), 10) == 0
  {
    var z := seq(zeros, _ => DIGIT_0);
    assert forall i :: 0 <= i < |z| ==> z[i] == DIGIT_0;
    if zeros > 0 {
      AllZerosValue(zeros - 1);
      assert z[..zeros - 1] == seq(zeros - 1, _ => DIGIT_0);
    }
  }
}
