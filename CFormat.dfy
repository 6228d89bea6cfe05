/**
 * The pieces of the C library's text handling the logger relies on: C strings
 * (text up to the first NUL), the truncation `snprintf` applies to a bounded
 * buffer, and the integer conversions `%X`, `%0<w>X` and `%d`.
 */
module CFormat {

  const NUL: char := '\0'

  /** The C string stored in `s`: its characters before the first NUL, or all of `s`. */
  function CString(s: seq<char>): (r: seq<char>)
    ensures r <= s
    ensures NUL !in r
    ensures |r| < |s| ==> s[|r|] == NUL
  {
    if s == [] || s[0] == NUL then [] else [s[0]] + CString(s[1..])
  }

  /** A NUL at index m cuts the C string there, whatever follows it. */
  lemma {:induction false} CStringTerminated(s: seq<char>, m: nat)
    requires m < |s| && s[m] == NUL
    ensures CString(s) == CString(s[..m])
  {
    if m > 0 && s[0] != NUL {
      CStringTerminated(s[1..], m - 1);
      assert s[1..][..m - 1] == s[..m][1..];
    }
  }

  /** Text with no NUL in it is its own C string. */
  lemma CStringOfPlainText(s: seq<char>)
    requires NUL !in s
    ensures CString(s) == s
  {
  }

  /**
   * What `snprintf(buf, size, ...)` keeps of the formatted text: at most
   * size - 1 characters, the last place being taken by the terminating NUL.
   */
  function Truncate(text: seq<char>, size: nat): (r: seq<char>)
    requires size >= 1
    ensures r <= text
    ensures |r| == if |text| < size then |text| else size - 1
  {
    if |text| < size then text else text[..size - 1]
  }

  /** The digit characters printf uses, upper case for %X. */
  function DigitChar(v: nat): (c: char)
    requires v < 16
    ensures DigitValue(c) == v
  {
    if v < 10 then ('0' as int + v) as char else ('A' as int + v - 10) as char
  }

  /** The value of a digit character, or -1 for anything that is not a digit. */
  function DigitValue(c: char): (v: int) {
    if '0' <= c <= '9' then c as int - '0' as int
    else if 'A' <= c <= 'F' then c as int - 'A' as int + 10
    else -1
  }

  predicate IsDigit(c: char, base: nat) {
    0 <= DigitValue(c) < base
  }

  predicate AllDigits(s: string, base: nat) {
    forall i | 0 <= i < |s| :: IsDigit(s[i], base)
  }

  /** The value of a numeral, read most significant digit first (the inverse of the conversions). */
  function NumeralValue(s: string, base: nat): (v: nat)
    requires AllDigits(s, base)
  {
    if s == [] then 0
    else NumeralValue(s[..|s| - 1], base) * base + DigitValue(s[|s| - 1])
  }

  /** The conversion `%X`: upper-case hexadecimal, no leading zeros, "0" for zero. */
  function Hex(n: nat): (s: string)
    ensures |s| >= 1 && AllDigits(s, 16)
    ensures s[0] == '0' ==> n == 0
  {
    if n < 16 then [DigitChar(n)] else Hex(n / 16) + [DigitChar(n % 16)]
  }

  lemma {:induction false} HexRoundTrip(n: nat)
    ensures NumeralValue(Hex(n), 16) == n
  {
    if n >= 16 {
      var s := Hex(n);
      HexRoundTrip(n / 16);
      assert s[..|s| - 1] == Hex(n / 16);
    }
  }

  /** A 32-bit value needs at most eight hexadecimal digits. */
  lemma {:induction false} HexLength(n: nat, width: nat)
    requires 1 <= width && n < Pow(16, width)
    ensures |Hex(n)| <= width
  {
    if n >= 16 {
      assert width > 1;
      HexLength(n / 16, width - 1);
    }
  }

  /** The conversion `%u`: decimal, no leading zeros, "0" for zero. */
  function Decimal(n: nat): (s: string)
    ensures |s| >= 1 && AllDigits(s, 10)
    ensures s[0] == '0' ==> n == 0
  {
    if n < 10 then [DigitChar(n)] else Decimal(n / 10) + [DigitChar(n % 10)]
  }

  lemma {:induction false} DecimalRoundTrip(n: nat)
    ensures NumeralValue(Decimal(n), 10) == n
  {
    if n >= 10 {
      var s := Decimal(n);
      DecimalRoundTrip(n / 10);
      assert s[..|s| - 1] == Decimal(n / 10);
    }
  }

  /** A value below 10^width needs at most width decimal digits. */
  lemma {:induction false} DecimalLength(n: nat, width: nat)
    requires 1 <= width && n < Pow(10, width)
    ensures |Decimal(n)| <= width
  {
    if n >= 10 {
      assert width > 1;
      DecimalLength(n / 10, width - 1);
    }
  }

  /** %d of a 32-bit word takes at most eleven characters, "-2147483648" being the longest. */
  lemma SignedDecimalLength(x: uint32)
    ensures |SignedDecimal(x)| <= 11 && NUL !in SignedDecimal(x)
  {
    assert Pow(10, 5) == 100_000;
    assert Pow(10, 10) == 10_000_000_000;
    var v := Int32(x);
    var digits := if v >= 0 then Decimal(v) else Decimal(-v);
    DecimalLength(if v >= 0 then v else -v, 10);
    assert IsDigit(digits[0], 10);
  }

  function Pow(base: nat, e: nat): (p: nat)
    ensures base >= 1 ==> p >= 1
  {
    if e == 0 then 1 else base * Pow(base, e - 1)
  }

  /**
   * The last `width` hexadecimal digits of n. For n < 16^width, the only way
   * it is used, this is the zero-padded conversion `%0<width>X`; printf would
   * print every digit of a larger n, which this function does not model.
   */
  function HexFixed(n: nat, width: nat): (s: string)
    ensures |s| == width && AllDigits(s, 16)
  {
    if width == 0 then [] else HexFixed(n / 16, width - 1) + [DigitChar(n % 16)]
  }

  lemma {:induction false} HexFixedRoundTrip(n: nat, width: nat)
    requires n < Pow(16, width)
    ensures NumeralValue(HexFixed(n, width), 16) == n
  {
    if width > 0 {
      var s := HexFixed(n, width);
      HexFixedRoundTrip(n / 16, width - 1);
      assert s[..|s| - 1] == HexFixed(n / 16, width - 1);
    }
  }

  /** `%02X` of a byte. */
  function Hex2(b: bv8): (s: string)
    ensures |s| == 2 && AllDigits(s, 16)
    ensures NumeralValue(s, 16) == b as nat
  {
    PowersOfSixteen();
    HexFixedRoundTrip(b as nat, 2);
    HexFixed(b as nat, 2)
  }

  /** `%02X` of a byte is its high digit, then its low digit. */
  lemma Hex2Digits(b: bv8)
    ensures Hex2(b) == [DigitChar(b as nat / 16), DigitChar(b as nat % 16)]
  {
    HexFixedTwo(b as nat);
  }

  /** Hex2Digits on the natural number itself, where the solver need not convert from bv8 at every step. */
  lemma HexFixedTwo(n: nat)
    requires n < 256
    ensures HexFixed(n, 2) == [DigitChar(n / 16), DigitChar(n % 16)]
  {
    assert n / 16 / 16 == 0 && n / 16 % 16 == n / 16;
    assert HexFixed(n / 16, 1) == [DigitChar(n / 16)];
  }

  lemma PowersOfSixteen()
    ensures Pow(16, 2) == 0x100 && Pow(16, 8) == 0x1_0000_0000
  {
    assert Pow(16, 2) == 0x100;
    assert Pow(16, 4) == 0x1_0000;
    assert Pow(16, 6) == 0x100_0000;
  }

  /** `%X` of a 32-bit value: at most eight digits, reading back as the value. */
  lemma LevelDigits(x: bv32)
    ensures |Hex(x as nat)| <= 8 && NumeralValue(Hex(x as nat), 16) == x as nat
  {
    PowersOfSixteen();
    HexLength(x as nat, 8);
    HexRoundTrip(x as nat);
  }

  /** `%08X` of a 32-bit value. */
  function Hex8(x: bv32): (s: string)
    ensures |s| == 8 && AllDigits(s, 16)
    ensures NumeralValue(s, 16) == x as nat
  {
    PowersOfSixteen();
    HexFixedRoundTrip(x as nat, 8);
    HexFixed(x as nat, 8)
  }

  /** The unsigned 32-bit integers, such as the running time in milliseconds. */
  type uint32 = x: int | 0 <= x < 0x1_0000_0000

  /** The value printf's %d shows for a 32-bit word: its two's-complement reading. */
  function Int32(x: uint32): (v: int)
    ensures -0x8000_0000 <= v < 0x8000_0000
    ensures x == if v >= 0 then v else v + 0x1_0000_0000
  {
    if x < 0x8000_0000 then x else x - 0x1_0000_0000
  }

  /** `%d` applied to a 32-bit word. */
  function SignedDecimal(x: uint32): (s: string)
    ensures |s| >= 1 && (s[0] == '-' <==> Int32(x) < 0)
  {
    var v := Int32(x);
    if v >= 0 then Decimal(v) else "-" + Decimal(-v)
  }

  /** Reads back what %d printed. */
  function SignedValue(s: string): (v: int)
    requires s != [] && AllDigits(if s[0] == '-' then s[1..] else s, 10)
  {
    if s[0] == '-' then -(NumeralValue(s[1..], 10) as int) else NumeralValue(s, 10)
  }

  lemma SignedDecimalRoundTrip(x: uint32)
    ensures var s := SignedDecimal(x);
      s != [] && AllDigits(if s[0] == '-' then s[1..] else s, 10) && SignedValue(s) == Int32(x)
  {
    var v := Int32(x);
    if v >= 0 {
      DecimalRoundTrip(v);
    } else {
      DecimalRoundTrip(-v);
      assert ("-" + Decimal(-v))[1..] == Decimal(-v);
    }
  }
}
