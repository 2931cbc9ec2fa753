/**
 * The C library number conversions the codecs rely on, written out:
 *  - strtol/strtoul/strtoll/strtoull with base 0 (ISO C11 section 7.22.1.4),
 *  - the %X and %llX conversions of sscanf (ISO C11 section 7.21.6.2),
 *  - the %i/%u/%lli/%llu and %0NX conversions of sprintf,
 *  - conversion of an integer to a narrower integer type.
 * The platform is LP64: long and long long are 64 bits wide.
 */
module CNum {
  import opened Wrappers
  import opened ConfPrivate

  /** The integer widths the codecs store: 8, 16, 32 and 64 bits. */
  datatype Width = W8 | W16 | W32 | W64

  /** 2^bits for the width. */
  function Modulus(w: Width): int
  {
    match w
    case W8 => 0x100
    case W16 => 0x1_0000
    case W32 => 0x1_0000_0000
    case W64 => 0x1_0000_0000_0000_0000
  }

  /** 2^(bits - 1): the bound of the signed type of the width. */
  function Half(w: Width): int
  {
    match w
    case W8 => 0x80
    case W16 => 0x8000
    case W32 => 0x8000_0000
    case W64 => 0x8000_0000_0000_0000
  }

  /** Number of hex digits a value of the width needs. */
  function HexWidth(w: Width): nat
  {
    match w
    case W8 => 2
    case W16 => 4
    case W32 => 8
    case W64 => 16
  }

  /** A value of the unsigned type of the width. */
  predicate InUnsigned(x: int, w: Width) {
    0 <= x < Modulus(w)
  }

  /** A value of the signed type of the width. */
  predicate InSigned(x: int, w: Width) {
    -Half(w) <= x < Half(w)
  }

  /** Value of c as a digit (0..35 for 0-9, a-z, A-Z), or 36 when c is no digit at all. */
  function DigitValue(c: char): (d: nat)
    ensures d <= 36
  {
    if '0' <= c <= '9' then c as int - '0' as int
    else if 'a' <= c <= 'z' then c as int - 'a' as int + 10
    else if 'A' <= c <= 'Z' then c as int - 'A' as int + 10
    else 36
  }

  predicate IsDigitIn(c: char, base: nat) {
    DigitValue(c) < base
  }

  /** Length of the longest prefix of s made of digits of the base. */
  function DigitRun(s: string, base: nat): (n: nat)
    ensures n <= |s|
    ensures n < |s| ==> !IsDigitIn(s[n], base)
  {
    if |s| == 0 || !IsDigitIn(s[0], base) then 0 else 1 + DigitRun(s[1..], base)
  }

  /** Every character of the run is a digit of the base. */
  lemma {:induction false} DigitRunSpan(s: string, base: nat)
    ensures forall i :: 0 <= i < DigitRun(s, base) ==> IsDigitIn(s[i], base)
  {
    if |s| > 0 && IsDigitIn(s[0], base) {
      DigitRunSpan(s[1..], base);
      forall i | 1 <= i < DigitRun(s, base) ensures IsDigitIn(s[i], base) {
        assert s[i] == s[1..][i - 1];
      }
    }
  }

  /** Positional value of a string of digits, most significant first. */
  function DigitsValue(d: string, base: nat): nat
  {
    if |d| == 0 then 0
    else DigitsValue(d[..|d| - 1], base) * base + (if DigitValue(d[|d| - 1]) < base then DigitValue(d[|d| - 1]) else 0)
  }

  /**
   * The subject sequence of strtol with base 0: after leading white space,
   * an optional sign, then "0x"/"0X" and hexadecimal digits, or a leading
   * "0" and octal digits, or decimal digits. Gives the sign and the
   * magnitude of the longest such sequence; with no digits at all nothing is
   * converted and the magnitude is 0.
   */
  datatype Converted = Converted(neg: bool, mag: nat)

  function Subject(s: string): Converted
  {
    var t := Ltrim(s);
    var neg := |t| > 0 && t[0] == '-';
    var u := if |t| > 0 && (t[0] == '-' || t[0] == '+') then t[1..] else t;
    Converted(neg, Magnitude(u))
  }

  /** The magnitude of an unsigned subject sequence: hexadecimal after "0x", octal after "0", else decimal. */
  function Magnitude(u: string): nat
  {
    if |u| >= 3 && u[0] == '0' && (u[1] == 'x' || u[1] == 'X') && IsDigitIn(u[2], 16) then
      DigitsValue(u[2..][..DigitRun(u[2..], 16)], 16)
    else if |u| >= 1 && u[0] == '0' then
      DigitsValue(u[..DigitRun(u, 8)], 8)
    else
      DigitsValue(u[..DigitRun(u, 10)], 10)
  }

  /**
   * Length of the subject sequence Magnitude reads from u: the characters
   * strtoul consumes after the sign. Zero when u does not start with a digit.
   */
  function MagnitudeLength(u: string): (n: nat)
    ensures n <= |u|
    ensures n == 0 <==> |u| == 0 || !IsDigitIn(u[0], 10)
  {
    if |u| >= 3 && u[0] == '0' && (u[1] == 'x' || u[1] == 'X') && IsDigitIn(u[2], 16) then
      2 + DigitRun(u[2..], 16)
    else if |u| >= 1 && u[0] == '0' then
      DigitRun(u, 8)
    else
      DigitRun(u, 10)
  }

  /**
   * strtol/strtoll with base 0. Both return a 64-bit long (LP64): a value
   * out of range saturates at LONG_MIN or LONG_MAX.
   */
  function Strtol(s: string): (v: int)
    ensures InSigned(v, W64)
    ensures var Converted(neg, mag) := Subject(s); var x: int := if neg then -(mag as int) else mag;
      (InSigned(x, W64) ==> v == x)
      && (x < -Half(W64) ==> v == -Half(W64))
      && (x >= Half(W64) ==> v == Half(W64) - 1)
  {
    var Converted(neg, mag) := Subject(s);
    var x: int := if neg then -(mag as int) else mag;
    if x < -Half(W64) then -Half(W64)
    else if x >= Half(W64) then Half(W64) - 1
    else x
  }

  /**
   * The unsigned long that strtoul/strtoull make of a converted subject: a
   * magnitude out of range gives ULONG_MAX; otherwise a minus sign negates
   * the magnitude in the unsigned type.
   */
  function UnsignedLong(c: Converted): (v: int)
    ensures InUnsigned(v, W64)
    ensures !c.neg && c.mag < Modulus(W64) ==> v == c.mag
  {
    if c.mag >= Modulus(W64) then Modulus(W64) - 1
    else if c.neg then (Modulus(W64) - c.mag) % Modulus(W64)
    else c.mag
  }

  /** strtoul/strtoull with base 0 (64 bits on LP64). */
  function Strtoul(s: string): (v: int)
    ensures InUnsigned(v, W64)
    ensures !Subject(s).neg && Subject(s).mag < Modulus(W64) ==> v == Subject(s).mag
  {
    UnsignedLong(Subject(s))
  }

  /** Conversion to an unsigned type of the given width: reduction modulo 2^bits. */
  function ToUnsigned(x: int, w: Width): (v: int)
    ensures InUnsigned(v, w)
    ensures InUnsigned(x, w) ==> v == x
  {
    x % Modulus(w)
  }

  /**
   * Conversion to a signed type of the given width. ISO C leaves an
   * out-of-range conversion to the implementation; GCC reduces modulo 2^bits.
   */
  function ToSigned(x: int, w: Width): (v: int)
    ensures InSigned(v, w)
    ensures InSigned(x, w) ==> v == x
    ensures ToUnsigned(v, w) == ToUnsigned(x, w)
  {
    var m := x % Modulus(w);
    if m >= Half(w) then m - Modulus(w) else m
  }

  /** The digit characters printf uses, upper-case for %X. */
  function DigitChar(d: nat): (c: char)
    requires d < 16
    ensures DigitValue(c) == d
    ensures '0' <= c <= '9' || 'A' <= c <= 'F'
  {
    "0123456789ABCDEF"[d]
  }

  /**
   * The digits printf writes for v in the base, left-padded with '0' to at
   * least w digits (%0wX; %u and %i use w = 1).
   */
  function Numeral(v: nat, base: nat, w: nat): (r: string)
    requires base == 10 || base == 16
    ensures |r| >= 1 && |r| >= w
    decreases v, w
  {
    if v < base && w <= 1 then [DigitChar(v)]
    else
      DivMod(v, base);
      Numeral(v / base, base, if w > 0 then w - 1 else 0) + [DigitChar(v % base)]
  }

  /** Every character printed is a digit of the base, '0'-'9' or 'A'-'F'. */
  lemma {:induction false} NumeralDigits(v: nat, base: nat, w: nat)
    requires base == 10 || base == 16
    ensures forall i :: 0 <= i < |Numeral(v, base, w)| ==>
      IsDigitIn(Numeral(v, base, w)[i], base) && ('0' <= Numeral(v, base, w)[i] <= '9' || 'A' <= Numeral(v, base, w)[i] <= 'F')
    decreases v, w
  {
    if !(v < base && w <= 1) {
      DivMod(v, base);
      var w' := if w > 0 then w - 1 else 0;
      NumeralDigits(v / base, base, w');
      var r, h := Numeral(v, base, w), Numeral(v / base, base, w');
      assert r == h + [DigitChar(v % base)];
      forall i | 0 <= i < |r| ensures IsDigitIn(r[i], base) && ('0' <= r[i] <= '9' || 'A' <= r[i] <= 'F') {
        if i < |h| {
          assert r[i] == h[i];
        } else {
          assert r[i] == DigitChar(v % base);
        }
      }
    }
  }

  /** Division facts for the two printing bases, stated once so that the solver need not find them. */
  lemma DivMod(v: nat, base: nat)
    requires base == 10 || base == 16
    ensures v == v / base * base + v % base && 0 <= v % base < base
    ensures v >= base ==> 0 < v / base < v
    ensures v < base ==> v / base == 0
  {
  }

  /** Decimal text of %i / %u / %lli / %llu. */
  function Decimal(v: int): (r: string)
    ensures |r| >= 1
  {
    if v < 0 then "-" + Numeral(-v, 10, 1) else Numeral(v, 10, 1)
  }

  /** Text of "0x%0wX": the hex getters' format. */
  function HexText(v: nat, w: nat): (r: string)
  {
    "0x" + Numeral(v, 16, w)
  }

  /**
   * The %X (or %llX) conversion of sscanf into an unsigned object of the
   * width: after white space, an optional sign, an optional "0x"/"0X" and
   * at least one hexadecimal digit. An input item that is only a prefix of
   * such a sequence ("0x" not followed by a hex digit, or no digit at all) is
   * a matching failure: None, nothing is stored. ISO C leaves a value the
   * object cannot represent undefined; the model does what glibc does and
   * converts the digits as strtoul does, then narrows the result to the
   * width.
   */
  function ScanHex(s: string, w: Width): (r: Option<int>)
    ensures r.Some? ==> InUnsigned(r.value, w)
  {
    match HexItem(s)
    case None => None
    case Some(c) => Some(ToUnsigned(UnsignedLong(c), w))
  }

  /** The sign and value of the hexadecimal input item %X reads, or None on a matching failure. */
  function HexItem(s: string): (r: Option<Converted>)
  {
    var t := Ltrim(s);
    var neg := |t| > 0 && t[0] == '-';
    var u := if |t| > 0 && (t[0] == '-' || t[0] == '+') then t[1..] else t;
    var d := if |u| >= 2 && u[0] == '0' && (u[1] == 'x' || u[1] == 'X') then u[2..] else u;
    var n := DigitRun(d, 16);
    if n == 0 then None
    else Some(Converted(neg, DigitsValue(d[..n], 16)))
  }

  // ---------------------------------------------------------------------
  // Properties of the printed numerals
  // ---------------------------------------------------------------------

  lemma {:induction false} DigitsValueSnoc(d: string, c: char, base: nat)
    requires DigitValue(c) < base
    ensures DigitsValue(d + [c], base) == DigitsValue(d, base) * base + DigitValue(c)
  {
    assert (d + [c])[..|d + [c]| - 1] == d;
  }

  /** Reading back the digits printf wrote gives the printed value. */
  lemma {:induction false} NumeralValue(v: nat, base: nat, w: nat)
    requires base == 10 || base == 16
    ensures DigitsValue(Numeral(v, base, w), base) == v
    decreases v, w
  {
    DivMod(v, base);
    if v < base && w <= 1 {
      assert Numeral(v, base, w) == [] + [DigitChar(v)];
      DigitsValueSnoc([], DigitChar(v), base);
    } else {
      var w' := if w > 0 then w - 1 else 0;
      var high := Numeral(v / base, base, w');
      assert Numeral(v, base, w) == high + [DigitChar(v % base)];
      NumeralValue(v / base, base, w');
      DigitsValueSnoc(high, DigitChar(v % base), base);
      assert DigitsValue(high, base) == v / base;
    }
  }

  /** Unpadded numerals of a non-zero value have no leading zero. */
  lemma {:induction false} NumeralLeadingDigit(v: nat, base: nat)
    requires (base == 10 || base == 16) && v > 0
    ensures Numeral(v, base, 1)[0] != '0'
    decreases v
  {
    DivMod(v, base);
    if v >= base {
      NumeralLeadingDigit(v / base, base);
    }
  }

  function Pow(b: nat, e: nat): (r: nat)
    ensures b >= 1 ==> r >= 1
  {
    if e == 0 then 1 else b * Pow(b, e - 1)
  }

  /** A hex numeral padded to w digits has exactly w digits when the value fits in w digits. */
  lemma {:induction false} NumeralWidth(v: nat, w: nat)
    requires w >= 1 && v < Pow(16, w)
    ensures |Numeral(v, 16, w)| == w
    decreases w
  {
    DivMod(v, 16);
    if w > 1 {
      assert Numeral(v, 16, w) == Numeral(v / 16, 16, w - 1) + [DigitChar(v % 16)];
      NumeralWidth(v / 16, w - 1);
    }
  }

  /** 16^digits is the modulus of each width. */
  lemma HexWidthModulus(w: Width)
    ensures Pow(16, HexWidth(w)) == Modulus(w)
  {
    assert Pow(16, 2) == 0x100;
    assert Pow(16, 4) == 0x1_0000 by { assert Pow(16, 3) == 0x1000; }
    assert Pow(16, 8) == 0x1_0000_0000 by {
      assert Pow(16, 5) == 0x10_0000;
      assert Pow(16, 6) == 0x100_0000;
      assert Pow(16, 7) == 0x1000_0000;
    }
    assert Pow(16, 16) == 0x1_0000_0000_0000_0000 by {
      assert Pow(16, 9) == 0x10_0000_0000;
      assert Pow(16, 10) == 0x100_0000_0000;
      assert Pow(16, 11) == 0x1000_0000_0000;
      assert Pow(16, 12) == 0x1_0000_0000_0000;
      assert Pow(16, 13) == 0x10_0000_0000_0000;
      assert Pow(16, 14) == 0x100_0000_0000_0000;
      assert Pow(16, 15) == 0x1000_0000_0000_0000;
    }
  }

  /** The digit run of an all-digit string followed by a non-digit (or nothing) is that string. */
  lemma {:induction false} DigitRunPrefix(d: string, r: string, base: nat)
    requires forall i :: 0 <= i < |d| ==> IsDigitIn(d[i], base)
    requires r == [] || !IsDigitIn(r[0], base)
    ensures DigitRun(d + r, base) == |d|
  {
    if |d| > 0 {
      assert (d + r)[1..] == d[1..] + r;
      DigitRunPrefix(d[1..], r, base);
    }
  }

  /** The whole of an all-digit string is its digit run. */
  lemma DigitRunAll(d: string, base: nat)
    requires forall i :: 0 <= i < |d| ==> IsDigitIn(d[i], base)
    ensures DigitRun(d, base) == |d|
  {
    DigitRunPrefix(d, [], base);
    assert d + [] == d;
  }

  // ---------------------------------------------------------------------
  // Round trips: what printf writes, the scanners read back
  // ---------------------------------------------------------------------

  /**
   * An unsigned decimal numeral followed by something that cannot continue
   * it (nothing, or a character that is neither a digit nor 'x'/'X') is read
   * whole: its value and its length.
   */
  lemma MagnitudeOfNumeralThen(n: nat, r: string)
    requires r == [] || (!IsDigitIn(r[0], 10) && r[0] != 'x' && r[0] != 'X')
    ensures Magnitude(Numeral(n, 10, 1) + r) == n
    ensures MagnitudeLength(Numeral(n, 10, 1) + r) == |Numeral(n, 10, 1)|
  {
    var d := Numeral(n, 10, 1);
    var u := d + r;
    NumeralValue(n, 10, 1);
    if n == 0 {
      assert d == "0";
      assert u[0] == '0';
      DigitRunPrefix(d, r, 8);
      assert u[..1] == d;
      assert DigitsValue(d, 8) == DigitsValue(d[..0], 8) * 8 + 0;
    } else {
      NumeralLeadingDigit(n, 10);
      NumeralDigits(n, 10, 1);
      DigitRunPrefix(d, r, 10);
      assert u[..|d|] == d;
    }
  }

  /** An unsigned decimal numeral is read whole. */
  lemma MagnitudeOfNumeral(n: nat)
    ensures Magnitude(Numeral(n, 10, 1)) == n
  {
    MagnitudeOfNumeralThen(n, []);
    assert Numeral(n, 10, 1) + [] == Numeral(n, 10, 1);
  }

  /** A decimal numeral with or without a minus sign, read as a subject sequence. */
  lemma SubjectOfNumeral(n: nat)
    ensures Subject(Numeral(n, 10, 1)) == Converted(false, n)
    ensures Subject("-" + Numeral(n, 10, 1)) == Converted(true, n)
  {
    var d := Numeral(n, 10, 1);
    MagnitudeOfNumeral(n);
    assert Ltrim(d) == d;
    assert Ltrim("-" + d) == "-" + d;
    assert ("-" + d)[1..] == d;
  }

  /** strtol/strtoul (base 0) read the decimal text of %i/%u back unchanged. */
  lemma SubjectOfDecimal(v: int)
    ensures Subject(Decimal(v)) == Converted(v < 0, if v < 0 then -v else v)
  {
    SubjectOfNumeral(if v < 0 then -v else v);
  }

  /** strtol reads back the decimal text of any long. */
  lemma StrtolOfDecimal(v: int)
    requires InSigned(v, W64)
    ensures Strtol(Decimal(v)) == v
  {
    SubjectOfDecimal(v);
  }

  /** strtoul reads back the decimal text of any unsigned long. */
  lemma StrtoulOfDecimal(v: int)
    requires InUnsigned(v, W64)
    ensures Strtoul(Decimal(v)) == v
  {
    SubjectOfDecimal(v);
  }

  /** %X reads back the text of "0x%0wX" for any value of the target width. */
  lemma ScanHexOfHexText(v: int, digits: nat, w: Width)
    requires InUnsigned(v, w)
    ensures ScanHex(HexText(v, digits), w) == Some(v)
  {
    var d := Numeral(v, 16, digits);
    NumeralDigits(v, 16, digits);
    DigitRunAll(d, 16);
    HexItemOfDigits(d);
    assert d[..|d|] == d;
    NumeralValue(v, 16, digits);
    assert Modulus(w) <= Modulus(W64);
    assert UnsignedLong(Converted(false, v)) == v;
  }

  /** The input item of "0x" and hex digits is the run of digits after the prefix. */
  lemma HexItemOfDigits(d: string)
    requires DigitRun(d, 16) > 0
    ensures HexItem("0x" + d) == Some(Converted(false, DigitsValue(d[..DigitRun(d, 16)], 16)))
  {
    HexPrefixed(d);
  }

  /** "0" and "0x0" both scan as 0, the value void_set stores as a NULL pointer. */
  lemma ZeroScansAsZero()
    ensures ScanHex("0", W64) == Some(0) && ScanHex("0x0", W64) == Some(0)
  {
    assert DigitRun("0", 16) == 1;
    assert DigitsValue("0", 16) == 0;
  }

  /** "0x" before a string: nothing to trim, and the string follows the prefix. */
  lemma HexPrefixed(d: string)
    ensures var s := "0x" + d; Ltrim(s) == s && s[0] == '0' && s[1] == 'x' && s[2..] == d
  {
    var s := "0x" + d;
    assert s[0] == '0';
    assert s[2..] == d;
  }

  /** Printed hex text of a value of the width is "0x" followed by exactly as many upper-case hex digits as the width has nibbles. */
  lemma HexTextShape(v: int, w: Width)
    requires InUnsigned(v, w)
    ensures |HexText(v, HexWidth(w))| == HexWidth(w) + 2 && HexText(v, HexWidth(w))[..2] == "0x"
    ensures forall i :: 2 <= i < HexWidth(w) + 2 ==> '0' <= HexText(v, HexWidth(w))[i] <= '9' || 'A' <= HexText(v, HexWidth(w))[i] <= 'F'
  {
    HexWidthModulus(w);
    NumeralWidth(v, HexWidth(w));
    NumeralDigits(v, 16, HexWidth(w));
    var d := Numeral(v, 16, HexWidth(w));
    forall i | 2 <= i < HexWidth(w) + 2
      ensures '0' <= HexText(v, HexWidth(w))[i] <= '9' || 'A' <= HexText(v, HexWidth(w))[i] <= 'F'
    {
      assert HexText(v, HexWidth(w))[i] == d[i - 2];
    }
  }

  /** A remainder is determined by any decomposition with a remainder in range. */
  lemma ModUnique(x: int, m: int, b: int, r: int)
    requires m > 0 && 0 <= r < m && x == b * m + r
    ensures x % m == r
  {
    var d := b - x / m;
    assert x == (x / m) * m + x % m;
    assert d * m == x % m - r;
  }

  /** Reducing modulo a multiple of m first does not change the remainder modulo m. */
  lemma ModOfMultiple(x: int, m: int, k: int)
    requires m > 0 && k > 0
    ensures (x % (m * k)) % m == x % m
  {
    var mk := m * k;
    var q := x / mk;
    var r := x % mk;
    assert x == q * mk + r;
    var a := r / m;
    var c := r % m;
    assert r == a * m + c;
    assert q * mk == (q * k) * m;
    assert x == (q * k + a) * m + c;
    ModUnique(x, m, q * k + a, c);
  }

  /** Narrowing an unsigned long to a width is the same as converting straight to the width. */
  lemma NarrowFrom64(x: int, w: Width)
    ensures ToUnsigned(ToUnsigned(x, W64), w) == ToUnsigned(x, w)
  {
    match w
    case W8 => ModOfMultiple(x, 0x100, 0x100_0000_0000_0000);
    case W16 => ModOfMultiple(x, 0x1_0000, 0x1_0000_0000_0000);
    case W32 => ModOfMultiple(x, 0x1_0000_0000, 0x1_0000_0000);
    case W64 =>
  }

  /** strtoul reads the decimal text of any long as that long converted to unsigned long. */
  lemma StrtoulOfSignedDecimal(n: int)
    requires InSigned(n, W64)
    ensures Strtoul(Decimal(n)) == ToUnsigned(n, W64)
  {
    SubjectOfDecimal(n);
    var m := Modulus(W64);
    if n < 0 {
      ModUnique(m + n, m, 0, m + n);
      ModUnique(n, m, -1, m + n);
      assert UnsignedLong(Converted(true, -n)) == m + n;
    } else {
      ModUnique(n, m, 0, n);
    }
  }
}
