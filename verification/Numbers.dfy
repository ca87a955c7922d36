/** Printing of integers: i64toa and i32toa of kernel/lib/libc/print.cc. */
module Numbers {
  import opened Arithmetic
  import opened Utf8

  const MINUS: Byte := 45

  /** The radix that is used: 2 to 36. */
  function Radix(radix: int): (r: nat)
    ensures r == if radix <= 2 then 2 else if 36 <= radix then 36 else radix
  {
    if radix < 2 then 2 else if radix > 36 then 36 else radix
  }

  /** "0123456789abcdefghijklmnopqrstuvwxyz" */
  function Digit(d: nat): Byte
    requires d < 36
  {
    if d < 10 then 48 + d else 87 + d
  }

  function DigitValue(c: Byte): int {
    if c < 58 then c - 48 else c - 87
  }

  lemma DigitTable(d: nat)
    requires d < 36
    ensures Digit(d) == "0123456789abcdefghijklmnopqrstuvwxyz"[d] as int
    ensures DigitValue(Digit(d)) == d
  {
  }

  /** The digits of u, most significant first. */
  function Digits(u: nat, r: nat): (s: seq<Byte>)
    requires 2 <= r <= 36
    ensures |s| >= 1
    decreases u
  {
    if u < r then [Digit(u)] else Smaller(u, r); Digits(u / r, r) + [Digit(u % r)]
  }

  lemma QuotientBelow(u: nat, r: nat, p: nat)
    requires r > 0
    ensures u / r < p <==> u < r * p
  {
    assert u == u / r * r + u % r;
    if u / r < p {
      MulMonotone(u / r + 1, p, r);
    } else {
      MulMonotone(p, u / r, r);
    }
  }

  lemma Smaller(u: nat, r: nat)
    requires 2 <= r <= u
    ensures 0 < u / r < u
  {
    QuotientBelow(u, r, 1);
    QuotientBelow(u, r, u);
    MulMonotone(2, r, u);
  }

  /** What a digit string stands for. */
  function Value(s: seq<Byte>, r: nat): int {
    if s == [] then 0 else Value(s[..|s| - 1], r) * r + DigitValue(s[|s| - 1])
  }

  lemma ValueSnoc(s: seq<Byte>, c: Byte, r: nat)
    ensures Value(s + [c], r) == Value(s, r) * r + DigitValue(c)
  {
    assert (s + [c])[..|s|] == s;
  }

  lemma DigitReadsBack(d: nat)
    requires d < 36
    ensures DigitValue(Digit(d)) == d
  {
  }

  /** Printing and reading back: the digits stand for the number. */
  lemma {:induction false} DigitsReadBack(u: nat, r: nat)
    requires 2 <= r <= 36
    ensures Value(Digits(u, r), r) == u
    decreases u
  {
    hide Digit, DigitValue, Value;
    if u < r {
      DigitReadsBack(u);
      NoDigits(r);
      ValueSnoc([], Digit(u), r);
      assert [] + [Digit(u)] == Digits(u, r);
    } else {
      Smaller(u, r);
      DigitsReadBack(u / r, r);
      DigitReadsBack(u % r);
      ValueSnoc(Digits(u / r, r), Digit(u % r), r);
      assert Digits(u, r) == Digits(u / r, r) + [Digit(u % r)];
      assert u == u / r * r + u % r;
      hide Digits;
    }
  }

  /** Each character is a digit of the radix, and there is no leading zero. */
  lemma {:induction false} DigitsAreDigits(u: nat, r: nat)
    requires 2 <= r <= 36
    ensures forall k | 0 <= k < |Digits(u, r)| :: 0 <= DigitValue(Digits(u, r)[k]) < r && Digits(u, r)[k] != 0
    ensures u > 0 ==> DigitValue(Digits(u, r)[0]) > 0
    decreases u
  {
    if u < r {
      DigitReadsBack(u);
    } else {
      Smaller(u, r);
      DigitReadsBack(u % r);
      DigitsAreDigits(u / r, r);
    }
  }

  lemma NoDigits(r: nat)
    ensures Value([], r) == 0
  {
  }

  /** u has at most n digits exactly if it is below the n-th power of the radix. */
  lemma {:induction false} DigitCount(u: nat, r: nat, n: nat)
    requires 2 <= r <= 36 && n >= 1
    ensures |Digits(u, r)| <= n <==> u < Power(r, n)
    decreases u
  {
    if n == 1 {
      assert Power(r, 1) == r * Power(r, 0) == r;
    } else if u < r {
      ProductPositive(r, Power(r, n - 1));
      MulMonotone(1, Power(r, n - 1), r);
    } else {
      Smaller(u, r);
      DigitCount(u / r, r, n - 1);
      QuotientBelow(u, r, Power(r, n - 1));
    }
  }

  // ---------------------------------------------------------------- words

  /** val is a signed word of the given width. */
  predicate InWord(val: int, bits: nat)
    requires bits >= 1
  {
    -Power(2, bits - 1) <= val < Power(2, bits - 1)
  }

  /** The number whose digits are printed. */
  function Magnitude(val: int, bits: nat, sign: bool): (m: nat)
    requires bits >= 1 && InWord(val, bits)
    ensures m < Power(2, bits)
  {
    assert Power(2, bits) == 2 * Power(2, bits - 1);
    if val >= 0 then val else if sign then -val else val + Power(2, bits)
  }

  /** The text of val. */
  function Text(val: int, bits: nat, radix: int, sign: bool): (s: seq<Byte>)
    requires bits >= 1 && InWord(val, bits)
  {
    (if sign && val < 0 then [MINUS] else []) + Digits(Magnitude(val, bits, sign), Radix(radix))
  }

  /** The number a text stands for. */
  function Reading(s: seq<Byte>, r: nat): int {
    if s != [] && s[0] == MINUS then -Value(s[1..], r) else Value(s, r)
  }

  /** A printed number reads back as its value, or as its unsigned value if the sign is not asked for. */
  lemma TextReadsBack(val: int, bits: nat, radix: int, sign: bool)
    requires bits >= 1 && InWord(val, bits)
    ensures Reading(Text(val, bits, radix, sign), Radix(radix)) == if sign || val >= 0 then val else val + Power(2, bits)
  {
    var m, r := Magnitude(val, bits, sign), Radix(radix);
    DigitsReadBack(m, r);
    DigitsAreDigits(m, r);
    assert 0 <= DigitValue(Digits(m, r)[0]);
    if sign && val < 0 {
      assert Text(val, bits, radix, sign)[1..] == Digits(m, r);
    } else {
      assert Text(val, bits, radix, sign) == Digits(m, r);
    }
  }

  /** Printed without a sign, the digits stand for the unsigned word. */
  lemma UnsignedReadsBack(val: int, bits: nat, radix: int)
    requires bits >= 1 && InWord(val, bits)
    ensures Value(Text(val, bits, radix, false), Radix(radix)) == val % Power(2, bits)
  {
    var m, r := Magnitude(val, bits, false), Radix(radix);
    DigitsReadBack(m, r);
    assert Text(val, bits, radix, false) == Digits(m, r);
    var p := Power(2, bits);
    DivMod(val + p, p, if val >= 0 then 1 else 0, m);
    AddMultiple(val, p, 1);
  }

  /** Digits of the radix without a leading zero; zero itself is one digit. */
  ghost predicate Numeral(s: seq<Byte>, r: nat) {
    && s != []
    && (forall k | 0 <= k < |s| :: 0 <= DigitValue(s[k]) < r)
    && (|s| > 1 ==> s[0] != '0' as int)
  }

  lemma TextIsNumeral(val: int, bits: nat, radix: int, sign: bool)
    requires bits >= 1 && InWord(val, bits)
    ensures var s := Text(val, bits, radix, sign);
            |s| > 0 && (sign && val < 0 ==> s[0] == '-' as int) && Numeral(if sign && val < 0 then s[1..] else s, Radix(radix))
  {
    var m, r := Magnitude(val, bits, sign), Radix(radix);
    DigitsAreDigits(m, r);
    var s := Text(val, bits, radix, sign);
    assert (if sign && val < 0 then s[1..] else s) == Digits(m, r);
    if m == 0 {
      assert |Digits(m, r)| == 1;
    }
  }

  lemma TextHasNoNul(val: int, bits: nat, radix: int, sign: bool)
    requires bits >= 1 && InWord(val, bits)
    ensures forall k | 0 <= k < |Text(val, bits, radix, sign)| :: Text(val, bits, radix, sign)[k] != 0
  {
    DigitsAreDigits(Magnitude(val, bits, sign), Radix(radix));
  }

  /** The local buffer has room for one character per bit.  That is enough for every value except
      the smallest signed one in radix 2. */
  lemma FitsBuffer(val: int, bits: nat, radix: int, sign: bool)
    requires bits >= 2 && InWord(val, bits)
    ensures |Text(val, bits, radix, sign)| <= bits <==> !(sign && val == -Power(2, bits - 1) && radix <= 2)
  {
    var m, r := Magnitude(val, bits, sign), Radix(radix);
    hide Digits, Power;
    if sign && val < 0 {
      DigitCount(m, r, bits - 1);
      if r >= 3 {
        PowerAbove(r, bits - 1);
      }
    } else {
      DigitCount(m, r, bits);
      PowerMonotone(2, r, bits);
    }
  }

  /** The smallest 64-bit value in radix 2 takes one character more than the local buffer has. */
  lemma SmallestDoesNotFit()
    ensures InWord(-Power(2, 63), 64) && |Text(-Power(2, 63), 64, 2, true)| == 65
  {
    FitsBuffer(-Power(2, 63), 64, 2, true);
    PowerOfTwo(64);
    DigitCount(Power(2, 63), 2, 64);
    hide Power, Digits;
  }

  /** Writes the digits of uval so that they end before position end. */
  method WriteDigits(u: nat, r: nat, buffer: array<Byte>, end: nat) returns (pos: nat)
    requires 2 <= r <= 36 && |Digits(u, r)| <= end < buffer.Length
    modifies buffer
    ensures pos == end - |Digits(u, r)| && buffer[pos..end] == Digits(u, r)
  {
    hide Digits;
    var uval: nat := u;
    pos := end;
    while true
      invariant pos <= end && |Digits(uval, r)| + (end - pos) == |Digits(u, r)|
      invariant Digits(uval, r) + buffer[pos..end] == Digits(u, r)
      decreases uval
    {
      LastDigit(uval, r);
      ghost var before := buffer[pos..end];
      pos := pos - 1;
      buffer[pos] := Digit(uval % r);
      assert buffer[pos..end] == [Digit(uval % r)] + before;
      uval := uval / r;
      if uval == 0 {
        return;
      }
    }
  }

  /** i64toa (64 bits) and i32toa (32 bits): digits are written from the end of a local buffer, then copied. */
  method Itoa(val: int, bits: nat, str: array<Byte>, radix: int, sign: bool)
    requires (bits == 32 || bits == 64) && InWord(val, bits)
    requires !(sign && val == -Power(2, bits - 1) && radix <= 2)
    requires |Text(val, bits, radix, sign)| < str.Length
    modifies str
    ensures str[..] == Text(val, bits, radix, sign) + [0] + old(str[|Text(val, bits, radix, sign)| + 1..])
  {
    FitsBuffer(val, bits, radix, sign);
    hide Power, InWord, Digits, Magnitude, Radix;
    ghost var text := Text(val, bits, radix, sign);
    var uval, negative, r := Magnitude(val, bits, sign), sign && val < 0, Radix(radix);
    var buffer := new Byte[bits + 1];
    var end := bits;
    var pos := WriteDigits(uval, r, buffer, end);
    if negative {
      ghost var digits := buffer[pos..end];
      pos := pos - 1;
      buffer[pos] := MINUS;
      assert buffer[pos..end] == [MINUS] + digits;
    }
    assert buffer[pos..end] == text;
    hide Text;
    CopyOut(buffer, pos, end, str);
  }

  /** The copy out of the buffer, with a terminator. */
  method CopyOut(buffer: array<Byte>, pos: nat, end: nat, str: array<Byte>)
    requires pos <= end <= buffer.Length && end - pos < str.Length && buffer != str
    modifies str
    ensures str[..] == buffer[pos..end] + [0] + old(str[end - pos + 1..])
  {
    ghost var rest := str[..];
    for i := 0 to end - pos
      invariant forall k | 0 <= k < str.Length :: str[k] == if k < i then buffer[pos + k] else rest[k]
    {
      str[i] := buffer[pos + i];
    }
    str[end - pos] := 0;
    assert str[..end - pos] == buffer[pos..end] && str[end - pos + 1..] == rest[end - pos + 1..];
  }

  lemma LastDigit(u: nat, r: nat)
    requires 2 <= r <= 36
    ensures u / r == 0 ==> Digits(u, r) == [Digit(u % r)]
    ensures u / r != 0 ==> Digits(u, r) == Digits(u / r, r) + [Digit(u % r)] && u / r < u
  {
    if u >= r {
      Smaller(u, r);
    } else {
      DivMod(u, r, 0, u);
    }
  }
}
