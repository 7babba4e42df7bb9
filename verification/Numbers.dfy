/** Printing and parsing of numbers: itoa, pow and strtoul. */
module Numbers {
  import opened Words

  // ----- Division by a base

  lemma DivideOnce(v: nat, base: nat)
    requires base >= 2
    ensures 0 <= v % base < base && v == v / base * base + v % base
    ensures v > 0 ==> v / base < v
    ensures v / base == 0 <==> v < base
  {
    var q := v / base;
    assert v == base * q + v % base;
    if q > 0 { MulGrows(q, base); }
  }

  lemma MulGrows(q: nat, base: nat)
    requires base >= 2 && q > 0
    ensures base * q >= 2 * q && base * q >= base
  {
  }

  // ----- Digits

  /** The byte that itoa writes for a digit, which it holds in an `unsigned char`. */
  function DigitChar(value: nat): byte {
    var digit := value % 0x100;
    if digit > 9 then ('A' as int + (digit - 10)) % 0x100 else digit + 0x30
  }

  /** The value that strtoul gives a character, 0xff when it is no digit of any base. */
  function DigitOf(c: byte): byte {
    if '0' as int <= c <= '9' as int then c - 0x30
    else if 'a' as int <= c <= 'f' as int then c - 'a' as int + 10
    else if 'A' as int <= c <= 'F' as int then c - 'A' as int + 10
    else 0xff
  }

  /** The sixteen numerals: those that itoa writes, and strtoul reads in either case. */
  lemma Numerals(d: nat)
    requires d < 16
    ensures DigitChar(d) == "0123456789ABCDEF"[d] as int
    ensures "0123456789abcdef"[d] as int < 0x100 && DigitOf("0123456789abcdef"[d] as int) == d
    ensures "0123456789ABCDEF"[d] as int < 0x100 && DigitOf("0123456789ABCDEF"[d] as int) == d
  {
  }

  predicate IsDigit(c: byte, base: int) {
    DigitOf(c) < 16 && DigitOf(c) < base
  }

  /** The digits of a base are its numerals, in either case, and nothing else. */
  lemma OnlyNumerals(c: byte, base: int)
    ensures IsDigit(c, base) <==>
              exists d: nat :: d < 16 && d < base
                               && (c == "0123456789abcdef"[d] as int || c == "0123456789ABCDEF"[d] as int)
  {
    if IsDigit(c, base) {
      var d: nat := DigitOf(c);
      Numerals(d);
      assert c == "0123456789abcdef"[d] as int || c == "0123456789ABCDEF"[d] as int;
    }
    forall d: nat | d < 16 && d < base && (c == "0123456789abcdef"[d] as int || c == "0123456789ABCDEF"[d] as int)
      ensures IsDigit(c, base)
    {
      Numerals(d);
    }
  }

  /** A number in a base, most significant digit first, without leading zeros. */
  function Digits(v: nat, base: nat): (s: seq<byte>)
    requires base >= 2
    ensures |s| >= 1
    decreases v
  {
    DivideOnce(v, base);
    if v < base then [DigitChar(v)] else Digits(v / base, base) + [DigitChar(v % base)]
  }

  function Pow(base: nat, exp: nat): nat {
    if exp == 0 then 1 else base * Pow(base, exp - 1)
  }

  predicate AllDigits(s: seq<byte>, base: int) {
    forall k | 0 <= k < |s| :: IsDigit(s[k], base)
  }

  /** The value of a digit string by Horner's rule. */
  function Horner(s: seq<byte>, base: nat): nat {
    if s == [] then 0 else Horner(s[..|s| - 1], base) * base + DigitOf(s[|s| - 1])
  }

  lemma DigitsShorter(v: nat, base: nat)
    requires base >= 2 && v >= base
    ensures v / base > 0 && |Digits(v, base)| == |Digits(v / base, base)| + 1
    ensures Digits(v, base)[..|Digits(v, base)| - 1] == Digits(v / base, base)
    ensures Digits(v, base)[|Digits(v, base)| - 1] == DigitChar(v % base)
  {
    DivideOnce(v, base);
    LastOf(Digits(v / base, base), DigitChar(v % base));
  }

  lemma LastOf(s: seq<byte>, c: byte)
    ensures (s + [c])[..|s|] == s && (s + [c])[|s|] == c && |s + [c]| == |s| + 1
  {
  }

  /** The number without its last digit, and that digit. */
  lemma DigitsLast(v: nat, base: nat)
    requires base >= 2 && v > 0
    ensures Digits(v, base) == (if v / base == 0 then [] else Digits(v / base, base)) + [DigitChar(v % base)]
  {
    DivideOnce(v, base);
    assert v < base ==> v % base == v;
  }

  lemma DigitOfChar(d: nat)
    requires d < 16
    ensures DigitOf(DigitChar(d)) == d && DigitChar(d) != 0
  {
  }

  /** Reading back a printed number gives the number, without any reduction. */
  lemma {:induction false} DigitsRoundTrip(v: nat, base: nat)
    requires 2 <= base <= 16
    ensures AllDigits(Digits(v, base), base)
    ensures Horner(Digits(v, base), base) == v
    ensures 0 !in Digits(v, base)
    decreases v
  {
    DivideOnce(v, base);
    DigitOfChar(v % base);
    if v < base {
      DigitOfChar(v);
      assert Digits(v, base)[..0] == [];
    } else {
      DigitsShorter(v, base);
      DigitsRoundTrip(v / base, base);
    }
  }

  /** A printed number begins with the numeral 0 only when it is 0. */
  lemma {:induction false} NoLeadingZero(v: nat, base: nat)
    requires 2 <= base <= 16
    ensures Digits(v, base)[0] == '0' as int <==> v == 0
    ensures v == 0 ==> |Digits(v, base)| == 1
    decreases v
  {
    DivideOnce(v, base);
    if v >= base {
      NoLeadingZero(v / base, base);
      DigitsShorter(v, base);
      assert Digits(v, base)[0] == Digits(v, base)[..|Digits(v, base)| - 1][0];
    }
  }

  /** Every partial sum that strtoul computes for a printed number is at most the number. */
  lemma {:induction false} DigitsFit(v: nat, base: nat, p: nat)
    requires 2 <= base <= 16 && p <= |Digits(v, base)|
    ensures Horner(Digits(v, base)[..p], base) * Pow(base, |Digits(v, base)| - p) <= v
    decreases v
  {
    var s := Digits(v, base);
    if p == |s| {
      assert s[..p] == s;
      DigitsRoundTrip(v, base);
    } else if v >= base {
      DigitsShorter(v, base);
      DivideOnce(v, base);
      var q, t := v / base, Digits(v / base, base);
      DigitsFit(q, base, p);
      assert s[..p] == t[..p];
      ScaledFits(Horner(t[..p], base), |t| - p, base, q, v);
    }
  }

  /** So is every power of the base that it computes. */
  lemma {:induction false} PowersFit(v: nat, base: nat)
    requires 2 <= base <= 16 && v > 0
    ensures Pow(base, |Digits(v, base)| - 1) <= v
    decreases v
  {
    if v >= base {
      DigitsShorter(v, base);
      DivideOnce(v, base);
      var q, t := v / base, Digits(v / base, base);
      PowersFit(q, base);
      ScaledFits(1, |t| - 1, base, q, v);
    }
  }

  lemma ScaledFits(x: nat, exp: nat, base: nat, q: nat, v: nat)
    requires x * Pow(base, exp) <= q && q * base <= v
    ensures x * Pow(base, exp + 1) <= v
  {
    PullOut(x, base, exp);
    MulKeeps(x * Pow(base, exp), q, base);
  }

  lemma PullOut(x: nat, base: nat, exp: nat)
    ensures x * Pow(base, exp + 1) == x * Pow(base, exp) * base
  {
    Regroup(x, base, Pow(base, exp));
  }

  lemma Regroup(x: nat, y: nat, z: nat)
    ensures x * (y * z) == x * z * y
  {
  }

  lemma MulKeeps(x: nat, y: nat, z: nat)
    requires x <= y
    ensures x * z <= y * z
  {
  }

  // ----- itoa

  /** The C string at the start of a buffer. */
  function Text(buffer: seq<byte>): seq<byte> {
    if buffer == [] || buffer[0] == 0 then [] else [buffer[0]] + Text(buffer[1..])
  }

  lemma {:induction false} TextIs(buffer: seq<byte>, n: nat)
    requires n <= |buffer| && 0 !in buffer[..n]
    ensures |Text(buffer)| >= n && Text(buffer)[..n] == buffer[..n]
    ensures n < |buffer| ==> (Text(buffer) == buffer[..n] <==> buffer[n] == 0)
    decreases |buffer|
  {
    if n > 0 {
      assert buffer[0] == buffer[..n][0] && buffer[1..][..n - 1] == buffer[..n][1..];
      TextIs(buffer[1..], n - 1);
      assert Text(buffer) == [buffer[0]] + Text(buffer[1..]);
      assert buffer[..n] == [buffer[0]] + buffer[1..][..n - 1];
    }
  }

  /** The first loop of itoa. */
  method CountDigits(value: uint32, base: uint32) returns (i: nat)
    requires base >= 2 && value > 0
    ensures i == |Digits(value, base)|
  {
    i := 0;
    var temp: uint32 := value;
    while temp != 0
      invariant i + (if temp == 0 then 0 else |Digits(temp, base)|) == |Digits(value, base)|
    {
      DivideOnce(temp, base);
      if temp >= base { DigitsShorter(temp, base); }
      i := i + 1;
      temp := temp / base;
    }
  }

  /** Between two rounds of the second loop: in front of place `i` the digits of `left` are still to come. */
  ghost predicate DigitsToCome(left: nat, base: nat, s: seq<byte>, i: nat, n: nat, digits: seq<byte>)
    requires base >= 2
  {
    && i <= n <= |s|
    && if left == 0 then i == 0 && s[..n] == digits
       else i == |Digits(left, base)| && Digits(left, base) + s[i..n] == digits
  }

  lemma OneDigitLess(left: nat, base: nat, s: seq<byte>, i: nat, n: nat, digits: seq<byte>)
    requires base >= 2 && left > 0 && DigitsToCome(left, base, s, i, n, digits)
    ensures i > 0 && DigitsToCome(left / base, base, s[i - 1 := DigitChar(left % base)], i - 1, n, digits)
  {
    DivideOnce(left, base);
    DigitsLast(left, base);
    var s' := s[i - 1 := DigitChar(left % base)];
    assert s'[i - 1..n] == [DigitChar(left % base)] + s[i..n];
    var rest := if left / base == 0 then [] else Digits(left / base, base);
    assert rest + ([DigitChar(left % base)] + s[i..n]) == rest + [DigitChar(left % base)] + s[i..n];
  }

  /** One digit of itoa, as the code makes a character of it. */
  method WriteDigit(str: array<byte>, at: nat, remainder: uint32)
    requires at < str.Length
    modifies str
    ensures str[..] == old(str[..])[at := DigitChar(remainder)]
  {
    var digit := remainder % 0x100;
    if digit > 9 {
      str[at] := ('A' as int + (digit - 10)) % 0x100;
    } else {
      str[at] := digit + 0x30;
    }
  }

  /** The second loop of itoa: the digits from the last to the first, and nothing else. */
  method WriteDigits(value: uint32, str: array<byte>, base: uint32, n: nat)
    requires base >= 2 && value > 0 && n == |Digits(value, base)| < str.Length
    modifies str
    ensures str[..n] == Digits(value, base)
    ensures str[n..] == old(str[n..])
  {
    ghost var digits := Digits(value, base);
    var i, left: uint32 := n, value;
    while left != 0
      invariant DigitsToCome(left, base, str[..], i, n, digits)
      invariant str[n..] == old(str[n..])
    {
      OneDigitLess(left, base, str[..], i, n, digits);
      DivideOnce(left, base);
      WriteDigit(str, i - 1, left % base);
      left := left / base;
      i := i - 1;
    }
  }

  /**
   itoa, into a buffer with room for the digits and the terminator. The digits are written in order and
   nothing behind the terminator is touched. For the value 0 there is no terminator either: the buffer
   then holds the printed number exactly when there was a zero in the next place.
   */
  method Itoa(value: uint32, str: array<byte>, base: uint32)
    requires base >= 2 && |Digits(value, base)| < str.Length
    modifies str
    ensures str[..|Digits(value, base)|] == Digits(value, base)
    ensures value != 0 ==> str[|Digits(value, base)|] == 0
    ensures forall k | |Digits(value, base)| < k < str.Length :: str[k] == old(str[k])
    ensures value == 0 ==> str[1] == old(str[1])
    ensures base <= 16 ==> (Text(str[..]) == Digits(value, base) <==> value != 0 || old(str[1]) == 0)
  {
    ghost var n, digits := |Digits(value, base)|, Digits(value, base);
    if value == 0 {
      str[0] := '0' as int;
    } else {
      var i := CountDigits(value, base);
      str[i] := 0;
      WriteDigits(value, str, base, i);
    }
    if base <= 16 {
      DigitsRoundTrip(value, base);
      assert str[..][..n] == str[..n] == digits;
      TextIs(str[..], n);
    }
  }

  // ----- strtoul

  /** pow, in 32-bit arithmetic. */
  function PowWord(base: nat, exp: nat): (r: uint32)
    ensures r == ToU32(Pow(base, exp))
  {
    if exp == 0 then 1 else
      MulMod(base, Pow(base, exp - 1));
      ToU32(base * PowWord(base, exp - 1))
  }

  lemma MulMod(x: nat, y: nat)
    ensures ToU32(x * ToU32(y)) == ToU32(x * y)
  {
    var k := y / TWO32;
    assert x * y == x * (y % TWO32) + TWO32 * (x * k) by {
      assert y == TWO32 * k + y % TWO32;
      Distribute(x, y % TWO32, k);
    }
    AddMultiple(x * ToU32(y), x * k);
  }

  lemma Distribute(x: nat, r: nat, k: nat)
    ensures x * (TWO32 * k + r) == x * r + TWO32 * (x * k)
  {
  }

  lemma AddMultiple(x: int, k: int)
    ensures ToU32(x + TWO32 * k) == ToU32(x)
  {
  }

  lemma AddMod(x: nat, y: nat)
    ensures ToU32(ToU32(x) + ToU32(y)) == ToU32(x + y)
  {
    AddMultiple(ToU32(x) + ToU32(y), x / TWO32 + y / TWO32);
  }

  /** One digit more: Horner's rule against the sum of powers. */
  lemma SumStep(h: nat, d: nat, base: nat, exp: nat)
    ensures ToU32(ToU32(h * Pow(base, exp + 1)) + ToU32(PowWord(base, exp) * d))
         == ToU32((h * base + d) * Pow(base, exp))
  {
    var p := Pow(base, exp);
    MulMod(d, p);
    Swap(PowWord(base, exp), d);
    AddMod(h * Pow(base, exp + 1), d * p);
    Regroup2(h, d, base, p);
  }

  lemma Swap(x: nat, y: nat)
    ensures x * y == y * x
  {
  }

  lemma Regroup2(h: nat, d: nat, base: nat, p: nat)
    ensures h * (base * p) + d * p == (h * base + d) * p
  {
  }

  /** How many characters strtoul reads: all of them, or up to and including the first that is no digit. */
  function ReadUpTo(s: seq<byte>, base: int): (n: nat)
    ensures n <= |s|
  {
    if s == [] then 0 else if !IsDigit(s[0], base) then 1 else 1 + ReadUpTo(s[1..], base)
  }

  lemma {:induction false} ReadUpToIs(s: seq<byte>, base: int, n: nat)
    requires n <= |s| && AllDigits(s[..n], base)
    ensures n == |s| ==> ReadUpTo(s, base) == n
    ensures n < |s| && !IsDigit(s[n], base) ==> ReadUpTo(s, base) == n + 1
    decreases n
  {
    if n > 0 {
      assert s[0] == s[..n][0] && s[1..][..n - 1] == s[..n][1..];
      ReadUpToIs(s[1..], base, n - 1);
    }
  }

  /**
   strtoul: on digits of the base alone the value, by Horner's rule, modulo 2^32; on any other text 0.
   `end` counts the characters read.
   */
  method Strtoul(str: seq<byte>, base: nat) returns (value: uint32, end: nat)
    ensures value == if AllDigits(str, base) then ToU32(Horner(str, base)) else 0
    ensures end == ReadUpTo(str, base)
  {
    var i := |str| - 1;
    value, end := 0, 0;
    while i >= 0
      invariant -1 <= i < |str| && end == |str| - 1 - i
      invariant AllDigits(str[..end], base)
      invariant value == ToU32(Horner(str[..end], base) * Pow(base, i + 1))
    {
      ghost var p := end;
      var digit := DigitOf(str[end]);
      end := end + 1;
      ReadUpToIs(str, base, p);
      if digit == 0xff {
        value := 0;
        return;
      }
      if digit < base {
        assert str[..p + 1][..p] == str[..p];
        SumStep(Horner(str[..p], base), digit, base, i);
        value := ToU32(value as int + ToU32(PowWord(base, i) * digit));
        i := i - 1;
      } else {
        value := 0;
        return;
      }
    }
    assert str[..end] == str;
    ReadUpToIs(str, base, end);
  }

  /** A number printed by itoa and read by strtoul, in a zeroed buffer. */
  method PrintThenRead(value: uint32, base: uint32) returns (result: uint32)
    requires 2 <= base <= 16
    ensures result == value
  {
    hide Digits, Horner, AllDigits, Text;
    DigitsRoundTrip(value, base);
    DigitsShort(value, base);
    var buffer := new byte[33](_ => 0);
    Itoa(value, buffer, base);
    var text := ReadText(buffer);
    var end;
    result, end := Strtoul(text, base);
  }

  /** The characters in front of the terminator. */
  method ReadText(buffer: array<byte>) returns (text: seq<byte>)
    ensures text == Text(buffer[..])
  {
    text := Text(buffer[..]);
  }

  lemma {:induction false} DigitsAtMost(v: nat, base: nat, n: nat)
    requires base >= 2 && v < Pow(2, n) && n > 0
    ensures |Digits(v, base)| <= n
    decreases v
  {
    if v >= base {
      DigitsShorter(v, base);
      var q := v / base;
      AtMostHalf(v, base, q);
      DigitsAtMost(q, base, n - 1);
    }
  }

  lemma AtMostHalf(v: nat, base: nat, q: nat)
    requires base >= 2 && v >= base && q == v / base
    ensures 0 < 2 * q <= v
  {
    DivideOnce(v, base);
    MulGrows(q, base);
  }

  lemma DigitsShort(v: uint32, base: nat)
    requires base >= 2
    ensures |Digits(v, base)| <= 32
  {
    assert Pow(2, 8) == 0x100;
    assert Pow(2, 16) == 0x1_0000;
    assert Pow(2, 24) == 0x100_0000;
    assert Pow(2, 32) == 0x1_0000_0000;
    DigitsAtMost(v, base, 32);
  }
}
