/**
 * Java's `long`, with `Long.toString` (how a group number is printed) and `Long.valueOf`
 * (how a group number typed by the user is read).
 */
module Longs {
  import opened Wrappers

  const LONG_MIN: int := -0x8000_0000_0000_0000
  const LONG_MAX: int := 0x7FFF_FFFF_FFFF_FFFF

  /** A 64-bit signed integer. */
  type Long = x: int | LONG_MIN <= x <= LONG_MAX

  predicate IsDigit(c: char) {
    '0' <= c <= '9'
  }

  predicate AllDigits(s: string) {
    forall i :: 0 <= i < |s| ==> IsDigit(s[i])
  }

  function DigitChar(d: nat): (c: char)
    requires d < 10
    ensures IsDigit(c)
  {
    "0123456789"[d]
  }

  function DigitValue(c: char): (d: nat)
    requires IsDigit(c)
    ensures d < 10
  {
    (c as int) - ('0' as int)
  }

  /** Decimal digits of `n`, most significant first, without leading zeros. */
  function NatText(n: nat): (s: string)
    ensures |s| >= 1 && AllDigits(s)
    ensures n == 0 ==> s == "0"
    ensures |s| > 1 ==> s[0] != '0'
    ensures s[0] == '0' <==> n == 0
  {
    if n < 10 then [DigitChar(n)] else NatText(n / 10) + [DigitChar(n % 10)]
  }

  /** The number a string of decimal digits denotes. */
  function DigitsValue(s: string): nat
    requires AllDigits(s)
  {
    if s == [] then 0 else DigitsValue(s[..|s| - 1]) * 10 + DigitValue(s[|s| - 1])
  }

  /** `Long.toString(x)`: a minus sign for negative numbers, then the digits of `|x|`. */
  function LongText(x: Long): (s: string)
    ensures |s| >= 1 && (s[0] == '-' <==> x < 0)
    ensures x >= 0 ==> AllDigits(s)
    ensures x < 0 ==> AllDigits(s[1..])
    ensures x == 0 ==> s == "0"
    ensures x < 0 ==> |s| >= 2
    ensures x != 0 ==> s[if x < 0 then 1 else 0] != '0'
  {
    if x < 0 then "-" + NatText(-(x as int)) else NatText(x)
  }

  /**
   * `Long.valueOf(s)`, with `None` where it throws `NumberFormatException`: an optional `+` or
   * `-`, at least one decimal digit and nothing else, and a value that fits in 64 bits.
   */
  function ParseLong(s: string): (r: Option<Long>)
    ensures r.Some? ==> (|s| >= 1 && AllDigits(s)) || (|s| >= 2 && (s[0] == '+' || s[0] == '-') && AllDigits(s[1..]))
    ensures |s| >= 1 && AllDigits(s) ==>
      (r.Some? <==> DigitsValue(s) <= LONG_MAX) && (r.Some? ==> r.value == DigitsValue(s))
    ensures |s| >= 2 && (s[0] == '+' || s[0] == '-') && AllDigits(s[1..]) ==>
      var m: int := DigitsValue(s[1..]); var v := if s[0] == '-' then -m else m;
      (r.Some? <==> LONG_MIN <= v <= LONG_MAX) && (r.Some? ==> r.value == v)
  {
    if s == [] then None
    else
      var negative := s[0] == '-';
      var digits := if s[0] == '-' || s[0] == '+' then s[1..] else s;
      if digits == [] || !AllDigits(digits) then None
      else
        var magnitude: int := DigitsValue(digits);
        var v := if negative then -magnitude else magnitude;
        if LONG_MIN <= v <= LONG_MAX then Some(v) else None
  }

  lemma {:induction false} DigitsOfNatText(n: nat)
    ensures DigitsValue(NatText(n)) == n
  {
    if n >= 10 {
      var s := NatText(n / 10) + [DigitChar(n % 10)];
      assert s[..|s| - 1] == NatText(n / 10);
      DigitsOfNatText(n / 10);
    }
  }

  /** Reading back what `Long.toString` printed gives the same number. */
  lemma LongRoundTrip(x: Long)
    ensures ParseLong(LongText(x)) == Some(x)
  {
    var s := LongText(x);
    if x < 0 {
      var m: nat := -(x as int);
      assert s[1..] == NatText(m);
      DigitsOfNatText(m);
      assert DigitsValue(s[1..]) == m;
    } else {
      DigitsOfNatText(x);
      assert DigitsValue(s) == x;
    }
  }

  /** A leading zero does not change the number a string of digits denotes. */
  lemma {:induction false} DigitsLeadingZero(d: string)
    requires AllDigits(d)
    ensures AllDigits("0" + d) && DigitsValue("0" + d) == DigitsValue(d)
  {
    if d != [] {
      var z := "0" + d;
      assert z[..|z| - 1] == "0" + d[..|d| - 1];
      DigitsLeadingZero(d[..|d| - 1]);
    }
  }

  /** `Long.valueOf` reads "0012" as it reads "12". */
  lemma ParseLongLeadingZero(d: string)
    requires |d| >= 1 && AllDigits(d)
    ensures ParseLong("0" + d) == ParseLong(d)
  {
    DigitsLeadingZero(d);
  }

  /** `Long.valueOf` reads "+5" as it reads "5". */
  lemma ParseLongPlus(d: string)
    requires |d| >= 1 && AllDigits(d)
    ensures ParseLong("+" + d) == ParseLong(d)
  {
    assert ("+" + d)[1..] == d;
  }

  /** A printed number holds only digits and possibly a leading minus: no separator of a list. */
  lemma LongTextCharacters(x: Long)
    ensures forall i :: 0 <= i < |LongText(x)| ==> IsDigit(LongText(x)[i]) || (i == 0 && x < 0 && LongText(x)[i] == '-')
    ensures |LongText(x)| >= 1
  {
  }
}

/**
 * `java.util.UUID` as a 128-bit number, with `UUID.toString`: 32 lower-case hexadecimal
 * digits grouped 8-4-4-4-12 by dashes.
 */
module Uuids {
  import opened Wrappers

  /** 16 to the power `k`; `Pow16(32)` is 2 to the power 128. */
  function Pow16(k: nat): (p: nat)
    ensures p >= 1
  {
    if k == 0 then 1 else 16 * Pow16(k - 1)
  }

  type Uuid = n: nat | n < Pow16(32)

  predicate IsHexDigit(c: char) {
    '0' <= c <= '9' || 'a' <= c <= 'f' || 'A' <= c <= 'F'
  }

  predicate AllHex(s: string) {
    forall i :: 0 <= i < |s| ==> IsHexDigit(s[i])
  }

  function HexChar(d: nat): (c: char)
    requires d < 16
    ensures IsHexDigit(c)
  {
    "0123456789abcdef"[d]
  }

  function HexValue(c: char): (d: nat)
    requires IsHexDigit(c)
    ensures d < 16
  {
    if c <= '9' then (c as int) - ('0' as int)
    else if c <= 'F' then (c as int) - ('A' as int) + 10
    else (c as int) - ('a' as int) + 10
  }

  /** The lowest `width` hexadecimal digits of `n`, most significant first, zero-padded. */
  function HexText(n: nat, width: nat): (s: string)
    ensures |s| == width && AllHex(s)
  {
    if width == 0 then [] else HexText(n / 16, width - 1) + [HexChar(n % 16)]
  }

  /** The number a string of hexadecimal digits denotes. */
  function HexNumber(s: string): (n: nat)
    requires AllHex(s)
    ensures n < Pow16(|s|)
  {
    if s == [] then 0 else HexNumber(s[..|s| - 1]) * 16 + HexValue(s[|s| - 1])
  }

  /** `UUID.toString()`. */
  function UuidText(u: Uuid): (s: string)
    ensures |s| == 36
  {
    var h := HexText(u, 32);
    h[..8] + "-" + h[8..12] + "-" + h[12..16] + "-" + h[16..20] + "-" + h[20..]
  }

  /**
   * Reads the canonical 8-4-4-4-12 form (either letter case). Java's `UUID.fromString` accepts
   * this form and more besides; this reader is the reference the printed form is checked against.
   */
  function ParseCanonicalUuid(s: string): (r: Option<Uuid>)
    ensures r.Some? <==> CanonicalShape(s)
  {
    if |s| == 36 && s[8] == '-' && s[13] == '-' && s[18] == '-' && s[23] == '-' then
      var h := s[..8] + s[9..13] + s[14..18] + s[19..23] + s[24..];
      DashedDigits(s);
      if AllHex(h) then Some(HexNumber(h)) else None
    else None
  }

  /** 36 characters: dashes at positions 8, 13, 18 and 23, hexadecimal digits everywhere else. */
  predicate CanonicalShape(s: string) {
    |s| == 36 && forall i :: 0 <= i < 36 ==> if IsDash(i) then s[i] == '-' else IsHexDigit(s[i])
  }

  predicate IsDash(i: int) {
    i == 8 || i == 13 || i == 18 || i == 23
  }

  /** With the dashes in place, the dash-free text is all hexadecimal exactly when the rest of `s` is. */
  lemma DashedDigits(s: string)
    requires |s| == 36 && s[8] == '-' && s[13] == '-' && s[18] == '-' && s[23] == '-'
    ensures AllHex(s[..8] + s[9..13] + s[14..18] + s[19..23] + s[24..]) <==> CanonicalShape(s)
  {
    var h := s[..8] + s[9..13] + s[14..18] + s[19..23] + s[24..];
    assert |h| == 32;
    assert forall j :: 0 <= j < 8 ==> h[j] == s[j];
    assert forall j :: 8 <= j < 12 ==> h[j] == s[j + 1];
    assert forall j :: 12 <= j < 16 ==> h[j] == s[j + 2];
    assert forall j :: 16 <= j < 20 ==> h[j] == s[j + 3];
    assert forall j :: 20 <= j < 32 ==> h[j] == s[j + 4];
    if AllHex(h) {
      forall i | 0 <= i < 36 && !IsDash(i) ensures IsHexDigit(s[i]) {
        if i < 8 { assert s[i] == h[i]; }
        else if i < 13 { assert s[i] == h[i - 1]; }
        else if i < 18 { assert s[i] == h[i - 2]; }
        else if i < 23 { assert s[i] == h[i - 3]; }
        else { assert s[i] == h[i - 4]; }
      }
    }
  }

  lemma {:induction false} HexNumberOfText(n: nat, width: nat)
    requires n < Pow16(width)
    ensures HexNumber(HexText(n, width)) == n
  {
    if width > 0 {
      var s := HexText(n, width);
      assert s[..|s| - 1] == HexText(n / 16, width - 1);
      assert s[|s| - 1] == HexChar(n % 16);
      HexDigitRoundTrip(n % 16);
      assert n / 16 < Pow16(width - 1);
      HexNumberOfText(n / 16, width - 1);
    }
  }

  /** Each digit `HexChar` prints is read back by `HexValue`. */
  lemma HexDigitRoundTrip(d: nat)
    requires d < 16
    ensures HexValue(HexChar(d)) == d
  {
  }

  /** The printed form of a UUID is read back as the same UUID. */
  lemma UuidRoundTrip(u: Uuid)
    ensures ParseCanonicalUuid(UuidText(u)) == Some(u)
  {
    var h := HexText(u, 32);
    DashedGroups(h[..8], h[8..12], h[12..16], h[16..20], h[20..]);
    assert h[..8] + h[8..12] + h[12..16] + h[16..20] + h[20..] == h;
    HexNumberOfText(u, 32);
  }

  /** Dropping the four dashes of an 8-4-4-4-12 text gives back the groups, joined. */
  lemma DashedGroups(a: string, b: string, c: string, d: string, e: string)
    requires |a| == 8 && |b| == 4 && |c| == 4 && |d| == 4 && |e| == 12
    ensures var s := a + "-" + b + "-" + c + "-" + d + "-" + e;
      s[8] == '-' && s[13] == '-' && s[18] == '-' && s[23] == '-'
      && s[..8] + s[9..13] + s[14..18] + s[19..23] + s[24..] == a + b + c + d + e
  {
    var s := a + "-" + b + "-" + c + "-" + d + "-" + e;
    assert s[..8] == a && s[9..13] == b && s[14..18] == c && s[19..23] == d && s[24..] == e;
  }


  /** The printed form holds no newline, comma, parenthesis or space. */
  lemma UuidTextCharacters(u: Uuid)
    ensures forall i :: 0 <= i < 36 ==> IsHexDigit(UuidText(u)[i]) || UuidText(u)[i] == '-'
  {
  }
}
