/**
 * Python's lower-case hexadecimal formatting (`format(v, 'x')`), its inverse
 * and the register rendering `f'0x{v:0>{n}x}'`.
 */
module Hex {
  import opened Text

  predicate IsHexDigit(c: char) {
    '0' <= c <= '9' || 'a' <= c <= 'f'
  }

  predicate AllHex(s: string) {
    forall i :: 0 <= i < |s| ==> IsHexDigit(s[i])
  }

  /** The lower-case digit of a value below 16. */
  function HexDigit(d: nat): (c: char)
    requires d < 16
    ensures IsHexDigit(c)
  {
    if d < 10 then ('0' as int + d) as char else ('a' as int + d - 10) as char
  }

  /** The value of one digit, the inverse of HexDigit. */
  function DigitValue(c: char): (d: nat)
    requires IsHexDigit(c)
    ensures d < 16 && HexDigit(d) == c
  {
    if c <= '9' then c as int - '0' as int else c as int - 'a' as int + 10
  }

  /** The value of a string of hexadecimal digits, most significant first. */
  function HexValue(s: string): nat
    requires AllHex(s)
  {
    if s == [] then 0 else 16 * HexValue(s[..|s| - 1]) + DigitValue(s[|s| - 1])
  }

  /** `format(v, 'x')`: the shortest digit string of `v`, without a leading zero. */
  function ToHex(v: nat): (s: string)
    ensures |s| >= 1 && AllHex(s)
    ensures v > 0 ==> s[0] != '0'
    ensures v < 16 ==> |s| == 1
    decreases v
  {
    if v < 16 then [HexDigit(v)] else ToHex(v / 16) + [HexDigit(v % 16)]
  }

  lemma {:induction false} HexRoundTrip(v: nat)
    ensures HexValue(ToHex(v)) == v
    decreases v
  {
    if v >= 16 {
      HexRoundTrip(v / 16);
      var s := ToHex(v);
      assert s[..|s| - 1] == ToHex(v / 16);
    }
  }

  /** Leading zeros do not change the value of a digit string. */
  lemma {:induction false} LeadingZeros(z: string, s: string)
    requires forall i :: 0 <= i < |z| ==> z[i] == '0'
    requires AllHex(s)
    ensures AllHex(z + s) && HexValue(z + s) == HexValue(s)
    decreases |s|, |z|
  {
    var t := z + s;
    if s == [] {
      if z != [] {
        assert t == z;
        LeadingZeros(z[..|z| - 1], s);
        assert t[..|t| - 1] == z[..|z| - 1] + s;
      }
    } else {
      LeadingZeros(z, s[..|s| - 1]);
      assert t[..|t| - 1] == z + s[..|s| - 1];
    }
  }

  /** The largest of two lengths. */
  function Max(a: nat, b: nat): nat {
    if a < b then b else a
  }

  /**
   * `f'0x{v:0>{n}x}'` with `n = int(size / 4)`: the prefix `0x`, then the
   * digits of `v` padded on the left with zeros to at least `size / 4`
   * digits (floor division), never truncated.
   */
  function HexText(v: nat, size: nat): (s: string)
    ensures |s| == 2 + Max(|ToHex(v)|, size / 4)
    ensures s[..2] == "0x"
    ensures AllHex(s[2..]) && HexValue(s[2..]) == v
  {
    var padded := PadLeft(ToHex(v), size / 4, '0');
    HexRoundTrip(v);
    ZeroPadded(ToHex(v), size / 4);
    assert ("0x" + padded)[2..] == padded;
    "0x" + padded
  }

  /** Padding digits on the left with zeros keeps them digits and keeps their value. */
  lemma ZeroPadded(digits: string, width: nat)
    requires AllHex(digits)
    ensures AllHex(PadLeft(digits, width, '0'))
    ensures HexValue(PadLeft(digits, width, '0')) == HexValue(digits)
  {
    var padded := PadLeft(digits, width, '0');
    var zeros := padded[..|padded| - |digits|];
    assert padded == zeros + digits;
    LeadingZeros(zeros, digits);
  }

  /** A value below 16 in a register of at least 4 bits: zeros, then its one digit. */
  lemma HexOfDigit(d: nat, size: nat)
    requires d < 16 && size >= 4
    ensures HexText(d, size) == "0x" + seq(size / 4 - 1, _ => '0') + [HexDigit(d)]
  {
    assert ToHex(d) == [HexDigit(d)];
  }

  function Pow16(n: nat): nat {
    if n == 0 then 1 else 16 * Pow16(n - 1)
  }

  function Pow2(n: nat): nat {
    if n == 0 then 1 else 2 * Pow2(n - 1)
  }

  lemma {:induction false} Pow2Pow16(n: nat)
    ensures Pow2(4 * n) == Pow16(n)
  {
    if n > 0 {
      Pow2Pow16(n - 1);
      var k := 4 * (n - 1);
      assert Pow2(k + 4) == 2 * Pow2(k + 3) == 4 * Pow2(k + 2) == 8 * Pow2(k + 1) == 16 * Pow2(k);
    }
  }

  /** A value below 16^n has at most n digits (n >= 1). */
  lemma {:induction false} HexLength(v: nat, n: nat)
    requires n >= 1 && v < Pow16(n)
    ensures |ToHex(v)| <= n
    decreases v
  {
    if v >= 16 {
      assert n >= 2;
      HexLength(v / 16, n - 1);
    }
  }

  /**
   * For a register whose size is a multiple of 4 bits and a value that fits
   * in it, the rendering has exactly `size / 4` digits.
   */
  lemma HexTextWidth(v: nat, size: nat)
    requires size >= 4 && size % 4 == 0 && v < Pow2(size)
    ensures |HexText(v, size)| == 2 + size / 4
  {
    Pow2Pow16(size / 4);
    HexLength(v, size / 4);
  }
}
