/**
  Numerals as people write them, for saying what the readers and printers of numbers are about: the
  digits of a number, the most significant first, with any number of zeros before them.
 */
module Numerals {
  /** The number has at most this many digits. */
  predicate HasDigits(n: nat, base: nat, width: nat)
    requires base == 10 || base == 16
  {
    if width == 0 then n == 0 else HasDigits(n / base, base, width - 1)
  }

  function DecimalDigit(d: nat): (c: char)
    requires d < 10
    ensures '0' <= c <= '9'
  {
    "0123456789"[d]
  }

  /** `width` decimal digits of the number. */
  function Decimal(n: nat, width: nat): (s: string)
    ensures |s| == width && forall i :: 0 <= i < width ==> '0' <= s[i] <= '9'
  {
    if width == 0 then "" else Decimal(n / 10, width - 1) + [DecimalDigit(n % 10)]
  }

  function HexDigit(d: nat, capital: bool): (c: char)
    requires d < 16
    ensures '0' <= c <= 'f'
  {
    if capital then "0123456789ABCDEF"[d] else "0123456789abcdef"[d]
  }

  /** Hexadecimal digits of the number, each letter as a capital or not. */
  function Hexadecimal(n: nat, capitals: seq<bool>): (s: string)
    ensures |s| == |capitals| && forall i :: 0 <= i < |s| ==> '0' <= s[i] <= 'f'
  {
    if capitals == [] then ""
    else
      var last := |capitals| - 1;
      Hexadecimal(n / 16, capitals[..last]) + [HexDigit(n % 16, capitals[last])]
  }
}
