/** Base-16 integer literals: the part of Python's `int(text, 16)` that the colour
    parser relies on. Only ASCII hex digits are accepted (either case); a sign,
    surrounding whitespace, underscores, a `0x` prefix or a non-ASCII digit make
    the literal invalid here. */
module Hex {
  import opened Wrappers

  predicate IsHexDigit(c: char) {
    ('0' <= c <= '9') || ('a' <= c <= 'f') || ('A' <= c <= 'F')
  }

  predicate AllHex(s: string) {
    forall i :: 0 <= i < |s| ==> IsHexDigit(s[i])
  }

  /** The value of one hex digit; upper and lower case letters agree. */
  function DigitValue(c: char): (v: nat)
    requires IsHexDigit(c)
    ensures v < 16
    ensures v < 10 <==> '0' <= c <= '9'
  {
    if '0' <= c <= '9' then c as int - '0' as int
    else if 'a' <= c <= 'f' then c as int - 'a' as int + 10
    else c as int - 'A' as int + 10
  }

  function Pow16(k: nat): (p: nat)
    ensures p >= 1
  {
    if k == 0 then 1 else 16 * Pow16(k - 1)
  }

  /** Positional value of a digit string, most significant digit first. */
  function DigitsValue(s: string): (v: nat)
    requires AllHex(s)
    ensures v < Pow16(|s|)
    decreases |s|
  {
    if |s| == 0 then 0
    else
      var high := DigitsValue(s[..|s| - 1]);
      assert high <= Pow16(|s| - 1) - 1;
      assert high * 16 <= Pow16(|s|) - 16;
      high * 16 + DigitValue(s[|s| - 1])
  }

  /** `int(s, 16)`: None stands for the ValueError Python raises on an empty or
      non-hex literal. */
  function ParseInt16(s: string): (r: Option<nat>)
    ensures r.Some? <==> |s| > 0 && AllHex(s)
    ensures r.Some? ==> r.value < Pow16(|s|)
  {
    if |s| > 0 && AllHex(s) then Some(DigitsValue(s)) else None
  }

  /** A two-digit literal is worth sixteen times its first digit plus its second. */
  lemma TwoDigits(s: string)
    requires |s| == 2 && AllHex(s)
    ensures ParseInt16(s) == Some(16 * DigitValue(s[0]) + DigitValue(s[1]))
    ensures ParseInt16(s).value < 256
  {
    assert s[..1][..0] == [];
    assert DigitsValue(s[..1]) == DigitValue(s[0]);
    assert DigitsValue(s) == DigitsValue(s[..1]) * 16 + DigitValue(s[1]);
  }

  /** A one-digit literal is worth the digit itself. */
  lemma OneDigit(s: string)
    requires |s| == 1 && AllHex(s)
    ensures ParseInt16(s) == Some(DigitValue(s[0]))
  {
    assert s[..0] == [];
  }

  /** The lower-case digit for a value below sixteen. */
  function HexChar(d: nat): (c: char)
    requires d < 16
    ensures IsHexDigit(c) && DigitValue(c) == d
  {
    if d < 10 then ('0' as int + d) as char else ('a' as int + d - 10) as char
  }

  /** `format(n, '0<width>x')`: `n` written in exactly `width` lower-case hex digits. */
  function ToHex(n: nat, width: nat): (s: string)
    requires n < Pow16(width)
    ensures |s| == width && AllHex(s)
  {
    if width == 0 then ""
    else ToHex(n / 16, width - 1) + [HexChar(n % 16)]
  }

  /** Formatting then parsing gives the number back. */
  lemma {:induction false} DigitsValueToHex(n: nat, width: nat)
    requires n < Pow16(width)
    ensures DigitsValue(ToHex(n, width)) == n
  {
    if width > 0 {
      var s := ToHex(n, width);
      DigitsValueToHex(n / 16, width - 1);
      assert s[..|s| - 1] == ToHex(n / 16, width - 1);
    }
  }

  lemma ParseToHex(n: nat, width: nat)
    requires 0 < width && n < Pow16(width)
    ensures ParseInt16(ToHex(n, width)) == Some(n)
  {
    DigitsValueToHex(n, width);
  }
}
