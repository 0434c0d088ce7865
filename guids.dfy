/** Guid.ToString("N"): a GUID written as 32 lower-case hexadecimal digits
    with no hyphens or braces. The GUID is taken as the 128-bit number those
    digits spell, most significant digit first. */
module Guids {

  function Pow16(k: nat): (p: nat)
    ensures p >= 1
  {
    if k == 0 then 1 else 16 * Pow16(k - 1)
  }

  /** A GUID: one of the 16^32 = 2^128 values. */
  type Guid = g: nat | g < Pow16(32)

  predicate IsLowerHexDigit(c: char) {
    '0' <= c <= '9' || 'a' <= c <= 'f'
  }

  function HexChar(d: nat): (c: char)
    requires d < 16
    ensures IsLowerHexDigit(c)
  {
    if d < 10 then '0' + d as char else 'a' + (d - 10) as char
  }

  function HexValue(c: char): (d: nat)
    requires IsLowerHexDigit(c)
    ensures d < 16
  {
    if c <= '9' then c as int - '0' as int else c as int - 'a' as int + 10
  }

  /** The low `width` hexadecimal digits of n, most significant first. */
  function HexDigits(n: nat, width: nat): (s: string)
    ensures |s| == width
    ensures forall i :: 0 <= i < |s| ==> IsLowerHexDigit(s[i])
  {
    if width == 0 then "" else HexDigits(n / 16, width - 1) + [HexChar(n % 16)]
  }

  /** The number a string of hexadecimal digits spells. */
  function ParseHex(s: string): nat
    requires forall i :: 0 <= i < |s| ==> IsLowerHexDigit(s[i])
  {
    if s == "" then 0 else ParseHex(s[..|s| - 1]) * 16 + HexValue(s[|s| - 1])
  }

  /** Guid.ToString("N"). */
  function FormatN(g: Guid): (id: string)
    ensures |id| == 32
    ensures forall i :: 0 <= i < |id| ==> IsLowerHexDigit(id[i])
  {
    HexDigits(g, 32)
  }

  lemma {:induction false} ParseHexDigits(n: nat, width: nat)
    requires n < Pow16(width)
    ensures ParseHex(HexDigits(n, width)) == n
  {
    if width > 0 {
      var s := HexDigits(n, width);
      assert s[..|s| - 1] == HexDigits(n / 16, width - 1);
      ParseHexDigits(n / 16, width - 1);
      var d := n % 16;
      assert HexValue(HexChar(d)) == d;
    }
  }

  /** Reading the 32 digits back gives the GUID: no two GUIDs share an id. */
  lemma FormatNRoundTrip(g: Guid)
    ensures ParseHex(FormatN(g)) == g
  {
    ParseHexDigits(g, 32);
  }

  lemma FormatNInjective(g1: Guid, g2: Guid)
    requires FormatN(g1) == FormatN(g2)
    ensures g1 == g2
  {
    FormatNRoundTrip(g1);
    FormatNRoundTrip(g2);
  }
}
