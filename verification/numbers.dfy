/**
  Conversions between numbers and text (character.hpp and std::to_string), with the
  out-of-range behaviour of a 64-bit `strtol`.
 */
module Numbers {
  import opened Characters
  import opened Parsing

  predicate IsDigitOf(base: nat, c: char) {
    if base == 16 then IsHexDigit(c) else IsDigit(c)
  }

  function DigitValue(c: char): (v: nat)
    requires IsHexDigit(c)
    ensures v < 16
  {
    if IsDigit(c) then c as int - '0' as int
    else if 'a' <= c then c as int - 'a' as int + 10
    else c as int - 'A' as int + 10
  }

  function DigitChar(d: nat): (c: char)
    requires d < 16
    ensures IsHexDigit(c) && DigitValue(c) == d
    ensures d < 10 ==> IsDigit(c)
    ensures d != 0 ==> c != '0'
  {
    if d < 10 then '0' + d as char else 'a' + (d - 10) as char
  }

  /** The text of `n`, most significant digit first and without leading zeros. */
  function ToText(n: nat, base: nat): (s: string)
    requires base == 10 || base == 16
    ensures s != [] && forall i :: 0 <= i < |s| ==> IsDigitOf(base, s[i])
  {
    if n < base then [DigitChar(n)] else ToText(n / base, base) + [DigitChar(n % base)]
  }

  /** The value of a text of digits, of any length. */
  function Value(s: string, base: nat): nat
    requires base == 10 || base == 16
    requires forall i :: 0 <= i < |s| ==> IsDigitOf(base, s[i])
  {
    if s == [] then 0 else
      assert IsDigitOf(base, s[|s| - 1]);
      Value(s[..|s| - 1], base) * base + DigitValue(s[|s| - 1])
  }

  /** from_hex_string and from_dec_string: -1 unless the text is digits within a long. */
  function FromText(s: string, base: nat): (v: int)
    requires base == 10 || base == 16
    ensures -1 <= v <= LONG_MAX
  {
    if s != [] && forall i :: 0 <= i < |s| ==> IsDigitOf(base, s[i]) then
      var v := Value(s, base);
      if v > LONG_MAX || (v == 0 && s[0] != '0') then -1 else v
    else -1
  }

  function ToHex(n: nat): string { ToText(n, 16) }

  function ToDec(n: nat): string { ToText(n, 10) }

  function FromHex(s: string): int { FromText(s, 16) }

  function FromDec(s: string): int { FromText(s, 10) }

  lemma {:induction false} ValueOfText(n: nat, base: nat)
    requires base == 10 || base == 16
    ensures Value(ToText(n, base), base) == n
    ensures n == 0 ==> ToText(n, base) == "0"
    decreases n
  {
    if n < base {
      assert [DigitChar(n)][..0] == [];
    } else {
      ValueOfText(n / base, base);
      var s := ToText(n / base, base);
      assert (s + [DigitChar(n % base)])[..|s|] == s;
    }
  }

  /** Reading back what was written, for every number that a long can hold. */
  lemma {:induction false} TextRoundTrip(n: nat, base: nat)
    requires base == 10 || base == 16
    ensures FromText(ToText(n, base), base) == if n <= LONG_MAX then n else -1
  {
    ValueOfText(n, base);
  }

  /** The zero test of the source never rejects: a text of value zero starts with '0'. */
  lemma {:induction false} ZeroStartsWithZero(s: string, base: nat)
    requires base == 10 || base == 16
    requires s != [] && forall i :: 0 <= i < |s| ==> IsDigitOf(base, s[i])
    requires Value(s, base) == 0
    ensures s[0] == '0'
  {
    if |s| > 1 {
      assert Value(s[..|s| - 1], base) == 0;
      ZeroStartsWithZero(s[..|s| - 1], base);
    }
  }

  /** Exactly which texts are refused: nothing to read, a stray character, or too large. */
  lemma {:induction false} FromTextRejects(s: string, base: nat)
    requires base == 10 || base == 16
    ensures FromText(s, base) == -1 <==>
            !(s != [] && forall i :: 0 <= i < |s| ==> IsDigitOf(base, s[i])) || Value(s, base) > LONG_MAX
  {
    if s != [] && forall i :: 0 <= i < |s| ==> IsDigitOf(base, s[i]) {
      if Value(s, base) == 0 {
        ZeroStartsWithZero(s, base);
      }
    }
  }

  function Power16(k: nat): nat {
    if k == 0 then 1 else 16 * Power16(k - 1)
  }

  lemma {:induction false} HexLength(n: nat, k: nat)
    requires 1 <= k && n < Power16(k)
    ensures |ToHex(n)| <= k
  {
    if n >= 16 {
      assert Power16(k) == 16 * Power16(k - 1);
      HexLength(n / 16, k - 1);
    }
  }

  /** Every size_t fits the sixteen digits that a chunk header admits. */
  lemma HexFitsSixteenDigits(n: nat)
    requires n <= SIZE_MAX
    ensures |ToHex(n)| <= 16
  {
    assert Power16(4) == 0x1_0000;
    assert Power16(8) == 0x1_0000_0000;
    assert Power16(12) == 0x1_0000_0000_0000;
    assert Power16(16) == 0x1_0000_0000_0000_0000;
    HexLength(n, 16);
  }
}
