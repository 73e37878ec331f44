/**
  Number text in the assembler: the two Python conversions it relies on
  and the hexadecimal it prints. `int(s)` (used by `parse_reg`) reads
  decimal digits and allows leading zeros; `int(s, 0)` (used by
  `get_val`) also reads `0x`, `0o` and `0b` prefixes and rejects a
  decimal number with a leading zero. Both accept an optional sign,
  surrounding whitespace and single underscores between digits. Only
  ASCII digits are covered.
 */
module Literals {
  import opened Results
  import opened AsmText
  import Words

  // ----- digits -----

  /** The value of an ASCII digit in bases up to 16; 16 for anything else. */
  function DigitValue(c: char): (d: nat)
    ensures d <= 16
  {
    if '0' <= c <= '9' then c as nat - '0' as nat
    else if 'a' <= c <= 'f' then c as nat - 'a' as nat + 10
    else if 'A' <= c <= 'F' then c as nat - 'A' as nat + 10
    else 16
  }

  predicate IsDigit(c: char, base: nat)
  {
    DigitValue(c) < base
  }

  /** Digits of `base` with single underscores between them. */
  predicate WellGrouped(s: string, base: nat)
  {
    && |s| > 0 && IsDigit(s[0], base) && IsDigit(s[|s| - 1], base)
    && (forall i | 0 <= i < |s| :: IsDigit(s[i], base) || s[i] == '_')
    && (forall i | 0 <= i < |s| - 1 :: s[i] == '_' ==> s[i + 1] != '_')
  }

  /** The number the digits of s spell in `base`, underscores skipped. */
  function GroupedValue(s: string, base: nat): nat
  {
    if s == [] then 0
    else if s[|s| - 1] == '_' then GroupedValue(s[..|s| - 1], base)
    else GroupedValue(s[..|s| - 1], base) * base + DigitValue(s[|s| - 1])
  }

  /** An optional `+` or `-` in front. */
  function SplitSign(s: string): (r: (bool, string))
    ensures r.1 == if s != [] && (s[0] == '+' || s[0] == '-') then s[1..] else s
  {
    if s != [] && s[0] == '-' then (true, s[1..])
    else if s != [] && s[0] == '+' then (false, s[1..])
    else (false, s)
  }

  function ApplySign(negative: bool, v: nat): int
  {
    if negative then -(v as int) else v
  }

  // ----- the two conversions -----

  /** `int(s)`: whitespace, a sign, then decimal digits, leading zeros
      allowed. `None` where Python raises `ValueError`. */
  function ParseInt(s: string): (r: Option<int>)
    ensures r.Some? <==> WellGrouped(SplitSign(Strip(s)).1, 10)
  {
    var (negative, body) := SplitSign(Strip(s));
    if WellGrouped(body, 10) then Some(ApplySign(negative, GroupedValue(body, 10))) else None
  }

  /** The base a `0x`, `0o` or `0b` prefix (either case) selects, or 0. */
  function PrefixBase(s: string): (base: nat)
    ensures base in {0, 2, 8, 16}
    ensures base != 0 ==> |s| >= 2 && s[0] == '0'
  {
    if |s| < 2 || s[0] != '0' then 0
    else if s[1] == 'x' || s[1] == 'X' then 16
    else if s[1] == 'o' || s[1] == 'O' then 8
    else if s[1] == 'b' || s[1] == 'B' then 2
    else 0
  }

  /** Every digit is a zero. */
  predicate AllZeros(s: string)
  {
    forall i | 0 <= i < |s| :: s[i] == '0' || s[i] == '_'
  }

  /** The unsigned part of `int(s, 0)`: a prefixed number (an underscore may
      follow the prefix), or a decimal without a leading zero, or zeros. */
  function ParseUnsigned(s: string): (r: Option<nat>)
  {
    var base := PrefixBase(s);
    if base != 0 then
      var digits := if |s| > 2 && s[2] == '_' then s[3..] else s[2..];
      if WellGrouped(digits, base) then Some(GroupedValue(digits, base)) else None
    else if WellGrouped(s, 10) && (s[0] != '0' || AllZeros(s)) then Some(GroupedValue(s, 10))
    else None
  }

  /** `int(s, 0)`: a Python integer literal with optional whitespace and
      sign. `None` where Python raises `ValueError`. */
  function ParseLiteral(s: string): (r: Option<int>)
  {
    SignedValue(SplitSign(Strip(s)))
  }

  /** The value of a sign and an unsigned part, `None` where the part is
      not an unsigned literal. */
  function SignedValue(parts: (bool, string)): Option<int>
  {
    match ParseUnsigned(parts.1)
    case None => None
    case Some(v) => Some(ApplySign(parts.0, v))
  }

  // ----- printing -----

  function DigitChar(d: nat): (c: char)
    requires d < 16
    ensures DigitValue(c) == d
  {
    "0123456789ABCDEF"[d]
  }

  /** n in `base` without leading zeros ("0" for zero), upper case. */
  function Digits(n: nat, base: nat): (s: string)
    requires 2 <= base <= 16
    ensures |s| > 0 && forall i | 0 <= i < |s| :: IsDigit(s[i], base)
    ensures n > 0 ==> s[0] != '0'
    ensures n == 0 ==> s == "0"
    decreases n
  {
    if n < base then [DigitChar(n)]
    else
      DivStep(n, base);
      var init := Digits(n / base, base);
      var s := init + [DigitChar(n % base)];
      assert s[0] == init[0];
      s
  }

  /** `f"{n:04X}"`: upper-case hexadecimal, zero-padded to four digits. */
  function Hex4(n: nat): (s: string)
    ensures |s| >= 4 && forall i | 0 <= i < |s| :: IsDigit(s[i], 16)
  {
    var d := Digits(n, 16);
    if |d| >= 4 then d else seq(4 - |d|, _ => '0') + d
  }

  /** The assembler's output line for one instruction: `%04X %04X`. */
  function FormatLine(address: nat, word: nat): string
  {
    Hex4(address) + " " + Hex4(word)
  }

  // ----- round trips -----

  /** Reading back the digits printed for n gives n. */
  lemma {:induction false} DigitsValue(n: nat, base: nat)
    requires 2 <= base <= 16
    ensures WellGrouped(Digits(n, base), base)
    ensures GroupedValue(Digits(n, base), base) == n
    decreases n
  {
    var s := Digits(n, base);
    DigitsGrouped(s, base);
    if n >= base {
      var q, r := n / base, n % base;
      DivStep(n, base);
      var init := Digits(q, base);
      DigitsValue(q, base);
      assert s == init + [DigitChar(r)];
      assert s[..|s| - 1] == init;
      assert GroupedValue(s, base) == GroupedValue(init, base) * base + r;
    }
  }

  /** One digit off the end: n = (n / b) * b + n % b, and n / b < n. */
  lemma DivStep(n: nat, b: nat)
    requires 2 <= b <= n
    ensures n / b < n && n == n / b * b + n % b
  {
    var q, r := n / b, n % b;
    Words.DivMod(n, b);
    Words.MulComm(q, q, b);
    if q > 0 {
      Words.MulMono(q, 2, b);
    }
  }

  /** A non-empty run of digits is well grouped. */
  lemma DigitsGrouped(s: string, base: nat)
    requires base <= 16
    requires |s| > 0 && forall i | 0 <= i < |s| :: IsDigit(s[i], base)
    ensures WellGrouped(s, base)
  {
    assert !IsDigit('_', base);
  }

  /** Leading zeros do not change the value. */
  lemma {:induction false} LeadingZeros(k: nat, s: string, base: nat)
    requires 2 <= base
    ensures GroupedValue(seq(k, _ => '0') + s, base) == GroupedValue(s, base)
    decreases |s|, k
  {
    var z := seq(k, _ => '0');
    if s == [] {
      if k > 0 {
        assert z == seq(k - 1, _ => '0') + ['0'];
        assert z + s == z;
        LeadingZeros(k - 1, [], base);
        assert seq(k - 1, _ => '0') + [] == seq(k - 1, _ => '0');
      }
    } else {
      assert (z + s)[..|z + s| - 1] == z + s[..|s| - 1];
      LeadingZeros(k, s[..|s| - 1], base);
    }
  }

  /** A decimal printed without leading zeros reads back under both
      conversions, with either sign. */
  lemma DecimalRoundTrip(n: nat)
    ensures ParseLiteral(Digits(n, 10)) == Some(n)
    ensures ParseLiteral("-" + Digits(n, 10)) == Some(-(n as int))
    ensures ParseInt(Digits(n, 10)) == Some(n)
  {
    DigitsValue(n, 10);
    ReadDecimal(Digits(n, 10), n);
  }

  /** Well-grouped decimal digits without a leading zero (or a lone zero)
      read back as their value. */
  lemma ReadDecimal(d: string, n: nat)
    requires WellGrouped(d, 10) && GroupedValue(d, 10) == n
    requires d[0] != '0' || d == "0"
    ensures ParseLiteral(d) == Some(n)
    ensures ParseLiteral("-" + d) == Some(-(n as int))
    ensures ParseInt(d) == Some(n)
  {
    ReadUnsignedDecimal(d, n);
    ReadNegativeDecimal(d, n);
  }

  lemma ReadUnsignedDecimal(d: string, n: nat)
    requires WellGrouped(d, 10) && GroupedValue(d, 10) == n
    requires d[0] != '0' || d == "0"
    ensures ParseLiteral(d) == Some(n)
    ensures ParseInt(d) == Some(n)
  {
    SignedDigits(d, 10);
    UnsignedDecimal(d, n);
    UnsignedLiteral(d, d, n);
  }

  lemma ReadNegativeDecimal(d: string, n: nat)
    requires WellGrouped(d, 10) && GroupedValue(d, 10) == n
    requires d[0] != '0' || d == "0"
    ensures ParseLiteral("-" + d) == Some(-(n as int))
  {
    SignedDigits(d, 10);
    UnsignedDecimal(d, n);
    NegatedLiteral("-" + d, d, n);
  }

  /** `int(s, 0)` of a minus sign before an unsigned literal. */
  lemma NegatedLiteral(s: string, body: string, v: nat)
    requires SplitSign(Strip(s)) == (true, body) && ParseUnsigned(body) == Some(v)
    ensures ParseLiteral(s) == Some(-(v as int))
  {
    assert ParseLiteral(s) == SignedValue((true, body));
    NegatedValue(body, v);
  }

  lemma NegatedValue(body: string, v: nat)
    requires ParseUnsigned(body) == Some(v)
    ensures SignedValue((true, body)) == Some(-(v as int))
  {
    assert SignedValue((true, body)) == Some(ApplySign(true, v));
  }

  /** The unsigned part of `int(s, 0)` reads a decimal without a leading
      zero. */
  lemma UnsignedDecimal(d: string, n: nat)
    requires WellGrouped(d, 10) && GroupedValue(d, 10) == n
    requires d[0] != '0' || d == "0"
    ensures ParseUnsigned(d) == Some(n)
  {
    assert PrefixBase(d) == 0;
    assert d[0] != '0' || AllZeros(d);
  }

  /** `int(s, 0)` of an unsigned literal with no sign or a plus sign. */
  lemma UnsignedLiteral(s: string, body: string, v: nat)
    requires SplitSign(Strip(s)) == (false, body) && ParseUnsigned(body) == Some(v)
    ensures ParseLiteral(s) == Some(v)
  {
    assert ParseLiteral(s) == SignedValue((false, body));
    UnsignedValue(body, v);
  }

  lemma UnsignedValue(body: string, v: nat)
    requires ParseUnsigned(body) == Some(v)
    ensures SignedValue((false, body)) == Some(v)
  {
    assert SignedValue((false, body)) == Some(ApplySign(false, v));
  }

  /** Digits, bare or behind a minus sign, are already trimmed and split
      into sign and digits as written. */
  lemma SignedDigits(d: string, base: nat)
    requires WellGrouped(d, base) && base <= 16
    ensures SplitSign(Strip(d)) == (false, d)
    ensures SplitSign(Strip("-" + d)) == (true, d)
  {
    PrefixedTrimmed("-", d, base);
    UnsignedSplit(d);
    StripTrimmed("-" + d);
  }

  /** A trimmed text that does not begin with a sign is all unsigned part. */
  lemma UnsignedSplit(d: string)
    requires d != [] && Trimmed(d) && d[0] != '-' && d[0] != '+'
    ensures SplitSign(Strip(d)) == (false, d)
  {
    StripTrimmed(d);
    assert SplitSign(d) == (false, d);
  }

  /** Digits behind a non-blank prefix: both are trimmed, and the prefix
      comes off again as written. */
  lemma PrefixedTrimmed(p: string, d: string, base: nat)
    requires WellGrouped(d, base) && base <= 16
    requires p != [] && !IsSpace(p[0])
    ensures Trimmed(d) && Trimmed(p + d) && d[0] != '-' && d[0] != '+'
    ensures (p + d)[..|p|] == p && (p + d)[|p|..] == d
  {
    var m := p + d;
    assert |m| == |p| + |d| && m[|p|..] == d && m[..|p|] == p;
    DigitNotSpace(d[0], base);
    DigitNotSpace(d[|d| - 1], base);
    assert m[0] == p[0] && m[|m| - 1] == d[|d| - 1];
  }

  /** A digit is neither whitespace nor a sign. */
  lemma DigitNotSpace(c: char, base: nat)
    requires IsDigit(c, base) && base <= 16
    ensures !IsSpace(c) && c != '-' && c != '+'
  {
  }

  /** The four-digit hexadecimal the assembler prints reads back as a
      `0x` literal. */
  lemma HexRoundTrip(n: nat)
    ensures ParseLiteral("0x" + Hex4(n)) == Some(n)
  {
    HexValue(n);
    ReadHex(Hex4(n), n);
  }

  /** Well-grouped hexadecimal digits behind `0x` read back as their value. */
  lemma ReadHex(h: string, n: nat)
    requires WellGrouped(h, 16) && GroupedValue(h, 16) == n
    ensures ParseLiteral("0x" + h) == Some(n)
  {
    PrefixedTrimmed("0x", h, 16);
    StripTrimmed("0x" + h);
    assert PrefixBase("0x" + h) == 16;
  }

  /** The digits of `Hex4(n)` spell n. */
  lemma HexValue(n: nat)
    ensures WellGrouped(Hex4(n), 16) && GroupedValue(Hex4(n), 16) == n
  {
    var d := Digits(n, 16);
    DigitsValue(n, 16);
    DigitsGrouped(Hex4(n), 16);
    if |d| < 4 {
      LeadingZeros(4 - |d|, d, 16);
    }
  }

  /** `int` and `int(s, 0)` part ways on a leading zero: "07" is a register
      number but not a literal. */
  lemma LeadingZeroRule(n: nat)
    requires 0 < n
    ensures ParseInt("0" + Digits(n, 10)) == Some(n)
    ensures ParseLiteral("0" + Digits(n, 10)) == None
  {
    DigitsValue(n, 10);
    ZeroPrefixed(Digits(n, 10), n);
  }

  /** A zero in front of well-grouped decimal digits that do not start
      with zero. */
  lemma ZeroPrefixed(d: string, n: nat)
    requires WellGrouped(d, 10) && GroupedValue(d, 10) == n && d[0] != '0'
    ensures ParseInt("0" + d) == Some(n)
    ensures ParseLiteral("0" + d) == None
  {
    var s := "0" + d;
    ZeroPrefixedShape(d);
    LeadingZeros(1, d, 10);
    assert seq(1, _ => '0') == "0";
    assert s[1] == d[0];
    assert !AllZeros(s);
    LeadingZeroRejected(s);
  }

  /** `int(s, 0)` rejects a decimal with a leading zero that is not all
      zeros. */
  lemma LeadingZeroRejected(s: string)
    requires |s| >= 2 && s[0] == '0' && '0' <= s[1] <= '9' && !AllZeros(s)
    ensures ParseUnsigned(s) == None
  {
    assert PrefixBase(s) == 0;
  }

  /** A zero in front of well-grouped decimal digits leaves them well
      grouped, unsigned and trimmed. */
  lemma ZeroPrefixedShape(d: string)
    requires WellGrouped(d, 10)
    ensures WellGrouped("0" + d, 10)
    ensures SplitSign(Strip("0" + d)) == (false, "0" + d)
  {
    var s := "0" + d;
    assert WellGrouped(s, 10) by {
      forall i | 1 <= i < |s| ensures s[i] == d[i - 1] { }
    }
    DigitNotSpace(d[|d| - 1], 10);
    assert s[0] == '0' && s[|s| - 1] == d[|d| - 1];
    assert Trimmed(s);
    StripTrimmed(s);
  }
}
