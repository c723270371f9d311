/** The ECMAScript string and number built-ins that the modelled code calls:
    `String.prototype.trim`, `substring`, `startsWith`, `parseInt`,
    `String.fromCharCode` and the decimal form of a non-negative integer
    (`BigInt.prototype.toString`). Strings are sequences of code points. */
module JsString {
  import opened Wrappers

  /** WhiteSpace and LineTerminator code points (ECMAScript sections 12.2 and 12.3):
      the characters `trim` removes and `parseInt` skips. */
  predicate IsWhitespace(c: char) {
    || c == '\t' || c == '\U{000B}' || c == '\U{000C}' || c == ' ' || c == '\U{00A0}'
    || c == '\U{FEFF}' || c == '\U{1680}' || ('\U{2000}' <= c <= '\U{200A}')
    || c == '\U{202F}' || c == '\U{205F}' || c == '\U{3000}'
    || c == '\n' || c == '\r' || c == '\U{2028}' || c == '\U{2029}'
  }

  predicate AllWhitespace(s: string) {
    forall i :: 0 <= i < |s| ==> IsWhitespace(s[i])
  }

  /** Drops the leading white space. */
  function TrimStart(s: string): string {
    if |s| > 0 && IsWhitespace(s[0]) then TrimStart(s[1..]) else s
  }

  /** Drops the trailing white space. */
  function TrimEnd(s: string): string {
    if |s| > 0 && IsWhitespace(s[|s| - 1]) then TrimEnd(s[..|s| - 1]) else s
  }

  /** `TrimStart` removes exactly the leading run of white space. */
  lemma {:induction false} TrimStartSpec(s: string)
    ensures var r := TrimStart(s);
      && |r| <= |s| && r == s[|s| - |r|..]
      && AllWhitespace(s[..|s| - |r|])
      && (r != [] ==> !IsWhitespace(r[0]))
  {
    if |s| > 0 && IsWhitespace(s[0]) {
      TrimStartSpec(s[1..]);
      var r := TrimStart(s);
      assert s[1..][..|s| - 1 - |r|] == s[1..|s| - |r|];
      assert s[..|s| - |r|] == [s[0]] + s[1..|s| - |r|];
    }
  }

  /** `TrimEnd` removes exactly the trailing run of white space. */
  lemma {:induction false} TrimEndSpec(s: string)
    ensures var r := TrimEnd(s);
      && |r| <= |s| && r == s[..|r|]
      && AllWhitespace(s[|r|..])
      && (r != [] ==> !IsWhitespace(r[|r| - 1]))
  {
    if |s| > 0 && IsWhitespace(s[|s| - 1]) {
      var init := s[..|s| - 1];
      TrimEndSpec(init);
      var r := TrimEnd(s);
      assert init[|r|..] + [s[|s| - 1]] == s[|r|..];
    }
  }

  /** `s.trim()`. */
  function Trim(s: string): string {
    TrimEnd(TrimStart(s))
  }

  /** `!s.trim()`: the trimmed string is empty exactly when every character is white space. */
  lemma TrimEmptyIffBlank(s: string)
    ensures Trim(s) == [] <==> AllWhitespace(s)
  {
    var t := TrimStart(s);
    TrimStartSpec(s);
    TrimEndSpec(t);
    assert t != [] ==> t[0] == s[|s| - |t|];
    assert t == [] ==> s[..|s|] == s;
  }

  function Clamp(x: int, hi: nat): (r: nat)
    ensures r <= hi
  {
    if x < 0 then 0 else if x > hi then hi else x
  }

  /** `s.substring(start, end)`: both positions are clamped to the string, and
      the smaller one is taken as the start. */
  function Substring(s: string, start: int, end: int): (r: string)
    ensures |r| <= |s|
    ensures 0 <= start <= end <= |s| ==> r == s[start..end]
    ensures 0 <= start <= |s| <= end ==> r == s[start..]
  {
    var a, b := Clamp(start, |s|), Clamp(end, |s|);
    if a <= b then s[a..b] else s[b..a]
  }

  /** `s.startsWith(p)`. */
  predicate StartsWith(s: string, p: string) {
    |p| <= |s| && s[..|p|] == p
  }

  /** The value of a digit in radix 36; 36 for a character that is no digit. */
  function DigitValue(c: char): (v: nat)
    ensures v <= 36
    ensures v < 10 <==> '0' <= c <= '9'
  {
    if '0' <= c <= '9' then c as int - '0' as int
    else if 'a' <= c <= 'z' then c as int - 'a' as int + 10
    else if 'A' <= c <= 'Z' then c as int - 'A' as int + 10
    else 36
  }

  /** The longest prefix of `s` made of digits of radix `radix`. */
  function DigitPrefix(s: string, radix: nat): (z: string)
    ensures |z| <= |s| && z == s[..|z|]
  {
    if |s| > 0 && DigitValue(s[0]) < radix then [s[0]] + DigitPrefix(s[1..], radix) else []
  }

  /** `DigitPrefix` is made of digits and stops at the first character that is none. */
  lemma {:induction false} DigitPrefixSpec(s: string, radix: nat)
    ensures var z := DigitPrefix(s, radix);
      && (forall i :: 0 <= i < |z| ==> DigitValue(z[i]) < radix)
      && (|z| < |s| ==> DigitValue(s[|z|]) >= radix)
  {
    if |s| > 0 && DigitValue(s[0]) < radix {
      DigitPrefixSpec(s[1..], radix);
      var z := DigitPrefix(s, radix);
      assert forall i :: 1 <= i < |z| ==> z[i] == DigitPrefix(s[1..], radix)[i - 1];
    }
  }

  /** The number that a string of digits denotes in radix `radix`. */
  function DigitsValue(z: string, radix: nat): nat {
    if z == [] then 0 else DigitsValue(z[..|z| - 1], radix) * radix + DigitValue(z[|z| - 1])
  }

  /** `parseInt(input, radix)`, following ECMAScript section 19.2.5; `radix == 0`
      stands for an absent radix. `None` is `NaN`; `-0` is 0, since the modelled
      code only compares the result and converts it to a character code. */
  function ParseInt(input: string, radix: int): Option<int> {
    var s := TrimStart(input);
    if radix != 0 && (radix < 2 || radix > 36) then None
    else ParseDigits(StripSign(s), IsNegative(s), radix)
  }

  predicate IsNegative(s: string) {
    |s| > 0 && s[0] == '-'
  }

  function StripSign(s: string): string {
    if |s| > 0 && (s[0] == '-' || s[0] == '+') then s[1..] else s
  }

  predicate HasHexPrefix(s: string) {
    |s| >= 2 && s[0] == '0' && (s[1] == 'x' || s[1] == 'X')
  }

  /** Steps 8 to 16 of `parseInt`: the radix, the `0x` prefix, the digits. */
  function ParseDigits(s: string, negative: bool, radix: int): Option<int>
    requires radix == 0 || 2 <= radix <= 36
  {
    var hasPrefix := (radix == 0 || radix == 16) && HasHexPrefix(s);
    var rest := if hasPrefix then s[2..] else s;
    var r: nat := if hasPrefix then 16 else if radix == 0 then 10 else radix;
    var z := DigitPrefix(rest, r);
    var v: int := DigitsValue(z, r);
    if z == [] then None else Some(if negative then -v else v)
  }

  /** Parsing at most two characters in radix 16 gives NaN or a value in -255..255. */
  lemma ParseIntShortHexRange(s: string)
    requires |s| <= 2
    ensures ParseInt(s, 16).Some? ==> -255 <= ParseInt(s, 16).value <= 255
  {
    TrimStartSpec(s);
    var s1 := StripSign(TrimStart(s));
    var rest := if HasHexPrefix(s1) then s1[2..] else s1;
    var z := DigitPrefix(rest, 16);
    DigitPrefixSpec(rest, 16);
    assert |z| <= 2;
    if |z| >= 1 {
      assert DigitsValue(z[..1], 16) == DigitValue(z[0]) by { assert z[..1][..0] == []; }
    }
    if |z| == 2 {
      assert z[..1] == z[..|z| - 1];
    }
  }

  predicate IsHexDigit(c: char) {
    ('0' <= c <= '9') || ('a' <= c <= 'f') || ('A' <= c <= 'F')
  }

  /** Two hex digits parse to the byte they spell. */
  lemma ParseIntHexPair(c1: char, c2: char)
    requires IsHexDigit(c1) && IsHexDigit(c2)
    ensures ParseInt([c1, c2], 16) == Some(DigitValue(c1) * 16 + DigitValue(c2))
  {
    var s := [c1, c2];
    assert !IsWhitespace(c1);
    assert TrimStart(s) == s;
    assert StripSign(s) == s && !IsNegative(s) && !HasHexPrefix(s);
    assert DigitValue(c1) < 16 && DigitValue(c2) < 16;
    DigitPrefixAll(s, 16);
    assert s[..1] == [c1] && [c1][..0] == [];
    assert DigitsValue([c1], 16) == DigitValue(c1);
    assert DigitsValue(s, 16) == DigitValue(c1) * 16 + DigitValue(c2);
    assert ParseDigits(s, false, 16) == Some(DigitsValue(s, 16));
  }

  /** `String.fromCharCode(v)` for the values `parseInt` gives on two characters:
      the code is `v` modulo 2^16, and `NaN` gives code 0. */
  function FromCharCode(v: Option<int>): (c: char)
    requires v.Some? ==> -255 <= v.value <= 255
    ensures v.None? ==> c == '\0'
    ensures v.Some? && v.value >= 0 ==> c as int == v.value
    // ToUint16 wraps a negative code around 2^16
    ensures v.Some? && v.value < 0 ==> c as int == v.value + 0x1_0000
  {
    match v
    case None => '\0'
    case Some(n) =>
      var code := n % 0x1_0000;
      assert code <= 255 || 0xFF01 <= code;
      code as char
  }

  function DigitChar(d: nat): (c: char)
    requires d < 10
    ensures DigitValue(c) == d
  {
    ('0' as int + d) as char
  }

  /** The decimal form of `n`, as `toString` writes it: no sign, no leading zero. */
  function Decimal(n: nat): (s: string)
    ensures |s| >= 1
    ensures forall i :: 0 <= i < |s| ==> '0' <= s[i] <= '9'
    ensures |s| > 1 ==> s[0] != '0'
  {
    if n < 10 then [DigitChar(n)] else Decimal(n / 10) + [DigitChar(n % 10)]
  }

  lemma {:induction false} DecimalValue(n: nat)
    ensures DigitsValue(Decimal(n), 10) == n
  {
    var s := Decimal(n);
    if n < 10 {
      assert s[..0] == [];
    } else {
      assert s[..|s| - 1] == Decimal(n / 10);
      DecimalValue(n / 10);
    }
  }

  lemma {:induction false} DigitPrefixAll(s: string, radix: nat)
    requires forall i :: 0 <= i < |s| ==> DigitValue(s[i]) < radix
    ensures DigitPrefix(s, radix) == s
  {
    if |s| > 0 {
      DigitPrefixAll(s[1..], radix);
    }
  }

  /** `parseInt(String(n))` is `n`: parsing undoes the decimal form. */
  lemma ParseIntDecimal(n: nat)
    ensures ParseInt(Decimal(n), 0) == Some(n)
  {
    var s := Decimal(n);
    assert !IsWhitespace(s[0]);
    assert TrimStart(s) == s;
    assert |s| >= 2 ==> s[1] != 'x' && s[1] != 'X';
    DigitPrefixAll(s, 10);
    DecimalValue(n);
  }
}
