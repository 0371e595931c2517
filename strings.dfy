/** Python string operations the core relies on, stated over `seq<char>`. */
module Strings {

  /**
   * The characters `str.isspace()` accepts, which are also the ones the regex
   * class `\s` matches in a `str` pattern and the ones `str.strip()` removes:
   * the ASCII blanks, the separators `\x1c`-`\x1f`, NEL, NO-BREAK SPACE and
   * the other Unicode spaces (Unicode 15.0).
   */
  predicate IsSpace(c: char) {
    var n := c as int;
    0x9 <= n <= 0xD || 0x1C <= n <= 0x20 || n == 0x85 || n == 0xA0 || n == 0x1680
      || 0x2000 <= n <= 0x200A || 0x2028 <= n <= 0x2029 || n == 0x202F || n == 0x205F
      || n == 0x3000
  }

  /** An ASCII digit, as `strftime` writes them. */
  predicate IsDigit(c: char) {
    '0' <= c <= '9'
  }

  /**
   * A decimal digit (general category Nd, Unicode 15.0): the characters the
   * regex class `\d` matches in a `str` pattern.
   */
  predicate IsDecimal(c: char) {
    var n := c as int;
    0x30 <= n <= 0x39 || 0x660 <= n <= 0x669 || 0x6F0 <= n <= 0x6F9 || 0x7C0 <= n <= 0x7C9
      || 0x966 <= n <= 0x96F || 0x9E6 <= n <= 0x9EF || 0xA66 <= n <= 0xA6F || 0xAE6 <= n <= 0xAEF
      || 0xB66 <= n <= 0xB6F || 0xBE6 <= n <= 0xBEF || 0xC66 <= n <= 0xC6F || 0xCE6 <= n <= 0xCEF
      || 0xD66 <= n <= 0xD6F || 0xDE6 <= n <= 0xDEF || 0xE50 <= n <= 0xE59 || 0xED0 <= n <= 0xED9
      || 0xF20 <= n <= 0xF29 || 0x1040 <= n <= 0x1049 || 0x1090 <= n <= 0x1099
      || 0x17E0 <= n <= 0x17E9 || 0x1810 <= n <= 0x1819 || 0x1946 <= n <= 0x194F
      || 0x19D0 <= n <= 0x19D9 || 0x1A80 <= n <= 0x1A89 || 0x1A90 <= n <= 0x1A99
      || 0x1B50 <= n <= 0x1B59 || 0x1BB0 <= n <= 0x1BB9 || 0x1C40 <= n <= 0x1C49
      || 0x1C50 <= n <= 0x1C59 || 0xA620 <= n <= 0xA629 || 0xA8D0 <= n <= 0xA8D9
      || 0xA900 <= n <= 0xA909 || 0xA9D0 <= n <= 0xA9D9 || 0xA9F0 <= n <= 0xA9F9
      || 0xAA50 <= n <= 0xAA59 || 0xABF0 <= n <= 0xABF9 || 0xFF10 <= n <= 0xFF19
      || 0x104A0 <= n <= 0x104A9 || 0x10D30 <= n <= 0x10D39 || 0x11066 <= n <= 0x1106F
      || 0x110F0 <= n <= 0x110F9 || 0x11136 <= n <= 0x1113F || 0x111D0 <= n <= 0x111D9
      || 0x112F0 <= n <= 0x112F9 || 0x11450 <= n <= 0x11459 || 0x114D0 <= n <= 0x114D9
      || 0x11650 <= n <= 0x11659 || 0x116C0 <= n <= 0x116C9 || 0x11730 <= n <= 0x11739
      || 0x118E0 <= n <= 0x118E9 || 0x11950 <= n <= 0x11959 || 0x11C50 <= n <= 0x11C59
      || 0x11D50 <= n <= 0x11D59 || 0x11DA0 <= n <= 0x11DA9 || 0x11F50 <= n <= 0x11F59
      || 0x16A60 <= n <= 0x16A69 || 0x16AC0 <= n <= 0x16AC9 || 0x16B50 <= n <= 0x16B59
      || 0x1D7CE <= n <= 0x1D7FF || 0x1E140 <= n <= 0x1E149 || 0x1E2F0 <= n <= 0x1E2F9
      || 0x1E4F0 <= n <= 0x1E4F9 || 0x1E950 <= n <= 0x1E959 || 0x1FBF0 <= n <= 0x1FBF9
  }

  predicate StartsWith(s: string, prefix: string) {
    prefix <= s
  }

  predicate EndsWith(s: string, suffix: string) {
    |suffix| <= |s| && s[|s| - |suffix|..] == suffix
  }

  /** `needle in s` for strings: `needle` starts at some position of `s`. */
  predicate Contains(s: string, needle: string) {
    needle <= s || (|s| > 0 && Contains(s[1..], needle))
  }

  /** Python `s.lstrip(c)` for a single character `c`. */
  function LStripChar(s: string, c: char): string
  {
    if |s| > 0 && s[0] == c then LStripChar(s[1..], c) else s
  }

  /** `s.lstrip(c)` is the suffix of `s` left after its leading run of `c`. */
  lemma {:induction false} LStripCharSuffix(s: string, c: char)
    ensures var r := LStripChar(s, c);
      && |r| <= |s| && r == s[|s| - |r|..]
      && (r == [] || r[0] != c)
      && forall i :: 0 <= i < |s| - |r| ==> s[i] == c
  {
    if |s| > 0 && s[0] == c {
      LStripCharSuffix(s[1..], c);
    }
  }

  /** Python `s.lstrip()`: drop the leading blanks. */
  function LStrip(s: string): string
  {
    if |s| > 0 && IsSpace(s[0]) then LStrip(s[1..]) else s
  }

  /** `s.lstrip()` is the suffix of `s` after its blank prefix, and starts with no blank. */
  lemma {:induction false} LStripSpec(s: string)
    ensures var r := LStrip(s);
      && |r| <= |s| && r == s[|s| - |r|..]
      && (r == [] || !IsSpace(r[0]))
      && forall i :: 0 <= i < |s| - |r| ==> IsSpace(s[i])
  {
    if |s| > 0 && IsSpace(s[0]) {
      var r := LStrip(s[1..]);
      LStripSpec(s[1..]);
      assert s[1..][|s| - 1 - |r|..] == s[|s| - |r|..];
      assert forall i :: 1 <= i < |s| - |r| ==> s[i] == s[1..][i - 1];
    }
  }

  /** Python `s.rstrip()`: drop the trailing blanks. */
  function RStrip(s: string): string
  {
    if |s| > 0 && IsSpace(s[|s| - 1]) then RStrip(s[..|s| - 1]) else s
  }

  /** `s.rstrip()` is the prefix of `s` before its blank suffix, and ends with no blank. */
  lemma {:induction false} RStripSpec(s: string)
    ensures var r := RStrip(s);
      && |r| <= |s| && r == s[..|r|]
      && (r == [] || !IsSpace(r[|r| - 1]))
      && forall i :: |r| <= i < |s| ==> IsSpace(s[i])
  {
    if |s| > 0 && IsSpace(s[|s| - 1]) {
      RStripSpec(s[..|s| - 1]);
    }
  }

  /** Python `s.strip()`: drop blank characters at both ends. */
  function Strip(s: string): (r: string)
  {
    RStrip(LStrip(s))
  }

  /** `strip()` removes Unicode blanks too: a no-break space and a unit separator go, a zero-width space stays. */
  lemma StripUnicodeBlanks()
    ensures Strip("\U{A0}Title\U{1F}") == "Title"
    ensures Strip("\U{200B}Title") == "\U{200B}Title"
  {
    assert LStrip("\U{A0}Title\U{1F}") == LStrip("Title\U{1F}") == "Title\U{1F}";
    assert RStrip("Title\U{1F}") == RStrip("Title") == "Title";
  }

  /** Python `sep.join(parts)`. */
  function Join(sep: string, parts: seq<string>): string
  {
    if |parts| == 0 then ""
    else if |parts| == 1 then parts[0]
    else parts[0] + sep + Join(sep, parts[1..])
  }

  /** Python `s.replace(pat, sub)`: every non-overlapping occurrence, scanning left to right. */
  function Replace(s: string, pat: string, sub: string): string
    requires pat != []
    decreases |s|
  {
    if |s| < |pat| then s
    else if s[..|pat|] == pat then sub + Replace(s[|pat|..], pat, sub)
    else [s[0]] + Replace(s[1..], pat, sub)
  }

  /** The last path segment, as `pathlib.Path.name` gives it. */
  function BaseName(path: string): (r: string)
    ensures |r| <= |path| && r == path[|path| - |r|..]
    ensures '/' !in r
  {
    if |path| == 0 then ""
    else if path[|path| - 1] == '/' then ""
    else BaseName(path[..|path| - 1]) + [path[|path| - 1]]
  }

  /** Decimal digits of `n`, padded on the left with `0` to `width` characters. */
  function PadNat(n: nat, width: nat): (r: string)
    ensures |r| == width
    ensures forall i :: 0 <= i < |r| ==> IsDigit(r[i])
  {
    if width == 0 then ""
    else PadNat(n / 10, width - 1) + [(('0' as int) + n % 10) as char]
  }

  /** The number a run of decimal digits spells. */
  function DigitsValue(s: string): nat
    requires forall i :: 0 <= i < |s| ==> IsDigit(s[i])
  {
    if |s| == 0 then 0
    else
      assert IsDigit(s[|s| - 1]);
      10 * DigitsValue(s[..|s| - 1]) + (s[|s| - 1] as int - '0' as int)
  }

  function Pow10(k: nat): (r: nat)
    ensures r >= 1
  {
    if k == 0 then 1 else 10 * Pow10(k - 1)
  }

  /** Reading back a padded number gives the number, when it fits in the width. */
  lemma {:induction false} PadNatRoundTrip(n: nat, width: nat)
    requires n < Pow10(width)
    ensures DigitsValue(PadNat(n, width)) == n
  {
    if width > 0 {
      var q, d := n / 10, n % 10;
      assert n == 10 * q + d && 0 <= d < 10;
      assert Pow10(width) == 10 * Pow10(width - 1);
      assert q < Pow10(width - 1);
      PadNatRoundTrip(q, width - 1);
      var p := PadNat(n, width);
      assert p[..|p| - 1] == PadNat(q, width - 1);
      assert p[|p| - 1] as int - '0' as int == d;
    }
  }

  /** Removal with `Replace(s, pat, "")` never lengthens the string, and leaves a string without `pat` alone. */
  lemma {:induction false} ReplaceEmptyShrinks(s: string, pat: string)
    requires pat != []
    ensures |Replace(s, pat, "")| <= |s|
    ensures !Contains(s, pat) ==> Replace(s, pat, "") == s
    decreases |s|
  {
    if |s| >= |pat| {
      if s[..|pat|] == pat {
        ReplaceEmptyShrinks(s[|pat|..], pat);
        assert pat <= s;
      } else {
        ReplaceEmptyShrinks(s[1..], pat);
        assert [s[0]] + s[1..] == s;
      }
    }
  }

  /** Stripping twice is stripping once. */
  lemma StripIdempotent(s: string)
    ensures Strip(Strip(s)) == Strip(s)
  {
    var l := LStrip(s);
    var r := RStrip(l);
    LStripSpec(s);
    RStripSpec(l);
    LStripSpec(r);
    RStripSpec(r);
    assert r == [] || !IsSpace(r[0]);
    assert LStrip(r) == r;
    assert RStrip(r) == r;
  }

  /** A needle that occurs at position `k` is contained. */
  lemma {:induction false} ContainsAt(s: string, needle: string, k: nat)
    requires k <= |s| && needle <= s[k..]
    ensures Contains(s, needle)
  {
    if k > 0 {
      assert s[1..][k - 1..] == s[k..];
      ContainsAt(s[1..], needle, k - 1);
    }
  }

  /** A needle whose first character does not occur in `s` is not contained. */
  lemma {:induction false} NotContains(s: string, needle: string)
    requires needle != [] && needle[0] !in s
    ensures !Contains(s, needle)
  {
    if |s| > 0 {
      NotContains(s[1..], needle);
    }
  }

  /** Removing an occurrence shortens the string by at least the pattern's length. */
  lemma {:induction false} ReplaceRemoves(s: string, pat: string)
    requires pat != [] && Contains(s, pat)
    ensures |Replace(s, pat, "")| <= |s| - |pat|
    decreases |s|
  {
    ContainsLength(s, pat);
    if pat <= s {
      assert s[..|pat|] == pat;
      ReplaceEmptyShrinks(s[|pat|..], pat);
    } else {
      assert Contains(s[1..], pat);
      ReplaceRemoves(s[1..], pat);
      assert s[..|pat|] != pat;
    }
  }

  /** A string that contains the needle is at least as long as it. */
  lemma {:induction false} ContainsLength(s: string, needle: string)
    requires Contains(s, needle)
    ensures |needle| <= |s|
  {
    if !(needle <= s) {
      ContainsLength(s[1..], needle);
    }
  }
}
