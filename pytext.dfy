/** The few Python string primitives the scraper relies on. */
module PyText {

  /** Python's str.isspace, which is also what the regular expression class
      \s matches in a str pattern: the ASCII whitespace and separator
      controls, NEL, NO-BREAK SPACE and the Unicode space separators. */
  predicate IsSpace(c: char)
  {
    var n := c as int;
    (0x09 <= n <= 0x0D) || (0x1C <= n <= 0x20) || n == 0x85 || n == 0xA0
    || n == 0x1680 || (0x2000 <= n <= 0x200A) || n == 0x2028 || n == 0x2029
    || n == 0x202F || n == 0x205F || n == 0x3000
  }

  /** The regular expression class [0-9]. */
  predicate IsAsciiDigit(c: char)
  {
    '0' <= c <= '9'
  }

  predicate AllDigits(s: string)
  {
    forall i :: 0 <= i < |s| ==> IsAsciiDigit(s[i])
  }

  predicate AllSpace(s: string)
  {
    forall i :: 0 <= i < |s| ==> IsSpace(s[i])
  }

  /** int(s) for a string of ASCII digits. */
  function DecimalValue(s: string): (v: nat)
    requires AllDigits(s)
    ensures |s| == 1 ==> v == (s[0] as int) - ('0' as int)
    ensures v < Pow10(|s|)
  {
    if |s| == 0 then 0
    else DecimalValue(s[..|s| - 1]) * 10 + ((s[|s| - 1] as int) - ('0' as int))
  }

  /** A two-digit run is ten times its first digit plus its second. */
  lemma DecimalOfTwo(s: string)
    requires |s| == 2 && AllDigits(s)
    ensures DecimalValue(s) == ((s[0] as int) - ('0' as int)) * 10 + ((s[1] as int) - ('0' as int))
  {
    assert s[..1] == [s[0]];
  }

  function Pow10(n: nat): (p: nat)
    ensures p >= 1
  {
    if n == 0 then 1 else 10 * Pow10(n - 1)
  }

  /** The number of whitespace characters in the run that starts at i. */
  function SpacesFrom(s: string, i: nat): (n: nat)
    requires i <= |s|
    ensures i + n <= |s|
    ensures forall j :: i <= j < i + n ==> IsSpace(s[j])
    ensures i + n < |s| ==> !IsSpace(s[i + n])
    decreases |s| - i
  {
    if i < |s| && IsSpace(s[i]) then SpacesFrom(s, i + 1) + 1 else 0
  }

  /** The number of whitespace characters in the run that ends just before j. */
  function SpacesBefore(s: string, j: nat): (n: nat)
    requires j <= |s|
    ensures n <= j
    ensures forall i :: j - n <= i < j ==> IsSpace(s[i])
    ensures n < j ==> !IsSpace(s[j - 1 - n])
  {
    if j > 0 && IsSpace(s[j - 1]) then SpacesBefore(s, j - 1) + 1 else 0
  }

  /** The number of whitespace characters s starts with. */
  function LeadingSpaces(s: string): nat
  {
    SpacesFrom(s, 0)
  }

  /** The number of whitespace characters s ends with. */
  function TrailingSpaces(s: string): nat
  {
    SpacesBefore(s, |s|)
  }

  /** Python's str.strip() with no argument: the part of s left once the
      whitespace at both ends is removed. */
  function Strip(s: string): string
  {
    var k := LeadingSpaces(s);
    if k == |s| then []
    else
      var t := TrailingSpaces(s);
      s[k..|s| - t]
  }

  /** Where Strip cuts: after the leading whitespace and, unless s is all
      whitespace, before the trailing whitespace, at characters that are
      not whitespace. */
  lemma StripCuts(s: string)
    ensures var k := LeadingSpaces(s);
      k == |s| ==> Strip(s) == [] && AllSpace(s)
    ensures var k := LeadingSpaces(s); var t := TrailingSpaces(s);
      k < |s| ==> k < |s| - t && Strip(s) == s[k..|s| - t] && !IsSpace(s[k]) && !IsSpace(s[|s| - 1 - t])
  {
    var k := LeadingSpaces(s);
    if k < |s| {
      assert !IsSpace(s[k]);
    }
  }

  /** The result is empty exactly for all-whitespace text. */
  lemma StripEmpty(s: string)
    ensures Strip(s) == [] <==> AllSpace(s)
  {
    StripCuts(s);
    var k := LeadingSpaces(s);
    if k < |s| {
      assert !AllSpace(s) by { assert !IsSpace(s[k]); }
    }
  }

  /** A non-empty result neither starts nor ends with whitespace. */
  lemma StripEnds(s: string)
    ensures Strip(s) != [] ==> !IsSpace(Strip(s)[0]) && !IsSpace(Strip(s)[|Strip(s)| - 1])
  {
    StripCuts(s);
    var k := LeadingSpaces(s);
    var t := TrailingSpaces(s);
    if k < |s| {
      var r := s[k..|s| - t];
      assert r[0] == s[k] && r[|r| - 1] == s[|s| - 1 - t];
    }
  }

  /** The result is the infix of s after its leading whitespace, with only
      whitespace after it. */
  lemma StripInfix(s: string)
    ensures LeadingSpaces(s) + |Strip(s)| <= |s|
    ensures Strip(s) == s[LeadingSpaces(s)..LeadingSpaces(s) + |Strip(s)|]
    ensures forall i :: 0 <= i < LeadingSpaces(s) ==> IsSpace(s[i])
    ensures forall i :: LeadingSpaces(s) + |Strip(s)| <= i < |s| ==> IsSpace(s[i])
  {
    StripCuts(s);
    var k := LeadingSpaces(s);
    var t := TrailingSpaces(s);
    if k < |s| {
      assert |Strip(s)| == |s| - t - k;
    } else {
      assert s[k..k] == [];
    }
  }

  /** Text with no whitespace at either end comes back unchanged. */
  lemma StripKeepsStripped(s: string)
    requires s == [] || (!IsSpace(s[0]) && !IsSpace(s[|s| - 1]))
    ensures Strip(s) == s
  {
    assert LeadingSpaces(s) == 0;
    if s != [] {
      assert TrailingSpaces(s) == 0;
    }
  }

}
