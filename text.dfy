/** String rules used by the validators and by the name search:
    Python's str.strip(), the "blank" test and SQL ILIKE substring match. */
module Text {

  /** The characters Python's str.isspace() accepts, which is the set that
      str.strip() with no argument removes. */
  predicate IsWhitespace(c: char) {
    var n := c as int;
    || 0x09 <= n <= 0x0D
    || 0x1C <= n <= 0x20
    || n == 0x85 || n == 0xA0 || n == 0x1680
    || 0x2000 <= n <= 0x200A
    || n == 0x2028 || n == 0x2029 || n == 0x202F
    || n == 0x205F || n == 0x3000
  }

  /** Every character is whitespace (the empty string included). */
  ghost predicate Blank(s: string) {
    forall i :: 0 <= i < |s| ==> IsWhitespace(s[i])
  }

  /** Drop leading whitespace. */
  function TrimStart(s: string): (r: string)
    ensures |r| <= |s| && r == s[|s| - |r|..]
    ensures forall i :: 0 <= i < |s| - |r| ==> IsWhitespace(s[i])
    ensures r == [] || !IsWhitespace(r[0])
  {
    if s != [] && IsWhitespace(s[0]) then TrimStart(s[1..]) else s
  }

  /** Drop trailing whitespace. */
  function TrimEnd(s: string): (r: string)
    ensures |r| <= |s| && r == s[..|r|]
    ensures forall i :: |r| <= i < |s| ==> IsWhitespace(s[i])
    ensures r == [] || !IsWhitespace(r[|r| - 1])
  {
    if s != [] && IsWhitespace(s[|s| - 1]) then TrimEnd(s[..|s| - 1]) else s
  }

  /** Python's s.strip(). */
  function Strip(s: string): string {
    TrimEnd(TrimStart(s))
  }

  /** `not s or not s.strip()` holds exactly for the blank strings. */
  lemma StripEmptyIffBlank(s: string)
    ensures (s == [] || Strip(s) == []) <==> Blank(s)
  {
  }

  /** ASCII case folding, the part of ILIKE's case-insensitivity modelled here. */
  function LowerChar(c: char): char {
    if 'A' <= c <= 'Z' then (c as int - 'A' as int + 'a' as int) as char else c
  }

  function Lower(s: string): string {
    seq(|s|, i requires 0 <= i < |s| => LowerChar(s[i]))
  }

  /** `needle` occurs in `hay` starting at position k. */
  ghost predicate OccursAt(hay: string, needle: string, k: int) {
    0 <= k && k + |needle| <= |hay| && hay[k..k + |needle|] == needle
  }

  /** Substring test, scanning `hay` from the left. */
  function Contains(hay: string, needle: string): bool
    decreases |hay|
  {
    needle <= hay || (hay != [] && Contains(hay[1..], needle))
  }

  lemma {:induction false} ContainsIffOccurs(hay: string, needle: string)
    ensures Contains(hay, needle) <==> exists k :: OccursAt(hay, needle, k)
    decreases |hay|
  {
    if needle <= hay {
      assert OccursAt(hay, needle, 0);
    } else if hay != [] {
      ContainsIffOccurs(hay[1..], needle);
      if Contains(hay[1..], needle) {
        var k :| OccursAt(hay[1..], needle, k);
        assert hay[k + 1..k + 1 + |needle|] == hay[1..][k..k + |needle|];
        assert OccursAt(hay, needle, k + 1);
      }
      if exists k :: OccursAt(hay, needle, k) {
        var k :| OccursAt(hay, needle, k);
        assert hay[1..][k - 1..k - 1 + |needle|] == hay[k..k + |needle|];
        assert OccursAt(hay[1..], needle, k - 1);
      }
    }
  }

  /** SQL `column ILIKE '%pattern%'`: a substring match after case folding. */
  function ILikeSubstring(column: string, pattern: string): (r: bool)
    ensures r <==> exists k :: OccursAt(Lower(column), Lower(pattern), k)
  {
    ContainsIffOccurs(Lower(column), Lower(pattern));
    Contains(Lower(column), Lower(pattern))
  }

  /** Every string matches itself, so exact equality implies ILIKE match. */
  lemma ILikeReflexive(s: string)
    ensures ILikeSubstring(s, s)
  {
    assert OccursAt(Lower(s), Lower(s), 0);
  }
}
