/**
 * The string primitives the indexer relies on: ASCII lower-casing, the
 * word-character class of `\w`, whitespace stripping, prefix tests and
 * substring search, and the second field of a `split`.
 */
module Text {
  import opened Wrappers

  /** `\w` restricted to ASCII: a letter, a digit or the underscore. */
  predicate IsWordChar(c: char) {
    ('a' <= c <= 'z') || ('A' <= c <= 'Z') || ('0' <= c <= '9') || c == '_'
  }

  predicate IsUpper(c: char) {
    'A' <= c <= 'Z'
  }

  /** `str.lower()` on one character, for the ASCII letters. */
  function LowerChar(c: char): (d: char)
    ensures !IsUpper(d)
    ensures IsWordChar(d) <==> IsWordChar(c)
    ensures !IsUpper(c) ==> d == c
    ensures IsUpper(c) ==> d as int == c as int + 32
  {
    if IsUpper(c) then (c as int - 'A' as int + 'a' as int) as char else c
  }

  /** `str.lower()`: every upper-case ASCII letter replaced by its lower-case form. */
  function Lower(s: string): (r: string)
    ensures |r| == |s|
    ensures forall i :: 0 <= i < |s| ==> r[i] == LowerChar(s[i])
    ensures forall c :: c in r ==> !IsUpper(c)
  {
    seq(|s|, i requires 0 <= i < |s| => LowerChar(s[i]))
  }

  lemma LowerIdempotent(s: string)
    ensures Lower(Lower(s)) == Lower(s)
  {
    var t := Lower(s);
    assert forall i :: 0 <= i < |t| ==> Lower(t)[i] == t[i];
  }

  /** The characters `str.strip()` removes: those for which `str.isspace()` holds. */
  predicate IsSpace(c: char) {
    c == ' ' || ('\t' <= c <= '\r') || ('\U{1C}' <= c <= '\U{1F}')
    || c == '\U{85}' || c == '\U{A0}' || c == '\U{1680}'
    || ('\U{2000}' <= c <= '\U{200A}') || c == '\U{2028}' || c == '\U{2029}'
    || c == '\U{202F}' || c == '\U{205F}' || c == '\U{3000}'
  }

  /** The first index at or after `i` that does not hold whitespace. */
  function SkipSpaces(s: string, i: nat): (k: nat)
    requires i <= |s|
    ensures i <= k <= |s|
    ensures forall j :: i <= j < k ==> IsSpace(s[j])
    ensures k < |s| ==> !IsSpace(s[k])
    decreases |s| - i
  {
    if i < |s| && IsSpace(s[i]) then SkipSpaces(s, i + 1) else i
  }

  /** The end of `s[lo..e]` once the whitespace at its end is dropped. */
  function TrimEnd(s: string, lo: nat, e: nat): (k: nat)
    requires lo <= e <= |s|
    ensures lo <= k <= e
    ensures forall j :: k <= j < e ==> IsSpace(s[j])
    ensures k > lo ==> !IsSpace(s[k - 1])
    decreases e
  {
    if e > lo && IsSpace(s[e - 1]) then TrimEnd(s, lo, e - 1) else e
  }

  /**
   * `str.strip()`: the text between the leading and the trailing whitespace.
   * The result neither starts nor ends with whitespace, and it is a slice of
   * `s` with only whitespace on either side of it.
   */
  function Strip(s: string): (r: string)
    ensures |r| <= |s|
    ensures r == [] || (!IsSpace(r[0]) && !IsSpace(r[|r| - 1]))
    ensures var a := SkipSpaces(s, 0);
            && a + |r| <= |s|
            && s[a..a + |r|] == r
            && (forall j :: 0 <= j < a ==> IsSpace(s[j]))
            && (forall j :: a + |r| <= j < |s| ==> IsSpace(s[j]))
  {
    var a := SkipSpaces(s, 0);
    var b := TrimEnd(s, a, |s|);
    s[a..b]
  }

  /** `s.startswith(p)` */
  predicate StartsWith(s: string, p: string) {
    |p| <= |s| && s[..|p|] == p
  }

  /** `pat` occurs in `s` starting at index `i`. */
  predicate OccursAt(s: string, pat: string, i: int) {
    0 <= i && i + |pat| <= |s| && s[i..i + |pat|] == pat
  }

  /** `s.find(pat, from)`: the first occurrence of `pat` at or after `from`. */
  function IndexFrom(s: string, pat: string, from: nat): (r: Option<nat>)
    ensures r.Some? ==> from <= r.value && OccursAt(s, pat, r.value)
    ensures r.Some? ==> forall j :: from <= j < r.value ==> !OccursAt(s, pat, j)
    ensures r.None? ==> forall j :: from <= j ==> !OccursAt(s, pat, j)
    decreases |s| - from
  {
    if from + |pat| > |s| then None
    else if s[from..from + |pat|] == pat then Some(from)
    else IndexFrom(s, pat, from + 1)
  }

  /** `pat in s` */
  predicate Contains(s: string, pat: string) {
    IndexFrom(s, pat, 0).Some?
  }

  lemma ContainsIff(s: string, pat: string)
    ensures Contains(s, pat) <==> exists i :: OccursAt(s, pat, i)
  {
    if Contains(s, pat) {
      assert OccursAt(s, pat, IndexFrom(s, pat, 0).value);
    }
  }

  /**
   * `s.split(sep)[1]`: the text between the first occurrence of `sep` and
   * the next one, or the end of `s` when there is no next one.
   */
  function SecondField(s: string, sep: string): (r: string)
    requires |sep| > 0 && Contains(s, sep)
    ensures var start := IndexFrom(s, sep, 0).value + |sep|;
            && start + |r| <= |s|
            && s[start..start + |r|] == r
            && (start + |r| == |s| || OccursAt(s, sep, start + |r|))
    ensures var start := IndexFrom(s, sep, 0).value + |sep|;
            forall p :: start <= p < start + |r| ==> !OccursAt(s, sep, p)
    ensures forall p :: !OccursAt(r, sep, p)
  {
    var start := IndexFrom(s, sep, 0).value + |sep|;
    var e := match IndexFrom(s, sep, start)
      case None => |s|
      case Some(j) => j;
    var r := s[start..e];
    assert forall p :: OccursAt(r, sep, p) ==> OccursAt(s, sep, start + p) by {
      forall p | OccursAt(r, sep, p)
        ensures OccursAt(s, sep, start + p)
      {
        var w := s[start + p..start + p + |sep|];
        forall i | 0 <= i < |sep|
          ensures w[i] == sep[i]
        {
          assert w[i] == s[start + p + i] == r[p + i] == r[p..p + |sep|][i];
        }
        assert w == sep;
      }
    }
    r
  }

  /** An occurrence inside a slice is an occurrence in the whole string. */
  lemma OccursInSlice(s: string, pat: string, lo: nat, hi: nat, p: int)
    requires lo <= hi <= |s| && OccursAt(s[lo..hi], pat, p)
    ensures OccursAt(s, pat, lo + p)
  {
    var r := s[lo..hi];
    var w := s[lo + p..lo + p + |pat|];
    forall i | 0 <= i < |pat|
      ensures w[i] == pat[i]
    {
      assert w[i] == s[lo + p + i] == r[p + i] == r[p..p + |pat|][i];
    }
    assert w == pat;
  }

  /** A slice of a string without occurrences of `pat` has none either. */
  lemma NoOccurrenceInSlice(s: string, pat: string, lo: nat, hi: nat)
    requires lo <= hi <= |s| && forall p :: !OccursAt(s, pat, p)
    ensures forall p :: !OccursAt(s[lo..hi], pat, p)
  {
    forall p
      ensures !OccursAt(s[lo..hi], pat, p)
    {
      if OccursAt(s[lo..hi], pat, p) {
        OccursInSlice(s, pat, lo, hi, p);
      }
    }
  }

  /** Stripping a string without occurrences of `pat` leaves none either. */
  lemma StripKeepsNoOccurrence(s: string, pat: string)
    requires forall p :: !OccursAt(s, pat, p)
    ensures forall p :: !OccursAt(Strip(s), pat, p)
  {
    var a := SkipSpaces(s, 0);
    NoOccurrenceInSlice(s, pat, a, a + |Strip(s)|);
  }
}
