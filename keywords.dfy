/**
 * Keyword extraction: the text is lower-cased, split into the maximal runs
 * of word characters (what `re.findall(r'\b\w+\b', text)` returns) and the
 * runs longer than three characters that are not stop words are kept, in
 * order and with their repetitions.
 */
module Keywords {
  import opened Text

  /** The half-open index range `[start, end)` of one token. */
  datatype Span = Span(start: nat, end: nat)

  /** `s[i..j]` is a non-empty run of word characters that cannot be extended on either side. */
  ghost predicate IsMaximalRun(s: string, i: nat, j: nat) {
    && i < j <= |s|
    && (forall k :: i <= k < j ==> IsWordChar(s[k]))
    && (i == 0 || !IsWordChar(s[i - 1]))
    && (j == |s| || !IsWordChar(s[j]))
  }

  /** `s` holds a word character at index `k`. */
  predicate WordAt(s: string, k: int) {
    0 <= k < |s| && IsWordChar(s[k])
  }

  /** Index `i` does not fall strictly inside a run of word characters. */
  predicate NotInsideRun(s: string, i: nat) {
    i <= |s| && !(0 < i < |s| && IsWordChar(s[i - 1]) && IsWordChar(s[i]))
  }

  /** The end of the run of word characters that starts at `i`. */
  function RunEnd(s: string, i: nat): (j: nat)
    requires i <= |s|
    ensures i <= j <= |s|
    ensures j == |s| || !IsWordChar(s[j])
    ensures i < |s| && IsWordChar(s[i]) ==> i < j
    decreases |s| - i
  {
    if i < |s| && IsWordChar(s[i]) then RunEnd(s, i + 1) else i
  }

  /** `RunEnd` is pinned down by its result: a word run from `i` to `j` that stops at `j`. */
  lemma {:induction false} RunEndIs(s: string, i: nat, j: nat)
    requires i <= j <= |s|
    requires forall k :: i <= k < j ==> IsWordChar(s[k])
    requires j == |s| || !IsWordChar(s[j])
    ensures RunEnd(s, i) == j
    decreases j - i
  {
    if i < j {
      RunEndIs(s, i + 1, j);
    }
  }

  /** The run that `RunEnd` measures is made of word characters only. */
  lemma {:induction false} RunEndWord(s: string, i: nat)
    requires i <= |s|
    ensures forall k :: i <= k < RunEnd(s, i) ==> IsWordChar(s[k])
    decreases |s| - i
  {
    if i < |s| && IsWordChar(s[i]) {
      RunEndWord(s, i + 1);
    }
  }

  /** The spans of the maximal word runs of `s` that start at or after `i`, left to right. */
  function SpansFrom(s: string, i: nat): (r: seq<Span>)
    requires NotInsideRun(s, i)
    ensures forall k :: 0 <= k < |r| ==> i <= r[k].start < r[k].end <= |s|
    decreases |s| - i
  {
    if i == |s| then []
    else if !IsWordChar(s[i]) then SpansFrom(s, i + 1)
    else
      var j := RunEnd(s, i);
      [Span(i, j)] + SpansFrom(s, j)
  }

  /** Every span of `r` is a maximal run of `s`. */
  ghost predicate AllMaximal(s: string, r: seq<Span>) {
    forall k :: 0 <= k < |r| ==> IsMaximalRun(s, r[k].start, r[k].end)
  }

  /** Each span of `r` ends before the next one starts. */
  predicate Ordered(r: seq<Span>) {
    forall k :: 0 <= k < |r| - 1 ==> r[k].end < r[k + 1].start
  }

  /** Every span is a maximal run, and the spans are strictly ordered. */
  lemma {:induction false} SpansSound(s: string, i: nat)
    requires NotInsideRun(s, i)
    ensures AllMaximal(s, SpansFrom(s, i))
    ensures Ordered(SpansFrom(s, i))
    decreases |s| - i
  {
    if i < |s| {
      if !IsWordChar(s[i]) {
        SpansSound(s, i + 1);
      } else {
        var j := RunEnd(s, i);
        RunEndWord(s, i);
        var rest := SpansFrom(s, j);
        var r := [Span(i, j)] + rest;
        SpansSound(s, j);
        if rest != [] {
          assert IsMaximalRun(s, rest[0].start, rest[0].end);
          assert WordAt(s, rest[0].start);
        }
        assert forall k :: 1 <= k < |r| ==> r[k] == rest[k - 1];
        assert SpansFrom(s, i) == r;
      }
    }
  }

  /** No maximal run starting at or after `i` is missed. */
  lemma {:induction false} SpansComplete(s: string, i: nat)
    requires NotInsideRun(s, i)
    ensures forall a, b :: i <= a && IsMaximalRun(s, a, b) ==> Span(a, b) in SpansFrom(s, i)
    decreases |s| - i
  {
    if i < |s| {
      if !IsWordChar(s[i]) {
        SpansComplete(s, i + 1);
      } else {
        var j := RunEnd(s, i);
        RunEndWord(s, i);
        SpansComplete(s, j);
        forall a: nat, b: nat | i <= a < j && IsMaximalRun(s, a, b)
          ensures a == i && b == j
        {
          assert i < a ==> WordAt(s, a - 1);
          assert b < j ==> WordAt(s, b);
          assert j < b ==> WordAt(s, j);
        }
      }
    }
  }

  /** The maximal runs of word characters of `s` that start at or after `i`, left to right. */
  function TokensFrom(s: string, i: nat): seq<string>
    requires NotInsideRun(s, i)
    decreases |s| - i
  {
    if i == |s| then []
    else if !IsWordChar(s[i]) then TokensFrom(s, i + 1)
    else
      var j := RunEnd(s, i);
      [s[i..j]] + TokensFrom(s, j)
  }

  /** The maximal runs of word characters of `s`, in order of appearance. */
  function Tokens(s: string): seq<string> {
    TokensFrom(s, 0)
  }

  /** The tokens are exactly the substrings that the spans delimit. */
  lemma {:induction false} TokensMatchSpans(s: string, i: nat)
    requires NotInsideRun(s, i)
    ensures |TokensFrom(s, i)| == |SpansFrom(s, i)|
    ensures forall k :: 0 <= k < |SpansFrom(s, i)| ==>
      TokensFrom(s, i)[k] == s[SpansFrom(s, i)[k].start..SpansFrom(s, i)[k].end]
    decreases |s| - i
  {
    if i < |s| {
      if !IsWordChar(s[i]) {
        TokensMatchSpans(s, i + 1);
      } else {
        var j := RunEnd(s, i);
        TokensMatchSpans(s, j);
        var sp := SpansFrom(s, j);
        var ts := TokensFrom(s, j);
        assert SpansFrom(s, i) == [Span(i, j)] + sp;
        assert TokensFrom(s, i) == [s[i..j]] + ts;
        forall k | 1 <= k < |sp| + 1
          ensures TokensFrom(s, i)[k] == s[SpansFrom(s, i)[k].start..SpansFrom(s, i)[k].end]
        {
          assert TokensFrom(s, i)[k] == ts[k - 1];
          assert SpansFrom(s, i)[k] == sp[k - 1];
        }
      }
    }
  }

  /**
   * The tokens are the maximal word runs of `s`, left to right: the k-th
   * token is the text of the k-th span, the spans are maximal and strictly
   * ordered, and no maximal run is missing.
   */
  lemma TokensAreMaximalRuns(s: string)
    ensures |Tokens(s)| == |SpansFrom(s, 0)|
    ensures forall k :: 0 <= k < |SpansFrom(s, 0)| ==>
      Tokens(s)[k] == s[SpansFrom(s, 0)[k].start..SpansFrom(s, 0)[k].end]
    ensures AllMaximal(s, SpansFrom(s, 0)) && Ordered(SpansFrom(s, 0))
    ensures forall a, b :: IsMaximalRun(s, a, b) ==> Span(a, b) in SpansFrom(s, 0)
  {
    TokensMatchSpans(s, 0);
    SpansSound(s, 0);
    SpansComplete(s, 0);
  }

  const StopWords: set<string> := {"the", "is", "at", "which", "on", "what"}

  /** A token survives the filter: longer than three characters and not a stop word. */
  predicate IsKeyword(w: string) {
    |w| > 3 && w !in StopWords
  }

  lemma IsKeywordIff(w: string)
    ensures IsKeyword(w) <==> |w| > 3 && w != "which" && w != "what"
  {
  }

  /** The tokens of `ws` that are keywords, in order and with repetitions. */
  function KeepKeywords(ws: seq<string>): seq<string> {
    if ws == [] then []
    else KeepKeywords(ws[..|ws| - 1]) + (if IsKeyword(ws[|ws| - 1]) then [ws[|ws| - 1]] else [])
  }

  /** A token is kept exactly when it is a keyword. */
  lemma {:induction false} KeepKeywordsMembers(ws: seq<string>)
    ensures forall w :: w in KeepKeywords(ws) <==> w in ws && IsKeyword(w)
    decreases |ws|
  {
    if ws != [] {
      var ws' := ws[..|ws| - 1];
      assert ws == ws' + [ws[|ws| - 1]];
      KeepKeywordsMembers(ws');
    }
  }

  /** Filtering a concatenation filters each part; with the one-token case this pins the filter down. */
  lemma {:induction false} KeepKeywordsAppend(a: seq<string>, b: seq<string>)
    ensures KeepKeywords(a + b) == KeepKeywords(a) + KeepKeywords(b)
    decreases |b|
  {
    if b == [] {
      assert a + b == a;
    } else {
      var b' := b[..|b| - 1];
      assert (a + b)[..|a + b| - 1] == a + b';
      KeepKeywordsAppend(a, b');
    }
  }

  /** Each keyword keeps all of its occurrences; every other token loses all of them. */
  lemma {:induction false} KeepKeywordsCounts(ws: seq<string>, w: string)
    ensures multiset(KeepKeywords(ws))[w] == if IsKeyword(w) then multiset(ws)[w] else 0
    decreases |ws|
  {
    if ws != [] {
      var ws' := ws[..|ws| - 1];
      assert ws == ws' + [ws[|ws| - 1]];
      KeepKeywordsCounts(ws', w);
    }
  }

  /** `extract_keywords`: the keywords of the lower-cased text, in order and with repetitions. */
  function ExtractKeywords(text: string): seq<string> {
    KeepKeywords(Tokens(Lower(text)))
  }

  /** `w` is made of word characters, none of them an upper-case letter. */
  predicate IsLowerWord(w: string) {
    forall m :: 0 <= m < |w| ==> IsWordChar(w[m]) && !IsUpper(w[m])
  }

  /**
   * Every keyword is a lower-case run of word characters longer than three
   * characters, and neither "which" nor "what" (the other stop words are
   * too short to get past the length test).
   */
  lemma KeywordsAreFiltered(text: string)
    ensures forall w :: w in ExtractKeywords(text) ==>
      IsKeyword(w) && |w| > 3 && w != "which" && w != "what" && IsLowerWord(w)
  {
    var low := Lower(text);
    var toks := Tokens(low);
    KeepKeywordsMembers(toks);
    TokenChars(low, 0);
    forall w | w in toks
      ensures IsLowerWord(w)
    {
      assert WordOf(low, w);
    }
  }

  /** Every character of `w` is a word character of `s`. */
  predicate WordOf(s: string, w: string) {
    forall m :: 0 <= m < |w| ==> IsWordChar(w[m]) && w[m] in s
  }

  /** Every token is made of word characters of the text. */
  lemma {:induction false} TokenChars(s: string, i: nat)
    requires NotInsideRun(s, i)
    ensures forall w :: w in TokensFrom(s, i) ==> WordOf(s, w)
    decreases |s| - i
  {
    if i < |s| {
      if !IsWordChar(s[i]) {
        TokenChars(s, i + 1);
      } else {
        var j := RunEnd(s, i);
        RunEndWord(s, i);
        TokenChars(s, j);
        forall m | 0 <= m < j - i
          ensures IsWordChar(s[i..j][m]) && s[i..j][m] in s
        {
          assert s[i..j][m] == s[i + m];
        }
        assert WordOf(s, s[i..j]);
      }
    }
  }

  /** Every maximal word run of the lower-cased text that passes the filter is among the keywords. */
  lemma MaximalRunIsKeyword(text: string, a: nat, b: nat)
    requires IsMaximalRun(Lower(text), a, b) && IsKeyword(Lower(text)[a..b])
    ensures Lower(text)[a..b] in ExtractKeywords(text)
  {
    var low := Lower(text);
    var sp := SpansFrom(low, 0);
    SpansComplete(low, 0);
    var k :| 0 <= k < |sp| && sp[k] == Span(a, b);
    TokensMatchSpans(low, 0);
    assert Tokens(low)[k] == low[a..b];
    KeepKeywordsMembers(Tokens(low));
  }

  /** Text without a single word character (empty or blank text, say) has no keywords. */
  lemma NoWordCharNoKeywords(text: string)
    requires forall c :: c in text ==> !IsWordChar(c)
    ensures ExtractKeywords(text) == []
  {
    var low := Lower(text);
    assert forall i :: 0 <= i < |low| ==> !IsWordChar(low[i]) by {
      forall i | 0 <= i < |low|
        ensures !IsWordChar(low[i])
      {
        assert text[i] in text;
      }
    }
    NoWordCharNoTokens(low, 0);
  }

  lemma {:induction false} NoWordCharNoTokens(s: string, i: nat)
    requires i <= |s|
    requires forall k :: i <= k < |s| ==> !IsWordChar(s[k])
    ensures TokensFrom(s, i) == []
    decreases |s| - i
  {
    if i < |s| {
      NoWordCharNoTokens(s, i + 1);
    }
  }

  /** Extracting from already lower-cased text gives the same keywords. */
  lemma ExtractKeywordsOfLower(text: string)
    ensures ExtractKeywords(Lower(text)) == ExtractKeywords(text)
  {
    LowerIdempotent(text);
  }
}
