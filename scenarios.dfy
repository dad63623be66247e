/**
 * A concrete run of keyword extraction on a short question: case is
 * folded, punctuation and spaces split the tokens, "what" is dropped as a
 * stop word and "of" as too short.
 */
module Scenarios {
  import opened Text
  import opened Keywords

  /** One word `w` at `i`, followed by a separator, contributes exactly the token `w`. */
  lemma WordStep(s: string, i: nat, w: string)
    requires i + |w| < |s| && w != []
    requires NotInsideRun(s, i)
    requires forall k :: 0 <= k < |w| ==> s[i + k] == w[k] && IsWordChar(w[k])
    requires !IsWordChar(s[i + |w|])
    ensures TokensFrom(s, i) == [w] + TokensFrom(s, i + |w| + 1)
  {
    forall k | i <= k < i + |w|
      ensures IsWordChar(s[k])
    {
      assert s[i + (k - i)] == w[k - i];
    }
    RunEndIs(s, i, i + |w|);
    assert s[i..i + |w|] == w;
  }

  lemma QuestionLowered(text: string)
    requires text == "What capital of France?"
    ensures Lower(text) == "what capital of france?"
  {
  }

  lemma QuestionTokensFirst(s: string)
    requires s == "what capital of france?"
    ensures TokensFrom(s, 0) == ["what"] + TokensFrom(s, 5)
  {
    WordStep(s, 0, "what");
  }

  lemma QuestionTokensSecond(s: string)
    requires s == "what capital of france?"
    ensures TokensFrom(s, 5) == ["capital"] + TokensFrom(s, 13)
  {
    WordStep(s, 5, "capital");
  }

  lemma QuestionTokensBack(s: string)
    requires s == "what capital of france?"
    ensures TokensFrom(s, 13) == ["of", "france"]
  {
    WordStep(s, 16, "france");
    WordStep(s, 13, "of");
  }

  lemma QuestionTokensFiltered()
    ensures KeepKeywords(["what", "capital", "of", "france"]) == ["capital", "france"]
  {
    var toks := ["what", "capital", "of", "france"];
    assert KeepKeywords(toks[..1]) == [] by { assert toks[..1][..0] == []; }
    assert KeepKeywords(toks[..2]) == ["capital"] by { assert toks[..2][..1] == toks[..1]; }
    assert KeepKeywords(toks[..3]) == ["capital"] by { assert toks[..3][..2] == toks[..2]; }
    assert toks[..4][..3] == toks[..3];
    assert toks[..4] == toks;
  }

  /** `extract_keywords("What capital of France?")` is `["capital", "france"]`. */
  lemma QuestionKeywords(text: string)
    requires text == "What capital of France?"
    ensures ExtractKeywords(text) == ["capital", "france"]
  {
    var s := Lower(text);
    QuestionLowered(text);
    QuestionTokensFirst(s);
    QuestionTokensSecond(s);
    QuestionTokensBack(s);
    assert Tokens(s) == ["what", "capital", "of", "france"];
    QuestionTokensFiltered();
  }
}
