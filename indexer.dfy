/**
 * The conversation indexer: an object holding a session index and a keyword
 * index, rebuilt from a sequence of conversation records, and queried for
 * the stored final answer that best matches a new query.
 */
module Indexer {
  import opened Wrappers
  import opened Text
  import opened Keywords
  import opened IndexSpec
  import opened MatchSpec

  class ConversationIndexer {
    /** Session id to the records of that session, in input order. */
    var index: map<string, seq<Record>>
    /** Keyword to the answer entries indexed under it, in input order. */
    var topicIndex: map<string, seq<Entry>>

    ghost predicate Valid()
      reads this
    {
      SessionIndexWellFormed(index) && TopicIndexWellFormed(topicIndex)
    }

    /** A fresh indexer holds two empty indices. */
    constructor ()
      ensures Valid()
      ensures index == map[] && topicIndex == map[]
    {
      index := map[];
      topicIndex := map[];
    }

    /**
     * Clears both indices and fills them from `records` in one pass. The new
     * contents depend on `records` only, so building twice from the same
     * records leaves the same contents as building once.
     */
    method BuildIndex(records: seq<Record>)
      modifies this
      ensures IsSessionIndexOf(index, records)
      ensures IsTopicIndexOf(topicIndex, records)
      ensures Valid()
    {
      index := map[];
      topicIndex := map[];
      for i := 0 to |records|
        invariant IsSessionIndexOf(index, records[..i])
        invariant IsTopicIndexOf(topicIndex, records[..i])
      {
        var conv := records[i];
        var sessionId := conv.sessionId;
        var query := Lower(QueryText(conv));
        var response := ResponseText(conv);
        ghost var done := records[..i];
        PrefixStep(records, i);
        ghost var sessionsBefore := index;

        if sessionId.Some? && sessionId.value != "" {
          var sid := sessionId.value;
          if sid !in index {
            index := index[sid := []];
          }
          index := index[sid := index[sid] + [conv]];
        }
        SessionStep(sessionsBefore, index, done, conv);

        if !StartsWith(query, ToolPrefix) {
          if Contains(response, Marker) {
            var finalAnswer := FinalAnswer(response);
            var keywords := ExtractKeywords(query);
            var entry := Entry(query, finalAnswer, conv.timestamp);
            assert entry == EntryOf(conv);
            TopicStart(topicIndex, done, entry);
            AppendUnderKeywords(entry, keywords, done);
            TopicFinish(topicIndex, done, conv);
          } else {
            TopicSkip(topicIndex, done, conv);
          }
        } else {
          TopicSkip(topicIndex, done, conv);
        }
      }
      assert records[..|records|] == records;
      BuiltSessionIndexWellFormed(index, records);
      BuiltTopicIndexWellFormed(topicIndex, records);
    }

    /**
     * The inner loop of the build: appends `entry` to the bucket of every
     * keyword of `keywords` in turn, creating missing buckets, so that a
     * keyword occurring n times receives the entry n times.
     */
    method AppendUnderKeywords(entry: Entry, keywords: seq<string>, ghost done: seq<Record>)
      requires PartialTopicIndex(topicIndex, done, entry, [])
      modifies this
      ensures PartialTopicIndex(topicIndex, done, entry, keywords)
      ensures index == old(index)
    {
      for j := 0 to |keywords|
        invariant index == old(index)
        invariant PartialTopicIndex(topicIndex, done, entry, keywords[..j])
      {
        var keyword := keywords[j];
        ghost var partial := topicIndex;
        if keyword !in topicIndex {
          topicIndex := topicIndex[keyword := []];
        }
        topicIndex := topicIndex[keyword := topicIndex[keyword] + [entry]];
        assert topicIndex == partial[keyword := Lookup(partial, keyword) + [entry]];
        TopicStep(partial, done, entry, keywords[..j], keyword);
        PrefixStep(keywords, j);
      }
      assert keywords[..|keywords|] == keywords;
    }

    /**
     * Scores every entry reached through the query's keywords by keyword
     * overlap and answers with the first entry of highest positive score,
     * or with nothing when no entry scores. Reads the indices only.
     */
    method FindRelatedAnswer(query: string) returns (r: Option<string>)
      ensures var q := ExtractKeywords(query);
              var s := Scores(q, Traversal(q, topicIndex));
              r.None? <==> forall j :: 0 <= j < |s| ==> s[j] == 0
      ensures var q := ExtractKeywords(query);
              var c := Traversal(q, topicIndex);
              r.Some? ==> exists p: nat :: IsFirstBest(Scores(q, c), p) && r.value == Render(c[p])
      ensures Valid() ==> (r.None? <==> forall k :: k in ExtractKeywords(query) ==> k !in topicIndex)
    {
      var keywords := ExtractKeywords(query);
      var bestMatch: Option<Entry> := None;
      var maxKeywordMatches := 0;
      ghost var visited: seq<Entry> := [];
      ghost var bestPos: nat := 0;
      for i := 0 to |keywords|
        invariant visited == Traversal(keywords[..i], topicIndex)
        invariant Tracks(Scores(keywords, visited), visited, bestMatch, maxKeywordMatches, bestPos)
      {
        var keyword := keywords[i];
        TraversalStep(keywords, topicIndex, i);
        if keyword in topicIndex {
          var matches := topicIndex[keyword];
          bestMatch, maxKeywordMatches, bestPos := ScanMatches(keywords, matches, visited, bestMatch, maxKeywordMatches, bestPos);
          visited := visited + matches;
        }
      }
      assert keywords[..|keywords|] == keywords;
      TracksResult(Scores(keywords, visited), visited, bestMatch, maxKeywordMatches, bestPos);
      if bestMatch.Some? {
        r := Some(Render(bestMatch.value));
      } else {
        r := None;
      }
      if Valid() {
        SomeEntryScores(keywords, keywords, topicIndex);
      }
    }
  }

  /**
   * The loop over one keyword's bucket: scores each entry of `matches` by its
   * keyword overlap with the query keywords `q` and replaces the running best
   * only on a strictly higher score. `visited` are the entries scored before.
   */
  method ScanMatches(q: seq<string>, matches: seq<Entry>, ghost visited: seq<Entry>,
                     best0: Option<Entry>, max0: nat, ghost pos0: nat)
    returns (best: Option<Entry>, max: nat, ghost pos: nat)
    requires Tracks(Scores(q, visited), visited, best0, max0, pos0)
    ensures Tracks(Scores(q, visited + matches), visited + matches, best, max, pos)
    ensures max >= max0
  {
    best, max, pos := best0, max0, pos0;
    ghost var seen := visited;
    for j := 0 to |matches|
      invariant seen == visited + matches[..j]
      invariant Tracks(Scores(q, seen), seen, best, max, pos)
      invariant max >= max0
    {
      var entry := matches[j];
      var commonKeywords := Overlap(q, entry);
      TracksStep(Scores(q, seen), seen, best, max, pos, entry, commonKeywords);
      ScoresSnoc(q, seen, entry);
      if commonKeywords > max {
        max := commonKeywords;
        best := Some(entry);
        pos := |seen|;
      }
      seen := seen + [entry];
      PrefixStep(matches, j);
      assert seen == visited + matches[..j + 1];
    }
    assert matches[..|matches|] == matches;
  }
}
