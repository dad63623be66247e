# Conversation indexer — a Dafny model

This project models `ConversationIndexer` from `core/indexer.py`. It is a
small retrieval utility over a history of query/response pairs. It keeps two
dictionaries:

- the session index: session id → the records of that session, in input order;
- the topic index: keyword → answer entries of the form (lower-cased query, final answer, timestamp).

It offers three operations:

- `build_index` clears both dictionaries and refills them in one pass over the records.
- `extract_keywords` lower-cases a text, splits it into maximal runs of word characters, and keeps the runs longer than three characters that are not stop words.
- `find_related_answer` scores every entry reached through the query's keywords by keyword overlap. It returns `"FINAL_ANSWER: " + answer` for the first entry with the highest positive score, or nothing.

The files:

- `wrappers.dfy` (`Wrappers`): the `Option` type.
- `text.dfy` (`Text`): the string operations the source relies on:
  - `str.lower` and the `\w` character class, restricted to ASCII;
  - `str.strip` over the characters `str.isspace` accepts;
  - `in`, `find`, `startswith`;
  - `split(sep)[1]`.
- `keywords.dfy` (`Keywords`): keyword extraction. It includes a span-level description of the maximal word runs, so that what `re.findall(r'\b\w+\b', …)` returns can be stated and proved.
- `index_spec.dfy` (`IndexSpec`): records and entries. It gives the contents of both indices as functions of the record sequence alone, the lemmas about them, and the step lemmas that carry the build loop.
- `match_spec.dfy` (`MatchSpec`): what the matcher visits, in order; the overlap score; and "first best".
- `indexer.dfy` (`Indexer`): the `ConversationIndexer` class. Its two map fields are updated in place by `BuildIndex`, and `FindRelatedAnswer` reads them without changing them.
  - `BuildIndex` is proved to leave exactly the indices that `IndexSpec` defines.
  - `FindRelatedAnswer` is proved to return the first best entry of its traversal.
  - The two inner loops of the source are separate methods: `AppendUnderKeywords` (the loop over the keywords of one record) and `ScanMatches` (the loop over one keyword's bucket). Each keeps the same statements and order as the source.
- `scenarios.dfy` (`Scenarios`): one concrete keyword extraction, `"What capital of France?"` ↦ `["capital", "france"]`.

The stored answer is `response.split('FINAL_ANSWER:')[1].strip()`: the text between the first marker and the second one (or the end of the response), stripped. It is not everything after the first marker.

## Model

| member | source | states |
|---|---|---|
| Text.Lower | core/indexer.py:67 | `str.lower` on ASCII: same length, each upper-case letter mapped to its lower-case form, everything else kept; no upper-case letter is left |
| Text.LowerIdempotent | core/indexer.py:41 | lower-casing an already lower-cased query changes nothing (the query is lowered at build time and again inside keyword extraction) |
| Text.Strip | core/indexer.py:53 | `str.strip()`: the result is a slice of the input with only whitespace before and after it, and neither starts nor ends with whitespace |
| Text.IndexFrom | core/indexer.py:52 | `find`: the result is the first occurrence at or after the start position, and "none" means there is no occurrence at or after the start position |
| Text.ContainsIff | core/indexer.py:52 | `'FINAL_ANSWER:' in response` holds exactly when the marker occurs at some position |
| Text.SecondField | core/indexer.py:53 | `split(sep)[1]`: a slice that starts right after the first separator and ends at the first separator after that, or at the end when there is none; no separator starts inside it, and it contains none |
| Text.StripKeepsNoOccurrence | core/indexer.py:53 | stripping a field that holds no marker cannot produce one |
| Keywords.RunEndIs | core/indexer.py:68 | the end of a word run is determined uniquely: a run of word characters from `i` to `j` that stops at a non-word character or at the end |
| Keywords.SpansSound | core/indexer.py:68 | every span found is a maximal run of word characters, and the spans are strictly increasing |
| Keywords.SpansComplete | core/indexer.py:68 | every maximal run of word characters is among the spans found |
| Keywords.TokensMatchSpans | core/indexer.py:68 | the k-th token is the text of the k-th span |
| Keywords.TokensAreMaximalRuns | core/indexer.py:68 | the tokens are exactly the maximal word runs of the text, left to right, with repetitions |
| Keywords.TokenChars | core/indexer.py:68 | every token consists of word characters of the text |
| Keywords.IsKeywordIff | core/indexer.py:70-71 | the filter `len(w) > 3 and w not in stop_words` is the same as length > 3 and neither "which" nor "what" |
| Keywords.KeepKeywordsMembers | core/indexer.py:71 | a token is kept exactly when it passes the filter |
| Keywords.KeepKeywordsAppend | core/indexer.py:71 | filtering a concatenation filters each part, so order is kept |
| Keywords.KeepKeywordsCounts | core/indexer.py:71 | a kept word keeps every one of its occurrences; a dropped word keeps none |
| Keywords.KeywordsAreFiltered | core/indexer.py:66-71 | every keyword is lower-case, made of word characters, longer than three characters, and neither "which" nor "what" |
| Keywords.MaximalRunIsKeyword | core/indexer.py:66-71 | every maximal word run of the lower-cased text that passes the filter is among the keywords |
| Keywords.NoWordCharNoKeywords | core/indexer.py:66-71 | a text without word characters (empty or blank, for instance) has no keywords |
| Keywords.ExtractKeywordsOfLower | core/indexer.py:67 | extracting from the lower-cased query gives the same keywords as extracting from the raw query |
| Scenarios.QuestionKeywords | core/indexer.py:66-71 | `extract_keywords("What capital of France?")` is `["capital", "france"]` |
| IndexSpec.FinalAnswer | core/indexer.py:53 | the stored answer neither starts nor ends with whitespace and holds no marker |
| IndexSpec.EntryOf | core/indexer.py:53-63 | an entry holds the lower-cased query, whose keywords are the record's keywords |
| IndexSpec.CountPositive | core/indexer.py:56 | a keyword occurs a positive number of times exactly when it is among the record's keywords |
| IndexSpec.SessionBucketSound | core/indexer.py:44-47 | every record in the bucket of `sid` is an input record whose session id is `sid` |
| IndexSpec.NoSessionNoBucket | core/indexer.py:44 | a record with no session id or an empty one is in no session bucket |
| IndexSpec.SessionBucketAppend | core/indexer.py:38-47 | the bucket of a concatenation is the two buckets one after the other, so input order is kept |
| IndexSpec.SessionBucketCounts | core/indexer.py:44-47 | a bucket holds every occurrence of each record with that session id (tool executions and answerless records included), and nothing else |
| IndexSpec.BuiltSessionIndexWellFormed | core/indexer.py:44-47 | in a built session index no bucket is empty, and every record sits under its own session id |
| IndexSpec.SessionIndexUnique | core/indexer.py:34-35 | the session index is determined by the records alone, so building twice from the same records gives the same contents |
| IndexSpec.Contribution | core/indexer.py:50-63 | a record that is a tool execution or has no marker contributes nothing; otherwise it contributes its entry as many times as the keyword occurs among its keywords |
| IndexSpec.TopicBucketSound | core/indexer.py:53-63 | every entry under `k` has a lower-cased query whose keywords contain `k`, and equals the entry of some qualifying input record |
| IndexSpec.TopicBucketAppend | core/indexer.py:38-63 | the topic bucket of a concatenation is the two buckets one after the other, so record order is kept |
| IndexSpec.RecordContributesInPlace | core/indexer.py:50-63 | a record's entries sit between those of the records before and after it; a non-qualifying record can be removed without changing any bucket |
| IndexSpec.TopicIndexUnique | core/indexer.py:34-36 | the topic index is determined by the records alone, so building twice from the same records gives the same contents |
| IndexSpec.SessionStep | core/indexer.py:44-47 | one step of the session update turns the index of the first i records into the index of the first i+1 |
| IndexSpec.TopicStep | core/indexer.py:56-63 | appending the entry under one more keyword keeps the partial-index invariant of the keyword loop |
| IndexSpec.TopicFinish | core/indexer.py:50-63 | after the keyword loop, the topic index is that of the first i+1 records |
| IndexSpec.TopicSkip | core/indexer.py:50-52 | a skipped record leaves the topic index equal to that of the first i+1 records |
| MatchSpec.OverlapBounds | core/indexer.py:87-88 | the overlap is at most the number of distinct query keywords, and positive when the entry's query shares a query keyword |
| MatchSpec.Scores | core/indexer.py:86-88 | one score per visited entry |
| MatchSpec.ScoresAt | core/indexer.py:87-88 | the j-th score is the overlap of the j-th visited entry |
| IndexSpec.BuiltTopicIndexWellFormed | core/indexer.py:56-63 | in a built topic index no bucket is empty, and every entry under `k` has `k` among its query's keywords |
| MatchSpec.TraversalMembers | core/indexer.py:81-86 | an entry is visited exactly when it sits in the bucket of one of the query keywords |
| MatchSpec.SomeEntryScores | core/indexer.py:81-92 | over a built index, some visited entry scores above zero exactly when some query keyword is a key of the index |
| MatchSpec.TracksStep | core/indexer.py:90-92 | a visited entry replaces the running best only when it scores strictly higher, which keeps "first best so far" |
| MatchSpec.TracksResult | core/indexer.py:94-100 | after the scan the running best is absent exactly when every score is zero, and otherwise it is the first best entry |
| Indexer.ConversationIndexer.constructor | core/indexer.py:14-17 | a fresh indexer holds two empty indices |
| Indexer.ConversationIndexer.BuildIndex | core/indexer.py:30-64 | after the build the session index and the topic index are exactly those the records define (whatever they held before), and both are well formed |
| Indexer.ConversationIndexer.AppendUnderKeywords | core/indexer.py:56-63 | the entry is appended once per keyword occurrence, buckets are created on first use, and the session index is untouched |
| Indexer.ScanMatches | core/indexer.py:86-92 | scanning one bucket extends "first best so far" over the entries of that bucket, and the best score never drops |
| Indexer.ConversationIndexer.FindRelatedAnswer | core/indexer.py:73-100 | returns nothing exactly when every visited entry scores zero; otherwise returns `"FINAL_ANSWER: " + answer` of the first entry, in keyword order then bucket order, with the highest score; over a built index, nothing is returned exactly when no query keyword is a key; the indices are not modified |

## Left out

- `load_conversations` (core/indexer.py:20-28): the file check and the JSON parsing. `BuildIndex` takes the records as a parameter instead.
- The history file path (`history_file`, `Path`) is left out, and so is the unused `datetime` import. The constructor takes no argument.
- The logging set-up and every `logging` and `print` call are left out. They only produce diagnostics.
- Unicode is left out. `\w`, `str.lower` and `\b` are modelled on ASCII letters, digits and `_`; Python applies them to all of Unicode. `str.strip` uses the exact set of characters `str.isspace` accepts.
- JSON field types are left out. A field is either a string or missing. A present `null` query would make the source fail in `.lower()`; the model treats it like a missing query. Likewise a present `null` response makes `'FINAL_ANSWER:' in response` raise `TypeError` for every record that is not a tool execution; the model treats it like a missing response, that is, as the empty string. Non-string session ids are not modelled.
- The timestamp is carried along as an opaque optional string.
- Only the answer text of the matcher is modelled. The matched entry's query is only printed, so it is not returned.
