/**
 * What the two indices of the conversation indexer hold after a build, as
 * functions of the conversation records alone: the session buckets and the
 * inverted keyword index of final answers.
 */
module IndexSpec {
  import opened Wrappers
  import opened Text
  import opened Keywords

  /**
   * One conversation record of the history. Each field may be missing;
   * the timestamp is carried along without being looked at.
   */
  datatype Record = Record(
    sessionId: Option<string>,
    query: Option<string>,
    response: Option<string>,
    timestamp: Option<string>)

  /** An answer entry of the keyword index: the lower-cased query, the final answer, the timestamp. */
  datatype Entry = Entry(query: string, answer: string, timestamp: Option<string>)

  /** The marker a response carries in front of its final answer. */
  const Marker := "FINAL_ANSWER:"

  /** Lower-cased queries with this prefix record tool executions and are not indexed. */
  const ToolPrefix := "tool execution"

  /** The query, or the empty string when the record has none. */
  function QueryText(r: Record): string {
    r.query.GetOr("")
  }

  /** The response, or the empty string when the record has none. */
  function ResponseText(r: Record): string {
    r.response.GetOr("")
  }

  /** The session bucket a record goes to: none when the session id is missing or empty. */
  function SessionKey(r: Record): (k: Option<string>)
    ensures k.Some? <==> r.sessionId.Some? && r.sessionId.value != ""
    ensures k.Some? ==> k == r.sessionId
  {
    if r.sessionId.Some? && r.sessionId.value != "" then r.sessionId else None
  }

  /** The record yields answer entries: it is no tool execution and its response holds the marker. */
  predicate Qualifies(r: Record) {
    !StartsWith(Lower(QueryText(r)), ToolPrefix) && Contains(ResponseText(r), Marker)
  }

  /** The final answer of a response: the text after the first marker, up to the next one, stripped. */
  function FinalAnswer(response: string): (a: string)
    requires Contains(response, Marker)
    ensures a == [] || (!IsSpace(a[0]) && !IsSpace(a[|a| - 1]))
    ensures forall p :: !OccursAt(a, Marker, p)
  {
    var field := SecondField(response, Marker);
    StripKeepsNoOccurrence(field, Marker);
    Strip(field)
  }

  /** The entry a qualifying record contributes under each of its keywords. */
  function EntryOf(r: Record): (e: Entry)
    requires Qualifies(r)
    ensures Lower(e.query) == e.query
    ensures ExtractKeywords(e.query) == RecordKeywords(r)
  {
    LowerIdempotent(QueryText(r));
    Entry(Lower(QueryText(r)), FinalAnswer(ResponseText(r)), r.timestamp)
  }

  /** The keywords of a record's lower-cased query. */
  function RecordKeywords(r: Record): seq<string> {
    ExtractKeywords(Lower(QueryText(r)))
  }

  /** Number of occurrences of `k` in `ws`. */
  function Count(ws: seq<string>, k: string): (n: nat)
    ensures n <= |ws|
  {
    if ws == [] then 0
    else Count(ws[..|ws| - 1], k) + (if ws[|ws| - 1] == k then 1 else 0)
  }

  lemma {:induction false} CountPositive(ws: seq<string>, k: string)
    ensures Count(ws, k) > 0 <==> k in ws
    decreases |ws|
  {
    if ws != [] {
      var ws' := ws[..|ws| - 1];
      assert ws == ws' + [ws[|ws| - 1]];
      CountPositive(ws', k);
    }
  }

  /** Extending a prefix of `s` by one element. */
  lemma PrefixStep<T>(s: seq<T>, j: nat)
    requires j < |s|
    ensures s[..j + 1] == s[..j] + [s[j]]
  {
  }

  /** `n` copies of `e`. */
  function Repeat(e: Entry, n: nat): (s: seq<Entry>)
    ensures |s| == n
    ensures forall x :: x in s ==> x == e
  {
    if n == 0 then [] else Repeat(e, n - 1) + [e]
  }

  /** The value stored under `k`, with a missing key read as an empty bucket. */
  function Lookup<V>(m: map<string, seq<V>>, k: string): seq<V> {
    if k in m then m[k] else []
  }

  // ---------------------------------------------------------------------
  // The session index

  /** The records of `rs` whose session id is `sid`, in input order. */
  function SessionBucket(rs: seq<Record>, sid: string): (b: seq<Record>)
    ensures |b| <= |rs|
  {
    if rs == [] then []
    else
      var last := rs[|rs| - 1];
      SessionBucket(rs[..|rs| - 1], sid) + (if SessionKey(last) == Some(sid) then [last] else [])
  }

  /** `m` is the session index of `rs`: each bucket holds exactly the records of its session, and no bucket is empty. */
  ghost predicate IsSessionIndexOf(m: map<string, seq<Record>>, rs: seq<Record>) {
    && (forall sid :: Lookup(m, sid) == SessionBucket(rs, sid))
    && (forall sid :: sid in m ==> m[sid] != [])
  }

  /** Every record in a bucket comes from the input and carries that bucket's session id. */
  lemma {:induction false} SessionBucketSound(rs: seq<Record>, sid: string)
    ensures forall r :: r in SessionBucket(rs, sid) ==> r in rs && SessionKey(r) == Some(sid)
    decreases |rs|
  {
    if rs != [] {
      var rs' := rs[..|rs| - 1];
      SessionBucketSound(rs', sid);
      assert forall r :: r in rs' ==> r in rs;
    }
  }

  /** Records without a usable session id are in no bucket. */
  lemma NoSessionNoBucket(rs: seq<Record>, r: Record, sid: string)
    requires SessionKey(r).None?
    ensures r !in SessionBucket(rs, sid)
  {
    SessionBucketSound(rs, sid);
  }

  /** Buckets are filtered in input order: the bucket of a concatenation is the concatenation of the buckets. */
  lemma {:induction false} SessionBucketAppend(a: seq<Record>, b: seq<Record>, sid: string)
    ensures SessionBucket(a + b, sid) == SessionBucket(a, sid) + SessionBucket(b, sid)
    decreases |b|
  {
    if b == [] {
      assert a + b == a;
    } else {
      var b' := b[..|b| - 1];
      assert (a + b)[..|a + b| - 1] == a + b';
      SessionBucketAppend(a, b', sid);
    }
  }

  /** A bucket keeps every occurrence of the records of its session, and nothing else. */
  lemma {:induction false} SessionBucketCounts(rs: seq<Record>, sid: string, r: Record)
    ensures multiset(SessionBucket(rs, sid))[r] == if SessionKey(r) == Some(sid) then multiset(rs)[r] else 0
    decreases |rs|
  {
    if rs != [] {
      var rs' := rs[..|rs| - 1];
      assert rs == rs' + [rs[|rs| - 1]];
      SessionBucketCounts(rs', sid, r);
    }
  }

  /** Every bucket of `m` is non-empty and holds only records of its own session. */
  ghost predicate SessionIndexWellFormed(m: map<string, seq<Record>>) {
    forall sid :: sid in m ==> m[sid] != [] && forall r :: r in m[sid] ==> SessionKey(r) == Some(sid)
  }

  lemma BuiltSessionIndexWellFormed(m: map<string, seq<Record>>, rs: seq<Record>)
    requires IsSessionIndexOf(m, rs)
    ensures SessionIndexWellFormed(m)
  {
    forall sid | sid in m
      ensures forall r :: r in m[sid] ==> SessionKey(r) == Some(sid)
    {
      assert Lookup(m, sid) == SessionBucket(rs, sid);
      SessionBucketSound(rs, sid);
    }
  }

  /** The session index is determined by the records: a rebuild cannot differ from the first build. */
  lemma SessionIndexUnique(m1: map<string, seq<Record>>, m2: map<string, seq<Record>>, rs: seq<Record>)
    requires IsSessionIndexOf(m1, rs) && IsSessionIndexOf(m2, rs)
    ensures m1 == m2
  {
    assert forall sid :: sid in m1 <==> sid in m2 by {
      forall sid
        ensures sid in m1 <==> sid in m2
      {
        assert Lookup(m1, sid) == Lookup(m2, sid);
      }
    }
    assert forall sid :: sid in m1 ==> m1[sid] == m2[sid] by {
      forall sid | sid in m1
        ensures m1[sid] == m2[sid]
      {
        assert Lookup(m1, sid) == Lookup(m2, sid);
      }
    }
  }

  // ---------------------------------------------------------------------
  // The keyword index

  /** What one record adds under keyword `k`: one entry per occurrence of `k` among its keywords, if it qualifies. */
  function Contribution(r: Record, k: string): (s: seq<Entry>)
    ensures !Qualifies(r) ==> s == []
    ensures Qualifies(r) ==> |s| == Count(RecordKeywords(r), k) && forall e :: e in s ==> e == EntryOf(r)
  {
    if Qualifies(r) then Repeat(EntryOf(r), Count(RecordKeywords(r), k)) else []
  }

  /** The entries under keyword `k` after indexing `rs`: the contributions of the records, in input order. */
  function TopicBucket(rs: seq<Record>, k: string): seq<Entry> {
    if rs == [] then []
    else TopicBucket(rs[..|rs| - 1], k) + Contribution(rs[|rs| - 1], k)
  }

  /** `m` is the keyword index of `rs`: each bucket holds exactly the entries for its keyword, and no bucket is empty. */
  ghost predicate IsTopicIndexOf(m: map<string, seq<Entry>>, rs: seq<Record>) {
    && (forall k :: Lookup(m, k) == TopicBucket(rs, k))
    && (forall k :: k in m ==> m[k] != [])
  }

  /** Every entry of the keyword index is stored under one of its own query's keywords, and no bucket is empty. */
  ghost predicate TopicIndexWellFormed(m: map<string, seq<Entry>>) {
    forall k :: k in m ==> m[k] != [] && forall e :: e in m[k] ==> k in ExtractKeywords(e.query)
  }

  /**
   * The inverted-index invariant: every entry under `k` comes from a
   * qualifying input record, holds a lower-cased query whose keywords
   * contain `k`, and holds that record's final answer.
   */
  lemma {:induction false} TopicBucketSound(rs: seq<Record>, k: string)
    ensures forall e :: e in TopicBucket(rs, k) ==>
      && k in ExtractKeywords(e.query)
      && Lower(e.query) == e.query
      && exists r :: r in rs && Qualifies(r) && e == EntryOf(r)
    decreases |rs|
  {
    if rs != [] {
      var rs' := rs[..|rs| - 1];
      var last := rs[|rs| - 1];
      TopicBucketSound(rs', k);
      forall e | e in TopicBucket(rs, k)
        ensures k in ExtractKeywords(e.query)
        ensures Lower(e.query) == e.query
        ensures exists r :: r in rs && Qualifies(r) && e == EntryOf(r)
      {
        if e in TopicBucket(rs', k) {
          var r :| r in rs' && Qualifies(r) && e == EntryOf(r);
          assert r in rs;
        } else {
          assert e in Contribution(last, k);
          CountPositive(RecordKeywords(last), k);
          assert last in rs;
        }
      }
    }
  }

  /** A topic index built from records is well formed. */
  lemma BuiltTopicIndexWellFormed(m: map<string, seq<Entry>>, rs: seq<Record>)
    requires IsTopicIndexOf(m, rs)
    ensures TopicIndexWellFormed(m)
  {
    forall k | k in m
      ensures forall e :: e in m[k] ==> k in ExtractKeywords(e.query)
    {
      assert Lookup(m, k) == TopicBucket(rs, k);
      TopicBucketSound(rs, k);
    }
  }

  /** The bucket of a concatenation is the concatenation of the buckets. */
  lemma {:induction false} TopicBucketAppend(a: seq<Record>, b: seq<Record>, k: string)
    ensures TopicBucket(a + b, k) == TopicBucket(a, k) + TopicBucket(b, k)
    decreases |b|
  {
    if b == [] {
      assert a + b == a;
    } else {
      var b' := b[..|b| - 1];
      assert (a + b)[..|a + b| - 1] == a + b';
      TopicBucketAppend(a, b', k);
    }
  }

  /**
   * Wherever a record stands in the input, its entries under `k` sit
   * between those of the records before it and those after it: as many
   * copies of its entry as `k` occurs among its keywords when it qualifies,
   * none at all when its query is a tool execution or its response has no
   * marker.
   */
  lemma RecordContributesInPlace(a: seq<Record>, r: Record, b: seq<Record>, k: string)
    ensures TopicBucket(a + [r] + b, k) == TopicBucket(a, k) + Contribution(r, k) + TopicBucket(b, k)
    ensures !Qualifies(r) ==> TopicBucket(a + [r] + b, k) == TopicBucket(a + b, k)
  {
    var c := Contribution(r, k);
    assert TopicBucket(a + [r] + b, k) == TopicBucket(a, k) + c + TopicBucket(b, k) by {
      TopicBucketAppend(a + [r], b, k);
      TopicBucketAppend(a, [r], k);
      assert TopicBucket([r], k) == c by {
        assert [r][..0] == [];
      }
    }
    if !Qualifies(r) {
      assert TopicBucket(a + b, k) == TopicBucket(a, k) + TopicBucket(b, k) by {
        TopicBucketAppend(a, b, k);
      }
      assert c == [];
    }
  }

  /** The keyword index is determined by the records: a rebuild cannot differ from the first build. */
  lemma TopicIndexUnique(m1: map<string, seq<Entry>>, m2: map<string, seq<Entry>>, rs: seq<Record>)
    requires IsTopicIndexOf(m1, rs) && IsTopicIndexOf(m2, rs)
    ensures m1 == m2
  {
    assert forall k :: k in m1 <==> k in m2 by {
      forall k
        ensures k in m1 <==> k in m2
      {
        assert Lookup(m1, k) == Lookup(m2, k);
      }
    }
    assert forall k :: k in m1 ==> m1[k] == m2[k] by {
      forall k | k in m1
        ensures m1[k] == m2[k]
      {
        assert Lookup(m1, k) == Lookup(m2, k);
      }
    }
  }

  // ---------------------------------------------------------------------
  // One step of a build

  /** Adding one record to the session index of `rs` gives the session index of `rs + [r]`. */
  lemma SessionStep(m: map<string, seq<Record>>, m': map<string, seq<Record>>, rs: seq<Record>, r: Record)
    requires IsSessionIndexOf(m, rs)
    requires SessionKey(r).None? ==> m' == m
    requires SessionKey(r).Some? ==> m' == m[SessionKey(r).value := Lookup(m, SessionKey(r).value) + [r]]
    ensures IsSessionIndexOf(m', rs + [r])
  {
    assert (rs + [r])[..|rs|] == rs;
    forall sid
      ensures Lookup(m', sid) == SessionBucket(rs + [r], sid)
    {
      assert Lookup(m, sid) == SessionBucket(rs, sid);
    }
  }

  /** The keyword index of `rs` with the entries for the keywords `done` of the next record already appended. */
  ghost predicate PartialTopicIndex(m: map<string, seq<Entry>>, rs: seq<Record>, e: Entry, done: seq<string>) {
    && (forall k :: Lookup(m, k) == TopicBucket(rs, k) + Repeat(e, Count(done, k)))
    && (forall k :: k in m ==> m[k] != [])
  }

  lemma TopicStart(m: map<string, seq<Entry>>, rs: seq<Record>, e: Entry)
    requires IsTopicIndexOf(m, rs)
    ensures PartialTopicIndex(m, rs, e, [])
  {
  }

  /** Appending the entry under one more keyword extends the partial index by that keyword. */
  lemma TopicStep(m: map<string, seq<Entry>>, rs: seq<Record>, e: Entry, done: seq<string>, kw: string)
    requires PartialTopicIndex(m, rs, e, done)
    ensures PartialTopicIndex(m[kw := Lookup(m, kw) + [e]], rs, e, done + [kw])
  {
    var m' := m[kw := Lookup(m, kw) + [e]];
    forall k
      ensures Lookup(m', k) == TopicBucket(rs, k) + Repeat(e, Count(done + [kw], k))
    {
      BucketStep(m, TopicBucket(rs, k), e, done, kw, k);
    }
  }

  /** One key of `TopicStep`, with the bucket built so far abstracted to `base`. */
  lemma BucketStep(m: map<string, seq<Entry>>, base: seq<Entry>, e: Entry, done: seq<string>, kw: string, k: string)
    requires Lookup(m, k) == base + Repeat(e, Count(done, k))
    ensures Lookup(m[kw := Lookup(m, kw) + [e]], k) == base + Repeat(e, Count(done + [kw], k))
  {
    var done' := done + [kw];
    assert done'[..|done'| - 1] == done;
  }

  /** Once every keyword of a qualifying record is done, the index is that of `rs + [r]`. */
  lemma TopicFinish(m: map<string, seq<Entry>>, rs: seq<Record>, r: Record)
    requires Qualifies(r) && PartialTopicIndex(m, rs, EntryOf(r), RecordKeywords(r))
    ensures IsTopicIndexOf(m, rs + [r])
  {
    assert (rs + [r])[..|rs|] == rs;
    forall k
      ensures Lookup(m, k) == TopicBucket(rs + [r], k)
    {
      assert Lookup(m, k) == TopicBucket(rs, k) + Repeat(EntryOf(r), Count(RecordKeywords(r), k));
    }
  }

  /** A record that does not qualify leaves the keyword index as it is. */
  lemma TopicSkip(m: map<string, seq<Entry>>, rs: seq<Record>, r: Record)
    requires !Qualifies(r) && IsTopicIndexOf(m, rs)
    ensures IsTopicIndexOf(m, rs + [r])
  {
    assert (rs + [r])[..|rs|] == rs;
    forall k
      ensures Lookup(m, k) == TopicBucket(rs + [r], k)
    {
      assert Lookup(m, k) == TopicBucket(rs, k);
    }
  }
}
