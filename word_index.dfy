/**
 * The inverted index of WordIndex.cc: a table from word to the documents
 * holding it and how often, plus the list of known documents in the order
 * they were first recorded. `record` builds it; `lookup_word` and
 * `lookup_query` rank documents from it, and both read the table with
 * `operator[]`, which adds an empty posting map for a word not seen before.
 */
module WordIndex {

  /** Document name -> number of recorded occurrences. */
  type Postings = map<string, int>

  /** Word -> its postings. */
  type Table = map<string, Postings>

  /** One ranked answer: a document and its rank. */
  datatype Result = Result(docName: string, rank: int)

  /** `d` has a posting under `w`. */
  predicate Has(t: Table, w: string, d: string) {
    w in t && d in t[w]
  }

  /** The recorded number of occurrences of `w` in `d`, 0 when there is no posting. */
  function Count(t: Table, w: string, d: string): int {
    if Has(t, w, d) then t[w][d] else 0
  }

  predicate NoDuplicates<T(==)>(s: seq<T>) {
    forall i, j :: 0 <= i < j < |s| ==> s[i] != s[j]
  }

  /**
   * What `record` keeps true: every count is at least 1, every document is
   * listed once, and every document with a posting is listed.
   */
  ghost predicate WellFormed(t: Table, docs: seq<string>) {
    && (forall w, d :: Has(t, w, d) ==> t[w][d] >= 1)
    && NoDuplicates(docs)
    && (forall w, d :: Has(t, w, d) ==> d in docs)
  }

  /** The two tables hold the same postings with the same counts. */
  ghost predicate SamePostings(t1: Table, t2: Table) {
    forall w, d :: (Has(t1, w, d) <==> Has(t2, w, d)) && Count(t1, w, d) == Count(t2, w, d)
  }

  /**
   * `after` is `before` with empty posting maps added for some new words and
   * nothing else changed: the only effect `operator[]` has on a lookup.
   */
  ghost predicate GrownByEmpty(before: Table, after: Table) {
    && (forall w :: w in before ==> w in after && after[w] == before[w])
    && (forall w :: w in after && w !in before ==> after[w] == map[])
  }

  /** Adding empty posting maps changes no posting and no count. */
  lemma GrownKeepsPostings(before: Table, after: Table)
    requires GrownByEmpty(before, after)
    ensures SamePostings(before, after)
  {
  }

  /** Adding empty posting maps keeps the index well formed. */
  lemma GrownKeepsWellFormed(before: Table, after: Table, docs: seq<string>)
    requires GrownByEmpty(before, after) && WellFormed(before, docs)
    ensures WellFormed(after, docs)
  {
    forall w, d | Has(after, w, d) ensures Has(before, w, d) && after[w][d] == before[w][d] {
      if w !in before {
        assert false;
      }
    }
  }

  /** `t` with an empty posting map added for each of `words` it does not have yet. */
  function AddEmpty(t: Table, words: set<string>): (r: Table)
    ensures GrownByEmpty(t, r) && r.Keys == t.Keys + words
  {
    map w | w in t.Keys + words :: if w in t then t[w] else map[]
  }

  /** A grown table is determined by its keys: it is AddEmpty of the words it gained. */
  lemma GrownIsAddEmpty(t: Table, r: Table, words: set<string>)
    requires GrownByEmpty(t, r) && r.Keys == t.Keys + words
    ensures r == AddEmpty(t, words)
  {
    var a := AddEmpty(t, words);
    assert forall w :: w in r ==> r[w] == a[w];
  }

  /** The table after `operator[](w)`: unchanged when `w` is present, else `w` added with no postings. */
  function Probe(t: Table, w: string): (r: Table)
    ensures GrownByEmpty(t, r) && r.Keys == t.Keys + {w}
  {
    if w in t then t else t[w := map[]]
  }

  /**
   * A probe on a table grown from `t0` keeps it grown from `t0`, and the
   * probed word's posting map holds exactly the postings it had in `t0`.
   */
  lemma ProbeKeepsPostings(t0: Table, t: Table, w: string)
    requires GrownByEmpty(t0, t)
    ensures GrownByEmpty(t0, Probe(t, w))
    ensures forall d :: d in Probe(t, w)[w] <==> Has(t0, w, d)
    ensures forall d :: Has(t0, w, d) ==> Probe(t, w)[w][d] == t0[w][d]
  {
    assert w !in t0 ==> Probe(t, w)[w] == map[];
  }

  // ---------------------------------------------------------------------------
  // record
  // ---------------------------------------------------------------------------

  /**
   * The table after `record(w, d)`: the count of (w, d) goes up by one (from
   * 0 to 1 when there was no posting), no other count moves, and `w` joins
   * the words when it was new.
   */
  function Recorded(t: Table, w: string, d: string): (t': Table)
    ensures t'.Keys == t.Keys + {w}
    ensures |t'| == if w in t then |t| else |t| + 1
    ensures Has(t', w, d) && Count(t', w, d) == Count(t, w, d) + 1
  {
    if w in t then
      if d in t[w] then t[w := t[w][d := t[w][d] + 1]]
      else t[w := t[w][d := 1]]
    else
      t[w := map[d := 1]]
  }

  /** Recording (w, d) leaves every other pair's posting and count as they were. */
  lemma RecordedElsewhere(t: Table, w: string, d: string, w': string, d': string)
    requires w' != w || d' != d
    ensures Has(Recorded(t, w, d), w', d') <==> Has(t, w', d')
    ensures Count(Recorded(t, w, d), w', d') == Count(t, w', d')
  {
  }

  /** The document list after `record(_, d)`: `d` appended only when it was not there. */
  function RecordedDocs(docs: seq<string>, d: string): (r: seq<string>)
    ensures docs <= r
    ensures forall x :: x in r <==> x in docs || x == d
    ensures |r| == if d in docs then |docs| else |docs| + 1
    ensures NoDuplicates(docs) ==> NoDuplicates(r)
  {
    if d in docs then docs else docs + [d]
  }

  /** Recording keeps the index well formed. */
  lemma RecordKeepsWellFormed(t: Table, docs: seq<string>, w: string, d: string)
    requires WellFormed(t, docs)
    ensures WellFormed(Recorded(t, w, d), RecordedDocs(docs, d))
  {
    var t' := Recorded(t, w, d);
    forall w', d' | Has(t', w', d') ensures t'[w'][d'] >= 1 && d' in RecordedDocs(docs, d) {
      if w' != w || d' != d {
        RecordedElsewhere(t, w, d, w', d');
      }
    }
  }

  /** The table after recording each (word, document) pair of `events` in order. */
  function RecordAll(t: Table, events: seq<(string, string)>): Table
    decreases |events|
  {
    if events == [] then t
    else RecordAll(Recorded(t, events[0].0, events[0].1), events[1..])
  }

  /**
   * A pair recorded N times has count N more than before, and a document gets
   * a posting under a word only by being recorded with it.
   */
  lemma {:induction false} CountIsOccurrences(t: Table, events: seq<(string, string)>, w: string, d: string)
    ensures Count(RecordAll(t, events), w, d) == Count(t, w, d) + multiset(events)[(w, d)]
    ensures Has(RecordAll(t, events), w, d) <==> Has(t, w, d) || (w, d) in events
    decreases |events|
  {
    if events != [] {
      var e := events[0];
      var t1 := Recorded(t, e.0, e.1);
      if e != (w, d) {
        RecordedElsewhere(t, e.0, e.1, w, d);
      }
      assert multiset(events)[(w, d)] == multiset(events[1..])[(w, d)] + (if e == (w, d) then 1 else 0)
          && ((w, d) in events <==> e == (w, d) || (w, d) in events[1..]) by {
        assert events == [e] + events[1..];
      }
      CountIsOccurrences(t1, events[1..], w, d);
    }
  }

  // ---------------------------------------------------------------------------
  // Ordering of results: Result::operator< and std::list::sort
  // ---------------------------------------------------------------------------

  /** What std::list::sort needs of the element order: irreflexive and transitive. */
  ghost predicate StrictOrder(less: (Result, Result) -> bool) {
    && (forall a :: !less(a, a))
    && (forall a, b, c :: less(a, b) && less(b, c) ==> less(a, c))
  }

  /** The order puts a higher rank in front of a lower one. */
  ghost predicate HigherRankFirst(less: (Result, Result) -> bool) {
    forall a: Result, b: Result :: a.rank > b.rank ==> less(a, b)
  }

  /** No element is ordered before one that precedes it. */
  ghost predicate SortedBy(s: seq<Result>, less: (Result, Result) -> bool) {
    forall i, j :: 0 <= i < j < |s| ==> !less(s[j], s[i])
  }

  /** `x` placed in sorted `s` after every element it is not ordered before. */
  function Insert(x: Result, s: seq<Result>, less: (Result, Result) -> bool): (r: seq<Result>)
    requires StrictOrder(less) && SortedBy(s, less)
    ensures SortedBy(r, less)
    ensures multiset(r) == multiset(s) + multiset{x}
  {
    if s == [] || less(x, s[0]) then
      InsertFront(x, s, less);
      [x] + s
    else
      var rest := Insert(x, s[1..], less);
      InsertBehind(x, s, rest, less);
      [s[0]] + rest
  }

  /** `x` ordered before the head of a sorted sequence goes in front of all of it. */
  lemma InsertFront(x: Result, s: seq<Result>, less: (Result, Result) -> bool)
    requires StrictOrder(less) && SortedBy(s, less)
    requires s == [] || less(x, s[0])
    ensures SortedBy([x] + s, less)
  {
    var r := [x] + s;
    forall i, j | 0 <= i < j < |r| ensures !less(r[j], r[i]) {
      if i == 0 {
        var y, first := s[j - 1], s[0];
        assert !less(y, first);
        assert less(y, x) && less(x, first) ==> less(y, first);
      } else {
        assert r[j] == s[j - 1] && r[i] == s[i - 1];
      }
    }
  }

  /** The head stays in front of the insertion into the tail, which is not ordered before it. */
  lemma InsertBehind(x: Result, s: seq<Result>, rest: seq<Result>, less: (Result, Result) -> bool)
    requires StrictOrder(less) && SortedBy(s, less)
    requires s != [] && !less(x, s[0])
    requires SortedBy(rest, less) && multiset(rest) == multiset(s[1..]) + multiset{x}
    ensures SortedBy([s[0]] + rest, less)
    ensures multiset([s[0]] + rest) == multiset(s) + multiset{x}
  {
    assert s == [s[0]] + s[1..];
    var r := [s[0]] + rest;
    forall i, j | 0 <= i < j < |r| ensures !less(r[j], r[i]) {
      if i == 0 {
        assert rest[j - 1] in multiset(rest);
        assert rest[j - 1] == x || rest[j - 1] in s[1..];
      } else {
        assert r[j] == rest[j - 1] && r[i] == rest[i - 1];
      }
    }
  }

  /**
   * std::list::sort as insertion sort, elements taken in list order (so
   * stable): the result is ordered by `less` and is a permutation of `s`;
   * under an order that puts higher ranks first, ranks never go up.
   */
  function Sort(s: seq<Result>, less: (Result, Result) -> bool): (r: seq<Result>)
    requires StrictOrder(less)
    ensures SortedBy(r, less)
    ensures multiset(r) == multiset(s)
    ensures HigherRankFirst(less) ==> forall i, j :: 0 <= i < j < |r| ==> r[i].rank >= r[j].rank
  {
    if s == [] then []
    else
      assert s == s[..|s| - 1] + [s[|s| - 1]];
      Insert(s[|s| - 1], Sort(s[..|s| - 1], less), less)
  }

  /** Highest rank first, nothing else compared: one order the source comment allows. */
  predicate ByRank(a: Result, b: Result) {
    a.rank > b.rank
  }

  lemma ByRankOrders()
    ensures StrictOrder(ByRank) && HigherRankFirst(ByRank)
  {
  }

  // ---------------------------------------------------------------------------
  // lookup_query, as a specification over the table and the document list
  // ---------------------------------------------------------------------------

  /** The rank lookup_query sums for `d`: d's count for each query word, a repeated word counted again. */
  function Rank(t: Table, q: seq<string>, d: string): int {
    if q == [] then 0
    else Rank(t, q[..|q| - 1], d) + Count(t, q[|q| - 1], d)
  }

  /** Every query word has a posting for `d`. */
  predicate AllFound(t: Table, q: seq<string>, d: string) {
    forall i :: 0 <= i < |q| ==> Has(t, q[i], d)
  }

  /** `d` makes it into the answer: every word found and a positive rank. */
  predicate Qualifies(t: Table, q: seq<string>, d: string) {
    AllFound(t, q, d) && Rank(t, q, d) > 0
  }

  /** The results before sorting: the qualifying documents, in `docs` order, with their ranks. */
  function QueryResults(t: Table, docs: seq<string>, q: seq<string>): seq<Result> {
    if docs == [] then []
    else
      var d := docs[|docs| - 1];
      QueryResults(t, docs[..|docs| - 1], q)
        + (if Qualifies(t, q, d) then [Result(d, Rank(t, q, d))] else [])
  }

  /**
   * The query words lookup_query reads with `operator[]` while scoring `d`,
   * among the first `n`: a word is read while every earlier one was found.
   */
  ghost function ProbedFor(t: Table, q: seq<string>, d: string, n: nat): set<string>
    requires n <= |q|
  {
    set j | 0 <= j < n && AllFound(t, q[..j], d) :: q[j]
  }

  /** The words lookup_query reads with `operator[]` over all of `docs`. */
  ghost function Probed(t: Table, docs: seq<string>, q: seq<string>): set<string> {
    if docs == [] then {}
    else Probed(t, docs[..|docs| - 1], q) + ProbedFor(t, q, docs[|docs| - 1], |q|)
  }

  /** One more document for the answer and for the words read. */
  lemma QueryStep(t: Table, docs: seq<string>, q: seq<string>, k: nat)
    requires k < |docs|
    ensures QueryResults(t, docs[..k + 1], q) == QueryResults(t, docs[..k], q)
              + (if Qualifies(t, q, docs[k]) then [Result(docs[k], Rank(t, q, docs[k]))] else [])
    ensures Probed(t, docs[..k + 1], q) == Probed(t, docs[..k], q) + ProbedFor(t, q, docs[k], |q|)
  {
    assert docs[..k + 1][..k] == docs[..k];
  }

  lemma ProbedForStep(t: Table, q: seq<string>, d: string, n: nat)
    requires n < |q|
    ensures ProbedFor(t, q, d, n + 1)
         == ProbedFor(t, q, d, n) + (if AllFound(t, q[..n], d) then {q[n]} else {})
  {
  }

  /** Extending the word prefix by one adds that word's count. */
  lemma RankStep(t: Table, q: seq<string>, d: string, n: nat)
    requires n < |q|
    ensures Rank(t, q[..n + 1], d) == Rank(t, q[..n], d) + Count(t, q[n], d)
  {
    assert q[..n + 1][..n] == q[..n];
  }

  /** Extending the word prefix by one: found so far, and found for the next word. */
  lemma AllFoundStep(t: Table, q: seq<string>, d: string, n: nat)
    requires n < |q|
    ensures AllFound(t, q[..n + 1], d) <==> AllFound(t, q[..n], d) && Has(t, q[n], d)
  {
    assert forall i :: 0 <= i < n ==> q[..n + 1][i] == q[..n][i];
  }

  /**
   * Exactly the words lookup_query reads: only query words, and with at least
   * one document and one word, always the first word.
   */
  lemma {:induction false} ProbedWords(t: Table, docs: seq<string>, q: seq<string>)
    ensures forall w :: w in Probed(t, docs, q) ==> w in q
    ensures docs != [] && q != [] ==> q[0] in Probed(t, docs, q)
  {
    if docs != [] {
      ProbedWords(t, docs[..|docs| - 1], q);
      if q != [] {
        assert q[0] in ProbedFor(t, q, docs[|docs| - 1], |q|) by {
          assert AllFound(t, q[..0], docs[|docs| - 1]);
        }
      }
    }
  }

  /** An empty query reads no word. */
  lemma {:induction false} ProbedEmptyQuery(t: Table, docs: seq<string>)
    ensures Probed(t, docs, []) == {}
  {
    if docs != [] {
      ProbedEmptyQuery(t, docs[..|docs| - 1]);
    }
  }

  /** lookup_query([]) finds nothing: the rank stays 0, which is not positive. */
  lemma {:induction false} EmptyQueryFindsNothing(t: Table, docs: seq<string>)
    ensures QueryResults(t, docs, []) == []
  {
    if docs != [] {
      EmptyQueryFindsNothing(t, docs[..|docs| - 1]);
      assert !Qualifies(t, [], docs[|docs| - 1]);
    }
  }

  /** Ranks add up over concatenated queries, so a repeated word is counted again. */
  lemma {:induction false} RankConcat(t: Table, q1: seq<string>, q2: seq<string>, d: string)
    ensures Rank(t, q1 + q2, d) == Rank(t, q1, d) + Rank(t, q2, d)
  {
    if q2 != [] {
      var q2' := q2[..|q2| - 1];
      RankConcat(t, q1, q2', d);
      assert (q1 + q2)[..|q1 + q2| - 1] == q1 + q2';
      assert (q1 + q2)[|q1 + q2| - 1] == q2[|q2| - 1];
    } else {
      assert q1 + q2 == q1;
    }
  }

  /** In a well-formed index each found word adds at least 1 to the rank. */
  lemma {:induction false} RankAtLeastLength(t: Table, docs: seq<string>, q: seq<string>, d: string)
    requires WellFormed(t, docs) && AllFound(t, q, d)
    ensures Rank(t, q, d) >= |q|
  {
    if q != [] {
      var q' := q[..|q| - 1];
      assert AllFound(t, q', d) by {
        forall i | 0 <= i < |q'| ensures Has(t, q'[i], d) { assert q'[i] == q[i]; }
      }
      RankAtLeastLength(t, docs, q', d);
      assert Has(t, q[|q| - 1], d);
    }
  }

  /**
   * In a well-formed index the positive-rank test only removes the empty
   * query: a document qualifies exactly when the query is non-empty and every
   * word has a posting for it.
   */
  lemma QualifiesIff(t: Table, docs: seq<string>, q: seq<string>, d: string)
    requires WellFormed(t, docs)
    ensures Qualifies(t, q, d) <==> q != [] && AllFound(t, q, d)
  {
    if AllFound(t, q, d) {
      RankAtLeastLength(t, docs, q, d);
    }
  }

  /**
   * lookup_query's answer before sorting holds each listed document once if it
   * qualifies, with its summed rank, and nothing else.
   */
  lemma {:induction false} QueryResultsExact(t: Table, docs: seq<string>, q: seq<string>)
    requires NoDuplicates(docs)
    ensures forall r :: multiset(QueryResults(t, docs, q))[r]
                     == if r.docName in docs && Qualifies(t, q, r.docName) && r.rank == Rank(t, q, r.docName)
                        then 1 else 0
  {
    if docs != [] {
      var docs' := docs[..|docs| - 1];
      var d := docs[|docs| - 1];
      assert NoDuplicates(docs');
      QueryResultsExact(t, docs', q);
      assert docs == docs' + [d];
      assert d !in docs';
      forall r
        ensures multiset(QueryResults(t, docs, q))[r]
             == if r.docName in docs && Qualifies(t, q, r.docName) && r.rank == Rank(t, q, r.docName)
                then 1 else 0
      {
        assert r.docName in docs <==> r.docName in docs' || r.docName == d;
      }
    }
  }

  /** The answer depends only on the postings and counts, not on empty posting maps. */
  lemma {:induction false} QueryResultsSamePostings(t1: Table, t2: Table, docs: seq<string>, q: seq<string>)
    requires SamePostings(t1, t2)
    ensures QueryResults(t1, docs, q) == QueryResults(t2, docs, q)
  {
    if docs != [] {
      QueryResultsSamePostings(t1, t2, docs[..|docs| - 1], q);
      var d := docs[|docs| - 1];
      RankSamePostings(t1, t2, q, d);
      assert AllFound(t1, q, d) <==> AllFound(t2, q, d);
    }
  }

  lemma {:induction false} RankSamePostings(t1: Table, t2: Table, q: seq<string>, d: string)
    requires SamePostings(t1, t2)
    ensures Rank(t1, q, d) == Rank(t2, q, d)
  {
    if q != [] {
      RankSamePostings(t1, t2, q[..|q| - 1], d);
      assert Count(t1, q[|q| - 1], d) == Count(t2, q[|q| - 1], d);
    }
  }

  // ---------------------------------------------------------------------------
  // The index object
  // ---------------------------------------------------------------------------

  class Index {
    /** word -> (document -> count) */
    var table: Table
    /** known documents, in the order they were first recorded */
    var docs: seq<string>
    /** Result::operator<, the order result.sort() uses */
    const less: (Result, Result) -> bool

    ghost predicate Valid()
      reads this
    {
      WellFormed(table, docs) && StrictOrder(less)
    }

    constructor (less: (Result, Result) -> bool)
      requires StrictOrder(less)
      ensures Valid() && table == map[] && docs == [] && this.less == less
    {
      table := map[];
      docs := [];
      this.less := less;
    }

    /** num_words: the number of words in the table, empty posting maps included. */
    method NumWords() returns (n: nat)
      ensures n == |table.Keys|
    {
      n := |table|;
    }

    /** record(w, d): one more occurrence of `w` in `d`. */
    method Record(w: string, d: string)
      requires Valid()
      modifies this
      ensures Valid()
      ensures table == Recorded(old(table), w, d)
      ensures docs == RecordedDocs(old(docs), d)
    {
      if d !in docs {
        docs := docs + [d];
      }
      if w in table {
        if d in table[w] {
          table := table[w := table[w][d := table[w][d] + 1]];
        } else {
          table := table[w := table[w][d := 1]];
        }
      } else {
        var temp := map[d := 1];
        table := table[w := temp];
      }
      RecordKeepsWellFormed(old(table), old(docs), w, d);
    }

    /** `table[w]` on the std::map: the posting map of `w`, added empty first when `w` is new. */
    method Get(w: string) returns (postings: Postings)
      modifies this`table
      ensures table == Probe(old(table), w)
      ensures postings == table[w]
    {
      if w !in table {
        table := table[w := map[]];
      }
      postings := table[w];
    }

    /**
     * lookup_word(w): one result per posting of `w`, carrying its count, and
     * none for any other document, sorted by `less`. Reading `table[w]` adds
     * an empty posting map when `w` is new; nothing else changes.
     */
    method LookupWord(w: string) returns (results: seq<Result>)
      requires Valid()
      modifies this`table
      ensures Valid()
      ensures table == Probe(old(table), w)
      ensures forall r :: multiset(results)[r]
                       == if Has(old(table), w, r.docName) && old(table)[w][r.docName] == r.rank then 1 else 0
      ensures SortedBy(results, less)
    {
      var counter := Get(w);
      GrownKeepsWellFormed(old(table), table, docs);
      var unsorted: seq<Result> := [];
      var rest := counter.Keys;
      while rest != {}
        invariant rest <= counter.Keys
        invariant forall r :: multiset(unsorted)[r]
                           == if r.docName in counter && r.docName !in rest && counter[r.docName] == r.rank then 1 else 0
        decreases rest
      {
        var key :| key in rest;
        unsorted := unsorted + [Result(key, counter[key])];
        rest := rest - {key};
      }
      results := Sort(unsorted, less);
    }

    /**
     * lookup_query(q): the qualifying documents in `docs` order with their
     * summed ranks, sorted by `less`. The table only gains empty posting maps,
     * one for each word in Probed not already there; counts and `docs` stay.
     */
    method LookupQuery(q: seq<string>) returns (results: seq<Result>)
      requires Valid()
      modifies this`table
      ensures Valid()
      ensures table == AddEmpty(old(table), Probed(old(table), docs, q))
      ensures results == Sort(QueryResults(old(table), docs, q), less)
    {
      ghost var t0 := table;
      var unsorted: seq<Result> := [];
      var k := 0;
      while k < |docs|
        invariant 0 <= k <= |docs|
        invariant GrownByEmpty(t0, table)
        invariant table.Keys == t0.Keys + Probed(t0, docs[..k], q)
        invariant unsorted == QueryResults(t0, docs[..k], q)
      {
        var doc := docs[k];
        var allFound, n := ScoreDocument(doc, q, t0);
        QueryStep(t0, docs, q, k);
        if allFound && n > 0 {
          unsorted := unsorted + [Result(doc, n)];
        }
        k := k + 1;
      }
      assert docs[..|docs|] == docs;
      assert WellFormed(table, docs) by { GrownKeepsWellFormed(t0, table, docs); }
      assert table == AddEmpty(t0, Probed(t0, docs, q)) by {
        GrownIsAddEmpty(t0, table, Probed(t0, docs, q));
      }
      results := Sort(unsorted, less);
    }

    /**
     * The inner loop of lookup_query, for one document: `allFound` stays true
     * while every query word so far has a posting for `doc`, `n` sums their
     * counts, and each word is read with `operator[]` only while `allFound`
     * holds. `t0` is the table as the query found it.
     */
    method ScoreDocument(doc: string, q: seq<string>, ghost t0: Table) returns (allFound: bool, n: int)
      requires GrownByEmpty(t0, table)
      modifies this`table
      ensures GrownByEmpty(t0, table)
      ensures table.Keys == old(table).Keys + ProbedFor(t0, q, doc, |q|)
      ensures allFound == AllFound(t0, q, doc)
      ensures allFound ==> n == Rank(t0, q, doc)
    {
      allFound := true;
      n := 0;
      var i := 0;
      while i < |q|
        invariant 0 <= i <= |q|
        invariant allFound == AllFound(t0, q[..i], doc)
        invariant allFound ==> n == Rank(t0, q[..i], doc)
        invariant GrownByEmpty(t0, table)
        invariant table.Keys == old(table).Keys + ProbedFor(t0, q, doc, i)
      {
        ProbedForStep(t0, q, doc, i);
        AllFoundStep(t0, q, doc, i);
        RankStep(t0, q, doc, i);
        if allFound {
          ProbeKeepsPostings(t0, table, q[i]);
          var postings := Get(q[i]);
          if doc in postings {
            n := n + postings[doc];
          } else {
            allFound := false;
          }
        }
        i := i + 1;
      }
      assert q[..|q|] == q;
    }
  }
}
