/** Search: the stored rows most similar to a query. */
module Search {
  import opened Text
  import opened Tokenizer
  import opened Similarity
  import opened IndexTable
  import opened Indexer

  datatype Match = Match(path: string, score: real)

  /** The score of a row's stored tokens against a query. */
  ghost function Relevance(row: Row, query: string): real {
    Score(Tokens(query), Fields(row.doc.tokens))
  }

  /** The rows among those listed that score above zero, with their scores. */
  ghost function Candidates(rows: map<string, Row>, listed: set<string>, query: string): set<Match>
    requires listed <= rows.Keys
  {
    set p | p in listed && Relevance(rows[p], query) > 0.0 :: Match(p, Relevance(rows[p], query))
  }

  ghost predicate BestFirst(ms: seq<Match>) {
    forall i, j | 0 <= i < j < |ms| :: ms[i].score >= ms[j].score
  }

  /** matches are k best candidates, or all of them when there are fewer, best first. */
  ghost predicate IsTopK(candidates: set<Match>, k: nat, matches: seq<Match>) {
    && NoDuplicates(matches)
    && Elements(matches) <= candidates
    && |matches| == (if |candidates| <= k then |candidates| else k)
    && BestFirst(matches)
    && (forall i, c | 0 <= i < |matches| && c in candidates - Elements(matches) :: matches[i].score >= c.score)
  }

  lemma BestExists(ms: seq<Match>) returns (i: nat)
    requires ms != []
    ensures i < |ms| && forall j | 0 <= j < |ms| :: ms[i].score >= ms[j].score
  {
    i := 0;
    for k := 1 to |ms|
      invariant i < |ms| && forall j | 0 <= j < k :: ms[i].score >= ms[j].score
    {
      if ms[k].score > ms[i].score { i := k; }
    }
  }

  /** No match of rest scores above one of sorted. */
  ghost predicate Above(sorted: seq<Match>, rest: seq<Match>) {
    forall a, b | 0 <= a < |sorted| && 0 <= b < |rest| :: sorted[a].score >= rest[b].score
  }

  lemma TakeBest(sorted: seq<Match>, rest: seq<Match>, i: nat)
    requires BestFirst(sorted) && Above(sorted, rest)
    requires i < |rest| && forall j | 0 <= j < |rest| :: rest[i].score >= rest[j].score
    ensures BestFirst(sorted + [rest[i]]) && Above(sorted + [rest[i]], rest[..i] + rest[i + 1..])
  {
  }

  lemma TakenOnce(sorted: seq<Match>, rest: seq<Match>, i: nat)
    requires i < |rest|
    ensures multiset(sorted + [rest[i]]) + multiset(rest[..i] + rest[i + 1..]) == multiset(sorted) + multiset(rest)
  {
    assert rest == rest[..i] + [rest[i]] + rest[i + 1..];
  }

  /** Any sort by decreasing score: equal scores come in any order. */
  method SortByScore(ms: seq<Match>) returns (sorted: seq<Match>)
    ensures BestFirst(sorted) && multiset(sorted) == multiset(ms)
  {
    hide BestFirst, Above;
    sorted := [];
    var rest := ms;
    NothingSorted(ms);
    while rest != []
      invariant multiset(sorted) + multiset(rest) == multiset(ms)
      invariant BestFirst(sorted) && Above(sorted, rest)
      decreases |rest|
    {
      ghost var _ := BestExists(rest);
      var i :| 0 <= i < |rest| && forall j | 0 <= j < |rest| :: rest[i].score >= rest[j].score;
      TakeBest(sorted, rest, i);
      TakenOnce(sorted, rest, i);
      sorted := sorted + [rest[i]];
      rest := rest[..i] + rest[i + 1..];
    }
  }

  lemma NothingSorted(ms: seq<Match>)
    ensures BestFirst([]) && Above([], ms)
  {
  }

  lemma PermutationOfDistinct<T>(a: seq<T>, b: seq<T>)
    requires multiset(a) == multiset(b) && NoDuplicates(a)
    ensures NoDuplicates(b) && Elements(b) == Elements(a)
  {
    forall x ensures x in Elements(a) <==> x in Elements(b) {
      assert x in a <==> x in multiset(a);
      assert x in b <==> x in multiset(b);
    }
    assert Elements(a) == Elements(b);
    SizeOfDistinct(a);
    assert |a| == |multiset(a)| == |multiset(b)| == |b|;
    DistinctBySize(b);
  }

  lemma {:induction false} DistinctBySize<T>(s: seq<T>)
    ensures |Elements(s)| <= |s|
    ensures |Elements(s)| == |s| ==> NoDuplicates(s)
  {
    if s != [] {
      var front, last := s[..|s| - 1], s[|s| - 1];
      DistinctBySize(front);
      assert s == front + [last];
      assert Elements(s) == Elements(front) + {last};
      if last in front { assert Elements(s) == Elements(front); }
    }
  }

  /** The first k of all candidates, sorted, are k best. */
  lemma PrefixOfSortedIsTopK(candidates: set<Match>, k: nat, sorted: seq<Match>)
    requires BestFirst(sorted) && NoDuplicates(sorted) && Elements(sorted) == candidates
    ensures IsTopK(candidates, k, if |sorted| > k then sorted[..k] else sorted)
  {
    SizeOfDistinct(sorted);
    var matches := if |sorted| > k then sorted[..k] else sorted;
    assert forall m | m in matches :: m in sorted;
    forall i, c | 0 <= i < |matches| && c in candidates - Elements(matches)
      ensures matches[i].score >= c.score
    {
      assert c in sorted;
      var j :| 0 <= j < |sorted| && sorted[j] == c;
      assert forall a | 0 <= a < |matches| :: matches[a] in Elements(matches);
    }
  }

  /** Scoring one more listed row. */
  lemma OneMoreCandidate(rows: map<string, Row>, listed: seq<string>, i: nat, query: string, matches: seq<Match>)
    requires Elements(listed) <= rows.Keys && NoDuplicates(listed) && i < |listed|
    requires Elements(listed[..i]) <= rows.Keys && Elements(listed[..i + 1]) <= rows.Keys
    requires NoDuplicates(matches) && Elements(matches) == Candidates(rows, Elements(listed[..i]), query)
    ensures var score := Relevance(rows[listed[i]], query);
            var more := if score <= 0.0 then matches else matches + [Match(listed[i], score)];
            NoDuplicates(more) && Elements(more) == Candidates(rows, Elements(listed[..i + 1]), query)
  {
    assert listed[i] !in Elements(listed[..i]);
    assert Elements(listed[..i + 1]) == Elements(listed[..i]) + {listed[i]};
    var score := Relevance(rows[listed[i]], query);
    var m := Match(listed[i], score);
    assert forall c | c in Elements(matches) :: c.path in Elements(listed[..i]);
    assert forall a | 0 <= a < |matches| :: matches[a] in Elements(matches);
    assert m !in Elements(matches);
    assert Elements(matches + [m]) == Elements(matches) + {m};
  }

  /** listed stands for the rows that ListIndexEntries returned. */
  method SearchRows(db: Table, query: string, limit: int)
    returns (ok: bool, matches: seq<Match>, ghost listed: seq<string>)
    modifies db`faults
    ensures db.faults >= old(db.faults) && (ok <==> db.faults == old(db.faults))
    ensures Tokens(query) == [] ==> ok && matches == []
    ensures ok && Tokens(query) != [] ==>
              && IsListing(db.rows, 200, listed)
              && IsTopK(Candidates(db.rows, Elements(listed), query), if limit <= 0 then 5 else limit, matches)
  {
    hide Score, Jaccard, IsTopK, BestFirst, Fields, Tokens, TextLess;
    listed := [];
    var queryTokens := Tokenize(query);
    if |queryTokens| == 0 { return true, [], listed; }
    var found, entries := db.ListIndexEntries(0);
    listed := entries;
    if !found { return false, [], listed; }
    var most := if limit <= 0 then 5 else limit;
    matches := [];
    for i := 0 to |entries|
      invariant Elements(entries[..i]) <= db.rows.Keys && db.faults == old(db.faults)
      invariant Elements(matches) == Candidates(db.rows, Elements(entries[..i]), query)
      invariant NoDuplicates(matches)
    {
      assert forall p | p in entries :: p in Elements(entries);
      OneMoreCandidate(db.rows, entries, i, query, matches);
      var score := Compare(queryTokens, Fields(db.rows[entries[i]].doc.tokens));
      if score <= 0.0 { continue; }
      matches := matches + [Match(entries[i], score)];
    }
    assert entries[..|entries|] == entries;
    var sorted := SortByScore(matches);
    PermutationOfDistinct(matches, sorted);
    PrefixOfSortedIsTopK(Elements(matches), most, sorted);
    matches := if |sorted| > most then sorted[..most] else sorted;
    return true, matches, listed;
  }

  /* ---------- What a search means ---------- */

  /** On a sound row, the stored tokens score as freshly tokenized content would. */
  lemma RelevanceIsJaccardOfContent(row: Row, query: string)
    requires SoundDoc(row.doc)
    ensures Relevance(row, query) == Jaccard(Elements(Tokens(query)), Elements(Tokens(row.doc.content)))
    ensures Relevance(row, query) > 0.0 <==> exists t :: t in Tokens(query) && t in Tokens(row.doc.content)
  {
    var q, c := Tokens(query), Tokens(row.doc.content);
    ColumnRoundTrip(row.doc.content);
    TokensAreDistinctWords(row.doc.content);
    CountingIsJaccard(q, c);
    JaccardMeasuresOverlap(Elements(q), Elements(c));
    if t :| t in q && t in c { assert t in Elements(q) * Elements(c); }
    if Elements(q) * Elements(c) != {} {
      var t :| t in Elements(q) * Elements(c);
      assert t in q && t in c;
    }
  }

  /** Capitals in a query make no difference. */
  lemma RelevanceIgnoresCapitals(row: Row, query: string, lowered: string)
    requires PartlyLowered(query, lowered)
    ensures Relevance(row, query) == Relevance(row, lowered)
  {
    TokensIgnoreCapitals(query, lowered);
  }

  /** Nor do capitals in a file. */
  lemma IndexingIgnoresCapitals(content: string, lowered: string)
    requires PartlyLowered(content, lowered)
    ensures Indexed(content).tokens == Indexed(lowered).tokens
  {
    TokensIgnoreCapitals(content, lowered);
  }

  /** The candidates found by tokenizing the watched files afresh. */
  ghost function FreshCandidates(docs: set<string>, files: map<string, string>, query: string): set<Match>
    requires docs <= files.Keys
  {
    set p | p in docs && Elements(Tokens(query)) * Elements(Tokens(files[p])) != {} ::
      Match(p, Jaccard(Elements(Tokens(query)), Elements(Tokens(files[p]))))
  }

  /** With at most 200 rows that agree with the files, searching the index is ranking the files themselves. */
  lemma SearchRanksTheFiles(rows: map<string, Row>, listed: seq<string>, docs: set<string>, files: map<string, string>, query: string)
    requires IsListing(rows, 200, listed) && |rows| <= 200
    requires docs <= files.Keys && Docs(rows) == Rebuild(docs, files)
    ensures Candidates(rows, Elements(listed), query) == FreshCandidates(docs, files, query)
  {
    ShortListingIsComplete(rows, 200, listed);
    assert rows.Keys == Docs(rows).Keys == docs;
    forall p | p in docs
      ensures Relevance(rows[p], query) == Jaccard(Elements(Tokens(query)), Elements(Tokens(files[p])))
      ensures Relevance(rows[p], query) > 0.0 <==> Elements(Tokens(query)) * Elements(Tokens(files[p])) != {}
    {
      assert rows[p].doc == Docs(rows)[p] == Indexed(files[p]);
      RelevanceIsJaccardOfContent(rows[p], query);
      JaccardMeasuresOverlap(Elements(Tokens(query)), Elements(Tokens(files[p])));
    }
  }

  /** A query that shares a token with a sound, listed row finds that row when the limit admits every candidate. */
  lemma SharedTokenIsFound(rows: map<string, Row>, listed: seq<string>, query: string, k: nat, matches: seq<Match>,
                           path: string, token: string)
    requires IsListing(rows, 200, listed) && path in listed && SoundDoc(rows[path].doc)
    requires token in Tokens(query) && token in Tokens(rows[path].doc.content)
    requires IsTopK(Candidates(rows, Elements(listed), query), k, matches)
    requires |Candidates(rows, Elements(listed), query)| <= k
    ensures exists m :: m in matches && m.path == path
  {
    var candidates := Candidates(rows, Elements(listed), query);
    RelevanceIsJaccardOfContent(rows[path], query);
    var m := Match(path, Relevance(rows[path], query));
    assert m in candidates;
    SizeOfDistinct(matches);
    SubsetSize(Elements(matches), candidates);
    assert m in Elements(matches);
  }
}
