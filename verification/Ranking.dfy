/**
 * The reference ranker of kc_bm25_search: every document is scored straight from its tokens, all
 * matching documents are ranked, and the best `limit` are taken.
 */
module Ranking {
  import opened Prelude
  import opened Ordering
  import opened Postings
  import opened ScoreTable
  import opened TopK

  /** k1, b and the inverse document frequency's `log1p`, which stays uninterpreted. */
  datatype Params = Params(k1: real, b: real, log1p: real -> real)
  {
    predicate Valid() {
      k1 >= 0.0 && 0.0 <= b <= 1.0
    }
  }

  /** The length-normalised term frequency; `relative` is the document's length over the average. */
  function Weight(tf: real, k1: real, b: real, relative: real): real {
    tf + k1 * (1.0 - b + b * relative)
  }

  lemma WeightPositive(tf: real, k1: real, b: real, relative: real)
    requires tf > 0.0 && k1 >= 0.0 && 0.0 <= b <= 1.0 && relative >= 0.0
    ensures Weight(tf, k1, b, relative) > 0.0
  {
    ProductNonnegative(b, relative);
    ProductNonnegative(k1, 1.0 - b + b * relative);
  }

  function Denominator(p: Params, tf: nat, length: nat, avgdl: real): real
    requires avgdl != 0.0
  {
    Weight(tf as real, p.k1, p.b, length as real / avgdl)
  }

  lemma DenominatorPositive(p: Params, tf: nat, length: nat, avgdl: real)
    requires p.Valid() && tf > 0 && avgdl > 0.0
    ensures Denominator(p, tf, length, avgdl) > 0.0
  {
    hide Weight;
    QuotientNonnegative(length as real, avgdl);
    WeightPositive(tf as real, p.k1, p.b, length as real / avgdl);
  }

  lemma ProductNonnegative(x: real, y: real)
    requires x >= 0.0 && y >= 0.0
    ensures x * y >= 0.0
  {
  }

  lemma QuotientNonnegative(x: real, y: real)
    requires x >= 0.0 && y > 0.0
    ensures x / y >= 0.0
  {
  }

  lemma QuotientPositive(x: real, y: real)
    requires x > 0.0 && y > 0.0
    ensures x / y > 0.0
  {
  }

  /** What one term with document frequency `df` contributes to a document holding it `tf` times. */
  function Contribution(p: Params, docs: nat, total: nat, df: nat, tf: nat, length: nat): real
    requires p.Valid() && docs > 0 && total > 0 && tf > 0
  {
    QuotientPositive(total as real, docs as real);
    var avgdl := total as real / docs as real;
    DenominatorPositive(p, tf, length, avgdl);
    var idf := p.log1p((docs as real - df as real + 0.5) / (df as real + 0.5));
    idf * tf as real * (p.k1 + 1.0) / Denominator(p, tf, length, avgdl)
  }

  // ---------- what the score formula means ----------

  /**
   * The score of one term, without a quotient: the inverse document frequency times the saturated term
   * frequency, the document's length being measured by the average length `total / docs`.
   */
  lemma ContributionMeans(p: Params, docs: nat, total: nat, df: nat, tf: nat, length: nat)
    requires p.Valid() && docs > 0 && total > 0 && tf > 0
    ensures Contribution(p, docs, total, df, tf, length)
            * (tf as real + p.k1 * (1.0 - p.b + p.b * (length as real / (total as real / docs as real))))
         == p.log1p((docs as real - df as real + 0.5) / (df as real + 0.5)) * tf as real * (p.k1 + 1.0)
    ensures tf as real + p.k1 * (1.0 - p.b + p.b * (length as real / (total as real / docs as real))) > 0.0
  {
    var avgdl := total as real / docs as real;
    QuotientPositive(total as real, docs as real);
    DenominatorPositive(p, tf, length, avgdl);
    var idf := p.log1p((docs as real - df as real + 0.5) / (df as real + 0.5));
    QuotientTimes(idf * tf as real * (p.k1 + 1.0), Denominator(p, tf, length, avgdl));
  }

  lemma QuotientTimes(x: real, y: real)
    requires y != 0.0
    ensures x / y * y == x
  {
  }

  /** A document with more occurrences of a term, or with the same in fewer tokens, scores no less. */
  lemma ContributionGrows(p: Params, docs: nat, total: nat, df: nat, tf: nat, length: nat, tf': nat, length': nat)
    requires p.Valid() && docs > 0 && total > 0 && 0 < tf <= tf' && length' <= length
    requires p.log1p((docs as real - df as real + 0.5) / (df as real + 0.5)) >= 0.0
    ensures 0.0 <= Contribution(p, docs, total, df, tf, length) <= Contribution(p, docs, total, df, tf', length')
  {
    hide Contribution, Brake;
    QuotientPositive(total as real, docs as real);
    var avgdl := total as real / docs as real;
    var idf := p.log1p((docs as real - df as real + 0.5) / (df as real + 0.5));
    ProductNonnegative(idf, p.k1 + 1.0);
    Lighter(p, length as real, length' as real, avgdl);
    Saturated(p, docs, total, df, tf, length, avgdl, idf);
    Saturated(p, docs, total, df, tf', length', avgdl, idf);
    Saturates(idf * (p.k1 + 1.0), Brake(p, length as real, avgdl), Brake(p, length' as real, avgdl),
              tf as real, tf' as real, Contribution(p, docs, total, df, tf, length),
              Contribution(p, docs, total, df, tf', length'));
  }

  /** What the length of a document adds to the divisor. */
  function Brake(p: Params, length: real, avgdl: real): real
    requires avgdl > 0.0
  {
    p.k1 * (1.0 - p.b + p.b * (length / avgdl))
  }

  lemma Saturated(p: Params, docs: nat, total: nat, df: nat, tf: nat, length: nat, avgdl: real, idf: real)
    requires p.Valid() && docs > 0 && total > 0 && tf > 0 && avgdl == total as real / docs as real > 0.0
    requires idf == p.log1p((docs as real - df as real + 0.5) / (df as real + 0.5))
    ensures Contribution(p, docs, total, df, tf, length) * (tf as real + Brake(p, length as real, avgdl))
         == idf * (p.k1 + 1.0) * tf as real
  {
    hide Contribution;
    ContributionMeans(p, docs, total, df, tf, length);
    Swap(idf, tf as real, p.k1 + 1.0);
  }

  lemma Swap(a: real, b: real, c: real)
    ensures a * b * c == a * c * b
  {
  }

  lemma Lighter(p: Params, length: real, length': real, avgdl: real)
    requires p.Valid() && avgdl > 0.0 && 0.0 <= length' <= length
    ensures 0.0 <= Brake(p, length', avgdl) <= Brake(p, length, avgdl)
  {
    QuotientNonnegative(length', avgdl);
    QuotientNonnegative(length - length', avgdl);
    assert length / avgdl - length' / avgdl == (length - length') / avgdl;
    ProductGrows(p.b, length' / avgdl, length / avgdl);
    ProductNonnegative(p.b, length' / avgdl);
    ProductGrows(p.k1, 1.0 - p.b + p.b * (length' / avgdl), 1.0 - p.b + p.b * (length / avgdl));
    ProductNonnegative(p.k1, 1.0 - p.b + p.b * (length' / avgdl));
  }

  lemma ProductGrows(x: real, a: real, b: real)
    requires x >= 0.0 && a <= b
    ensures x * a <= x * b
  {
  }

  /** `top * t / (t + k)` grows with `t` and falls with `k`. */
  lemma Saturates(top: real, k: real, k': real, t: real, t': real, c: real, c': real)
    requires top >= 0.0 && 0.0 <= k' <= k && 0.0 < t <= t'
    requires c * (t + k) == top * t && c' * (t' + k') == top * t'
    ensures 0.0 <= c <= c'
  {
    ProductNonnegative(top, t);
    if c < 0.0 {
      NegativeProduct(c, t + k);
      assert false;
    }
    if c > c' {
      var d, e := t + k, t' + k';
      assert c * d * t' == top * t * t';
      assert c' * e * t == top * t' * t;
      assert d * t' - e * t == k * t' - k' * t;
      ProductGrows(k, t, t');
      ProductGrows(t, k', k);
      assert e * t <= d * t';
      ProductNonnegative(e, t);
      StrictProduct(c', c, e * t, d * t');
      assert false;
    }
  }

  lemma NegativeProduct(x: real, y: real)
    requires x < 0.0 && y > 0.0
    ensures x * y < 0.0
  {
  }

  lemma StrictProduct(x: real, y: real, u: real, v: real)
    requires x < y && 0.0 <= y && 0.0 < u <= v
    ensures x * u < y * v
  {
    ProductGrows(y, u, v);
  }

  // ---------- scores from the tokens of the documents ----------

  function TokenTotal(tokens: seq<seq<seq<byte>>>): nat {
    if tokens == [] then 0 else TokenTotal(Init(tokens)) + |Last(tokens)|
  }

  lemma {:induction false} TokenTotalPositive(tokens: seq<seq<seq<byte>>>, d: nat)
    requires d < |tokens| && tokens[d] != []
    ensures TokenTotal(tokens) > 0
  {
    if d < |tokens| - 1 {
      TokenTotalPositive(Init(tokens), d);
    }
  }

  /** The documents that contain `t`. */
  function Containing(tokens: seq<seq<seq<byte>>>, t: seq<byte>): set<nat> {
    set d: nat | d < |tokens| && t in tokens[d]
  }

  /** What term `t` adds to the score of document `d`, which contains it. */
  function Added(p: Params, tokens: seq<seq<seq<byte>>>, t: seq<byte>, d: nat): real
    requires p.Valid() && d in Containing(tokens, t)
  {
    TokenTotalPositive(tokens, d);
    Contribution(p, |tokens|, TokenTotal(tokens), |Containing(tokens, t)|, multiset(tokens[d])[t], |tokens[d]|)
  }

  /**
   * What a query term adds to the score of a document, straight from the token lists: `tf` occurrences in the
   * document and `df` documents with the term.
   */
  lemma AddedMeans(p: Params, tokens: seq<seq<seq<byte>>>, t: seq<byte>, d: nat, tf: nat, df: nat)
    requires p.Valid() && d < |tokens| && t in tokens[d]
    requires tf == multiset(tokens[d])[t] && df == |set e: nat | e < |tokens| && t in tokens[e]|
    ensures TokenTotal(tokens) > 0 && tf > 0 && d in Containing(tokens, t)
    ensures Added(p, tokens, t, d) == Contribution(p, |tokens|, TokenTotal(tokens), df, tf, |tokens[d]|)
  {
    TokenTotalPositive(tokens, d);
    assert t in multiset(tokens[d]);
    assert d in Containing(tokens, t);
    hide Contribution, TokenTotal;
  }

  /** The running scores after one more query term. */
  function AddTerm(p: Params, tokens: seq<seq<seq<byte>>>, scores: map<nat, real>, t: seq<byte>): map<nat, real>
    requires p.Valid()
  {
    map d | d in scores.Keys + Containing(tokens, t) ::
      if d in Containing(tokens, t) then Get(scores, d) + Added(p, tokens, t, d) else Get(scores, d)
  }

  /** Scores of all matching documents, the terms taken in the given order. */
  function Scores(p: Params, tokens: seq<seq<seq<byte>>>, terms: seq<seq<byte>>): map<nat, real>
    requires p.Valid()
  {
    if terms == [] then map[] else AddTerm(p, tokens, Scores(p, tokens, Init(terms)), Last(terms))
  }

  // ---------- the distinct query terms ----------

  ghost predicate StrictlyAscending(s: seq<seq<byte>>) {
    forall i, j :: 0 <= i < j < |s| ==> StrLt(s[i], s[j])
  }

  /** The distinct tokens of the query in dictionary order; TermListUnique shows there is one such list. */
  ghost predicate IsTermList(terms: seq<seq<byte>>, query: seq<seq<byte>>) {
    StrictlyAscending(terms) && forall t :: t in terms <==> t in query
  }

  lemma LastIsNew(s: seq<seq<byte>>)
    requires StrictlyAscending(s) && s != []
    ensures Last(s) !in Init(s)
  {
    forall i | 0 <= i < |s| - 1
      ensures s[i] != Last(s)
    {
      assert StrLt(s[i], s[|s| - 1]);
    }
  }

  lemma {:induction false} AscendingCounts(s: seq<seq<byte>>, t: seq<byte>)
    requires StrictlyAscending(s)
    ensures multiset(s)[t] == if t in s then 1 else 0
  {
    if s != [] {
      assert s == Init(s) + [Last(s)];
      AscendingCounts(Init(s), t);
      LastIsNew(s);
    }
  }

  lemma TermListUnique(a: seq<seq<byte>>, b: seq<seq<byte>>, query: seq<seq<byte>>)
    requires IsTermList(a, query) && IsTermList(b, query)
    ensures a == b
  {
    StringsTotallyOrdered();
    assert Sorted(a, StrLe) && Sorted(b, StrLe);
    forall t: seq<byte>
      ensures multiset(a)[t] == multiset(b)[t]
    {
      AscendingCounts(a, t);
      AscendingCounts(b, t);
    }
    assert multiset(a) == multiset(b);
    SortedUnique(a, b, StrLe);
  }

  // ---------- the reference ranker ----------

  ghost function HitsOf(scores: map<nat, real>): multiset<Hit> {
    multiset(set d | d in scores :: Hit(d, scores[d]))
  }

  function Prefix<T>(s: seq<T>, n: nat): seq<T> {
    if |s| < n then s else s[..n]
  }

  /** `hits` are the best `limit` of all matching documents, best first. */
  ghost predicate IsSearchResult(hits: seq<Hit>, p: Params, tokens: seq<seq<seq<byte>>>, query: seq<seq<byte>>,
                                 limit: nat)
    requires p.Valid()
  {
    exists terms, ranking :: IsTermList(terms, query) && IsSortOf(ranking, HitsOf(Scores(p, tokens, terms)), RankLe)
                             && hits == Prefix(ranking, limit)
  }

  /** The answer depends only on the set of query tokens: permuting or repeating them changes nothing. */
  lemma SearchResultUnique(a: seq<Hit>, b: seq<Hit>, p: Params, tokens: seq<seq<seq<byte>>>,
                           query: seq<seq<byte>>, query': seq<seq<byte>>, limit: nat)
    requires p.Valid() && forall t :: t in query <==> t in query'
    requires IsSearchResult(a, p, tokens, query, limit) && IsSearchResult(b, p, tokens, query', limit)
    ensures a == b
  {
    var terms, ranking :| IsTermList(terms, query) && IsSortOf(ranking, HitsOf(Scores(p, tokens, terms)), RankLe)
                          && a == Prefix(ranking, limit);
    var terms', ranking' :| IsTermList(terms', query') && IsSortOf(ranking', HitsOf(Scores(p, tokens, terms')), RankLe)
                            && b == Prefix(ranking', limit);
    assert IsTermList(terms', query);
    TermListUnique(terms, terms', query);
    HitsTotallyOrdered();
    SortedUnique(ranking, ranking', RankLe);
  }

  /** Every query has its list of distinct terms. */
  lemma {:induction false} TermListExists(query: seq<seq<byte>>) returns (terms: seq<seq<byte>>)
    ensures IsTermList(terms, query)
  {
    if query == [] {
      terms := [];
    } else {
      var t := Last(query);
      terms := TermListExists(Init(query));
      assert query == Init(query) + [t];
      if t !in terms {
        terms := InsertTerm(terms, t);
      }
    }
  }

  lemma InsertTerm(terms: seq<seq<byte>>, t: seq<byte>) returns (r: seq<seq<byte>>)
    requires StrictlyAscending(terms) && t !in terms
    ensures StrictlyAscending(r) && forall x :: x in r <==> x in terms || x == t
  {
    var k := 0;
    while k < |terms| && StrLt(terms[k], t)
      invariant 0 <= k <= |terms| && forall j :: 0 <= j < k ==> StrLt(terms[j], t)
    {
      k := k + 1;
    }
    r := terms[..k] + [t] + terms[k..];
    forall j | k <= j < |terms|
      ensures StrLt(t, terms[j])
    {
      StrCmpSwap(terms[k], t);
      if j > k {
        StrLtTransitive(t, terms[k], terms[j]);
      }
    }
  }

  lemma TermListIs(query: seq<seq<byte>>)
    ensures exists terms :: IsTermList(terms, query)
  {
    var terms := TermListExists(query);
  }

  // ---------- the answer in plain words ----------

  /** The reference scores of a query: its distinct tokens, credited in dictionary order. */
  ghost function ReferenceScores(p: Params, tokens: seq<seq<seq<byte>>>, query: seq<seq<byte>>): map<nat, real>
    requires p.Valid()
  {
    TermListIs(query);
    var terms :| IsTermList(terms, query);
    Scores(p, tokens, terms)
  }

  /** What some terms contribute to document `d`, one after the other. */
  function ScoreSum(p: Params, tokens: seq<seq<seq<byte>>>, terms: seq<seq<byte>>, d: nat): real
    requires p.Valid()
  {
    if terms == [] then 0.0
    else ScoreSum(p, tokens, Init(terms), d)
         + if d in Containing(tokens, Last(terms)) then Added(p, tokens, Last(terms), d) else 0.0
  }

  lemma {:induction false} ScoresAreSums(p: Params, tokens: seq<seq<seq<byte>>>, terms: seq<seq<byte>>, d: nat)
    requires p.Valid()
    ensures d in Scores(p, tokens, terms) <==> exists t :: t in terms && d in Containing(tokens, t)
    ensures d in Scores(p, tokens, terms) ==> Scores(p, tokens, terms)[d] == ScoreSum(p, tokens, terms, d)
    ensures d !in Scores(p, tokens, terms) ==> ScoreSum(p, tokens, terms, d) == 0.0
  {
    hide Added, Containing;
    if terms != [] {
      ScoresAreSums(p, tokens, Init(terms), d);
      assert terms == Init(terms) + [Last(terms)];
      assert forall t :: t in terms <==> t in Init(terms) || t == Last(terms);
    }
  }

  /** A document is scored exactly when it holds a token of the query, and with the sum of their contributions. */
  lemma ReferenceScoresMean(p: Params, tokens: seq<seq<seq<byte>>>, query: seq<seq<byte>>, d: nat)
    returns (terms: seq<seq<byte>>)
    requires p.Valid()
    ensures d in ReferenceScores(p, tokens, query) <==> d < |tokens| && exists t :: t in query && t in tokens[d]
    ensures IsTermList(terms, query)
    ensures d in ReferenceScores(p, tokens, query) ==>
              ReferenceScores(p, tokens, query)[d] == ScoreSum(p, tokens, terms, d)
  {
    hide Scores, ScoreSum;
    TermListIs(query);
    terms :| IsTermList(terms, query) && ReferenceScores(p, tokens, query) == Scores(p, tokens, terms);
    ScoresAreSums(p, tokens, terms, d);
    if t :| t in query && d < |tokens| && t in tokens[d] {
      assert t in terms && d in Containing(tokens, t);
    }
  }

  lemma OneHit(scores: map<nat, real>, h: Hit)
    ensures HitsOf(scores)[h] == if h.ordinal in scores && scores[h.ordinal] == h.score then 1 else 0
  {
  }

  lemma TwiceCounted<T>(s: seq<T>, i: nat, j: nat)
    requires i < j < |s|
    ensures s[i] == s[j] ==> multiset(s)[s[i]] >= 2
  {
    assert s == s[..j] + s[j..] && s[i] == s[..j][i] && s[j] == s[j..][0];
  }

  lemma DistinctOrdinals(ranking: seq<Hit>, scores: map<nat, real>)
    requires multiset(ranking) == HitsOf(scores)
    ensures forall i, j :: 0 <= i < j < |ranking| ==> ranking[i].ordinal != ranking[j].ordinal
    ensures forall k :: 0 <= k < |ranking| ==>
              ranking[k].ordinal in scores && scores[ranking[k].ordinal] == ranking[k].score
    ensures forall d :: d in scores ==> Hit(d, scores[d]) in ranking
  {
    forall k | 0 <= k < |ranking|
      ensures ranking[k].ordinal in scores && scores[ranking[k].ordinal] == ranking[k].score
    {
      assert ranking[k] in multiset(ranking);
      OneHit(scores, ranking[k]);
    }
    forall i, j | 0 <= i < j < |ranking|
      ensures ranking[i].ordinal != ranking[j].ordinal
    {
      OneHit(scores, ranking[i]);
      TwiceCounted(ranking, i, j);
    }
    forall d | d in scores
      ensures Hit(d, scores[d]) in ranking
    {
      assert Hit(d, scores[d]) in HitsOf(scores);
      assert Hit(d, scores[d]) in multiset(ranking);
    }
  }

  /**
   * The best `limit` of the scored documents: by descending score and then ascending ordinal, and a document
   * is missing only from a full answer, all of which ranks before it.
   */
  ghost predicate Answers(hits: seq<Hit>, scores: map<nat, real>, limit: nat) {
    && |hits| == (if |scores| < limit then |scores| else limit)
    && (forall k :: 0 <= k < |hits| ==>
          hits[k].ordinal in scores && hits[k].score == scores[hits[k].ordinal])
    && (forall i, j :: 0 <= i < j < |hits| ==>
          || hits[i].score > hits[j].score
          || (hits[i].score == hits[j].score && hits[i].ordinal < hits[j].ordinal))
    && (forall d :: d in scores && (forall k :: 0 <= k < |hits| ==> hits[k].ordinal != d) ==>
          |hits| == limit && forall k :: 0 <= k < |hits| ==>
            scores[d] < hits[k].score || (scores[d] == hits[k].score && d > hits[k].ordinal))
  }

  /** What the ranker's answer is, with the reference scores. */
  lemma SearchResultMeans(hits: seq<Hit>, p: Params, tokens: seq<seq<seq<byte>>>, query: seq<seq<byte>>, limit: nat)
    requires p.Valid() && IsSearchResult(hits, p, tokens, query, limit)
    ensures Answers(hits, ReferenceScores(p, tokens, query), limit)
  {
    hide IsSearchResult, ReferenceScores, Prefix, IsSortOf;
    var ranking := ReferenceRanking(hits, p, tokens, query, limit);
    RankingMeans(hits, ranking, ReferenceScores(p, tokens, query), limit);
  }

  lemma ReferenceRanking(hits: seq<Hit>, p: Params, tokens: seq<seq<seq<byte>>>, query: seq<seq<byte>>, limit: nat)
    returns (ranking: seq<Hit>)
    requires p.Valid() && IsSearchResult(hits, p, tokens, query, limit)
    ensures IsSortOf(ranking, HitsOf(ReferenceScores(p, tokens, query)), RankLe) && hits == Prefix(ranking, limit)
  {
    hide Scores, IsTermList, RankLe, HitsOf, Sorted;
    TermListIs(query);
    var chosen :| IsTermList(chosen, query) && ReferenceScores(p, tokens, query) == Scores(p, tokens, chosen);
    var terms, r :| IsTermList(terms, query) && IsSortOf(r, HitsOf(Scores(p, tokens, terms)), RankLe)
                    && hits == Prefix(r, limit);
    TermListUnique(terms, chosen, query);
    ranking := r;
  }

  lemma RankingMeans(hits: seq<Hit>, ranking: seq<Hit>, scores: map<nat, real>, limit: nat)
    requires IsSortOf(ranking, HitsOf(scores), RankLe) && hits == Prefix(ranking, limit)
    ensures |hits| == (if |scores| < limit then |scores| else limit)
    ensures forall k :: 0 <= k < |hits| ==> hits[k].ordinal in scores && hits[k].score == scores[hits[k].ordinal]
    ensures forall i, j :: 0 <= i < j < |hits| ==>
              || hits[i].score > hits[j].score
              || (hits[i].score == hits[j].score && hits[i].ordinal < hits[j].ordinal)
    ensures forall d :: d in scores && (forall k :: 0 <= k < |hits| ==> hits[k].ordinal != d) ==>
              |hits| == limit && forall k :: 0 <= k < |hits| ==>
                scores[d] < hits[k].score || (scores[d] == hits[k].score && d > hits[k].ordinal)
  {
    hide RankLe, HitsOf, Sorted;
    DistinctOrdinals(ranking, scores);
    RankedMeans(ranking);
    RankingSize(ranking, scores);
    forall d | d in scores && forall k :: 0 <= k < |hits| ==> hits[k].ordinal != d
      ensures |hits| == limit
      ensures forall k :: 0 <= k < |hits| ==>
                scores[d] < hits[k].score || (scores[d] == hits[k].score && d > hits[k].ordinal)
    {
      RanksBehind(hits, ranking, limit, Hit(d, scores[d]));
    }
  }

  lemma RanksBehind(hits: seq<Hit>, ranking: seq<Hit>, limit: nat, h: Hit)
    requires hits == Prefix(ranking, limit) && h in ranking
    requires forall k :: 0 <= k < |hits| ==> hits[k].ordinal != h.ordinal
    requires forall i, j :: 0 <= i < j < |ranking| ==>
               || ranking[i].score > ranking[j].score
               || (ranking[i].score == ranking[j].score && ranking[i].ordinal < ranking[j].ordinal)
    ensures |hits| == limit
    ensures forall k :: 0 <= k < |hits| ==>
              h.score < hits[k].score || (h.score == hits[k].score && h.ordinal > hits[k].ordinal)
  {
    var j :| 0 <= j < |ranking| && ranking[j] == h;
    assert forall k :: 0 <= k < |hits| ==> hits[k] == ranking[k];
  }

  /** There are as many ranked hits as scored documents. */
  lemma RankingSize(ranking: seq<Hit>, scores: map<nat, real>)
    requires multiset(ranking) == HitsOf(scores)
    ensures |ranking| == |scores|
  {
    assert |ranking| == |multiset(ranking)|;
    HitCount(scores);
  }

  lemma {:induction false} HitCount(scores: map<nat, real>)
    ensures |HitsOf(scores)| == |scores|
    decreases |scores|
  {
    if scores == map[] {
      assert HitsOf(scores) == multiset{};
    } else {
      var o :| o in scores;
      var rest := scores - {o};
      HitCount(rest);
      assert scores.Keys == rest.Keys + {o};
      assert HitsOf(scores) == HitsOf(rest) + multiset{Hit(o, scores[o])};
    }
  }

  lemma {:induction false} NoTokensNoScores(p: Params, tokens: seq<seq<seq<byte>>>, terms: seq<seq<byte>>)
    requires p.Valid() && (terms == [] || forall d :: 0 <= d < |tokens| ==> tokens[d] == [])
    ensures Scores(p, tokens, terms) == map[]
  {
    if terms != [] {
      NoTokensNoScores(p, tokens, Init(terms));
      assert Containing(tokens, Last(terms)) == {};
    }
  }

  lemma {:induction false} NoTotalNoTokens(tokens: seq<seq<seq<byte>>>)
    requires TokenTotal(tokens) == 0
    ensures forall d :: 0 <= d < |tokens| ==> tokens[d] == []
  {
    if tokens != [] {
      NoTotalNoTokens(Init(tokens));
    }
  }

  lemma EmptyTermList(terms: seq<seq<byte>>, query: seq<seq<byte>>)
    requires IsTermList(terms, query) && query == []
    ensures terms == []
  {
    assert forall t :: t in multiset(terms) <==> t in terms;
    assert |multiset(terms)| == 0;
  }

  /** The early exit: an empty query, a zero limit or an index without tokens has an empty answer. */
  lemma NothingFound(p: Params, tokens: seq<seq<seq<byte>>>, query: seq<seq<byte>>, limit: nat)
    requires p.Valid() && (query == [] || limit == 0 || TokenTotal(tokens) == 0)
    ensures IsSearchResult([], p, tokens, query, limit)
  {
    var terms := TermListExists(query);
    var ranking := SortedListing(HitsOf(Scores(p, tokens, terms)));
    if limit == 0 {
      assert Prefix(ranking, limit) == [];
    } else {
      if query == [] {
        EmptyTermList(terms, query);
      } else {
        NoTotalNoTokens(tokens);
      }
      NoTokensNoScores(p, tokens, terms);
      assert HitsOf(map[]) == multiset{};
      assert |ranking| == |multiset(ranking)| == 0;
    }
    assert [] == Prefix(ranking, limit);
  }
}
