/** kc_bm25_search: the score table and the bounded heap return what the reference ranker returns. */
module Search {
  import opened Prelude
  import opened Utf8
  import opened Ordering
  import opened Analyzer
  import opened Postings
  import opened Bm25
  import opened ScoreTable
  import opened Ranking
  import opened TopK

  const DEFAULT_LIMIT := 10

  /** kc_bm25_result_t */
  datatype Result = Result(ordinal: nat, id: seq<byte>, content: seq<byte>, score: real)

  /** kc_bm25_search_options_t; an omitted option has a default. */
  datatype Options = Options(limit: Option<nat>, k1: Option<real>, b: Option<real>)

  function ParamsOf(options: Option<Options>, log1p: real -> real): Params {
    if options.None? then Params(1.2, 0.75, log1p)
    else Params(if options.value.k1.Some? then options.value.k1.value else 1.2,
                if options.value.b.Some? then options.value.b.value else 0.75, log1p)
  }

  function LimitOf(options: Option<Options>): nat {
    if options.Some? && options.value.limit.Some? then options.value.limit.value else DEFAULT_LIMIT
  }

  /** Ten results, k1 = 1.2 and b = 0.75 where the caller gives nothing. */
  lemma OmittedOptions(limit: Option<nat>, k1: Option<real>, b: Option<real>, log1p: real -> real)
    ensures ParamsOf(None, log1p) == Params(1.2, 0.75, log1p) && LimitOf(None) == 10
    ensures var options, p := Some(Options(limit, k1, b)), ParamsOf(Some(Options(limit, k1, b)), log1p);
            && (limit == None ==> LimitOf(options) == 10) && (limit.Some? ==> LimitOf(options) == limit.value)
            && (k1 == None ==> p.k1 == 1.2) && (k1.Some? ==> p.k1 == k1.value)
            && (b == None ==> p.b == 0.75) && (b.Some? ==> p.b == b.value) && p.log1p == log1p
  {
  }

  // ---------- the dictionary ----------

  /** kc_bm25_find: binary search in the sorted terms. */
  method Find(terms: seq<Term>, text: seq<byte>) returns (r: Option<nat>)
    requires StrictlySorted(terms)
    ensures r.Some? ==> r.value < |terms| && terms[r.value].value == text
    ensures r.None? ==> forall i :: 0 <= i < |terms| ==> terms[i].value != text
  {
    var lo, hi := 0, |terms|;
    while lo < hi
      invariant 0 <= lo <= hi <= |terms|
      invariant forall i :: 0 <= i < lo ==> terms[i].value != text
      invariant forall i :: hi <= i < |terms| ==> terms[i].value != text
    {
      var mid := lo + (hi - lo) / 2;
      var cmp := StrCmp(text, terms[mid].value);
      if cmp < 0 {
        AboveAreOthers(terms, text, mid);
        hi := mid;
      } else if cmp > 0 {
        BelowAreOthers(terms, text, mid);
        lo := mid + 1;
      } else {
        return Some(mid);
      }
    }
    return None;
  }

  lemma AboveAreOthers(terms: seq<Term>, text: seq<byte>, mid: nat)
    requires StrictlySorted(terms) && mid < |terms| && StrLt(text, terms[mid].value)
    ensures forall i :: mid <= i < |terms| ==> terms[i].value != text
  {
    forall i | mid <= i < |terms|
      ensures terms[i].value != text
    {
      if i > mid {
        StrLtTransitive(text, terms[mid].value, terms[i].value);
      }
    }
  }

  lemma BelowAreOthers(terms: seq<Term>, text: seq<byte>, mid: nat)
    requires StrictlySorted(terms) && mid < |terms| && StrCmp(text, terms[mid].value) > 0
    ensures forall i :: 0 <= i <= mid ==> terms[i].value != text
  {
    StrCmpSwap(text, terms[mid].value);
    forall i | 0 <= i <= mid
      ensures terms[i].value != text
    {
      if i < mid {
        StrLtTransitive(terms[i].value, terms[mid].value, text);
      }
    }
  }

  // ---------- scoring one term ----------

  /** What posting `posting` of term `t` adds, computed from the index. */
  ghost predicate PostingAgrees(tokens: seq<seq<seq<byte>>>, t: seq<byte>, slice: seq<Posting>) {
    && SliceOk(slice, |tokens|)
    && (forall j :: 0 <= j < |slice| ==> multiset(tokens[slice[j].ordinal])[t] == slice[j].frequency)
    && (forall d :: 0 <= d < |tokens| && t in tokens[d] ==> exists j :: 0 <= j < |slice| && slice[j].ordinal == d)
  }

  function Ordinals(slice: seq<Posting>): set<nat> {
    set j | 0 <= j < |slice| :: slice[j].ordinal
  }

  lemma {:induction false} OrdinalsCount(slice: seq<Posting>, docs: nat)
    requires SliceOk(slice, docs)
    ensures |Ordinals(slice)| == |slice|
  {
    if slice != [] {
      OrdinalsCount(Init(slice), docs);
      assert Ordinals(slice) == Ordinals(Init(slice)) + {Last(slice).ordinal};
      assert Last(slice).ordinal !in Ordinals(Init(slice));
    }
  }

  /** The number of postings of a term is its document frequency. */
  lemma CountIsDocumentFrequency(tokens: seq<seq<seq<byte>>>, t: seq<byte>, slice: seq<Posting>)
    requires PostingAgrees(tokens, t, slice)
    ensures Ordinals(slice) == Containing(tokens, t) && |slice| == |Containing(tokens, t)|
  {
    OrdinalsCount(slice, |tokens|);
    forall d | d in Ordinals(slice)
      ensures d in Containing(tokens, t)
    {
      var j :| 0 <= j < |slice| && slice[j].ordinal == d;
      assert multiset(tokens[d])[t] > 0;
    }
    forall d | d in Containing(tokens, t)
      ensures d in Ordinals(slice)
    {
      var j :| 0 <= j < |slice| && slice[j].ordinal == d;
    }
    assert Ordinals(slice) == Containing(tokens, t);
  }

  /** The scores after the first postings of a term: those documents have been credited. */
  ghost predicate Credited(p: Params, tokens: seq<seq<seq<byte>>>, t: seq<byte>, slice: seq<Posting>,
                           before: map<nat, real>, after: map<nat, real>)
    requires p.Valid()
  {
    && after.Keys == before.Keys + Ordinals(slice)
    && forall d :: d in after ==>
         after[d] == if d in Ordinals(slice) && d in Containing(tokens, t) then Get(before, d) + Added(p, tokens, t, d)
                     else Get(before, d)
  }

  lemma CreditNext(p: Params, tokens: seq<seq<seq<byte>>>, t: seq<byte>, slice: seq<Posting>, j: nat,
                   before: map<nat, real>, after: map<nat, real>)
    requires p.Valid() && j < |slice| && SliceOk(slice, |tokens|)
    requires Credited(p, tokens, t, slice[..j], before, after)
    requires slice[j].ordinal in Containing(tokens, t)
    ensures var d := slice[j].ordinal;
            Credited(p, tokens, t, slice[..j + 1], before, after[d := Get(after, d) + Added(p, tokens, t, d)])
  {
    hide Added;
    var o := slice[j].ordinal;
    assert o !in Ordinals(slice[..j]);
    assert Ordinals(slice[..j + 1]) == Ordinals(slice[..j]) + {o} by {
      assert slice[..j + 1] == slice[..j] + [slice[j]];
    }
  }

  lemma AllCredited(p: Params, tokens: seq<seq<seq<byte>>>, t: seq<byte>, slice: seq<Posting>,
                    before: map<nat, real>, after: map<nat, real>)
    requires p.Valid() && PostingAgrees(tokens, t, slice) && Credited(p, tokens, t, slice, before, after)
    ensures after == AddTerm(p, tokens, before, t)
  {
    hide Added, PostingAgrees;
    assert Ordinals(slice) == Containing(tokens, t) by {
      CountIsDocumentFrequency(tokens, t, slice);
    }
    hide Ordinals, Containing;
    assert AddTerm(p, tokens, before, t).Keys == after.Keys;
  }

  lemma AbsentTerm(p: Params, tokens: seq<seq<seq<byte>>>, scores: map<nat, real>, t: seq<byte>)
    requires p.Valid() && forall d :: 0 <= d < |tokens| ==> t !in tokens[d]
    ensures AddTerm(p, tokens, scores, t) == scores
  {
  }

  /** The index agrees with the token lists it encodes: what scoring reads from it is what counting gives. */
  ghost predicate Agrees(documents: seq<Document>, totalTokens: nat, tokens: seq<seq<seq<byte>>>) {
    && |documents| == |tokens| <= MAX32
    && (forall d :: 0 <= d < |tokens| ==> documents[d].length == |tokens[d]|)
    && totalTokens == TokenTotal(tokens)
  }

  lemma ScoredAlike(p: Params, documents: seq<Document>, totalTokens: nat, tokens: seq<seq<seq<byte>>>, t: seq<byte>,
                    slice: seq<Posting>, j: nat)
    requires p.Valid() && Agrees(documents, totalTokens, tokens) && PostingAgrees(tokens, t, slice) && j < |slice|
    ensures var d := slice[j].ordinal;
            && d < |documents| && slice[j].frequency > 0 && totalTokens > 0 && d in Containing(tokens, t)
            && Contribution(p, |documents|, totalTokens, |slice|, slice[j].frequency, documents[d].length)
               == Added(p, tokens, t, d)
  {
    hide Contribution;
    var d := slice[j].ordinal;
    assert multiset(tokens[d])[t] > 0;
    TokenTotalPositive(tokens, d);
    CountIsDocumentFrequency(tokens, t, slice);
  }

  /** The posting loop of kc_bm25_search for one dictionary entry. */
  method ScoreTerm(p: Params, documents: seq<Document>, totalTokens: nat, postings: seq<Posting>, term: Term,
                   acc: Accumulator, ghost tokens: seq<seq<seq<byte>>>)
    requires p.Valid() && acc.Valid() && Agrees(documents, totalTokens, tokens)
    requires term.start + term.count <= |postings| && PostingAgrees(tokens, term.value, Slice(term, postings))
    modifies acc, acc.table
    ensures acc.Valid() && (acc.table == old(acc.table) || fresh(acc.table))
    ensures acc.scores == AddTerm(p, tokens, old(acc.scores), term.value)
  {
    hide Added, Credited, AddTerm, PostingAgrees, Agrees, Containing, Accumulator.Valid;
    ghost var slice := Slice(term, postings);
    ghost var before := acc.scores;
    var j := 0;
    NothingCredited(p, tokens, term.value, slice, before);
    while j < term.count
      invariant 0 <= j <= term.count
      invariant acc.Valid() && (acc.table == old(acc.table) || fresh(acc.table))
      invariant Credited(p, tokens, term.value, slice[..j], before, acc.scores)
    {
      var posting := postings[term.start + j];
      assert posting == slice[j];
      CreditPosting(p, documents, totalTokens, posting, term, acc, tokens, slice, j, before);
      j := j + 1;
    }
    assert slice[..term.count] == slice;
    AllCredited(p, tokens, term.value, slice, before, acc.scores);
  }

  /** The body of the posting loop. */
  method CreditPosting(p: Params, documents: seq<Document>, totalTokens: nat, posting: Posting, term: Term,
                       acc: Accumulator, ghost tokens: seq<seq<seq<byte>>>, ghost slice: seq<Posting>, ghost j: nat,
                       ghost before: map<nat, real>)
    requires p.Valid() && acc.Valid() && Agrees(documents, totalTokens, tokens)
    requires PostingAgrees(tokens, term.value, slice) && |slice| == term.count && j < |slice| && slice[j] == posting
    requires Credited(p, tokens, term.value, slice[..j], before, acc.scores)
    modifies acc, acc.table
    ensures acc.Valid() && (acc.table == old(acc.table) || fresh(acc.table))
    ensures Credited(p, tokens, term.value, slice[..j + 1], before, acc.scores)
  {
    hide Contribution, Added, Credited, PostingAgrees, Agrees, Containing, SliceOk, Accumulator.Valid;
    ScoredAlike(p, documents, totalTokens, tokens, term.value, slice, j);
    AgreeingSlice(tokens, term.value, slice, j);
    AgreeingCount(documents, totalTokens, tokens);
    var length := documents[posting.ordinal].length;
    var score := Contribution(p, |documents|, totalTokens, term.count, posting.frequency, length);
    CreditNext(p, tokens, term.value, slice, j, before, acc.scores);
    acc.Accumulate(posting.ordinal, score);
  }

  lemma NothingCredited(p: Params, tokens: seq<seq<seq<byte>>>, t: seq<byte>, slice: seq<Posting>,
                        before: map<nat, real>)
    requires p.Valid()
    ensures Credited(p, tokens, t, slice[..0], before, before)
  {
    assert Ordinals(slice[..0]) == {};
    assert before.Keys + {} == before.Keys;
  }

  lemma AgreeingSlice(tokens: seq<seq<seq<byte>>>, t: seq<byte>, slice: seq<Posting>, j: nat)
    requires PostingAgrees(tokens, t, slice) && j < |slice|
    ensures SliceOk(slice, |tokens|) && slice[j].ordinal < |tokens|
  {
  }

  lemma AgreeingCount(documents: seq<Document>, totalTokens: nat, tokens: seq<seq<seq<byte>>>)
    requires Agrees(documents, totalTokens, tokens)
    ensures |documents| == |tokens| <= MAX32
  {
  }

  // ---------- the index agrees with the tokens it encodes ----------

  lemma IndexAgrees(documents: seq<Document>, terms: seq<Term>, postings: seq<Posting>, total: nat,
                    tokens: seq<seq<seq<byte>>>)
    requires |documents| == |tokens| <= MAX32
    requires Consistent(documents, terms, postings, total) && Encodes(terms, postings, tokens)
    ensures Agrees(documents, total, tokens)
  {
    hide Encodes, TermsOk, FrequenciesOk, SliceFreq, WellFormed;
    forall d | 0 <= d < |tokens|
      ensures documents[d].length == |tokens[d]|
    {
      EncodesCounts(terms, postings, tokens, [], d);
      assert SliceFreq(postings, d) == documents[d].length;
    }
    SameTotals(documents, tokens);
  }

  lemma {:induction false} SameTotals(documents: seq<Document>, tokens: seq<seq<seq<byte>>>)
    requires |documents| == |tokens| && forall d :: 0 <= d < |tokens| ==> documents[d].length == |tokens[d]|
    ensures LengthSum(documents) == TokenTotal(tokens)
  {
    if tokens != [] {
      SameTotals(Init(documents), Init(tokens));
    }
  }

  /** A dictionary entry lists exactly the documents containing its term, with their counts. */
  lemma EntryAgrees(terms: seq<Term>, postings: seq<Posting>, tokens: seq<seq<seq<byte>>>, i: nat)
    requires Encodes(terms, postings, tokens) && i < |terms|
    ensures TermAt(terms, postings, |tokens|, i) && PostingAgrees(tokens, terms[i].value, Slice(terms[i], postings))
  {
    WellFormedMeans(terms, postings, |tokens|);
    hide WellFormed, Expand, Occurrences;
    assert TermAt(terms, postings, |tokens|, i);
    var t, slice := terms[i].value, Slice(terms[i], postings);
    forall j | 0 <= j < |slice|
      ensures multiset(tokens[slice[j].ordinal])[t] == slice[j].frequency
    {
      PostingCounts(terms, postings, tokens, i, terms[i].start + j);
    }
    forall d | 0 <= d < |tokens| && t in tokens[d]
      ensures exists j :: 0 <= j < |slice| && slice[j].ordinal == d
    {
      EncodesCounts(terms, postings, tokens, t, d);
      FreqOfTerm(terms, postings, |tokens|, i, d);
      if forall j :: 0 <= j < |slice| ==> slice[j].ordinal != d {
        SliceFreqAbsent(slice, d);
      }
    }
  }

  lemma MissingTerm(terms: seq<Term>, postings: seq<Posting>, tokens: seq<seq<seq<byte>>>, t: seq<byte>)
    requires Encodes(terms, postings, tokens) && forall i :: 0 <= i < |terms| ==> terms[i].value != t
    ensures forall d :: 0 <= d < |tokens| ==> t !in tokens[d]
  {
    forall d | 0 <= d < |tokens|
      ensures t !in tokens[d]
    {
      EncodesCounts(terms, postings, tokens, t, d);
      FreqOfAbsent(terms, postings, |tokens|, t, d);
    }
  }

  // ---------- scoring the distinct query terms ----------

  lemma FirstOfItsKind(sorted: seq<seq<byte>>, i: nat, done: seq<seq<byte>>)
    requires Sorted(sorted, StrLe) && i < |sorted| && IsTermList(done, sorted[..i])
    requires i > 0 ==> done != [] && Last(done) == sorted[i - 1] != sorted[i]
    ensures IsTermList(done + [sorted[i]], sorted[..i + 1])
  {
    var t := sorted[i];
    assert sorted[..i + 1] == sorted[..i] + [t];
    forall k | 0 <= k < |done|
      ensures StrLt(done[k], t)
    {
      assert i > 0 by {
        assert done[k] in sorted[..i];
      }
      assert StrLe(sorted[i - 1], t);
      if k < |done| - 1 {
        StrLtTransitive(done[k], Last(done), t);
      }
    }
  }

  lemma SeenBefore(sorted: seq<seq<byte>>, i: nat, done: seq<seq<byte>>)
    requires 0 < i < |sorted| && IsTermList(done, sorted[..i]) && sorted[i] == sorted[i - 1]
    ensures IsTermList(done, sorted[..i + 1])
  {
    assert sorted[..i + 1] == sorted[..i] + [sorted[i]];
    assert sorted[i - 1] in sorted[..i];
  }

  /** The outer loop of kc_bm25_search: each distinct query term once, in dictionary order. */
  method ScoreQuery(p: Params, documents: seq<Document>, terms: seq<Term>, postings: seq<Posting>, totalTokens: nat,
                    sorted: seq<seq<byte>>, ghost tokens: seq<seq<seq<byte>>>)
    returns (acc: Accumulator, ghost done: seq<seq<byte>>)
    requires p.Valid() && Sorted(sorted, StrLe)
    requires Encodes(terms, postings, tokens) && Agrees(documents, totalTokens, tokens)
    ensures fresh(acc) && fresh(acc.table) && acc.Valid()
    ensures IsTermList(done, sorted) && acc.scores == Scores(p, tokens, done)
  {
    hide Encodes, Agrees, AddTerm, PostingAgrees, IsTermList, Sorted, StrictlySorted;
    acc := new Accumulator();
    done := [];
    NoTermsYet(sorted);
    TermsAreSorted(terms, postings, tokens);
    var i := 0;
    while i < |sorted|
      invariant 0 <= i <= |sorted| && fresh(acc) && fresh(acc.table) && acc.Valid()
      invariant IsTermList(done, sorted[..i]) && (i > 0 ==> done != [] && Last(done) == sorted[i - 1])
      invariant acc.scores == Scores(p, tokens, done)
    {
      if i > 0 && sorted[i] == sorted[i - 1] {
        SeenBefore(sorted, i, done);
      } else {
        FirstOfItsKind(sorted, i, done);
        ScoreOne(p, documents, terms, postings, totalTokens, sorted[i], acc, tokens);
        assert Init(done + [sorted[i]]) == done;
        done := done + [sorted[i]];
      }
      i := i + 1;
    }
    assert sorted[..|sorted|] == sorted;
  }

  lemma NoTermsYet(sorted: seq<seq<byte>>)
    ensures IsTermList([], sorted[..0])
  {
  }

  lemma TermsAreSorted(terms: seq<Term>, postings: seq<Posting>, tokens: seq<seq<seq<byte>>>)
    requires Encodes(terms, postings, tokens)
    ensures StrictlySorted(terms)
  {
    WellFormedMeans(terms, postings, |tokens|);
  }

  /** One distinct query term: looked up and scored, or skipped when no document has it. */
  method ScoreOne(p: Params, documents: seq<Document>, terms: seq<Term>, postings: seq<Posting>, totalTokens: nat,
                  t: seq<byte>, acc: Accumulator, ghost tokens: seq<seq<seq<byte>>>)
    requires p.Valid() && acc.Valid() && StrictlySorted(terms)
    requires Encodes(terms, postings, tokens) && Agrees(documents, totalTokens, tokens)
    modifies acc, acc.table
    ensures acc.Valid() && (acc.table == old(acc.table) || fresh(acc.table))
    ensures acc.scores == AddTerm(p, tokens, old(acc.scores), t)
  {
    hide Encodes, Agrees, AddTerm, PostingAgrees, StrictlySorted;
    var found := Find(terms, t);
    if found.None? {
      MissingTerm(terms, postings, tokens, t);
      AbsentTerm(p, tokens, acc.scores, t);
    } else {
      EntryAgrees(terms, postings, tokens, found.value);
      ScoreTerm(p, documents, totalTokens, postings, terms[found.value], acc, tokens);
    }
  }

  // ---------- keeping the best ----------

  /** The entries of the score table, slot by slot. */
  function CellHits(cells: seq<Cell>): seq<Hit> {
    if cells == [] then []
    else
      var c := Last(cells);
      CellHits(Init(cells)) + if c.occupied then [Hit(c.ordinal, c.score)] else []
  }

  lemma {:induction false} CellHitsCount(cells: seq<Cell>, h: Hit)
    requires Distinct(cells)
    ensures multiset(CellHits(cells))[h] ==
            if exists j :: At(cells, j) && Hit(cells[j].ordinal, cells[j].score) == h then 1 else 0
  {
    if cells != [] {
      var n := |cells| - 1;
      var before := Init(cells);
      assert forall j :: At(before, j) ==> At(cells, j) && cells[j] == before[j];
      CellHitsCount(before, h);
      if At(cells, n) && Hit(cells[n].ordinal, cells[n].score) == h {
        assert forall j :: At(before, j) ==> At(cells, j) && before[j].ordinal != h.ordinal;
      } else {
        assert forall j :: At(cells, j) && j < n ==> At(before, j);
      }
    }
  }

  lemma CellHitsAreAll(cells: seq<Cell>, scores: map<nat, real>)
    requires Holds(cells, scores)
    ensures multiset(CellHits(cells)) == HitsOf(scores)
  {
    forall h: Hit
      ensures multiset(CellHits(cells))[h] == HitsOf(scores)[h]
    {
      CellHitsCount(cells, h);
      if h.ordinal in scores && scores[h.ordinal] == h.score {
        var j := EntryCell(cells, scores, h.ordinal);
        CellEntry(cells, scores, j);
      }
    }
  }

  /** The candidate loop and the final sort: the best `limit` of the score table, best first. */
  method TakeBest(acc: Accumulator, limit: nat) returns (hits: seq<Hit>)
    requires acc.Valid() && 0 < limit
    ensures exists ranking :: IsSortOf(ranking, HitsOf(acc.scores), RankLe) && hits == Prefix(ranking, limit)
  {
    hide HitsOf, WorstFirst, IsBest, RankLe, CellHits;
    CellHitsAreAll(acc.table[..], acc.scores);
    hide Holds, Accumulator.Valid;
    var heap := new Hit[limit](_ => Hit(0, 0.0));
    var size := 0;
    var i := 0;
    ghost var cells := acc.table[..];
    NothingKept(heap[..0], limit);
    while i < acc.table.Length
      invariant 0 <= i <= acc.table.Length && 0 <= size <= limit && acc.table[..] == cells
      invariant WorstFirst(heap[..size]) && IsBest(multiset(heap[..size]), multiset(CellHits(cells[..i])), limit)
    {
      assert cells[..i + 1] == cells[..i] + [acc.table[i]];
      size := Consider(heap, size, acc.table[i], cells[..i]);
      i := i + 1;
    }
    assert cells[..|cells|] == cells;
    HitsTotallyOrdered();
    hits := Sort(heap[..size], RankLe);
    ghost var ranking := SortedListing(HitsOf(acc.scores));
    BestSortedIsPrefix(hits, ranking, limit);
  }

  /** The body of the candidate loop: a vacant slot is skipped, an entry is offered to the heap. */
  method Consider(heap: array<Hit>, size: nat, cell: Cell, ghost before: seq<Cell>) returns (next: nat)
    requires 0 < heap.Length && size <= heap.Length && WorstFirst(heap[..size])
    requires IsBest(multiset(heap[..size]), multiset(CellHits(before)), heap.Length)
    modifies heap
    ensures next <= heap.Length && WorstFirst(heap[..next])
    ensures IsBest(multiset(heap[..next]), multiset(CellHits(before + [cell])), heap.Length)
  {
    hide WorstFirst, IsBest, RankLe;
    assert Init(before + [cell]) == before;
    if !cell.occupied {
      assert CellHits(before + [cell]) == CellHits(before);
      return size;
    }
    var item := Hit(cell.ordinal, cell.score);
    assert CellHits(before + [cell]) == CellHits(before) + [item];
    OfferKeepsBest(heap[..size], multiset(CellHits(before)), heap.Length, item);
    next := Offer(heap, size, item);
  }

  lemma NothingKept(h: seq<Hit>, limit: nat)
    requires h == []
    ensures WorstFirst(h) && IsBest(multiset(h), multiset(CellHits([])), limit)
  {
  }

  // ---------- the search itself ----------

  function Hits(results: seq<Result>): (r: seq<Hit>)
    ensures |r| == |results|
  {
    seq(|results|, k requires 0 <= k < |results| => Hit(results[k].ordinal, results[k].score))
  }

  /** Every result carries the id and the content of its document. */
  ghost predicate Labelled(results: seq<Result>, documents: seq<Document>) {
    forall k :: 0 <= k < |results| ==>
      && results[k].ordinal < |documents|
      && results[k].id == documents[results[k].ordinal].id
      && results[k].content == documents[results[k].ordinal].content
  }

  lemma {:induction false} ScoresInRange(p: Params, tokens: seq<seq<seq<byte>>>, terms: seq<seq<byte>>)
    requires p.Valid()
    ensures forall d :: d in Scores(p, tokens, terms) ==> d < |tokens|
  {
    if terms != [] {
      ScoresInRange(p, tokens, Init(terms));
    }
  }

  lemma HitsInRange(hits: seq<Hit>, ranking: seq<Hit>, scores: map<nat, real>, limit: nat, docs: nat)
    requires multiset(ranking) == HitsOf(scores) && hits == Prefix(ranking, limit)
    requires forall d :: d in scores ==> d < docs
    ensures forall k :: 0 <= k < |hits| ==> hits[k].ordinal < docs
  {
    forall k | 0 <= k < |hits|
      ensures hits[k].ordinal < docs
    {
      assert hits[k] == ranking[k] && ranking[k] in multiset(ranking);
      assert hits[k] in HitsOf(scores);
    }
  }

  method Label(hits: seq<Hit>, documents: seq<Document>) returns (results: seq<Result>)
    requires forall k :: 0 <= k < |hits| ==> hits[k].ordinal < |documents|
    ensures Hits(results) == hits && Labelled(results, documents)
  {
    results := [];
    var i := 0;
    while i < |hits|
      invariant 0 <= i <= |hits| && |results| == i && Labelled(results, documents)
      invariant forall k :: 0 <= k < i ==> Hit(results[k].ordinal, results[k].score) == hits[k]
    {
      var d := documents[hits[i].ordinal];
      results := results + [Result(hits[i].ordinal, d.id, d.content, hits[i].score)];
      i := i + 1;
    }
  }

  /** The same order, on the results themselves. */
  lemma InOrder(results: seq<Result>, scores: map<nat, real>, limit: nat)
    requires Answers(Hits(results), scores, limit)
    ensures forall i, j :: 0 <= i < j < |results| ==>
              || results[i].score > results[j].score
              || (results[i].score == results[j].score && results[i].ordinal < results[j].ordinal)
  {
    forall i, j | 0 <= i < j < |results|
      ensures results[i].score > results[j].score
              || (results[i].score == results[j].score && results[i].ordinal < results[j].ordinal)
    {
      var hits := Hits(results);
      assert hits[i].score > hits[j].score || (hits[i].score == hits[j].score && hits[i].ordinal < hits[j].ordinal);
    }
  }

  /**
   * kc_bm25_search. `tokens` are any token lists the index encodes: those of the documents for an
   * index built here, the recorded ones for an imported index.
   */
  method Search(index: Index, text: seq<byte>, options: Option<Options>, log1p: real -> real,
                ghost tokens: seq<seq<seq<byte>>>)
    returns (status: Status, results: seq<Result>)
    requires index.Valid()
    requires index.built ==> |tokens| == |index.documents| && Encodes(index.terms, index.postings, tokens)
    ensures var p := ParamsOf(options, log1p);
            && status == (if !index.built then EState else if !(p.k1 >= 0.0 && 0.0 <= p.b <= 1.0) then EInval
                          else if !IsUtf8(text) then EUtf8 else Ok)
            && (status != Ok ==> results == [])
            && (status == Ok ==>
                  && Labelled(results, index.documents)
                  && IsSearchResult(Hits(results), p, tokens, Tokens(index.tab, index.foldAccents, text),
                                    LimitOf(options)))
    ensures status == Ok ==>
              Answers(Hits(results), ReferenceScores(ParamsOf(options, log1p), tokens,
                                                     Tokens(index.tab, index.foldAccents, text)), LimitOf(options))
    ensures forall i, j :: 0 <= i < j < |results| ==>
              || results[i].score > results[j].score
              || (results[i].score == results[j].score && results[i].ordinal < results[j].ordinal)
    ensures forall k :: 0 <= k < |results| ==>
              && results[k].ordinal < |index.documents|
              && results[k].id == index.documents[results[k].ordinal].id
              && results[k].content == index.documents[results[k].ordinal].content
  {
    hide Truthful, Consistent, Encodes, IsSearchResult, Answers, ReferenceScores, Tokens, IsUtf8, DocumentsOk;
    var p := ParamsOf(options, log1p);
    var limit := LimitOf(options);
    if !index.built {
      return EState, [];
    }
    if p.k1 < 0.0 || p.b < 0.0 || p.b > 1.0 {
      return EInval, [];
    }
    var ok, query := Analyze(index.tab, index.foldAccents, text);
    if !ok {
      return EUtf8, [];
    }
    DocumentsCounted(index.documents);
    IndexAgrees(index.documents, index.terms, index.postings, index.totalTokens, tokens);
    status := Ok;
    results := Rank(p, limit, index.documents, index.terms, index.postings, index.totalTokens, query, tokens);
    SearchResultMeans(Hits(results), p, tokens, query, limit);
    InOrder(results, ReferenceScores(p, tokens, query), limit);
  }

  /**
   * Every built index has token lists to search for: those of its documents, or the recorded ones of an
   * imported index.
   */
  lemma SearchableTokens(index: Index) returns (tokens: seq<seq<seq<byte>>>)
    requires index.Valid() && index.built
    ensures |tokens| == |index.documents| && Encodes(index.terms, index.postings, tokens)
    ensures !index.readOnly ==> tokens == DocumentTokens(index.tab, index.foldAccents, index.documents)
  {
    hide WellFormed, Expand, DocumentOk, TermsOk, FrequenciesOk, SliceFreq, LengthSum;
    if index.readOnly {
      tokens := Recorded(index.terms, index.postings, |index.documents|);
      RecordedIsEncoded(index.terms, index.postings, |index.documents|);
    } else {
      tokens := DocumentTokens(index.tab, index.foldAccents, index.documents);
    }
  }

  lemma DocumentsCounted(documents: seq<Document>)
    requires DocumentsOk(documents)
    ensures |documents| <= MAX32
  {
  }

  /** kc_bm25_search after the query has been analyzed. */
  method Rank(p: Params, limit: nat, documents: seq<Document>, terms: seq<Term>, postings: seq<Posting>,
              totalTokens: nat, query: seq<seq<byte>>, ghost tokens: seq<seq<seq<byte>>>)
    returns (results: seq<Result>)
    requires p.Valid() && Encodes(terms, postings, tokens) && Agrees(documents, totalTokens, tokens)
    ensures Labelled(results, documents) && IsSearchResult(Hits(results), p, tokens, query, limit)
  {
    hide Encodes, AddTerm, Agrees, IsTermList, HitsOf, RankLe, Sorted, Accumulator.Valid;
    AgreeingCount(documents, totalTokens, tokens);
    AgreeingTotal(documents, totalTokens, tokens);
    if |query| == 0 || limit == 0 || |documents| == 0 || totalTokens == 0 {
      NothingFound(p, tokens, query, limit);
      assert Hits([]) == [];
      return [];
    }
    StringsTotallyOrdered();
    var sorted := Sort(query, StrLe);
    var acc;
    ghost var done;
    acc, done := ScoreQuery(p, documents, terms, postings, totalTokens, sorted, tokens);
    SameTerms(done, sorted, query);
    UsedIsCount(acc);
    var capped := if limit > acc.used then acc.used else limit;
    var hits: seq<Hit> := [];
    ghost var ranking;
    if capped == 0 {
      ranking := SortedListing(HitsOf(acc.scores));
    } else {
      hits := TakeBest(acc, capped);
      ranking :| IsSortOf(ranking, HitsOf(acc.scores), RankLe) && hits == Prefix(ranking, capped);
    }
    RankingSize(ranking, acc.scores);
    assert hits == Prefix(ranking, limit);
    ScoresInRange(p, tokens, done);
    HitsInRange(hits, ranking, acc.scores, limit, |documents|);
    results := Label(hits, documents);
  }

  lemma AgreeingTotal(documents: seq<Document>, totalTokens: nat, tokens: seq<seq<seq<byte>>>)
    requires Agrees(documents, totalTokens, tokens)
    ensures totalTokens == TokenTotal(tokens) && (documents == [] ==> totalTokens == 0)
  {
  }

  lemma UsedIsCount(acc: Accumulator)
    requires acc.Valid()
    ensures acc.used == |acc.scores|
  {
  }

  lemma SameTerms(done: seq<seq<byte>>, sorted: seq<seq<byte>>, query: seq<seq<byte>>)
    requires IsTermList(done, sorted) && multiset(sorted) == multiset(query)
    ensures IsTermList(done, query)
  {
    forall t: seq<byte>
      ensures t in sorted <==> t in query
    {
      assert t in sorted <==> t in multiset(sorted);
      assert t in query <==> t in multiset(query);
    }
  }
}
