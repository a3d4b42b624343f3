/** The life of a BM25 index: kc_bm25_open, kc_bm25_add and kc_bm25_build. */
module Bm25 {
  import opened Prelude
  import opened Utf8
  import opened Ordering
  import opened Analyzer
  import opened Postings

  const MAX32 := 0xFFFF_FFFF

  datatype Status = Ok | EInval | ENoMem | EState | EFormat | EUtf8

  /** kc_bm25_document_t */
  datatype Document = Document(id: seq<byte>, content: seq<byte>, length: nat)

  ghost predicate DocumentOk(d: Document) {
    && d.id != [] && IsCString(d.id) && IsUtf8(d.id)
    && IsCString(d.content) && IsUtf8(d.content)
    && d.length <= MAX32
  }

  ghost predicate DocumentsOk(documents: seq<Document>) {
    |documents| <= MAX32 && forall d :: 0 <= d < |documents| ==> DocumentOk(documents[d])
  }

  function LengthSum(documents: seq<Document>): nat {
    if documents == [] then 0 else LengthSum(Init(documents)) + Last(documents).length
  }

  ghost function TokensOfDocument(tab: Tables, accents: bool, d: Document): seq<seq<byte>>
    requires DocumentOk(d)
  {
    Tokens(tab, accents, d.content)
  }

  /** The tokens of every document, in document order. */
  ghost function DocumentTokens(tab: Tables, accents: bool, documents: seq<Document>): (r: seq<seq<seq<byte>>>)
    requires DocumentsOk(documents)
    ensures |r| == |documents|
    ensures forall d :: 0 <= d < |documents| ==> r[d] == TokensOfDocument(tab, accents, documents[d])
  {
    seq(|documents|, d requires 0 <= d < |documents| => TokensOfDocument(tab, accents, documents[d]))
  }

  /** The tokens of a document are those of its content, each document at its own place. */
  lemma TokensComeFromContent(tab: Tables, accents: bool, documents: seq<Document>, d: nat, cps: seq<Scalar>)
    requires DocumentsOk(documents) && d < |documents| && documents[d].content == EncodeAll(cps)
    ensures DocumentTokens(tab, accents, documents)[d] == TokensOf(tab, accents, cps)
  {
    hide TokensOf;
    TextTokens(tab, accents, cps);
  }

  ghost predicate TermsOk(terms: seq<Term>) {
    forall i :: 0 <= i < |terms| ==> IsToken(terms[i].value)
  }

  ghost predicate FrequenciesOk(postings: seq<Posting>) {
    forall j :: 0 <= j < |postings| ==> postings[j].frequency <= MAX32
  }

  /** What any searchable index guarantees, built here or imported. */
  ghost predicate Consistent(documents: seq<Document>, terms: seq<Term>, postings: seq<Posting>, total: nat) {
    && WellFormed(terms, postings, |documents|)
    && TermsOk(terms) && FrequenciesOk(postings)
    && (forall d :: 0 <= d < |documents| ==> SliceFreq(postings, d) == documents[d].length)
    && total == LengthSum(documents)
  }

  /** The index records exactly the tokens the analyzer emits for its documents. */
  ghost predicate Truthful(tab: Tables, accents: bool, documents: seq<Document>, terms: seq<Term>,
                           postings: seq<Posting>)
    requires DocumentsOk(documents)
  {
    var tokens := DocumentTokens(tab, accents, documents);
    Encodes(terms, postings, tokens) && forall d :: 0 <= d < |documents| ==> documents[d].length == |tokens[d]|
  }

  /** No document has more tokens than a `uint32_t` counts. */
  ghost predicate Countable(tokens: seq<seq<seq<byte>>>) {
    forall d :: 0 <= d < |tokens| ==> |tokens[d]| <= MAX32
  }

  lemma AllTokensAreTokens(tab: Tables, accents: bool, documents: seq<Document>, d: int, t: seq<byte>)
    requires tab.Valid() && DocumentsOk(documents)
    requires 0 <= d < |documents| && t in DocumentTokens(tab, accents, documents)[d]
    ensures IsToken(t)
  {
    hide IsToken, TokensOf;
    TokensAreTokens(tab, accents, Scalars(documents[d].content));
  }

  lemma {:induction false} CountAtMost<T>(s: seq<T>, x: T)
    ensures multiset(s)[x] <= |s|
  {
    if s != [] {
      CountAtMost(Init(s), x);
      assert s == Init(s) + [Last(s)];
    }
  }

  /** A truthful index is consistent. */
  lemma TruthfulIsConsistent(tab: Tables, accents: bool, documents: seq<Document>, terms: seq<Term>,
                             postings: seq<Posting>)
    requires tab.Valid() && DocumentsOk(documents) && Truthful(tab, accents, documents, terms, postings)
    ensures Consistent(documents, terms, postings, LengthSum(documents))
  {
    hide IsToken, DocumentOk, WellFormed, SliceOk, SliceFreq;
    var tokens := DocumentTokens(tab, accents, documents);
    WellFormedMeans(terms, postings, |documents|);
    forall i | 0 <= i < |terms|
      ensures IsToken(terms[i].value)
    {
      assert TermAt(terms, postings, |documents|, i);
      var p := postings[terms[i].start];
      PostingCounts(terms, postings, tokens, i, terms[i].start);
      AllTokensAreTokens(tab, accents, documents, p.ordinal, terms[i].value);
    }
    forall j | 0 <= j < |postings|
      ensures postings[j].frequency <= MAX32
    {
      var i := PostingHasTerm(terms, postings, |documents|, j);
      PostingCounts(terms, postings, tokens, i, j);
      CountAtMost(tokens[postings[j].ordinal], terms[i].value);
      assert DocumentOk(documents[postings[j].ordinal]);
      LengthBound(documents[postings[j].ordinal]);
    }
    forall d | 0 <= d < |documents|
      ensures SliceFreq(postings, d) == documents[d].length
    {
      EncodesCounts(terms, postings, tokens, [], d);
    }
  }

  lemma LengthBound(d: Document)
    requires DocumentOk(d)
    ensures d.length <= MAX32
  {
  }

  // ---------- building ----------

  /** The grouping loop of kc_bm25_build over the sorted occurrences. */
  method Group(items: seq<Occurrence>, docs: nat) returns (terms: seq<Term>, postings: seq<Posting>)
    requires Sorted(items, OccurrenceLe)
    requires forall i :: 0 <= i < |items| ==> items[i].ordinal < docs
    requires forall o :: multiset(items)[o] <= MAX32
    ensures WellFormed(terms, postings, docs) && Expand(terms, postings, docs) == items
  {
    hide WellFormed, Expand, StrLt;
    terms, postings := [], [];
    NothingGrouped(docs);
    var i := 0;
    while i < |items|
      invariant 0 <= i <= |items|
      invariant WellFormed(terms, postings, docs) && Expand(terms, postings, docs) == items[..i]
    {
      var item := items[i];
      assert items[..i + 1] == items[..i] + [item];
      if terms != [] {
        LastOccurrence(terms, postings, docs);
        assert items[..i] != [] && Last(items[..i]) == items[i - 1];
        SortedAdjacent(items, i);
      } else {
        NothingExpanded(postings, docs);
      }
      if |terms| == 0 || Last(terms).value != item.token {
        NewTermStep(terms, postings, docs, item);
        terms, postings := terms + [Term(item.token, |postings|, 1)], postings + [Posting(item.ordinal, 1)];
      } else if Last(postings).ordinal == item.ordinal {
        var posting := Last(postings);
        if posting.frequency == MAX32 {
          // The overflow check of the code: no occurrence is frequent enough to reach it.
          OpenFrequency(terms, postings, docs);
          PrefixCount(items, i, item);
          assert false;
        }
        RaiseStep(terms, postings, docs, item);
        postings := Init(postings) + [posting.(frequency := posting.frequency + 1)];
      } else {
        NewPostingStep(terms, postings, docs, item);
        terms := Init(terms) + [Last(terms).(count := Last(terms).count + 1)];
        postings := postings + [Posting(item.ordinal, 1)];
      }
      i := i + 1;
    }
    assert items[..|items|] == items;
  }

  lemma SortedAdjacent(items: seq<Occurrence>, i: nat)
    requires Sorted(items, OccurrenceLe) && 0 < i < |items|
    ensures var a, b := items[i - 1], items[i];
            if a.token == b.token then a.ordinal <= b.ordinal else StrLt(a.token, b.token)
  {
    assert OccurrenceLe(items[i - 1], items[i]);
  }

  lemma NothingGrouped(docs: nat)
    ensures WellFormed([], [], docs) && Expand([], [], docs) == []
  {
  }

  lemma NothingExpanded(postings: seq<Posting>, docs: nat)
    requires WellFormed([], postings, docs)
    ensures postings == [] && Expand([], postings, docs) == []
  {
  }

  lemma PrefixCount<T>(s: seq<T>, i: nat, x: T)
    requires i < |s| && s[i] == x
    ensures multiset(s)[x] >= multiset(s[..i])[x] + 1
  {
    assert s == s[..i] + [s[i]] + s[i + 1..];
  }

  /** The tokens of one document, appended one by one: kc_bm25_collect. */
  method Collect(tokens: seq<seq<byte>>, ordinal: nat, items: seq<Occurrence>)
    returns (ok: bool, items': seq<Occurrence>, length: nat)
    ensures ok <==> |tokens| <= MAX32
    ensures ok ==> items' == items + Tagged(tokens, ordinal) && length == |tokens|
  {
    items', length := items, 0;
    var k := 0;
    while k < |tokens|
      invariant 0 <= k <= |tokens| && length == k <= MAX32
      invariant items' == items + Tagged(tokens, ordinal)[..k]
    {
      if length == MAX32 {
        return false, items', length;
      }
      items' := items' + [Occurrence(tokens[k], ordinal)];
      length := length + 1;
      k := k + 1;
    }
    assert Tagged(tokens, ordinal)[..|tokens|] == Tagged(tokens, ordinal);
    ok := true;
  }

  /** The first half of kc_bm25_build: the occurrences of all documents and the token count of each. */
  method CollectAll(tab: Tables, accents: bool, documents: seq<Document>)
    returns (ok: bool, items: seq<Occurrence>, lengths: seq<nat>, total: nat)
    requires DocumentsOk(documents)
    ensures var tokens := DocumentTokens(tab, accents, documents);
            && (ok <==> Countable(tokens))
            && (ok ==> items == Occurrences(tokens) && |lengths| == |tokens| && total == Total(lengths)
                       && forall d :: 0 <= d < |tokens| ==> lengths[d] == |tokens[d]|)
  {
    hide DocumentOk, Tagged, Occurrences, Total, IsUtf8, Tokens;
    ghost var tokens := DocumentTokens(tab, accents, documents);
    NoOccurrences();
    items, lengths, total := [], [], 0;
    var i := 0;
    while i < |documents|
      invariant 0 <= i <= |documents| && |lengths| == i && total == Total(lengths)
      invariant items == Occurrences(tokens[..i])
      invariant forall d :: 0 <= d < i ==> lengths[d] == |tokens[d]| <= MAX32
    {
      assert DocumentOk(documents[i]);
      var emitted := AnalyzeDocument(tab, accents, documents[i]);
      var length;
      ok, items, length := Collect(emitted, i, items);
      if !ok {
        return;
      }
      OccurrencesSnoc(tokens, i);
      TotalSnoc(lengths, length);
      lengths := lengths + [length];
      total := total + length;
      i := i + 1;
    }
    assert tokens[..|documents|] == tokens;
    ok := true;
  }

  function Total(lengths: seq<nat>): nat {
    if lengths == [] then 0 else Total(Init(lengths)) + Last(lengths)
  }

  lemma TotalSnoc(lengths: seq<nat>, length: nat)
    ensures Total(lengths + [length]) == Total(lengths) + length
  {
    assert Init(lengths + [length]) == lengths;
  }

  lemma OccurrencesSnoc(tokens: seq<seq<seq<byte>>>, i: nat)
    requires i < |tokens|
    ensures Occurrences(tokens[..i + 1]) == Occurrences(tokens[..i]) + Tagged(tokens[i], i)
  {
    assert Init(tokens[..i + 1]) == tokens[..i];
  }

  lemma NoOccurrences()
    ensures Occurrences([]) == [] && Total([]) == 0
  {
  }

  /** Stored documents are well formed, so their analysis cannot fail. */
  method AnalyzeDocument(tab: Tables, accents: bool, d: Document) returns (tokens: seq<seq<byte>>)
    requires DocumentOk(d)
    ensures tokens == TokensOfDocument(tab, accents, d)
  {
    var ok;
    ok, tokens := Analyze(tab, accents, d.content);
  }

  lemma OccurrenceBounds(tokens: seq<seq<seq<byte>>>, items: seq<Occurrence>)
    requires Countable(tokens) && multiset(items) == multiset(Occurrences(tokens))
    ensures forall o :: multiset(items)[o] <= MAX32
    ensures forall i :: 0 <= i < |items| ==> items[i].ordinal < |tokens|
  {
    forall o: Occurrence
      ensures multiset(items)[o] <= MAX32 && (multiset(items)[o] > 0 ==> o.ordinal < |tokens|)
    {
      OccurrencesCount(tokens, o.token, o.ordinal);
      if o.ordinal < |tokens| {
        CountAtMost(tokens[o.ordinal], o.token);
      }
    }
    forall i | 0 <= i < |items|
      ensures items[i].ordinal < |tokens|
    {
      assert items[i] in multiset(items);
    }
  }

  /** The second half of kc_bm25_build: sort and group. */
  method Assemble(items: seq<Occurrence>, docs: nat, ghost tokens: seq<seq<seq<byte>>>)
    returns (terms: seq<Term>, postings: seq<Posting>)
    requires docs == |tokens| && Countable(tokens) && items == Occurrences(tokens)
    ensures Encodes(terms, postings, tokens)
    ensures IsSortOf(Expand(terms, postings, |tokens|), multiset(Occurrences(tokens)), OccurrenceLe)
  {
    hide Countable, OccurrenceLe, Occurrences, WellFormed, Expand;
    OccurrencesTotallyOrdered();
    var sorted := Sort(items, OccurrenceLe);
    OccurrenceBounds(tokens, sorted);
    terms, postings := Group(sorted, docs);
  }

  /** The dictionary of a searchable index is in the order `strcmp` gives. */
  lemma ConsistentAscends(documents: seq<Document>, terms: seq<Term>, postings: seq<Posting>, total: nat)
    requires Consistent(documents, terms, postings, total)
    ensures forall i, j :: 0 <= i < j < |terms| ==> Precedes(terms[i].value, terms[j].value)
  {
    hide WellFormed;
    TermsAscend(terms, postings, |documents|);
  }

  // ---------- the index object ----------

  /** The status of kc_bm25_add for C strings `id` and `content` on an index of `count` documents. */
  ghost function AddStatus(readOnly: bool, count: nat, id: seq<byte>, content: seq<byte>): (r: Status)
    ensures r == EInval <==> id == []
    ensures r == EState <==> readOnly && id != []
    ensures r == ENoMem <==> count >= 0xFFFF_FFFF && !readOnly && id != []
    ensures r == Ok <==> IsUtf8(id) && IsUtf8(content) && count < 0xFFFF_FFFF && !readOnly && id != []
    ensures r in {EInval, EState, ENoMem, EUtf8, Ok}
  {
    if id == [] then EInval
    else if readOnly then EState
    else if count >= MAX32 then ENoMem
    else if !IsUtf8(id) || !IsUtf8(content) then EUtf8
    else Ok
  }

  /** The status of kc_bm25_build on an index whose documents hold `tokens`. */
  ghost function BuildStatus(readOnly: bool, tokens: seq<seq<seq<byte>>>): (r: Status)
    ensures r == EState <==> readOnly
    ensures r == ENoMem <==> !readOnly && exists d :: 0 <= d < |tokens| && |tokens[d]| > 0xFFFF_FFFF
    ensures r in {EState, ENoMem, Ok}
  {
    if readOnly then EState
    else if !Countable(tokens) then ENoMem
    else Ok
  }

  /** kc_bm25_t */
  class Index {
    const tab: Tables
    const foldAccents: bool
    var documents: seq<Document>
    var terms: seq<Term>
    var postings: seq<Posting>
    var totalTokens: nat
    var built: bool
    var readOnly: bool

    /** `built` tells the truth: exactly then the dictionary is that of the current documents. */
    ghost predicate Valid()
      reads this
    {
      && tab.Valid() && DocumentsOk(documents)
      && (!built ==> terms == [] && postings == [] && totalTokens == 0 && !readOnly)
      && (built ==> Consistent(documents, terms, postings, totalTokens))
      && (built && !readOnly ==> Truthful(tab, foldAccents, documents, terms, postings))
    }

    constructor (tab: Tables, foldAccents: bool)
      requires tab.Valid()
      ensures Valid() && this.tab == tab && this.foldAccents == foldAccents
      ensures documents == [] && !built && !readOnly
    {
      this.tab, this.foldAccents := tab, foldAccents;
      documents, terms, postings, totalTokens := [], [], [], 0;
      built, readOnly := false, false;
    }

    /** kc_bm25_open: an explicit accent option must be zero or one. */
    static method Open(tab: Tables, option: Option<int>) returns (status: Status, index: Index?)
      requires tab.Valid()
      ensures status == if option.Some? && option.value != 0 && option.value != 1 then EInval else Ok
      ensures status == Ok <==> index != null
      ensures index != null ==> fresh(index) && index.Valid() && index.tab == tab
                                && index.foldAccents == (option == Some(1))
                                && index.documents == [] && !index.built && !index.readOnly
    {
      var accents := 0;
      if option.Some? {
        accents := option.value;
        if accents != 0 && accents != 1 {
          return EInval, null;
        }
      }
      index := new Index(tab, accents == 1);
      status := Ok;
    }

    /** kc_bm25_clear_postings */
    method ClearPostings()
      modifies this
      ensures documents == old(documents) && readOnly == old(readOnly)
      ensures terms == [] && postings == [] && totalTokens == 0 && !built
    {
      terms, postings, totalTokens, built := [], [], 0, false;
    }

    /** kc_bm25_add: the new document gets the next ordinal, and an index built before is cleared. */
    method Add(id: seq<byte>, content: seq<byte>) returns (status: Status)
      requires Valid() && IsCString(id) && IsCString(content)
      modifies this
      ensures Valid() && status == AddStatus(old(readOnly), |old(documents)|, id, content)
      ensures status != Ok ==> unchanged(this)
      ensures status == Ok ==> !built && !readOnly && documents == old(documents) + [Document(id, content, 0)]
    {
      if id == [] {
        return EInval;
      }
      if readOnly {
        return EState;
      }
      if |documents| >= MAX32 {
        return ENoMem;
      }
      var idOk := Validate(id);
      if !idOk {
        return EUtf8;
      }
      var contentOk := Validate(content);
      if !contentOk {
        return EUtf8;
      }
      if built {
        ClearPostings();
      }
      documents := documents + [Document(id, content, 0)];
      return Ok;
    }

    /**
     * kc_bm25_build: fails without touching the index when it is read-only or a document has too many
     * tokens, and otherwise leaves a truthful index of the same documents.
     */
    method Build() returns (status: Status)
      requires Valid()
      modifies this
      ensures Valid()
      ensures status == BuildStatus(old(readOnly), DocumentTokens(tab, foldAccents, old(documents)))
      ensures status != Ok ==> unchanged(this)
      ensures status == Ok ==> built && !readOnly && SameText(documents, old(documents))
      ensures status == Ok ==> totalTokens == LengthSum(documents)
      ensures status == Ok ==> forall i, j :: 0 <= i < j < |terms| ==> Precedes(terms[i].value, terms[j].value)
    {
      hide Countable, Truthful, Consistent, DocumentsOk, SameText, DocumentTokens, LengthSum;
      if readOnly {
        return EState;
      }
      var ok, newDocuments, newTerms, newPostings, total := Rebuild(tab, foldAccents, documents);
      if !ok {
        return ENoMem;
      }
      TruthfulIsConsistent(tab, foldAccents, newDocuments, newTerms, newPostings);
      ConsistentAscends(newDocuments, newTerms, newPostings, total);
      Install(newDocuments, newTerms, newPostings, total);
      return Ok;
    }

    /** The end of kc_bm25_build: the old dictionary is cleared and the new one takes its place. */
    method Install(newDocuments: seq<Document>, newTerms: seq<Term>, newPostings: seq<Posting>, total: nat)
      modifies this
      ensures documents == newDocuments && terms == newTerms && postings == newPostings && totalTokens == total
      ensures built && readOnly == old(readOnly)
    {
      ClearPostings();
      terms, postings, totalTokens, built := newTerms, newPostings, total, true;
      documents := newDocuments;
    }
  }

  /** Everything kc_bm25_build computes before it replaces the old dictionary. */
  method Rebuild(tab: Tables, accents: bool, documents: seq<Document>)
    returns (ok: bool, documents': seq<Document>, terms: seq<Term>, postings: seq<Posting>, total: nat)
    requires DocumentsOk(documents)
    ensures ok <==> Countable(DocumentTokens(tab, accents, documents))
    ensures ok ==> && DocumentsOk(documents') && SameText(documents', documents)
                   && Truthful(tab, accents, documents', terms, postings) && total == LengthSum(documents')
  {
    hide Countable, Truthful, DocumentOk, Occurrences, Encodes, Total, LengthSum, TokensOfDocument, Expand, Sorted;
    ghost var tokens := DocumentTokens(tab, accents, documents);
    var items, lengths;
    ok, items, lengths, total := CollectAll(tab, accents, documents);
    documents', terms, postings := documents, [], [];
    if ok {
      terms, postings := Assemble(items, |documents|, tokens);
      documents' := WithLengths(documents, lengths);
      BuiltIsTruthful(tab, accents, documents, documents', lengths, terms, postings);
    }
  }

  /** The same documents, whatever their recorded lengths. */
  ghost predicate SameText(a: seq<Document>, b: seq<Document>) {
    |a| == |b| && forall d :: 0 <= d < |a| ==> a[d].id == b[d].id && a[d].content == b[d].content
  }

  lemma BuiltIsTruthful(tab: Tables, accents: bool, before: seq<Document>, after: seq<Document>, lengths: seq<nat>,
                        terms: seq<Term>, postings: seq<Posting>)
    requires DocumentsOk(before) && |after| == |before| == |lengths|
    requires forall d :: 0 <= d < |after| ==> after[d] == before[d].(length := lengths[d])
    requires var tokens := DocumentTokens(tab, accents, before);
             && Countable(tokens) && Encodes(terms, postings, tokens)
             && forall d :: 0 <= d < |tokens| ==> lengths[d] == |tokens[d]|
    ensures DocumentsOk(after) && Truthful(tab, accents, after, terms, postings) && LengthSum(after) == Total(lengths)
  {
    hide Encodes;
    forall d | 0 <= d < |after|
      ensures DocumentOk(after[d])
              && TokensOfDocument(tab, accents, after[d]) == TokensOfDocument(tab, accents, before[d])
    {
      assert DocumentOk(before[d]);
    }
    assert DocumentTokens(tab, accents, after) == DocumentTokens(tab, accents, before);
    TotalIsLengthSum(after, lengths);
  }

  lemma {:induction false} TotalIsLengthSum(documents: seq<Document>, lengths: seq<nat>)
    requires |documents| == |lengths| && forall d :: 0 <= d < |lengths| ==> documents[d].length == lengths[d]
    ensures LengthSum(documents) == Total(lengths)
  {
    if documents != [] {
      TotalIsLengthSum(Init(documents), Init(lengths));
    }
  }

  /** The closing loop of kc_bm25_build. */
  method WithLengths(documents: seq<Document>, lengths: seq<nat>) returns (r: seq<Document>)
    requires |lengths| == |documents|
    ensures |r| == |documents|
    ensures forall d :: 0 <= d < |r| ==> r[d] == documents[d].(length := lengths[d])
  {
    r := documents;
    var i := 0;
    while i < |documents|
      invariant 0 <= i <= |documents| && |r| == |documents|
      invariant forall d :: 0 <= d < i ==> r[d] == documents[d].(length := lengths[d])
      invariant forall d :: i <= d < |r| ==> r[d] == documents[d]
    {
      r := r[i := r[i].(length := lengths[i])];
      i := i + 1;
    }
  }
}
