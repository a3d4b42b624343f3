/**
 * The sorted dictionary and its postings, as a run-length encoding: expanding every posting into as
 * many occurrences as its frequency gives back the sorted occurrences the index was built from.
 */
module Postings {
  import opened Prelude
  import opened Ordering

  /** kc_bm25_term_t: the postings of the term are `postings[start..start + count]`. */
  datatype Term = Term(value: seq<byte>, start: nat, count: nat)

  /** kc_bm25_posting_t */
  datatype Posting = Posting(ordinal: nat, frequency: nat)

  function Last<T>(s: seq<T>): T
    requires s != []
  {
    s[|s| - 1]
  }

  function Init<T>(s: seq<T>): seq<T>
    requires s != []
  {
    s[..|s| - 1]
  }

  /** The postings of one term: existing documents in strictly increasing order, with positive frequencies. */
  ghost predicate SliceOk(slice: seq<Posting>, docs: nat) {
    && (forall j :: 0 <= j < |slice| ==> slice[j].ordinal < docs && slice[j].frequency > 0)
    && (forall i, j :: 0 <= i < j < |slice| ==> slice[i].ordinal < slice[j].ordinal)
  }

  /**
   * Strictly sorted terms whose nonempty slices partition the postings, stated from the last term
   * backwards; WellFormedMeans gives the reading by index.
   */
  ghost predicate WellFormed(terms: seq<Term>, postings: seq<Posting>, docs: nat) {
    if terms == [] then postings == []
    else
      var t, before := Last(terms), Init(terms);
      && t.start < |postings| == t.start + t.count
      && SliceOk(postings[t.start..], docs)
      && (before != [] ==> StrLt(Last(before).value, t.value))
      && WellFormed(before, postings[..t.start], docs)
  }

  function Copies(o: Occurrence, n: nat): seq<Occurrence> {
    if n == 0 then [] else Copies(o, n - 1) + [o]
  }

  function ExpandSlice(value: seq<byte>, slice: seq<Posting>): seq<Occurrence> {
    if slice == [] then []
    else ExpandSlice(value, Init(slice)) + Copies(Occurrence(value, Last(slice).ordinal), Last(slice).frequency)
  }

  /** Every posting as `frequency` occurrences of its term in its document. */
  ghost function Expand(terms: seq<Term>, postings: seq<Posting>, docs: nat): seq<Occurrence>
    requires WellFormed(terms, postings, docs)
  {
    if terms == [] then []
    else
      var t := Last(terms);
      Expand(Init(terms), postings[..t.start], docs) + ExpandSlice(t.value, postings[t.start..])
  }

  // ---------- one more occurrence: the three branches of the grouping loop ----------

  lemma ExpandSliceSnoc(value: seq<byte>, slice: seq<Posting>, p: Posting)
    ensures ExpandSlice(value, slice + [p])
            == ExpandSlice(value, slice) + Copies(Occurrence(value, p.ordinal), p.frequency)
  {
    assert Init(slice + [p]) == slice;
  }

  lemma ExpandNothing(value: seq<byte>)
    ensures ExpandSlice(value, []) == []
  {
  }

  lemma OneCopy(o: Occurrence)
    ensures Copies(o, 1) == [o]
  {
    assert Copies(o, 0) == [];
  }

  /** The last occurrence of the expansion shows which term and posting are open. */
  lemma LastOccurrence(terms: seq<Term>, postings: seq<Posting>, docs: nat)
    requires WellFormed(terms, postings, docs) && terms != []
    ensures postings != []
    ensures var e := Expand(terms, postings, docs);
            e != [] && Last(e) == Occurrence(Last(terms).value, Last(postings).ordinal)
  {
    var t := Last(terms);
    var slice := postings[t.start..];
    assert Last(slice) == Last(postings);
    var p := Last(slice);
    assert Copies(Occurrence(t.value, p.ordinal), p.frequency)
        == Copies(Occurrence(t.value, p.ordinal), p.frequency - 1) + [Occurrence(t.value, p.ordinal)];
  }

  /** A token above the open term's starts a term with one posting. */
  lemma NewTermStep(terms: seq<Term>, postings: seq<Posting>, docs: nat, o: Occurrence)
    requires WellFormed(terms, postings, docs) && o.ordinal < docs
    requires terms != [] ==> StrLt(Last(terms).value, o.token)
    ensures var terms', postings' := terms + [Term(o.token, |postings|, 1)], postings + [Posting(o.ordinal, 1)];
            WellFormed(terms', postings', docs)
              && Expand(terms', postings', docs) == Expand(terms, postings, docs) + [o]
  {
    hide StrLt, ExpandSlice, Copies;
    ExpandNothing(o.token);
    var t, p := Term(o.token, |postings|, 1), Posting(o.ordinal, 1);
    assert Init(terms + [t]) == terms && Last(terms + [t]) == t;
    assert (postings + [p])[..|postings|] == postings && (postings + [p])[|postings|..] == [] + [p];
    ExpandSliceSnoc(o.token, [], p);
    OneCopy(o);
  }

  /** Replacing the open slice: what comes before it is untouched. */
  lemma OpenSlice(terms: seq<Term>, postings: seq<Posting>, docs: nat, slice: seq<Posting>)
    requires WellFormed(terms, postings, docs) && terms != [] && slice != [] && SliceOk(slice, docs)
    ensures var t := Last(terms);
            var terms', postings' := Init(terms) + [t.(count := |slice|)], postings[..t.start] + slice;
            && WellFormed(terms', postings', docs)
            && Expand(terms', postings', docs)
               == Expand(Init(terms), postings[..t.start], docs) + ExpandSlice(t.value, slice)
  {
    hide StrLt, SliceOk;
    var t := Last(terms);
    var terms', postings' := Init(terms) + [t.(count := |slice|)], postings[..t.start] + slice;
    assert Init(terms') == Init(terms) && Last(terms') == t.(count := |slice|);
    assert postings'[..t.start] == postings[..t.start] && postings'[t.start..] == slice;
  }

  /** The open term's slice is the end of the postings. */
  lemma OpenTerm(terms: seq<Term>, postings: seq<Posting>, docs: nat)
    requires WellFormed(terms, postings, docs) && terms != []
    ensures var t := Last(terms);
            && t.start < |postings| == t.start + t.count
            && SliceOk(postings[t.start..], docs)
            && WellFormed(Init(terms), postings[..t.start], docs)
            && Expand(terms, postings, docs)
               == Expand(Init(terms), postings[..t.start], docs) + ExpandSlice(t.value, postings[t.start..])
  {
  }

  /** The same token in a later document adds a posting to the open term. */
  lemma NewPostingStep(terms: seq<Term>, postings: seq<Posting>, docs: nat, o: Occurrence)
    requires WellFormed(terms, postings, docs) && terms != [] && o.ordinal < docs
    requires Last(terms).value == o.token && postings != [] && Last(postings).ordinal < o.ordinal
    ensures var terms' := Init(terms) + [Last(terms).(count := Last(terms).count + 1)];
            var postings' := postings + [Posting(o.ordinal, 1)];
            WellFormed(terms', postings', docs)
              && Expand(terms', postings', docs) == Expand(terms, postings, docs) + [o]
  {
    hide StrLt, WellFormed, Expand, ExpandSlice, Copies;
    OpenTerm(terms, postings, docs);
    var t, p := Last(terms), Posting(o.ordinal, 1);
    var slice := postings[t.start..];
    assert Last(slice) == Last(postings);
    assert SliceOk(slice + [p], docs);
    hide SliceOk;
    OpenSlice(terms, postings, docs, slice + [p]);
    assert postings[..t.start] + (slice + [p]) == postings + [p];
    ExpandSliceSnoc(o.token, slice, p);
    OneCopy(o);
  }

  lemma RaisedSliceOk(slice: seq<Posting>, docs: nat)
    requires SliceOk(slice, docs) && slice != []
    ensures SliceOk(Init(slice) + [Last(slice).(frequency := Last(slice).frequency + 1)], docs)
  {
  }

  /** The same token in the same document raises the frequency of the open posting. */
  lemma RaiseStep(terms: seq<Term>, postings: seq<Posting>, docs: nat, o: Occurrence)
    requires WellFormed(terms, postings, docs) && terms != [] && postings != []
    requires Last(terms).value == o.token && Last(postings).ordinal == o.ordinal
    ensures var p := Last(postings);
            var postings' := Init(postings) + [p.(frequency := p.frequency + 1)];
            WellFormed(terms, postings', docs) && Expand(terms, postings', docs) == Expand(terms, postings, docs) + [o]
  {
    hide StrLt, WellFormed, Expand, ExpandSlice, Copies, SliceOk;
    OpenTerm(terms, postings, docs);
    var t := Last(terms);
    var slice := postings[t.start..];
    var p := Last(slice);
    var rest, q := Init(slice), p.(frequency := p.frequency + 1);
    assert p == Last(postings) && slice == rest + [p];
    RaisedSliceOk(slice, docs);
    OpenSlice(terms, postings, docs, rest + [q]);
    assert Init(terms) + [t.(count := |rest + [q]|)] == terms;
    assert postings[..t.start] + (rest + [q]) == Init(postings) + [q];
    ExpandSliceSnoc(o.token, rest, p);
    ExpandSliceSnoc(o.token, rest, q);
    MoreCopies(o, p.frequency);
  }

  lemma MoreCopies(o: Occurrence, n: nat)
    ensures Copies(o, n + 1) == Copies(o, n) + [o]
  {
  }

  // ---------- the dictionary read by index ----------

  function Slice(term: Term, postings: seq<Posting>): seq<Posting>
    requires term.start + term.count <= |postings|
  {
    postings[term.start..term.start + term.count]
  }

  /** Term `i` and the slice it owns. */
  ghost predicate TermAt(terms: seq<Term>, postings: seq<Posting>, docs: nat, i: int) {
    && 0 <= i < |terms|
    && terms[i].start + terms[i].count <= |postings|
    && terms[i].count > 0
    && SliceOk(Slice(terms[i], postings), docs)
  }

  ghost predicate StrictlySorted(terms: seq<Term>) {
    forall i, j :: 0 <= i < j < |terms| ==> StrLt(terms[i].value, terms[j].value)
  }

  /** The slices follow each other from the first posting to the last. */
  ghost predicate Partition(terms: seq<Term>, postings: seq<Posting>) {
    && (forall i :: 0 <= i < |terms| - 1 ==> terms[i].start + terms[i].count == terms[i + 1].start)
    && (terms != [] ==> terms[0].start == 0 && Last(terms).start + Last(terms).count == |postings|)
    && (terms == [] ==> postings == [])
  }

  /** Terms are strictly sorted, and their slices are well formed and partition the postings. */
  lemma {:induction false} WellFormedMeans(terms: seq<Term>, postings: seq<Posting>, docs: nat)
    requires WellFormed(terms, postings, docs)
    ensures StrictlySorted(terms) && Partition(terms, postings)
    ensures forall i :: 0 <= i < |terms| ==> TermAt(terms, postings, docs, i)
  {
    if terms != [] {
      var t, before := Last(terms), Init(terms);
      OpenTerm(terms, postings, docs);
      WellFormedMeans(before, postings[..t.start], docs);
      SortedGrows(before, t);
      PartitionGrows(before, postings, t);
      assert terms == before + [t];
      hide WellFormed, StrictlySorted, Partition;
      forall i | 0 <= i < |terms|
        ensures TermAt(terms, postings, docs, i)
      {
        TermAtGrows(terms, postings, docs, i);
      }
    }
  }

  /** Every term is smaller than the later ones at the first octet where they differ, or ends there. */
  lemma TermsAscend(terms: seq<Term>, postings: seq<Posting>, docs: nat)
    requires WellFormed(terms, postings, docs)
    ensures forall i, j :: 0 <= i < j < |terms| ==> Precedes(terms[i].value, terms[j].value)
  {
    WellFormedMeans(terms, postings, docs);
    hide WellFormed;
    forall i, j | 0 <= i < j < |terms|
      ensures Precedes(terms[i].value, terms[j].value)
    {
      StrLtMeans(terms[i].value, terms[j].value);
    }
  }

  lemma SortedGrows(before: seq<Term>, t: Term)
    requires StrictlySorted(before) && (before != [] ==> StrLt(Last(before).value, t.value))
    ensures StrictlySorted(before + [t])
  {
    hide StrLt;
    forall i | 0 <= i < |before|
      ensures StrLt(before[i].value, t.value)
    {
      if i < |before| - 1 {
        StrLtTransitive(before[i].value, Last(before).value, t.value);
      }
    }
  }

  lemma PartitionGrows(before: seq<Term>, postings: seq<Posting>, t: Term)
    requires t.start + t.count == |postings| && Partition(before, postings[..t.start])
    ensures Partition(before + [t], postings)
  {
    assert Last(before + [t]) == t;
  }

  lemma TermAtGrows(terms: seq<Term>, postings: seq<Posting>, docs: nat, i: int)
    requires terms != [] && 0 <= i < |terms|
    requires Last(terms).start < |postings| == Last(terms).start + Last(terms).count
    requires SliceOk(postings[Last(terms).start..], docs)
    requires i < |terms| - 1 ==> TermAt(Init(terms), postings[..Last(terms).start], docs, i)
    ensures TermAt(terms, postings, docs, i)
  {
    hide SliceOk;
    if i < |terms| - 1 {
      var t, cut := terms[i], postings[..Last(terms).start];
      assert t == Init(terms)[i];
      SliceOfPrefix(postings, |cut|, t.start, t.start + t.count);
    } else {
      assert Slice(terms[i], postings) == postings[Last(terms).start..];
    }
  }

  // ---------- frequencies ----------

  /** Occurrences of document `d` recorded by the postings of one term. */
  function SliceFreq(slice: seq<Posting>, d: nat): nat {
    if slice == [] then 0 else SliceFreq(Init(slice), d) + if Last(slice).ordinal == d then Last(slice).frequency else 0
  }

  /** Occurrences of token `t` in document `d` recorded by the index. */
  ghost function Freq(terms: seq<Term>, postings: seq<Posting>, docs: nat, t: seq<byte>, d: nat): nat
    requires WellFormed(terms, postings, docs)
  {
    if terms == [] then 0
    else
      var last := Last(terms);
      Freq(Init(terms), postings[..last.start], docs, t, d)
      + if last.value == t then SliceFreq(postings[last.start..], d) else 0
  }

  lemma {:induction false} CopiesCount(o: Occurrence, n: nat, x: Occurrence)
    ensures multiset(Copies(o, n))[x] == if x == o then n else 0
  {
    if n > 0 {
      CopiesCount(o, n - 1, x);
    }
  }

  lemma {:induction false} SliceCount(value: seq<byte>, slice: seq<Posting>, t: seq<byte>, d: nat)
    ensures multiset(ExpandSlice(value, slice))[Occurrence(t, d)] == if t == value then SliceFreq(slice, d) else 0
  {
    if slice != [] {
      SliceCount(value, Init(slice), t, d);
      var p := Last(slice);
      CopiesCount(Occurrence(value, p.ordinal), p.frequency, Occurrence(t, d));
    }
  }

  /** The recorded frequency is the number of occurrences in the expansion. */
  lemma {:induction false} FreqIsCount(terms: seq<Term>, postings: seq<Posting>, docs: nat, t: seq<byte>, d: nat)
    requires WellFormed(terms, postings, docs)
    ensures multiset(Expand(terms, postings, docs))[Occurrence(t, d)] == Freq(terms, postings, docs, t, d)
  {
    if terms != [] {
      var last := Last(terms);
      FreqIsCount(Init(terms), postings[..last.start], docs, t, d);
      SliceCount(last.value, postings[last.start..], t, d);
    }
  }

  lemma {:induction false} SliceFreqAt(slice: seq<Posting>, docs: nat, j: int)
    requires SliceOk(slice, docs) && 0 <= j < |slice|
    ensures SliceFreq(slice, slice[j].ordinal) == slice[j].frequency
  {
    var n := |slice| - 1;
    if j < n {
      SliceFreqAt(Init(slice), docs, j);
    } else {
      SliceFreqAbsent(Init(slice), slice[n].ordinal);
    }
  }

  lemma {:induction false} SliceFreqAbsent(slice: seq<Posting>, d: nat)
    requires forall j :: 0 <= j < |slice| ==> slice[j].ordinal != d
    ensures SliceFreq(slice, d) == 0
  {
    if slice != [] {
      SliceFreqAbsent(Init(slice), d);
    }
  }

  /** The frequencies of a term are those of the one slice it owns. */
  lemma {:induction false} FreqOfTerm(terms: seq<Term>, postings: seq<Posting>, docs: nat, i: int, d: nat)
    requires WellFormed(terms, postings, docs) && TermAt(terms, postings, docs, i)
    ensures Freq(terms, postings, docs, terms[i].value, d) == SliceFreq(Slice(terms[i], postings), d)
  {
    hide SliceOk, SliceFreq, StrLt;
    var n, last := |terms| - 1, Last(terms);
    var before, rest := Init(terms), postings[..last.start];
    WellFormedMeans(terms, postings, docs);
    if i < n {
      StrLtIrreflexive(terms[i].value, last.value);
      WellFormedMeans(before, rest, docs);
      assert TermAt(before, rest, docs, i);
      assert Slice(terms[i], postings) == Slice(terms[i], rest);
      FreqOfTerm(before, rest, docs, i, d);
    } else {
      assert Slice(last, postings) == postings[last.start..];
      forall k | 0 <= k < |before|
        ensures before[k].value != last.value
      {
        StrLtIrreflexive(terms[k].value, last.value);
      }
      FreqOfAbsent(before, rest, docs, last.value, d);
    }
  }

  lemma StrLtIrreflexive(a: seq<byte>, b: seq<byte>)
    requires StrLt(a, b)
    ensures a != b
  {
  }

  lemma {:induction false} FreqOfAbsent(terms: seq<Term>, postings: seq<Posting>, docs: nat, t: seq<byte>, d: nat)
    requires WellFormed(terms, postings, docs) && forall k :: 0 <= k < |terms| ==> terms[k].value != t
    ensures Freq(terms, postings, docs, t, d) == 0
  {
    if terms != [] {
      FreqOfAbsent(Init(terms), postings[..Last(terms).start], docs, t, d);
    }
  }

  // ---------- totals per document ----------

  /** Occurrences that belong to document `d`. */
  function InDocument(items: seq<Occurrence>, d: nat): nat {
    if items == [] then 0 else InDocument(Init(items), d) + if Last(items).ordinal == d then 1 else 0
  }

  lemma {:induction false} InDocumentSplit(a: seq<Occurrence>, b: seq<Occurrence>, d: nat)
    ensures InDocument(a + b, d) == InDocument(a, d) + InDocument(b, d)
  {
    if b == [] {
      assert a + b == a;
    } else {
      assert Init(a + b) == a + Init(b);
      InDocumentSplit(a, Init(b), d);
    }
  }

  lemma {:induction false} SliceFreqSplit(a: seq<Posting>, b: seq<Posting>, d: nat)
    ensures SliceFreq(a + b, d) == SliceFreq(a, d) + SliceFreq(b, d)
  {
    if b == [] {
      assert a + b == a;
    } else {
      assert Init(a + b) == a + Init(b);
      SliceFreqSplit(a, Init(b), d);
    }
  }

  lemma {:induction false} InDocumentCopies(o: Occurrence, n: nat, d: nat)
    ensures InDocument(Copies(o, n), d) == if o.ordinal == d then n else 0
  {
    if n > 0 {
      InDocumentCopies(o, n - 1, d);
      assert Init(Copies(o, n)) == Copies(o, n - 1);
    }
  }

  lemma {:induction false} InDocumentSlice(value: seq<byte>, slice: seq<Posting>, d: nat)
    ensures InDocument(ExpandSlice(value, slice), d) == SliceFreq(slice, d)
  {
    if slice != [] {
      var p := Last(slice);
      InDocumentSlice(value, Init(slice), d);
      InDocumentCopies(Occurrence(value, p.ordinal), p.frequency, d);
      InDocumentSplit(ExpandSlice(value, Init(slice)), Copies(Occurrence(value, p.ordinal), p.frequency), d);
    }
  }

  /** The frequencies of a document's postings add up to its occurrences in the expansion. */
  lemma {:induction false} SliceFreqIsCount(terms: seq<Term>, postings: seq<Posting>, docs: nat, d: nat)
    requires WellFormed(terms, postings, docs)
    ensures SliceFreq(postings, d) == InDocument(Expand(terms, postings, docs), d)
  {
    if terms != [] {
      var t := Last(terms);
      var before, slice := postings[..t.start], postings[t.start..];
      OpenTerm(terms, postings, docs);
      SliceFreqIsCount(Init(terms), before, docs, d);
      hide WellFormed, Expand, SliceFreq, InDocument, ExpandSlice;
      InDocumentSlice(t.value, slice, d);
      InDocumentSplit(Expand(Init(terms), before, docs), ExpandSlice(t.value, slice), d);
      SliceFreqSplit(before, slice, d);
      assert before + slice == postings;
    }
  }

  lemma MultisetWithout<T>(a: seq<T>, u: seq<T>, v: seq<T>, x: T)
    requires multiset(a + [x]) == multiset(u + [x] + v)
    ensures multiset(a) == multiset(u + v)
  {
    assert multiset(a) == multiset(a + [x]) - multiset{x};
    assert multiset(u + v) == multiset(u + [x] + v) - multiset{x};
  }

  /** The count per document does not depend on the order of the occurrences. */
  lemma {:induction false} InDocumentPermuted(a: seq<Occurrence>, b: seq<Occurrence>, d: nat)
    requires multiset(a) == multiset(b)
    ensures InDocument(a, d) == InDocument(b, d)
  {
    if a == [] {
      assert |b| == |multiset(b)| == |multiset(a)| == 0;
    } else {
      var x := Last(a);
      assert a == Init(a) + [x];
      assert x in multiset(b);
      var k :| 0 <= k < |b| && b[k] == x;
      var u, v := b[..k], b[k + 1..];
      assert b == u + [x] + v;
      MultisetWithout(Init(a), u, v, x);
      InDocumentPermuted(Init(a), u + v, d);
      InDocumentSplit(u + [x], v, d);
      InDocumentSplit(u, [x], d);
      InDocumentSplit(u, v, d);
      assert Init([x]) == [];
    }
  }

  // ---------- what the index says about the tokens of the documents ----------

  function Tagged(tokens: seq<seq<byte>>, ordinal: nat): (r: seq<Occurrence>)
    ensures |r| == |tokens|
  {
    seq(|tokens|, k requires 0 <= k < |tokens| => Occurrence(tokens[k], ordinal))
  }

  /** The occurrences kc_bm25_collect gathers, document after document. */
  function Occurrences(tokens: seq<seq<seq<byte>>>): seq<Occurrence> {
    if tokens == [] then [] else Occurrences(Init(tokens)) + Tagged(Last(tokens), |tokens| - 1)
  }

  lemma {:induction false} TaggedCount(tokens: seq<seq<byte>>, ordinal: nat, t: seq<byte>, d: nat)
    ensures multiset(Tagged(tokens, ordinal))[Occurrence(t, d)] == if d == ordinal then multiset(tokens)[t] else 0
    ensures InDocument(Tagged(tokens, ordinal), d) == if d == ordinal then |tokens| else 0
  {
    if tokens != [] {
      TaggedCount(Init(tokens), ordinal, t, d);
      var all := Tagged(tokens, ordinal);
      assert Init(all) == Tagged(Init(tokens), ordinal) && Last(all) == Occurrence(Last(tokens), ordinal);
      CountLast(all, Occurrence(t, d));
      CountLast(tokens, t);
      hide Tagged;
    }
  }

  lemma {:induction false} OccurrencesCount(tokens: seq<seq<seq<byte>>>, t: seq<byte>, d: nat)
    ensures multiset(Occurrences(tokens))[Occurrence(t, d)] == if d < |tokens| then multiset(tokens[d])[t] else 0
    ensures InDocument(Occurrences(tokens), d) == if d < |tokens| then |tokens[d]| else 0
  {
    if tokens != [] {
      OccurrencesCount(Init(tokens), t, d);
      TaggedCount(Last(tokens), |tokens| - 1, t, d);
      InDocumentSplit(Occurrences(Init(tokens)), Tagged(Last(tokens), |tokens| - 1), d);
    }
  }

  /** The index is the run-length encoding of the tokens of the documents. */
  ghost predicate Encodes(terms: seq<Term>, postings: seq<Posting>, tokens: seq<seq<seq<byte>>>) {
    && WellFormed(terms, postings, |tokens|)
    && multiset(Expand(terms, postings, |tokens|)) == multiset(Occurrences(tokens))
  }

  /** Naive counting: the recorded frequency of every token in every document is the number of times it occurs there. */
  lemma EncodesCounts(terms: seq<Term>, postings: seq<Posting>, tokens: seq<seq<seq<byte>>>, t: seq<byte>, d: nat)
    requires Encodes(terms, postings, tokens) && d < |tokens|
    ensures Freq(terms, postings, |tokens|, t, d) == multiset(tokens[d])[t]
    ensures SliceFreq(postings, d) == |tokens[d]|
  {
    FreqIsCount(terms, postings, |tokens|, t, d);
    OccurrencesCount(tokens, t, d);
    SliceFreqIsCount(terms, postings, |tokens|, d);
    InDocumentPermuted(Expand(terms, postings, |tokens|), Occurrences(tokens), d);
  }

  /** The open posting's frequency is reached by occurrences that were really grouped. */
  lemma OpenFrequency(terms: seq<Term>, postings: seq<Posting>, docs: nat)
    requires WellFormed(terms, postings, docs) && terms != [] && postings != []
    ensures multiset(Expand(terms, postings, docs))[Occurrence(Last(terms).value, Last(postings).ordinal)]
         >= Last(postings).frequency
  {
    var t := Last(terms);
    var slice := postings[t.start..];
    OpenTerm(terms, postings, docs);
    hide WellFormed, Expand;
    assert Last(slice) == Last(postings);
    var o := Occurrence(t.value, Last(slice).ordinal);
    CopiesCount(o, Last(slice).frequency, o);
  }

  /** Every posting counts a token of its document. */
  lemma PostingCounts(terms: seq<Term>, postings: seq<Posting>, tokens: seq<seq<seq<byte>>>, i: int, j: int)
    requires Encodes(terms, postings, tokens) && TermAt(terms, postings, |tokens|, i)
    requires terms[i].start <= j < terms[i].start + terms[i].count
    ensures postings[j].ordinal < |tokens|
    ensures multiset(tokens[postings[j].ordinal])[terms[i].value] == postings[j].frequency > 0
  {
    var slice := Slice(terms[i], postings);
    var p := slice[j - terms[i].start];
    FreqOfTerm(terms, postings, |tokens|, i, p.ordinal);
    SliceFreqAt(slice, |tokens|, j - terms[i].start);
    EncodesCounts(terms, postings, tokens, terms[i].value, p.ordinal);
  }

  /** Every posting belongs to the slice of some term. */
  lemma {:induction false} PostingHasTerm(terms: seq<Term>, postings: seq<Posting>, docs: nat, j: int) returns (i: int)
    requires WellFormed(terms, postings, docs) && 0 <= j < |postings|
    ensures TermAt(terms, postings, docs, i) && terms[i].start <= j < terms[i].start + terms[i].count
  {
    WellFormedMeans(terms, postings, docs);
    hide SliceOk, StrLt;
    var t := Last(terms);
    if j >= t.start {
      i := |terms| - 1;
    } else {
      i := PostingHasTerm(Init(terms), postings[..t.start], docs, j);
    }
  }

  // ---------- the tokens an arbitrary well-formed index records ----------

  function TokensIn(items: seq<Occurrence>, d: nat): seq<seq<byte>> {
    if items == [] then []
    else TokensIn(Init(items), d) + if Last(items).ordinal == d then [Last(items).token] else []
  }

  lemma CountLast<T>(s: seq<T>, x: T)
    requires s != []
    ensures multiset(s)[x] == multiset(Init(s))[x] + if Last(s) == x then 1 else 0
  {
    assert s == Init(s) + [Last(s)];
  }

  lemma {:induction false} TokensInCount(items: seq<Occurrence>, t: seq<byte>, d: nat)
    ensures multiset(TokensIn(items, d))[t] == multiset(items)[Occurrence(t, d)]
  {
    if items != [] {
      TokensInCount(Init(items), t, d);
      CountLast(items, Occurrence(t, d));
      var before, last := TokensIn(Init(items), d), Last(items);
      if last.ordinal == d {
        assert Init(before + [last.token]) == before;
        CountLast(before + [last.token], t);
      } else {
        assert TokensIn(items, d) == before;
      }
    }
  }

  lemma {:induction false} SliceFreqBeyond(slice: seq<Posting>, docs: nat, d: nat)
    requires SliceOk(slice, docs) && d >= docs
    ensures SliceFreq(slice, d) == 0
  {
    if slice != [] {
      SliceFreqBeyond(Init(slice), docs, d);
    }
  }

  lemma {:induction false} FreqBeyond(terms: seq<Term>, postings: seq<Posting>, docs: nat, t: seq<byte>, d: nat)
    requires WellFormed(terms, postings, docs) && d >= docs
    ensures Freq(terms, postings, docs, t, d) == 0
  {
    if terms != [] {
      FreqBeyond(Init(terms), postings[..Last(terms).start], docs, t, d);
      SliceFreqBeyond(postings[Last(terms).start..], docs, d);
    }
  }

  ghost function Recorded(terms: seq<Term>, postings: seq<Posting>, docs: nat): (r: seq<seq<seq<byte>>>)
    requires WellFormed(terms, postings, docs)
    ensures |r| == docs
  {
    seq(docs, d requires 0 <= d < docs => TokensIn(Expand(terms, postings, docs), d))
  }

  /** Every well-formed index, imported ones included, encodes the tokens it records. */
  lemma RecordedIsEncoded(terms: seq<Term>, postings: seq<Posting>, docs: nat)
    requires WellFormed(terms, postings, docs)
    ensures Encodes(terms, postings, Recorded(terms, postings, docs))
  {
    var e, tokens := Expand(terms, postings, docs), Recorded(terms, postings, docs);
    forall o: Occurrence
      ensures multiset(e)[o] == multiset(Occurrences(tokens))[o]
    {
      OccurrencesCount(tokens, o.token, o.ordinal);
      TokensInCount(e, o.token, o.ordinal);
      FreqIsCount(terms, postings, docs, o.token, o.ordinal);
      if o.ordinal >= docs {
        FreqBeyond(terms, postings, docs, o.token, o.ordinal);
      }
    }
  }
}
