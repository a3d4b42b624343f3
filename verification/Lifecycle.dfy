/** Whole runs of calls on one index: what the state is after any sequence of kc_bm25_add and kc_bm25_build. */
module Lifecycle {
  import opened Prelude
  import opened Utf8
  import opened Analyzer
  import opened Postings
  import opened Bm25

  datatype Call = AddCall(id: seq<byte>, content: seq<byte>) | BuildCall

  /** The state a caller can predict: the texts in order (lengths left at zero) and the `built` flag. */
  datatype IndexState = IndexState(documents: seq<Document>, built: bool, readOnly: bool)

  ghost predicate Sound(s: IndexState) {
    DocumentsOk(s.documents)
  }

  /** The calls a C caller can make: both strings end at their first NUL. */
  predicate Callable(call: Call) {
    call.AddCall? ==> IsCString(call.id) && IsCString(call.content)
  }

  ghost function StatusOf(tab: Tables, accents: bool, s: IndexState, call: Call): Status
    requires Sound(s)
  {
    match call
    case AddCall(id, content) => AddStatus(s.readOnly, |s.documents|, id, content)
    case BuildCall => BuildStatus(s.readOnly, DocumentTokens(tab, accents, s.documents))
  }

  ghost function After(tab: Tables, accents: bool, s: IndexState, call: Call): (r: IndexState)
    requires Sound(s) && Callable(call)
    ensures Sound(r)
  {
    if StatusOf(tab, accents, s, call) != Ok then s
    else match call
      case AddCall(id, content) =>
        var grown := s.documents + [Document(id, content, 0)];
        assert DocumentOk(Document(id, content, 0));
        IndexState(grown, false, s.readOnly)
      case BuildCall => s.(built := true)
  }

  ghost function RunState(tab: Tables, accents: bool, s: IndexState, calls: seq<Call>): (r: IndexState)
    requires Sound(s) && forall k :: 0 <= k < |calls| ==> Callable(calls[k])
    ensures Sound(r)
    decreases |calls|
  {
    if calls == [] then s else RunState(tab, accents, After(tab, accents, s, calls[0]), calls[1..])
  }

  ghost function RunStatuses(tab: Tables, accents: bool, s: IndexState, calls: seq<Call>): (r: seq<Status>)
    requires Sound(s) && forall k :: 0 <= k < |calls| ==> Callable(calls[k])
    ensures |r| == |calls|
    decreases |calls|
  {
    if calls == [] then []
    else [StatusOf(tab, accents, s, calls[0])] + RunStatuses(tab, accents, After(tab, accents, s, calls[0]), calls[1..])
  }

  /** The state of an index object as its caller sees it. */
  ghost predicate Shows(index: Index, s: IndexState)
    reads index
  {
    && SameText(s.documents, index.documents) && s.built == index.built && s.readOnly == index.readOnly
  }

  /** Only the texts matter to the analyzer. */
  lemma SameTokens(tab: Tables, accents: bool, a: seq<Document>, b: seq<Document>)
    requires DocumentsOk(a) && DocumentsOk(b) && SameText(a, b)
    ensures DocumentTokens(tab, accents, a) == DocumentTokens(tab, accents, b)
  {
    hide DocumentOk;
    forall d | 0 <= d < |a|
      ensures TokensOfDocument(tab, accents, a[d]) == TokensOfDocument(tab, accents, b[d])
    {
    }
  }

  method Perform(index: Index, call: Call, ghost s: IndexState) returns (status: Status)
    requires index.Valid() && Sound(s) && Callable(call) && Shows(index, s)
    modifies index
    ensures index.Valid() && status == StatusOf(index.tab, index.foldAccents, s, call)
    ensures Shows(index, After(index.tab, index.foldAccents, s, call))
  {
    hide Countable, Truthful, Consistent, DocumentOk, TokensOfDocument, IsUtf8;
    SameTokens(index.tab, index.foldAccents, s.documents, index.documents);
    match call
    case AddCall(id, content) => status := index.Add(id, content);
    case BuildCall => status := index.Build();
  }

  /**
   * Any sequence of calls on a valid index keeps it valid (so a set `built` flag always stands for a
   * dictionary that matches the documents) and shows the predicted state and statuses.
   */
  method Run(index: Index, calls: seq<Call>, ghost s: IndexState) returns (statuses: seq<Status>)
    requires index.Valid() && Sound(s) && Shows(index, s) && forall k :: 0 <= k < |calls| ==> Callable(calls[k])
    modifies index
    ensures index.Valid() && statuses == RunStatuses(index.tab, index.foldAccents, s, calls)
    ensures Shows(index, RunState(index.tab, index.foldAccents, s, calls))
  {
    hide Index.Valid, Shows, After, StatusOf, Sound;
    var tab, accents := index.tab, index.foldAccents;
    ghost var now := s;
    statuses := [];
    var i := 0;
    assert calls[0..] == calls;
    while i < |calls|
      invariant 0 <= i <= |calls| && index.Valid() && Sound(now) && Shows(index, now)
      invariant RunState(tab, accents, now, calls[i..]) == RunState(tab, accents, s, calls)
      invariant statuses + RunStatuses(tab, accents, now, calls[i..]) == RunStatuses(tab, accents, s, calls)
    {
      assert calls[i..][1..] == calls[i + 1..] && calls[i..][0] == calls[i];
      var status := Perform(index, calls[i], now);
      now := After(tab, accents, now, calls[i]);
      statuses := statuses + [status];
      i := i + 1;
    }
  }

  // ---------- what a run amounts to ----------

  /** The calls that returned KC_BM25_OK, in order. */
  function Succeeded(calls: seq<Call>, statuses: seq<Status>): (r: seq<Call>)
    requires |calls| == |statuses|
    ensures (forall k :: 0 <= k < |calls| ==> Callable(calls[k])) ==> forall k :: 0 <= k < |r| ==> Callable(r[k])
  {
    if calls == [] then []
    else (if statuses[0] == Ok then [calls[0]] else []) + Succeeded(calls[1..], statuses[1..])
  }

  function Texts(calls: seq<Call>): seq<Document> {
    if calls == [] then []
    else (if calls[0].AddCall? then [Document(calls[0].id, calls[0].content, 0)] else []) + Texts(calls[1..])
  }

  /**
   * Failed calls leave no trace: the documents are the old ones and those of the successful additions
   * in order, and `built` is the last successful call being a build.
   */
  lemma {:induction false} OnlySuccessCounts(tab: Tables, accents: bool, s: IndexState, calls: seq<Call>)
    requires Sound(s) && forall k :: 0 <= k < |calls| ==> Callable(calls[k])
    ensures var done := Succeeded(calls, RunStatuses(tab, accents, s, calls));
            var end := RunState(tab, accents, s, calls);
            && end.documents == s.documents + Texts(done) && end.readOnly == s.readOnly
            && end.built == (if done == [] then s.built else Last(done).BuildCall?)
    decreases |calls|
  {
    if calls != [] {
      var next, statuses := After(tab, accents, s, calls[0]), RunStatuses(tab, accents, s, calls);
      OnlySuccessCounts(tab, accents, next, calls[1..]);
      FirstCall(tab, accents, s, calls[0]);
      assert statuses[1..] == RunStatuses(tab, accents, next, calls[1..]);
      hide StatusOf, After, Sound, RunStatuses, RunState;
      Chained(calls, statuses, s.documents);
    }
  }

  /** One call as seen from the state after it. */
  lemma FirstCall(tab: Tables, accents: bool, s: IndexState, call: Call)
    requires Sound(s) && Callable(call)
    ensures var next, status := After(tab, accents, s, call), StatusOf(tab, accents, s, call);
            && next.readOnly == s.readOnly
            && (status == Ok ==> next.documents == s.documents + Texts([call]) && next.built == call.BuildCall?)
            && (status != Ok ==> next == s)
  {
    assert Texts([call]) == (if call.AddCall? then [Document(call.id, call.content, 0)] else []) + Texts([]);
  }

  lemma Chained(calls: seq<Call>, statuses: seq<Status>, documents: seq<Document>)
    requires |calls| == |statuses| > 0
    ensures var rest, done := Succeeded(calls[1..], statuses[1..]), Succeeded(calls, statuses);
            && (statuses[0] != Ok ==> done == rest)
            && (statuses[0] == Ok ==> && done != [] && Last(done) == (if rest == [] then calls[0] else Last(rest))
                                      && documents + Texts(done) == documents + Texts([calls[0]]) + Texts(rest))
  {
    var rest, done := Succeeded(calls[1..], statuses[1..]), Succeeded(calls, statuses);
    assert statuses[0] == Ok ==> done == [calls[0]] + rest;
    hide Succeeded;
    TextsCons(calls[0], rest, documents);
  }

  lemma TextsCons(call: Call, rest: seq<Call>, documents: seq<Document>)
    ensures documents + Texts([call] + rest) == documents + Texts([call]) + Texts(rest)
  {
    assert ([call] + rest)[1..] == rest;
    assert [call][1..] == [];
  }

  /** A read-only index refuses every call and never changes. */
  lemma {:induction false} ReadOnlyIsFrozen(tab: Tables, accents: bool, s: IndexState, calls: seq<Call>)
    requires Sound(s) && s.readOnly && forall k :: 0 <= k < |calls| ==> Callable(calls[k])
    ensures RunState(tab, accents, s, calls) == s
    ensures forall k :: 0 <= k < |calls| ==> RunStatuses(tab, accents, s, calls)[k] in {EState, EInval}
    decreases |calls|
  {
    if calls != [] {
      ReadOnlyIsFrozen(tab, accents, s, calls[1..]);
    }
  }
}
