/** kc_bm25_import: a bounds-checked reader accepts exactly the files export can have written. */
module Importing {
  import opened Prelude
  import opened Binary
  import opened Utf8
  import opened Ordering
  import opened Analyzer
  import opened Postings
  import opened Bm25
  import opened Format
  import opened Exporting

  /** kc_bm25_reader_t: `pos` octets of the slice are consumed. */
  class Reader {
    const data: seq<byte>
    var pos: nat

    ghost predicate Valid()
      reads this
    {
      pos <= |data|
    }

    /** What is still to be read. */
    ghost function Rest(): seq<byte>
      requires Valid()
      reads this
    {
      data[pos..]
    }

    function Remaining(): (n: nat)
      requires Valid()
      reads this
      ensures n == |Rest()|
    {
      |data| - pos
    }

    constructor (data: seq<byte>)
      ensures Valid() && Rest() == data
    {
      this.data, pos := data, 0;
    }

    /** kc_bm25_memread: None, and nothing consumed, past the end of the slice. */
    method Read(count: nat) returns (r: Option<seq<byte>>)
      requires Valid()
      modifies this
      ensures Valid()
      ensures r == if count <= |old(Rest())| then Some(old(Rest())[..count]) else None
      ensures Rest() == if r.Some? then old(Rest())[count..] else old(Rest())
    {
      if count > |data| - pos {
        return None;
      }
      ghost var rest := Rest();
      r := Some(data[pos..pos + count]);
      assert r.value == rest[..count];
      pos := pos + count;
    }
  }

  // ---------- the header ----------

  datatype Head = Head(accents: bool, documents: nat, terms: nat, postings: nat, total: nat)

  /** The checks import makes on the header, `remaining` octets before the end. */
  predicate HeadOk(h: Head, remaining: nat) {
    && h.documents <= MAX32
    && h.documents <= SIZE_MAX / 24 && h.terms <= SIZE_MAX / 24 && h.postings <= SIZE_MAX / 8
    && h.documents <= remaining / 24 && h.terms <= remaining / 24 && h.postings <= remaining / 8
    && !(h.documents == 0 && (h.terms != 0 || h.postings != 0 || h.total != 0))
    && h.terms <= h.postings
  }

  function HeadOf(s: Snapshot): Head {
    Head(s.accents, |s.documents|, |s.terms|, |s.postings|, s.total)
  }

  function HeadBytes(h: Head): (r: seq<byte>)
    ensures |r| == HEADER
  {
    HeaderOf(h.accents, h.documents, h.terms, h.postings, h.total)
  }

  /** Reads and checks the header; `want` is the snapshot the slice may hold. */
  method ReadHead(reader: Reader, ghost want: Option<Snapshot>) returns (r: Option<Head>)
    requires reader.Valid()
    requires want.Some? ==> Storable(want.value) && reader.Rest() == Serialize(want.value)
    modifies reader
    ensures reader.Valid()
    ensures r.Some? ==> HeadOk(r.value, |reader.Rest()|) && old(reader.Rest()) == HeadBytes(r.value) + reader.Rest()
                        && r.value.total <= SIZE_MAX
    ensures want.Some? ==> r == Some(HeadOf(want.value))
  {
    hide Storable, Serialize, HeaderOf, FromLe, Le32, Le64;
    if want.Some? {
      HeadPasses(want.value);
    }
    var head := reader.Read(HEADER);
    if head.None? || head.value[..8] != MAGIC {
      return None;
    }
    var h := head.value;
    var accents := ReadLe(h[8..12]);
    var documents := ReadLe(h[12..20]);
    var terms := ReadLe(h[20..28]);
    var postings := ReadLe(h[28..36]);
    var total := ReadLe(h[36..44]);
    if accents != 0 && accents != 1 {
      return None;
    }
    var found := Head(accents == 1, documents, terms, postings, total);
    if !HeadOk(found, reader.Remaining()) {
      return None;
    }
    HeadWrites(h, found);
    return Some(found);
  }

  lemma HeadPasses(s: Snapshot)
    requires Storable(s)
    ensures |Serialize(s)| >= HEADER && Serialize(s)[..HEADER] == HeadBytes(HeadOf(s))
    ensures HeadOk(HeadOf(s), |Serialize(s)| - HEADER)
    ensures var h := Serialize(s)[..HEADER];
            && h[..8] == MAGIC && FromLe(h[8..12]) == (if s.accents then 1 else 0)
            && FromLe(h[12..20]) == |s.documents| && FromLe(h[20..28]) == |s.terms|
            && FromLe(h[28..36]) == |s.postings| && FromLe(h[36..44]) == s.total
  {
    FieldsFit(s);
    HeaderReads(s.accents, |s.documents|, |s.terms|, |s.postings|, s.total);
    assert Serialize(s)[..HEADER] == Header(s);
  }

  lemma HeadWrites(h: seq<byte>, found: Head)
    requires |h| == HEADER && h[..8] == MAGIC
    requires FromLe(h[8..12]) == if found.accents then 1 else 0
    requires FromLe(h[12..20]) == found.documents && FromLe(h[20..28]) == found.terms
    requires FromLe(h[28..36]) == found.postings && FromLe(h[36..44]) == found.total
    ensures h == HeadBytes(found) && found.total <= SIZE_MAX
  {
    hide Le32, Le64, FromLe;
    Read32Writes(h[8..12]);
    Read64Writes(h[12..20]);
    Read64Writes(h[20..28]);
    Read64Writes(h[28..36]);
    Read64Writes(h[36..44]);
    assert h == h[..8] + h[8..12] + h[12..20] + h[20..28] + h[28..36] + h[36..44];
  }

  // ---------- documents ----------

  method ReadFields(reader: Reader) returns (r: Option<(nat, nat, nat)>)
    requires reader.Valid()
    modifies reader
    ensures reader.Valid()
    ensures r.Some? <==> |old(reader.Rest())| >= 24
    ensures r.Some? ==> && r.value == FieldsOf(old(reader.Rest())[..24])
                        && reader.Rest() == old(reader.Rest())[24..]
                        && old(reader.Rest()) == Fields(r.value.0, r.value.1, r.value.2) + reader.Rest()
                        && r.value.0 <= SIZE_MAX && r.value.1 <= SIZE_MAX && r.value.2 <= SIZE_MAX
  {
    hide Fields, FromLe;
    ghost var before := reader.Rest();
    var item := reader.Read(24);
    if item.None? {
      return None;
    }
    var b := item.value;
    var x := ReadLe(b[..8]);
    var y := ReadLe(b[8..16]);
    var z := ReadLe(b[16..]);
    FieldsWrite(b);
    assert before == before[..24] + before[24..];
    return Some((x, y, z));
  }

  /** A string of `n` octets: no NUL (`memchr`) and valid UTF-8. */
  method ReadText(reader: Reader, n: nat) returns (r: Option<seq<byte>>)
    requires reader.Valid() && n <= |reader.Rest()|
    modifies reader
    ensures reader.Valid() && reader.Rest() == old(reader.Rest())[n..]
    ensures var text := old(reader.Rest())[..n];
            r == if IsCString(text) && IsUtf8(text) then Some(text) else None
  {
    var text := reader.Read(n);
    if !IsCString(text.value) {
      return None;
    }
    var ok := Validate(text.value);
    return if ok then text else None;
  }

  /** A document record whose length still fits in `budget`, the tokens the header leaves over. */
  method ReadDocument(reader: Reader, budget: nat, ghost want: Option<(Document, seq<byte>)>)
    returns (r: Option<Document>)
    requires reader.Valid() && |reader.Rest()| < SIZE_MAX
    requires want.Some? ==> DocumentOk(want.value.0) && DocumentFits(want.value.0) && want.value.0.length <= budget
                            && reader.Rest() == DocumentBytes(want.value.0) + want.value.1
    modifies reader
    ensures reader.Valid()
    ensures r.Some? ==> DocumentOk(r.value) && r.value.length <= budget
                        && old(reader.Rest()) == DocumentBytes(r.value) + reader.Rest()
    ensures want.Some? ==> r == Some(want.value.0) && reader.Rest() == want.value.1
  {
    hide Fields, FieldsOf, IsUtf8, IsCString, DocumentOk, DocumentFits, DocumentBytes;
    ghost var before := reader.Rest();
    if want.Some? {
      DocumentExpected(want.value.0, want.value.1);
    }
    var item := ReadFields(reader);
    if item.None? {
      return None;
    }
    ghost var body := reader.Rest();
    var (idLen, textLen, length) := item.value;
    if idLen == 0 || idLen >= SIZE_MAX || textLen >= SIZE_MAX || length > MAX32 || idLen > reader.Remaining()
       || textLen > reader.Remaining() - idLen || length > budget {
      return None;
    }
    var id := ReadText(reader, idLen);
    var content := ReadText(reader, textLen);
    if id.None? || content.None? {
      return None;
    }
    r := Some(Document(id.value, content.value, length));
    DocumentFound(before, body, r.value, reader.Rest());
  }

  /** A document record passes every check import makes on it. */
  lemma DocumentExpected(d: Document, tail: seq<byte>)
    requires DocumentOk(d) && DocumentFits(d)
    ensures var r := DocumentBytes(d) + tail;
            && |r| >= 24 + |d.id| + |d.content|
            && FieldsOf(r[..24]) == (|d.id|, |d.content|, d.length)
            && r[24..][..|d.id|] == d.id && r[24..][|d.id|..][..|d.content|] == d.content
            && r[24..][|d.id|..][|d.content|..] == tail
    ensures d.id != [] && d.length <= MAX32
    ensures IsCString(d.id) && IsUtf8(d.id) && IsCString(d.content) && IsUtf8(d.content)
  {
    DocumentReads(d, tail);
  }

  lemma DocumentFound(before: seq<byte>, body: seq<byte>, d: Document, rest: seq<byte>)
    requires before == Fields(|d.id|, |d.content|, d.length) + body
    requires |d.id| + |d.content| <= |body| && body[..|d.id|] == d.id && body[|d.id|..][..|d.content|] == d.content
    requires body[|d.id|..][|d.content|..] == rest
    requires d.id != [] && d.length <= MAX32
    requires IsCString(d.id) && IsUtf8(d.id) && IsCString(d.content) && IsUtf8(d.content)
    ensures DocumentOk(d) && before == DocumentBytes(d) + rest
  {
    hide Fields;
    assert body == d.id + d.content + rest;
  }

  ghost predicate DocumentsFit(documents: seq<Document>) {
    forall d :: 0 <= d < |documents| ==> DocumentOk(documents[d]) && DocumentFits(documents[d])
  }

  method ReadDocuments(reader: Reader, n: nat, total: nat, ghost want: Option<(seq<Document>, seq<byte>)>)
    returns (r: Option<seq<Document>>)
    requires reader.Valid() && |reader.Rest()| < SIZE_MAX
    requires want.Some? ==> |want.value.0| == n && DocumentsFit(want.value.0) && LengthSum(want.value.0) == total
                            && reader.Rest() == DocumentsBytes(want.value.0) + want.value.1
    modifies reader
    ensures reader.Valid()
    ensures r.Some? ==> && |r.value| == n && (forall d :: 0 <= d < n ==> DocumentOk(r.value[d]))
                        && LengthSum(r.value) == total
                        && old(reader.Rest()) == DocumentsBytes(r.value) + reader.Rest()
    ensures want.Some? ==> r == Some(want.value.0) && reader.Rest() == want.value.1
  {
    hide DocumentBytes, DocumentsBytes, LengthSum, DocumentOk, DocumentFits;
    ghost var before := reader.Rest();
    NothingRead();
    var documents: seq<Document> := [];
    var used: nat := 0;
    var i := 0;
    assert want.Some? ==> want.value.0[0..] == want.value.0;
    while i < n
      invariant 0 <= i <= n && |documents| == i && reader.Valid()
      invariant forall d :: 0 <= d < i ==> DocumentOk(documents[d])
      invariant used == LengthSum(documents) <= total
      invariant before == DocumentsBytes(documents) + reader.Rest()
      invariant want.Some? ==> documents == want.value.0[..i]
                               && reader.Rest() == DocumentsBytes(want.value.0[i..]) + want.value.1
    {
      ghost var next := NextDocument(want, i, used, total);
      ghost var rest := reader.Rest();
      var d := ReadDocument(reader, total - used, next);
      if d.None? {
        return None;
      }
      DocumentTaken(before, documents, d.value, rest, reader.Rest());
      LengthSumSnoc(documents, d.value);
      documents := documents + [d.value];
      used := used + d.value.length;
      i := i + 1;
    }
    assert want.Some? ==> want.value.0[..n] == want.value.0 && want.value.0[n..] == [];
    if used != total {
      return None;
    }
    return Some(documents);
  }

  lemma DocumentTaken(before: seq<byte>, documents: seq<Document>, d: Document, rest: seq<byte>, left: seq<byte>)
    requires before == DocumentsBytes(documents) + rest && rest == DocumentBytes(d) + left
    ensures before == DocumentsBytes(documents + [d]) + left
  {
    hide DocumentBytes, DocumentsBytes;
    DocumentsBytesSnoc(documents, d);
  }

  lemma NothingRead()
    ensures DocumentsBytes([]) == [] && TermsBytes([]) == [] && PostingsBytes([]) == [] && LengthSum([]) == 0
  {
  }

  lemma LengthSumSnoc(documents: seq<Document>, d: Document)
    ensures LengthSum(documents + [d]) == LengthSum(documents) + d.length
  {
    assert Init(documents + [d]) == documents;
  }

  lemma {:induction false} LengthSumPrefix(documents: seq<Document>, i: nat)
    requires i <= |documents|
    ensures LengthSum(documents[..i]) <= LengthSum(documents)
  {
    if i < |documents| {
      assert Init(documents)[..i] == documents[..i];
      LengthSumPrefix(Init(documents), i);
    } else {
      assert documents[..i] == documents;
    }
  }

  /** The record the reader has to find next if the slice is what `want` says. */
  ghost method NextDocument(want: Option<(seq<Document>, seq<byte>)>, i: nat, used: nat, total: nat)
    returns (next: Option<(Document, seq<byte>)>)
    requires want.Some? ==> i < |want.value.0| && DocumentsFit(want.value.0)
                            && LengthSum(want.value.0) == total && used == LengthSum(want.value.0[..i])
    ensures next.Some? == want.Some?
    ensures want.Some? ==> && next.value == (want.value.0[i], DocumentsBytes(want.value.0[i + 1..]) + want.value.1)
                           && DocumentOk(next.value.0) && DocumentFits(next.value.0)
                           && next.value.0.length <= total - used
                           && DocumentsBytes(want.value.0[i..]) + want.value.1
                              == DocumentBytes(next.value.0) + next.value.1
                           && want.value.0[..i + 1] == want.value.0[..i] + [want.value.0[i]]
  {
    hide DocumentOk, DocumentFits, DocumentBytes;
    next := None;
    if want.Some? {
      var (all, tail) := want.value;
      assert all[i..][1..] == all[i + 1..];
      assert all[..i + 1] == all[..i] + [all[i]];
      LengthSumSnoc(all[..i], all[i]);
      LengthSumPrefix(all, i + 1);
      next := Some((all[i], DocumentsBytes(all[i + 1..]) + tail));
    }
  }

  // ---------- terms ----------

  /** What import checks of the next dictionary entry before it sees a posting. */
  ghost predicate TermNext(terms: seq<Term>, t: Term, offset: nat, docs: nat, postings: nat) {
    && IsToken(t.value) && t.start == offset && 0 < t.count <= docs && t.start + t.count <= postings
    && (terms != [] ==> StrLt(Last(terms).value, t.value))
  }

  method ReadTerm(reader: Reader, terms: seq<Term>, offset: nat, docs: nat, postings: nat,
                  ghost want: Option<(Term, seq<byte>)>)
    returns (r: Option<Term>)
    requires reader.Valid() && |reader.Rest()| < SIZE_MAX && offset <= postings
    requires want.Some? ==> TermNext(terms, want.value.0, offset, docs, postings) && TermFits(want.value.0)
                            && reader.Rest() == TermBytes(want.value.0) + want.value.1
    modifies reader
    ensures reader.Valid()
    ensures r.Some? ==> TermNext(terms, r.value, offset, docs, postings)
                        && old(reader.Rest()) == TermBytes(r.value) + reader.Rest()
    ensures want.Some? ==> r == Some(want.value.0) && reader.Rest() == want.value.1
  {
    hide Fields, FieldsOf, IsUtf8, IsCString, TermFits, TermBytes, StrLt;
    ghost var before := reader.Rest();
    if want.Some? {
      TermExpected(want.value.0, want.value.1);
    }
    var item := ReadFields(reader);
    if item.None? {
      return None;
    }
    ghost var body := reader.Rest();
    var (length, start, count) := item.value;
    if length == 0 || length >= SIZE_MAX || length > reader.Remaining() || start != offset || count == 0 || count > docs
       || count > postings - offset {
      return None;
    }
    var value := ReadText(reader, length);
    if value.None? || (terms != [] && !StrLt(Last(terms).value, value.value)) {
      return None;
    }
    r := Some(Term(value.value, start, count));
    TermFound(before, body, r.value, reader.Rest());
  }

  lemma TermExpected(t: Term, tail: seq<byte>)
    requires TermFits(t)
    ensures var r := TermBytes(t) + tail;
            && |r| >= 24 + |t.value| && FieldsOf(r[..24]) == (|t.value|, t.start, t.count)
            && r[24..][..|t.value|] == t.value && r[24..][|t.value|..] == tail
  {
    TermReads(t, tail);
  }

  lemma TermFound(before: seq<byte>, body: seq<byte>, t: Term, rest: seq<byte>)
    requires before == Fields(|t.value|, t.start, t.count) + body
    requires |t.value| <= |body| && body[..|t.value|] == t.value && body[|t.value|..] == rest
    ensures before == TermBytes(t) + rest
  {
    hide Fields;
    assert body == t.value + rest;
  }

  lemma LaidSnoc(terms: seq<Term>, offset: nat, docs: nat, postings: nat, t: Term)
    requires Laid(terms, offset, docs) && TermNext(terms, t, offset, docs, postings)
    ensures Laid(terms + [t], offset + t.count, docs)
  {
    assert Init(terms + [t]) == terms && Last(terms + [t]) == t;
  }

  lemma NoTerms(docs: nat)
    ensures Laid([], 0, docs)
  {
  }

  lemma LaidOnce(terms: seq<Term>, a: nat, b: nat, docs: nat)
    requires Laid(terms, a, docs) && Laid(terms, b, docs)
    ensures a == b
  {
  }

  ghost predicate TermsFit(terms: seq<Term>) {
    forall i :: 0 <= i < |terms| ==> TermFits(terms[i])
  }

  method ReadTerms(reader: Reader, n: nat, docs: nat, postings: nat, ghost want: Option<(seq<Term>, seq<byte>)>)
    returns (r: Option<seq<Term>>)
    requires reader.Valid() && |reader.Rest()| < SIZE_MAX
    requires want.Some? ==> |want.value.0| == n && TermsFit(want.value.0) && Laid(want.value.0, postings, docs)
                            && reader.Rest() == TermsBytes(want.value.0) + want.value.1
    modifies reader
    ensures reader.Valid()
    ensures r.Some? ==> |r.value| == n && Laid(r.value, postings, docs)
                        && old(reader.Rest()) == TermsBytes(r.value) + reader.Rest()
    ensures want.Some? ==> r == Some(want.value.0) && reader.Rest() == want.value.1
  {
    hide TermBytes, TermsBytes, Laid, TermNext, TermFits;
    ghost var before := reader.Rest();
    NothingRead();
    NoTerms(docs);
    var terms: seq<Term> := [];
    var offset: nat := 0;
    var i := 0;
    assert want.Some? ==> want.value.0[0..] == want.value.0;
    while i < n
      invariant 0 <= i <= n && |terms| == i && reader.Valid()
      invariant Laid(terms, offset, docs) && offset <= postings
      invariant before == TermsBytes(terms) + reader.Rest()
      invariant want.Some? ==> terms == want.value.0[..i]
                               && reader.Rest() == TermsBytes(want.value.0[i..]) + want.value.1
    {
      ghost var next := NextTerm(want, i, terms, offset, docs, postings);
      ghost var rest := reader.Rest();
      var t := ReadTerm(reader, terms, offset, docs, postings, next);
      if t.None? {
        return None;
      }
      TermTaken(before, terms, t.value, rest, reader.Rest());
      LaidSnoc(terms, offset, docs, postings, t.value);
      EndOfTerm(terms, t.value, offset, docs, postings);
      terms := terms + [t.value];
      offset := offset + t.value.count;
      i := i + 1;
    }
    if want.Some? {
      assert want.value.0[..n] == want.value.0 && want.value.0[n..] == [];
      LaidOnce(terms, offset, postings, docs);
    }
    if offset != postings {
      return None;
    }
    return Some(terms);
  }

  lemma TermTaken(before: seq<byte>, terms: seq<Term>, t: Term, rest: seq<byte>, left: seq<byte>)
    requires before == TermsBytes(terms) + rest && rest == TermBytes(t) + left
    ensures before == TermsBytes(terms + [t]) + left
  {
    hide TermBytes, TermsBytes;
    TermsBytesSnoc(terms, t);
  }

  lemma EndOfTerm(terms: seq<Term>, t: Term, offset: nat, docs: nat, postings: nat)
    requires TermNext(terms, t, offset, docs, postings)
    ensures offset + t.count <= postings
  {
  }

  ghost method NextTerm(want: Option<(seq<Term>, seq<byte>)>, i: nat, terms: seq<Term>, offset: nat, docs: nat,
                        postings: nat)
    returns (next: Option<(Term, seq<byte>)>)
    requires Laid(terms, offset, docs)
    requires want.Some? ==> i < |want.value.0| && TermsFit(want.value.0) && Laid(want.value.0, postings, docs)
                            && terms == want.value.0[..i]
    ensures next.Some? == want.Some?
    ensures want.Some? ==> && next.value == (want.value.0[i], TermsBytes(want.value.0[i + 1..]) + want.value.1)
                           && TermNext(terms, next.value.0, offset, docs, postings) && TermFits(next.value.0)
                           && TermsBytes(want.value.0[i..]) + want.value.1 == TermBytes(next.value.0) + next.value.1
                           && want.value.0[..i + 1] == terms + [want.value.0[i]]
  {
    hide TermFits, TermBytes, StrLt, IsToken, Laid;
    next := None;
    if want.Some? {
      var (all, tail) := want.value;
      assert all[i..][1..] == all[i + 1..];
      assert all[..i + 1] == all[..i] + [all[i]];
      LaidAt(all, postings, docs, i);
      LaidOnce(terms, offset, all[i].start, docs);
      next := Some((all[i], TermsBytes(all[i + 1..]) + tail));
    }
  }

  // ---------- postings ----------

  /** The running lengths: what the postings so far record for each document, never more than its length. */
  ghost predicate Tallied(lengths: seq<nat>, postings: seq<Posting>, documents: seq<Document>) {
    && |lengths| == |documents|
    && forall d :: 0 <= d < |lengths| ==> lengths[d] == SliceFreq(postings, d) <= documents[d].length
  }

  /** What import checks of the next posting of a term. */
  ghost predicate PostingNext(slice: seq<Posting>, p: Posting, lengths: seq<nat>, documents: seq<Document>)
    requires |lengths| == |documents|
  {
    && p.ordinal < |documents| && 0 < p.frequency <= MAX32
    && (slice != [] ==> Last(slice).ordinal < p.ordinal)
    && lengths[p.ordinal] + p.frequency <= documents[p.ordinal].length
  }

  method ReadPosting(reader: Reader, previous: Option<nat>, lengths: array<nat>, documents: seq<Document>,
                     ghost slice: seq<Posting>, ghost want: Option<(Posting, seq<byte>)>)
    returns (r: Option<Posting>)
    requires reader.Valid() && lengths.Length == |documents| <= MAX32
    requires previous == if slice == [] then None else Some(Last(slice).ordinal)
    requires want.Some? ==> PostingNext(slice, want.value.0, lengths[..], documents)
                            && reader.Rest() == PostingBytes(want.value.0) + want.value.1
    modifies reader, lengths
    ensures reader.Valid()
    ensures r.Some? ==> && PostingNext(slice, r.value, old(lengths[..]), documents)
                        && lengths[..]
                           == old(lengths[..])[r.value.ordinal := old(lengths[r.value.ordinal]) + r.value.frequency]
                        && old(reader.Rest()) == PostingBytes(r.value) + reader.Rest()
    ensures want.Some? ==> r == Some(want.value.0) && reader.Rest() == want.value.1
  {
    hide PostingBytes, FromLe;
    ghost var before := reader.Rest();
    if want.Some? {
      PostingReads(want.value.0, want.value.1);
    }
    var item := reader.Read(8);
    if item.None? {
      return None;
    }
    var b := item.value;
    var ordinal := ReadLe(b[..4]);
    var frequency := ReadLe(b[4..]);
    if ordinal >= |documents| || frequency == 0 || (previous.Some? && ordinal <= previous.value)
       || lengths[ordinal] + frequency > documents[ordinal].length {
      return None;
    }
    lengths[ordinal] := lengths[ordinal] + frequency;
    r := Some(Posting(ordinal, frequency));
    PostingFound(before, r.value, reader.Rest());
  }

  lemma PostingFound(before: seq<byte>, p: Posting, rest: seq<byte>)
    requires |before| >= 8 && FromLe(before[..8][..4]) == p.ordinal && FromLe(before[..8][4..]) == p.frequency
    requires before[8..] == rest
    ensures before == PostingBytes(p) + rest && p.frequency <= MAX32
  {
    hide Le32, FromLe;
    var b := before[..8];
    Read32Writes(b[..4]);
    Read32Writes(b[4..]);
    assert before == b[..4] + b[4..] + before[8..];
  }

  /** The postings a slice has to hold next to its dictionary and documents. */
  ghost predicate Expected(want: seq<Posting>, terms: seq<Term>, documents: seq<Document>) {
    && WellFormed(terms, want, |documents|) && FrequenciesOk(want)
    && forall d :: 0 <= d < |documents| ==> SliceFreq(want, d) == documents[d].length
  }

  lemma TalliedStep(lengths: seq<nat>, postings: seq<Posting>, documents: seq<Document>, slice: seq<Posting>,
                    p: Posting)
    requires Tallied(lengths, postings, documents) && PostingNext(slice, p, lengths, documents)
    ensures Tallied(lengths[p.ordinal := lengths[p.ordinal] + p.frequency], postings + [p], documents)
  {
    assert Init(postings + [p]) == postings && Last(postings + [p]) == p;
  }

  lemma {:induction false} SliceFreqPrefix(postings: seq<Posting>, i: nat, d: nat)
    requires i <= |postings|
    ensures SliceFreq(postings[..i], d) <= SliceFreq(postings, d)
  {
    if i < |postings| {
      assert Init(postings)[..i] == postings[..i];
      SliceFreqPrefix(Init(postings), i, d);
    } else {
      assert postings[..i] == postings;
    }
  }

  /** The posting the reader has to find next if the slice is what `want` says. */
  lemma ExpectedNext(want: seq<Posting>, terms: seq<Term>, documents: seq<Document>, i: nat, k: nat, lengths: seq<nat>)
    requires Expected(want, terms, documents) && i < |terms| && terms[i].start <= k < terms[i].start + terms[i].count
    ensures k < |want|
    ensures Tallied(lengths, want[..k], documents) ==>
              && PostingNext(want[terms[i].start..k], want[k], lengths, documents)
              && PostingsBytes(want[k..]) == PostingBytes(want[k]) + PostingsBytes(want[k + 1..])
  {
    hide PostingBytes, FrequenciesOk;
    WellFormedMeans(terms, want, |documents|);
    assert TermAt(terms, want, |documents|, i);
    InSlice(terms[i], want, |documents|, k);
    assert FrequenciesOk(want);
    FrequencyAt(want, k);
    hide WellFormed, StrLt, TermAt, Tallied, SliceOk;
    if Tallied(lengths, want[..k], documents) {
      RoomLeft(want, documents, k, lengths);
      assert want[k..][1..] == want[k + 1..];
    }
  }

  lemma FrequencyAt(postings: seq<Posting>, k: nat)
    requires FrequenciesOk(postings) && k < |postings|
    ensures postings[k].frequency <= MAX32
  {
  }

  /** A posting inside the slice of a term. */
  lemma InSlice(t: Term, postings: seq<Posting>, docs: nat, k: nat)
    requires t.start <= k < t.start + t.count <= |postings| && SliceOk(Slice(t, postings), docs)
    ensures postings[k].ordinal < docs && postings[k].frequency > 0
    ensures k > t.start ==>
            Last(postings[t.start..k]) == postings[k - 1] && postings[k - 1].ordinal < postings[k].ordinal
  {
    var all := Slice(t, postings);
    assert all[k - t.start] == postings[k];
    if k > t.start {
      assert all[k - 1 - t.start] == postings[k - 1];
    }
  }

  /** The next posting does not overrun the length of its document. */
  lemma RoomLeft(postings: seq<Posting>, documents: seq<Document>, k: nat, lengths: seq<nat>)
    requires k < |postings| && postings[k].ordinal < |documents| && Tallied(lengths, postings[..k], documents)
    requires forall d :: 0 <= d < |documents| ==> SliceFreq(postings, d) == documents[d].length
    ensures |lengths| == |documents|
    ensures lengths[postings[k].ordinal] + postings[k].frequency <= documents[postings[k].ordinal].length
  {
    hide SliceFreq;
    SliceFreqPrefix(postings, k + 1, postings[k].ordinal);
    assert postings[..k + 1] == postings[..k] + [postings[k]];
    SliceFreqSnoc(postings[..k], postings[k]);
  }

  lemma SliceFreqSnoc(postings: seq<Posting>, p: Posting)
    ensures SliceFreq(postings + [p], p.ordinal) == SliceFreq(postings, p.ordinal) + p.frequency
  {
    assert Init(postings + [p]) == postings && Last(postings + [p]) == p;
  }

  lemma SliceSnoc(slice: seq<Posting>, docs: nat, p: Posting)
    requires SliceOk(slice, docs) && p.ordinal < docs && p.frequency > 0
    requires slice != [] ==> Last(slice).ordinal < p.ordinal
    ensures SliceOk(slice + [p], docs)
  {
  }

  /** Postings read so far are a prefix of the wanted ones, and the rest is still in the slice. */
  ghost predicate OnTrack(want: Option<seq<Posting>>, postings: seq<Posting>, rest: seq<byte>) {
    want.Some? ==> postings <= want.value && rest == PostingsBytes(want.value[|postings|..])
  }

  /** The postings of one term. */
  method ReadSlice(reader: Reader, terms: seq<Term>, i: nat, documents: seq<Document>, lengths: array<nat>,
                   ghost before: seq<Posting>, ghost want: Option<seq<Posting>>)
    returns (r: Option<seq<Posting>>)
    requires reader.Valid() && |documents| <= MAX32 && i < |terms| && |before| == terms[i].start
    requires Tallied(lengths[..], before, documents) && OnTrack(want, before, reader.Rest())
    requires want.Some? ==> Expected(want.value, terms, documents)
    modifies reader, lengths
    ensures reader.Valid()
    ensures r.Some? ==> && |r.value| == terms[i].count && SliceOk(r.value, |documents|) && FrequenciesOk(r.value)
                        && Tallied(lengths[..], before + r.value, documents)
                        && old(reader.Rest()) == PostingsBytes(r.value) + reader.Rest()
                        && OnTrack(want, before + r.value, reader.Rest())
    ensures want.Some? ==> r.Some?
  {
    hide PostingBytes, PostingsBytes, Tallied, Expected, OnTrack, PostingNext, SliceOk;
    ghost var start := reader.Rest();
    NothingRead();
    NoSlice(|documents|);
    var slice: seq<Posting> := [];
    var previous: Option<nat> := None;
    var j := 0;
    assert before + [] == before;
    while j < terms[i].count
      invariant 0 <= j <= terms[i].count && |slice| == j && reader.Valid()
      invariant previous == if slice == [] then None else Some(Last(slice).ordinal)
      invariant SliceOk(slice, |documents|) && FrequenciesOk(slice)
      invariant Tallied(lengths[..], before + slice, documents)
      invariant start == PostingsBytes(slice) + reader.Rest() && OnTrack(want, before + slice, reader.Rest())
    {
      ghost var rest, tally := reader.Rest(), lengths[..];
      ghost var next := NextPosting(want, terms, documents, i, before, slice, tally, rest);
      var p := ReadPosting(reader, previous, lengths, documents, slice, next);
      if p.None? {
        return None;
      }
      PostingTaken(before, slice, p.value, tally, documents, start, rest, reader.Rest());
      StillOnTrack(want, before, slice, p.value, reader.Rest(), next);
      slice := slice + [p.value];
      previous := Some(p.value.ordinal);
      j := j + 1;
    }
    return Some(slice);
  }

  lemma NoSlice(docs: nat)
    ensures SliceOk([], docs) && FrequenciesOk([])
  {
  }

  ghost method NextPosting(want: Option<seq<Posting>>, terms: seq<Term>, documents: seq<Document>, i: nat,
                           before: seq<Posting>, slice: seq<Posting>, tally: seq<nat>, rest: seq<byte>)
    returns (next: Option<(Posting, seq<byte>)>)
    requires i < |terms| && |before| == terms[i].start && |slice| < terms[i].count
    requires Tallied(tally, before + slice, documents) && OnTrack(want, before + slice, rest)
    requires want.Some? ==> Expected(want.value, terms, documents)
    ensures |tally| == |documents| && next.Some? == want.Some?
    ensures want.Some? ==> var k := |before + slice|;
              && k < |want.value| && before + slice <= want.value
              && next.value == (want.value[k], PostingsBytes(want.value[k + 1..]))
              && PostingNext(slice, next.value.0, tally, documents)
              && rest == PostingBytes(next.value.0) + next.value.1
  {
    hide Expected, PostingBytes, PostingsBytes, PostingNext;
    next := None;
    if want.Some? {
      var all := want.value;
      var k := |before + slice|;
      assert all[..k] == before + slice && all[terms[i].start..k] == slice;
      ExpectedNext(all, terms, documents, i, k, tally);
      next := Some((all[k], PostingsBytes(all[k + 1..])));
    }
  }

  lemma StillOnTrack(want: Option<seq<Posting>>, before: seq<Posting>, slice: seq<Posting>, p: Posting, rest: seq<byte>,
                     next: Option<(Posting, seq<byte>)>)
    requires next.Some? == want.Some?
    requires want.Some? ==> var k := |before + slice|;
               && k < |want.value| && before + slice <= want.value
               && next.value == (want.value[k], PostingsBytes(want.value[k + 1..])) && next.value == (p, rest)
    ensures OnTrack(want, before + (slice + [p]), rest)
  {
  }

  lemma PostingTaken(before: seq<Posting>, slice: seq<Posting>, p: Posting, tally: seq<nat>, documents: seq<Document>,
                     start: seq<byte>, rest: seq<byte>, left: seq<byte>)
    requires Tallied(tally, before + slice, documents) && PostingNext(slice, p, tally, documents)
    requires SliceOk(slice, |documents|) && FrequenciesOk(slice)
    requires start == PostingsBytes(slice) + rest && rest == PostingBytes(p) + left
    ensures p.ordinal < |tally|
    ensures Tallied(tally[p.ordinal := tally[p.ordinal] + p.frequency], before + (slice + [p]), documents)
    ensures SliceOk(slice + [p], |documents|) && FrequenciesOk(slice + [p])
    ensures start == PostingsBytes(slice + [p]) + left
  {
    hide PostingBytes, PostingsBytes;
    PostingsBytesSnoc(slice, p);
    assert (before + slice) + [p] == before + (slice + [p]);
    TalliedStep(tally, before + slice, documents, slice, p);
    SliceSnoc(slice, |documents|, p);
  }

  /** The postings of the first `i` terms are read. */
  ghost predicate Progress(terms: seq<Term>, i: nat, postings: seq<Posting>, lengths: seq<nat>,
                           documents: seq<Document>)
    requires i <= |terms|
  {
    && Laid(terms[..i], |postings|, |documents|) && WellFormed(terms[..i], postings, |documents|)
    && FrequenciesOk(postings) && Tallied(lengths, postings, documents)
  }

  /** One round of the outer loop over the postings. */
  method ReadNextSlice(reader: Reader, terms: seq<Term>, n: nat, i: nat, documents: seq<Document>, lengths: array<nat>,
                       postings: seq<Posting>, ghost want: Option<seq<Posting>>)
    returns (r: Option<seq<Posting>>)
    requires reader.Valid() && |documents| <= MAX32 && i < |terms| && Laid(terms, n, |documents|)
    requires Progress(terms, i, postings, lengths[..], documents) && OnTrack(want, postings, reader.Rest())
    requires want.Some? ==> Expected(want.value, terms, documents)
    modifies reader, lengths
    ensures reader.Valid()
    ensures r.Some? ==>
            && Progress(terms, i + 1, r.value, lengths[..], documents) && OnTrack(want, r.value, reader.Rest())
                        && postings <= r.value
                        && PostingsBytes(postings) + old(reader.Rest()) == PostingsBytes(r.value) + reader.Rest()
    ensures want.Some? ==> r.Some?
  {
    hide PostingsBytes, Tallied, Expected, OnTrack, SliceOk, Laid, WellFormed, IsToken, StrLt;
    LaidAt(terms, n, |documents|, i);
    LaidOnce(terms[..i], |postings|, terms[i].start, |documents|);
    ghost var rest := reader.Rest();
    var slice := ReadSlice(reader, terms, i, documents, lengths, postings, want);
    if slice.None? {
      return None;
    }
    SliceDone(terms, i, postings, slice.value, |documents|);
    PostingsBytesSplit(postings, slice.value);
    assert PostingsBytes(postings) + (PostingsBytes(slice.value) + reader.Rest())
        == PostingsBytes(postings) + PostingsBytes(slice.value) + reader.Rest();
    return Some(postings + slice.value);
  }

  /** All postings, term after term, and the comparison of the running lengths with the documents. */
  method ReadPostings(reader: Reader, terms: seq<Term>, n: nat, documents: seq<Document>,
                      ghost want: Option<seq<Posting>>)
    returns (r: Option<seq<Posting>>)
    requires reader.Valid() && |documents| <= MAX32 && Laid(terms, n, |documents|)
    requires want.Some? ==> Expected(want.value, terms, documents) && reader.Rest() == PostingsBytes(want.value)
    modifies reader
    ensures reader.Valid()
    ensures r.Some? ==> && |r.value| == n && Expected(r.value, terms, documents)
                        && old(reader.Rest()) == PostingsBytes(r.value)
    ensures want.Some? ==> r == want
  {
    hide PostingsBytes, Expected, OnTrack, Laid, Progress;
    ghost var start := reader.Rest();
    var lengths := new nat[|documents|](_ => 0);
    StartPostings(want, start, terms, lengths[..], documents);
    var postings: seq<Posting> := [];
    var i := 0;
    while i < |terms|
      invariant 0 <= i <= |terms| && reader.Valid()
      invariant Progress(terms, i, postings, lengths[..], documents)
      invariant start == PostingsBytes(postings) + reader.Rest() && OnTrack(want, postings, reader.Rest())
    {
      var longer := ReadNextSlice(reader, terms, n, i, documents, lengths, postings, want);
      if longer.None? {
        return None;
      }
      postings := longer.value;
      i := i + 1;
    }
    EndOfPostings(want, postings, reader.Rest(), terms, n, lengths[..], documents);
    if reader.Remaining() != 0 {
      return None;
    }
    var same := SameLengths(lengths, postings, terms, documents);
    return if same then Some(postings) else None;
  }

  lemma StartPostings(want: Option<seq<Posting>>, start: seq<byte>, terms: seq<Term>, lengths: seq<nat>,
                      documents: seq<Document>)
    requires want.Some? ==> start == PostingsBytes(want.value)
    requires |lengths| == |documents| && forall d :: 0 <= d < |lengths| ==> lengths[d] == 0
    ensures OnTrack(want, [], start) && PostingsBytes([]) == [] && Progress(terms, 0, [], lengths, documents)
  {
    assert want.Some? ==> want.value[0..] == want.value;
    assert terms[..0] == [];
  }

  lemma SliceDone(terms: seq<Term>, i: nat, postings: seq<Posting>, slice: seq<Posting>, docs: nat)
    requires i < |terms| && WellFormed(terms[..i], postings, docs) && SliceOk(slice, docs)
    requires terms[i].start == |postings| && terms[i].count == |slice| > 0
    requires i > 0 ==> StrLt(terms[i - 1].value, terms[i].value)
    ensures WellFormed(terms[..i + 1], postings + slice, docs)
  {
    hide StrLt, SliceOk;
    var after := terms[..i + 1];
    assert Init(after) == terms[..i] && Last(after) == terms[i];
    assert (postings + slice)[..|postings|] == postings && (postings + slice)[|postings|..] == slice;
  }

  lemma {:induction false} PostingsBytesSplit(a: seq<Posting>, b: seq<Posting>)
    ensures PostingsBytes(a + b) == PostingsBytes(a) + PostingsBytes(b)
  {
    if a == [] {
      assert a + b == b;
    } else {
      assert (a + b)[1..] == a[1..] + b;
      PostingsBytesSplit(a[1..], b);
    }
  }

  lemma EndOfPostings(want: Option<seq<Posting>>, postings: seq<Posting>, rest: seq<byte>, terms: seq<Term>, n: nat,
                      lengths: seq<nat>, documents: seq<Document>)
    requires Progress(terms, |terms|, postings, lengths, documents) && OnTrack(want, postings, rest)
    requires Laid(terms, n, |documents|)
    requires want.Some? ==> Expected(want.value, terms, documents)
    ensures |postings| == n && Tallied(lengths, postings, documents)
    ensures WellFormed(terms, postings, |documents|) && FrequenciesOk(postings)
    ensures want.Some? ==> postings == want.value && rest == []
  {
    hide Laid, Tallied, FrequenciesOk;
    assert terms[..|terms|] == terms;
    LaidOnce(terms, |postings|, n, |documents|);
    if want.Some? {
      WellFormedLength(terms, postings, want.value, |documents|);
      hide WellFormed;
      assert postings == want.value;
    }
  }

  lemma WellFormedLength(terms: seq<Term>, a: seq<Posting>, b: seq<Posting>, docs: nat)
    requires WellFormed(terms, a, docs) && WellFormed(terms, b, docs)
    ensures |a| == |b|
  {
  }

  /** The running lengths have reached the lengths of the documents. */
  method SameLengths(lengths: array<nat>, ghost postings: seq<Posting>, ghost terms: seq<Term>,
                     documents: seq<Document>)
    returns (same: bool)
    requires Tallied(lengths[..], postings, documents) && WellFormed(terms, postings, |documents|)
             && FrequenciesOk(postings)
    ensures same <==> Expected(postings, terms, documents)
  {
    hide WellFormed, FrequenciesOk, SliceFreq;
    var d := 0;
    while d < |documents|
      invariant 0 <= d <= |documents| && forall k :: 0 <= k < d ==> lengths[k] == documents[k].length
    {
      assert lengths[d] == lengths[..][d];
      if lengths[d] != documents[d].length {
        return false;
      }
      d := d + 1;
    }
    assert forall k :: 0 <= k < d ==> lengths[..][k] == lengths[k];
    return true;
  }

  // ---------- the whole file ----------

  /** What import reads before it installs anything. */
  method Parse(data: seq<byte>, ghost want: Option<Snapshot>) returns (r: Option<Snapshot>)
    requires |data| <= SIZE_MAX
    requires want.Some? ==> Storable(want.value) && Serialize(want.value) == data
    ensures r.Some? ==> Storable(r.value) && Serialize(r.value) == data
    ensures want.Some? ==> r == want
  {
    hide Storable, HeadBytes, HeadOk, DocumentsBytes, TermsBytes, PostingsBytes, Expected, Laid, DocumentsFit, TermsFit,
         DocumentOk;
    var reader := new Reader(data);
    var head := ReadHead(reader, want);
    if head.None? {
      return None;
    }
    var h := head.value;
    HeadRemaining(h, reader.Remaining());
    ghost var rest := reader.Rest();
    ghost var w := Parts(want, h, rest);
    var documents := ReadDocuments(reader, h.documents, h.total, w.0);
    if documents.None? {
      return None;
    }
    var terms := ReadTerms(reader, h.terms, h.documents, h.postings, w.1);
    if terms.None? {
      return None;
    }
    var postings := ReadPostings(reader, terms.value, h.postings, documents.value, w.2);
    if postings.None? {
      return None;
    }
    var found := Snapshot(h.accents, documents.value, terms.value, postings.value, h.total);
    Found(found, data);
    return Some(found);
  }

  lemma HeadRemaining(h: Head, remaining: nat)
    requires HeadOk(h, remaining)
    ensures h.documents <= MAX32
  {
  }

  /** The three sections of the wanted file. */
  ghost method Parts(want: Option<Snapshot>, h: Head, rest: seq<byte>)
    returns (w: (Option<(seq<Document>, seq<byte>)>, Option<(seq<Term>, seq<byte>)>, Option<seq<Posting>>))
    requires want.Some? ==>
             Storable(want.value) && h == HeadOf(want.value) && HeadBytes(h) + rest == Serialize(want.value)
    ensures w.0.Some? == w.1.Some? == w.2.Some? == want.Some?
    ensures want.Some? ==>
      && w.0.value == (want.value.documents, TermsBytes(want.value.terms) + PostingsBytes(want.value.postings))
      && w.1.value == (want.value.terms, PostingsBytes(want.value.postings)) && w.2.value == want.value.postings
      && |want.value.documents| == h.documents && |want.value.terms| == h.terms
      && DocumentsFit(want.value.documents) && LengthSum(want.value.documents) == h.total
      && TermsFit(want.value.terms) && Laid(want.value.terms, h.postings, h.documents)
      && Expected(want.value.postings, want.value.terms, want.value.documents)
      && rest == DocumentsBytes(want.value.documents)
         + (TermsBytes(want.value.terms) + PostingsBytes(want.value.postings))
  {
    hide DocumentOk, DocumentFits, TermFits, PostingFits, WellFormed, Laid, IsToken, DocumentsBytes, TermsBytes,
         PostingsBytes;
    w := (None, None, None);
    if want.Some? {
      var s := want.value;
      RecordsFit(s);
      WellFormedIsLaid(s.terms, s.postings, |s.documents|);
      assert Serialize(s)[HEADER..] == rest;
      w := (Some((s.documents, TermsBytes(s.terms) + PostingsBytes(s.postings))),
            Some((s.terms, PostingsBytes(s.postings))), Some(s.postings));
    }
  }

  lemma {:induction false} LaidTerms(terms: seq<Term>, offset: nat, docs: nat)
    requires Laid(terms, offset, docs)
    ensures TermsOk(terms)
  {
    hide IsToken;
    forall i | 0 <= i < |terms|
      ensures IsToken(terms[i].value)
    {
      LaidAt(terms, offset, docs, i);
    }
  }

  lemma Found(s: Snapshot, data: seq<byte>)
    requires |data| <= SIZE_MAX && |s.documents| <= MAX32
    requires forall d :: 0 <= d < |s.documents| ==> DocumentOk(s.documents[d])
    requires LengthSum(s.documents) == s.total && Laid(s.terms, |s.postings|, |s.documents|)
    requires Expected(s.postings, s.terms, s.documents)
    requires data
             == HeadBytes(HeadOf(s)) + (DocumentsBytes(s.documents) + (TermsBytes(s.terms) + PostingsBytes(s.postings)))
    ensures Storable(s) && Serialize(s) == data
  {
    hide DocumentOk, WellFormed, SliceFreq, DocumentsBytes, TermsBytes, PostingsBytes;
    LaidTerms(s.terms, |s.postings|, |s.documents|);
  }

  /**
   * kc_bm25_import accepts exactly the byte strings some storable index serializes to, and builds
   * that index, read-only.
   */
  method Import(tab: Tables, data: seq<byte>) returns (status: Status, index: Index?)
    requires tab.Valid() && |data| <= SIZE_MAX
    ensures status == if exists s :: Storable(s) && Serialize(s) == data then Ok else EFormat
    ensures status == Ok <==> index != null
    ensures index != null ==> && fresh(index) && index.Valid() && index.tab == tab && index.built && index.readOnly
                              && Storable(SnapshotOf(index)) && Serialize(SnapshotOf(index)) == data
    ensures index != null ==>
              forall i, j :: 0 <= i < j < |index.terms| ==> Precedes(index.terms[i].value, index.terms[j].value)
  {
    hide Serialize, DocumentOk, WellFormed, Consistent;
    ghost var want: Option<Snapshot> := None;
    if exists s :: Storable(s) && Serialize(s) == data {
      var s :| Storable(s) && Serialize(s) == data;
      want := Some(s);
    }
    var found := Parse(data, want);
    if found.None? {
      return EFormat, null;
    }
    var s := found.value;
    status, index := Index.Open(tab, Some(if s.accents then 1 else 0));
    index.documents, index.terms, index.postings := s.documents, s.terms, s.postings;
    index.totalTokens, index.built, index.readOnly := s.total, true, true;
    ConsistentAscends(s.documents, s.terms, s.postings, s.total);
  }

  // ---------- round trips ----------

  /** import(export(ix)) is ix, read-only. */
  method ImportOfExport(index: Index) returns (copy: Index?)
    requires index.Valid() && index.built && |Serialize(SnapshotOf(index))| <= SIZE_MAX
    ensures copy != null && copy.Valid() && copy.tab == index.tab && copy.built && copy.readOnly
    ensures SnapshotOf(copy) == SnapshotOf(index)
    ensures copy.foldAccents == index.foldAccents && copy.documents == index.documents && copy.terms == index.terms
    ensures copy.postings == index.postings && copy.totalTokens == index.totalTokens
  {
    hide Serialize;
    var status, data := Export(index);
    assert Storable(SnapshotOf(index));
    status, copy := Import(index.tab, data);
    SerializeInjective(SnapshotOf(index), SnapshotOf(copy));
  }

  /** export(import(b)) is b for every file import accepts. */
  method ExportOfImport(tab: Tables, data: seq<byte>) returns (accepted: bool, again: seq<byte>)
    requires tab.Valid() && |data| <= SIZE_MAX
    ensures accepted <==> exists s :: Storable(s) && Serialize(s) == data
    ensures accepted ==> again == data
  {
    hide Serialize, Storable;
    again := [];
    var status, index := Import(tab, data);
    accepted := status == Ok;
    if accepted {
      status, again := Export(index);
    }
  }
}
