/** kc_bm25_export: a bounds-checked writer fills a buffer of precomputed size. */
module Exporting {
  import opened Prelude
  import opened Binary
  import opened Ordering
  import opened Postings
  import opened Bm25
  import opened Format

  /** kc_bm25_writer_t: `cursor` octets of the buffer are written. */
  class Writer {
    const buffer: array<byte>
    var cursor: nat

    ghost predicate Valid()
      reads this
    {
      cursor <= buffer.Length
    }

    ghost function Written(): seq<byte>
      requires Valid()
      reads this, buffer
    {
      buffer[..cursor]
    }

    constructor (buffer: array<byte>)
      ensures Valid() && this.buffer == buffer && Written() == []
    {
      this.buffer, cursor := buffer, 0;
    }

    /** kc_bm25_memwrite */
    method Write(data: seq<byte>) returns (ok: bool)
      requires Valid()
      modifies this, buffer
      ensures Valid()
      ensures ok <==> old(cursor) + |data| <= buffer.Length
      ensures Written() == if ok then old(Written()) + data else old(Written())
    {
      if |data| > buffer.Length - cursor {
        return false;
      }
      forall i | 0 <= i < |data| {
        buffer[cursor + i] := data[i];
      }
      cursor := cursor + |data|;
      ok := true;
    }
  }

  /** kc_bm25_size_add: None when the sum leaves `size_t`. */
  method AddSize(total: Option<nat>, extra: nat) returns (r: Option<nat>)
    requires total.Some? ==> total.value <= SIZE_MAX
    ensures r == Bounded(total, extra)
  {
    if total.None? || extra > SIZE_MAX - total.value {
      return None;
    }
    return Some(total.value + extra);
  }

  function Bounded(total: Option<nat>, extra: nat): Option<nat> {
    if total.Some? && total.value + extra <= SIZE_MAX then Some(total.value + extra) else None
  }

  method MeasureDocuments(start: nat, documents: seq<Document>) returns (size: Option<nat>)
    requires start <= SIZE_MAX
    ensures size == Bounded(Some(start), |DocumentsBytes(documents)|)
  {
    hide DocumentBytes, DocumentsBytes;
    size := Some(start);
    var i := 0;
    NothingToWrite();
    assert documents[..0] == [];
    while i < |documents|
      invariant 0 <= i <= |documents|
      invariant size == Bounded(Some(start), |DocumentsBytes(documents[..i])|)
    {
      var d := documents[i];
      size := AddSize(size, 24);
      size := AddSize(size, |d.id|);
      size := AddSize(size, |d.content|);
      assert documents[..i + 1] == documents[..i] + [d];
      DocumentsBytesSnoc(documents[..i], d);
      i := i + 1;
    }
    assert documents[..i] == documents;
  }

  method MeasureTerms(start: nat, terms: seq<Term>) returns (size: Option<nat>)
    requires start <= SIZE_MAX
    ensures size == Bounded(Some(start), |TermsBytes(terms)|)
  {
    hide TermBytes, TermsBytes;
    size := Some(start);
    var i := 0;
    NothingToWrite();
    assert terms[..0] == [];
    while i < |terms|
      invariant 0 <= i <= |terms|
      invariant size == Bounded(Some(start), |TermsBytes(terms[..i])|)
    {
      size := AddSize(size, 24);
      size := AddSize(size, |terms[i].value|);
      assert terms[..i + 1] == terms[..i] + [terms[i]];
      TermsBytesSnoc(terms[..i], terms[i]);
      i := i + 1;
    }
    assert terms[..i] == terms;
  }

  lemma NothingToWrite()
    ensures DocumentsBytes([]) == [] && TermsBytes([]) == [] && PostingsBytes([]) == []
  {
  }

  /** The exact size of the export, None when it leaves `size_t`. */
  method Measure(s: Snapshot) returns (size: Option<nat>)
    ensures size == if |Serialize(s)| <= SIZE_MAX then Some(|Serialize(s)|) else None
  {
    hide DocumentsBytes, TermsBytes, PostingsBytes, Header;
    size := MeasureDocuments(HEADER, s.documents);
    if size.None? {
      return;
    }
    size := MeasureTerms(size.value, s.terms);
    if size.None? {
      return;
    }
    if |s.postings| > (SIZE_MAX - size.value) / 8 {
      return None;
    }
    return Some(size.value + |s.postings| * 8);
  }

  // ---------- writing ----------

  method WriteFields(w: Writer, a: nat, b: nat, c: nat) returns (ok: bool)
    requires w.Valid()
    modifies w, w.buffer
    ensures w.Valid()
    ensures ok <==> old(w.cursor) + 24 <= w.buffer.Length
    ensures ok ==> w.Written() == old(w.Written()) + Fields(a, b, c)
  {
    var x := WriteLe(a, 8);
    var y := WriteLe(b, 8);
    var z := WriteLe(c, 8);
    ok := w.Write(x + y + z);
  }

  method WriteDocument(w: Writer, d: Document) returns (ok: bool)
    requires w.Valid()
    modifies w, w.buffer
    ensures w.Valid()
    ensures ok <==> old(w.cursor) + |DocumentBytes(d)| <= w.buffer.Length
    ensures ok ==> w.Written() == old(w.Written()) + DocumentBytes(d)
  {
    hide Fields;
    ghost var before := w.Written();
    ok := WriteFields(w, |d.id|, |d.content|, d.length);
    if ok {
      ok := w.Write(d.id);
    }
    if ok {
      ok := w.Write(d.content);
    }
    assert before + Fields(|d.id|, |d.content|, d.length) + d.id + d.content == before + DocumentBytes(d);
  }

  method WriteTerm(w: Writer, t: Term) returns (ok: bool)
    requires w.Valid()
    modifies w, w.buffer
    ensures w.Valid()
    ensures ok <==> old(w.cursor) + |TermBytes(t)| <= w.buffer.Length
    ensures ok ==> w.Written() == old(w.Written()) + TermBytes(t)
  {
    hide Fields;
    ghost var before := w.Written();
    ok := WriteFields(w, |t.value|, t.start, t.count);
    if ok {
      ok := w.Write(t.value);
    }
    assert before + Fields(|t.value|, t.start, t.count) + t.value == before + TermBytes(t);
  }

  method WritePosting(w: Writer, p: Posting) returns (ok: bool)
    requires w.Valid()
    modifies w, w.buffer
    ensures w.Valid()
    ensures ok <==> old(w.cursor) + |PostingBytes(p)| <= w.buffer.Length
    ensures ok ==> w.Written() == old(w.Written()) + PostingBytes(p)
  {
    var x := WriteLe(p.ordinal, 4);
    var y := WriteLe(p.frequency, 4);
    ok := w.Write(x + y);
  }

  method WriteDocuments(w: Writer, documents: seq<Document>) returns (ok: bool)
    requires w.Valid()
    modifies w, w.buffer
    ensures w.Valid()
    ensures ok ==> w.Written() == old(w.Written()) + DocumentsBytes(documents)
    ensures old(w.cursor) + |DocumentsBytes(documents)| <= w.buffer.Length ==> ok
  {
    hide DocumentBytes, DocumentsBytes;
    ghost var before, all := w.Written(), DocumentsBytes(documents);
    NothingToWrite();
    assert documents[..0] == [];
    ok := true;
    var i := 0;
    while ok && i < |documents|
      invariant 0 <= i <= |documents| && w.Valid()
      invariant ok ==> w.Written() == before + DocumentsBytes(documents[..i])
      invariant |before| + |all| <= w.buffer.Length ==> ok
    {
      DocumentsBytesSnoc(documents[..i], documents[i]);
      assert documents[..i + 1] == documents[..i] + [documents[i]];
      DocumentsBytesPrefix(documents, i + 1);
      ok := WriteDocument(w, documents[i]);
      i := i + 1;
    }
    assert documents[..|documents|] == documents;
  }

  lemma {:induction false} DocumentsBytesPrefix(documents: seq<Document>, i: nat)
    requires i <= |documents|
    ensures |DocumentsBytes(documents[..i])| <= |DocumentsBytes(documents)|
  {
    if i > 0 {
      assert documents[..i][1..] == documents[1..][..i - 1];
      DocumentsBytesPrefix(documents[1..], i - 1);
    }
  }

  method WriteTerms(w: Writer, terms: seq<Term>) returns (ok: bool)
    requires w.Valid()
    modifies w, w.buffer
    ensures w.Valid()
    ensures ok ==> w.Written() == old(w.Written()) + TermsBytes(terms)
    ensures old(w.cursor) + |TermsBytes(terms)| <= w.buffer.Length ==> ok
  {
    hide TermBytes, TermsBytes;
    ghost var before, all := w.Written(), TermsBytes(terms);
    NothingToWrite();
    assert terms[..0] == [];
    ok := true;
    var i := 0;
    while ok && i < |terms|
      invariant 0 <= i <= |terms| && w.Valid()
      invariant ok ==> w.Written() == before + TermsBytes(terms[..i])
      invariant |before| + |all| <= w.buffer.Length ==> ok
    {
      TermsBytesSnoc(terms[..i], terms[i]);
      assert terms[..i + 1] == terms[..i] + [terms[i]];
      TermsBytesPrefix(terms, i + 1);
      ok := WriteTerm(w, terms[i]);
      i := i + 1;
    }
    assert terms[..|terms|] == terms;
  }

  lemma {:induction false} TermsBytesPrefix(terms: seq<Term>, i: nat)
    requires i <= |terms|
    ensures |TermsBytes(terms[..i])| <= |TermsBytes(terms)|
  {
    if i > 0 {
      assert terms[..i][1..] == terms[1..][..i - 1];
      TermsBytesPrefix(terms[1..], i - 1);
    }
  }

  method WritePostings(w: Writer, postings: seq<Posting>) returns (ok: bool)
    requires w.Valid()
    modifies w, w.buffer
    ensures w.Valid()
    ensures ok ==> w.Written() == old(w.Written()) + PostingsBytes(postings)
    ensures old(w.cursor) + |PostingsBytes(postings)| <= w.buffer.Length ==> ok
  {
    hide PostingBytes, PostingsBytes;
    ghost var before := w.Written();
    NothingToWrite();
    assert postings[..0] == [];
    ok := true;
    var i := 0;
    while ok && i < |postings|
      invariant 0 <= i <= |postings| && w.Valid()
      invariant ok ==> w.Written() == before + PostingsBytes(postings[..i])
      invariant |before| + 8 * |postings| <= w.buffer.Length ==> ok
    {
      PostingsBytesSnoc(postings[..i], postings[i]);
      assert postings[..i + 1] == postings[..i] + [postings[i]];
      ok := WritePosting(w, postings[i]);
      i := i + 1;
    }
    assert postings[..|postings|] == postings;
  }

  method WriteHeader(w: Writer, s: Snapshot) returns (ok: bool)
    requires w.Valid()
    modifies w, w.buffer
    ensures w.Valid()
    ensures ok <==> old(w.cursor) + HEADER <= w.buffer.Length
    ensures ok ==> w.Written() == old(w.Written()) + Header(s)
  {
    var accents := WriteLe(if s.accents then 1 else 0, 4);
    var documents := WriteLe(|s.documents|, 8);
    var terms := WriteLe(|s.terms|, 8);
    var postings := WriteLe(|s.postings|, 8);
    var total := WriteLe(s.total, 8);
    ok := w.Write(MAGIC + accents + documents + terms + postings + total);
  }

  /** What an index would have export write. */
  ghost function SnapshotOf(index: Index): Snapshot
    reads index
  {
    Snapshot(index.foldAccents, index.documents, index.terms, index.postings, index.totalTokens)
  }

  /** All records in file order; exactly a buffer of the right size is filled to its end. */
  method WriteAll(w: Writer, s: Snapshot) returns (ok: bool)
    requires w.Valid() && w.cursor == 0
    modifies w, w.buffer
    ensures w.Valid()
    ensures ok ==> w.Written() == Serialize(s)
    ensures w.buffer.Length >= |Serialize(s)| ==> ok
  {
    hide Header, DocumentsBytes, TermsBytes, PostingsBytes;
    ok := WriteHeader(w, s);
    if ok {
      ok := WriteDocuments(w, s.documents);
    }
    if ok {
      ok := WriteTerms(w, s.terms);
    }
    if ok {
      ok := WritePostings(w, s.postings);
    }
    assert Serialize(s) == Header(s) + DocumentsBytes(s.documents) + TermsBytes(s.terms) + PostingsBytes(s.postings);
  }

  /** kc_bm25_export */
  method Export(index: Index) returns (status: Status, out: seq<byte>)
    requires index.Valid()
    ensures status == if !index.built then EState
                      else if |Serialize(SnapshotOf(index))| > SIZE_MAX then ENoMem
                      else Ok
    ensures out == if status == Ok then Serialize(SnapshotOf(index)) else []
    ensures status == Ok ==>
              forall i, j :: 0 <= i < j < |index.terms| ==> Precedes(index.terms[i].value, index.terms[j].value)
  {
    hide Serialize, Header, Consistent, Truthful, DocumentsOk;
    if !index.built {
      return EState, [];
    }
    var s := Snapshot(index.foldAccents, index.documents, index.terms, index.postings, index.totalTokens);
    var size := Measure(s);
    if size.None? {
      return ENoMem, [];
    }
    var buffer := new byte[size.value];
    var w := new Writer(buffer);
    var ok := WriteAll(w, s);
    if !ok || w.buffer.Length - w.cursor != 0 {
      return EFormat, [];
    }
    ConsistentAscends(index.documents, index.terms, index.postings, index.totalTokens);
    return Ok, buffer[..];
  }
}
