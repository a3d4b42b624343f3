/** The binary index format of libbm25.c as a function of the index, and why it can be read back. */
module Format {
  import opened Prelude
  import opened Binary
  import opened Utf8
  import opened Ordering
  import opened Analyzer
  import opened Postings
  import opened Bm25

  const HEADER := 44
  /** "KCBM25" and two NULs. */
  const MAGIC: seq<byte> := [75, 67, 66, 77, 50, 53, 0, 0]

  /** Everything an index file records. */
  datatype Snapshot = Snapshot(accents: bool, documents: seq<Document>, terms: seq<Term>, postings: seq<Posting>,
                               total: nat)

  function Le32(v: nat): (r: seq<byte>)
    ensures |r| == 4
  {
    Le(v, 4)
  }

  function Le64(v: nat): (r: seq<byte>)
    ensures |r| == 8
  {
    Le(v, 8)
  }

  /** Magic, accent option, and the sizes of what follows. */
  function HeaderOf(accents: bool, documents: nat, terms: nat, postings: nat, total: nat): (r: seq<byte>)
    ensures |r| == HEADER
  {
    MAGIC + Le32(if accents then 1 else 0) + Le64(documents) + Le64(terms) + Le64(postings) + Le64(total)
  }

  function Header(s: Snapshot): (r: seq<byte>)
    ensures |r| == HEADER
  {
    HeaderOf(s.accents, |s.documents|, |s.terms|, |s.postings|, s.total)
  }

  /** Three 64-bit fields that precede the strings of a record. */
  function Fields(a: nat, b: nat, c: nat): (r: seq<byte>)
    ensures |r| == 24
  {
    Le64(a) + Le64(b) + Le64(c)
  }

  function DocumentBytes(d: Document): (r: seq<byte>)
    ensures |r| == 24 + |d.id| + |d.content|
  {
    Fields(|d.id|, |d.content|, d.length) + d.id + d.content
  }

  function TermBytes(t: Term): (r: seq<byte>)
    ensures |r| == 24 + |t.value|
  {
    Fields(|t.value|, t.start, t.count) + t.value
  }

  function PostingBytes(p: Posting): (r: seq<byte>)
    ensures |r| == 8
  {
    Le32(p.ordinal) + Le32(p.frequency)
  }

  function DocumentsBytes(documents: seq<Document>): (r: seq<byte>)
    ensures |r| >= 24 * |documents|
  {
    if documents == [] then [] else DocumentBytes(documents[0]) + DocumentsBytes(documents[1..])
  }

  function TermsBytes(terms: seq<Term>): (r: seq<byte>)
    ensures |r| >= 24 * |terms|
  {
    if terms == [] then [] else TermBytes(terms[0]) + TermsBytes(terms[1..])
  }

  function PostingsBytes(postings: seq<Posting>): (r: seq<byte>)
    ensures |r| == 8 * |postings|
  {
    if postings == [] then [] else PostingBytes(postings[0]) + PostingsBytes(postings[1..])
  }

  /** The bytes kc_bm25_export writes. */
  function Serialize(s: Snapshot): seq<byte> {
    Header(s) + (DocumentsBytes(s.documents) + (TermsBytes(s.terms) + PostingsBytes(s.postings)))
  }

  lemma {:induction false} DocumentsBytesSnoc(documents: seq<Document>, d: Document)
    ensures DocumentsBytes(documents + [d]) == DocumentsBytes(documents) + DocumentBytes(d)
  {
    if documents == [] {
      assert [d][1..] == [];
    } else {
      assert (documents + [d])[1..] == documents[1..] + [d];
      DocumentsBytesSnoc(documents[1..], d);
    }
  }

  lemma {:induction false} TermsBytesSnoc(terms: seq<Term>, t: Term)
    ensures TermsBytes(terms + [t]) == TermsBytes(terms) + TermBytes(t)
  {
    if terms == [] {
      assert [t][1..] == [];
    } else {
      assert (terms + [t])[1..] == terms[1..] + [t];
      TermsBytesSnoc(terms[1..], t);
    }
  }

  lemma {:induction false} PostingsBytesSnoc(postings: seq<Posting>, p: Posting)
    ensures PostingsBytes(postings + [p]) == PostingsBytes(postings) + PostingBytes(p)
  {
    if postings == [] {
      assert [p][1..] == [];
    } else {
      assert (postings + [p])[1..] == postings[1..] + [p];
      PostingsBytesSnoc(postings[1..], p);
    }
  }

  // ---------- reading fields back ----------

  lemma Le32Reads(v: nat)
    requires v <= MAX32
    ensures FromLe(Le32(v)) == v
  {
    MachineWords();
    FromLeOfLe(v, 4);
  }

  lemma Le64Reads(v: nat)
    requires v <= SIZE_MAX
    ensures FromLe(Le64(v)) == v
  {
    MachineWords();
    FromLeOfLe(v, 8);
  }

  lemma Read32Writes(b: seq<byte>)
    requires |b| == 4
    ensures Le32(FromLe(b)) == b && FromLe(b) <= MAX32
  {
    MachineWords();
    LeOfFromLe(b);
  }

  lemma Read64Writes(b: seq<byte>)
    requires |b| == 8
    ensures Le64(FromLe(b)) == b && FromLe(b) <= SIZE_MAX
  {
    MachineWords();
    LeOfFromLe(b);
  }

  /** The three fields at the head of a record. */
  function FieldsOf(b: seq<byte>): (nat, nat, nat)
    requires |b| == 24
  {
    (FromLe(b[..8]), FromLe(b[8..16]), FromLe(b[16..]))
  }

  lemma FieldsRead(a: nat, b: nat, c: nat)
    requires a <= SIZE_MAX && b <= SIZE_MAX && c <= SIZE_MAX
    ensures FieldsOf(Fields(a, b, c)) == (a, b, c)
  {
    hide Le64, FromLe;
    Le64Reads(a);
    Le64Reads(b);
    Le64Reads(c);
    var r := Fields(a, b, c);
    assert r[..8] == Le64(a) && r[8..16] == Le64(b) && r[16..] == Le64(c);
  }

  lemma FieldsWrite(r: seq<byte>)
    requires |r| == 24
    ensures var f := FieldsOf(r); Fields(f.0, f.1, f.2) == r && f.0 <= SIZE_MAX && f.1 <= SIZE_MAX && f.2 <= SIZE_MAX
  {
    hide Le64, FromLe;
    Read64Writes(r[..8]);
    Read64Writes(r[8..16]);
    Read64Writes(r[16..]);
    assert r == r[..8] + r[8..16] + r[16..];
  }

  // ---------- what can be stored ----------

  /** A snapshot import accepts: well-formed documents and a consistent dictionary, within the address space. */
  ghost predicate Storable(s: Snapshot) {
    && DocumentsOk(s.documents)
    && Consistent(s.documents, s.terms, s.postings, s.total)
    && |Serialize(s)| <= SIZE_MAX
  }

  lemma {:induction false} LengthSumBound(documents: seq<Document>)
    requires forall d :: 0 <= d < |documents| ==> documents[d].length <= MAX32
    ensures LengthSum(documents) <= MAX32 * |documents|
  {
    if documents != [] {
      LengthSumBound(Init(documents));
    }
  }

  lemma {:induction false} SliceBound(slice: seq<Posting>, docs: nat)
    requires SliceOk(slice, docs)
    ensures |slice| <= docs
    ensures slice != [] ==> |slice| <= Last(slice).ordinal + 1
  {
    if |slice| > 1 {
      SliceBound(Init(slice), docs);
      assert Last(Init(slice)) == slice[|slice| - 2] && Last(slice) == slice[|slice| - 1];
    } else if |slice| == 1 {
      assert Last(slice) == slice[0];
    }
  }

  /** The dictionary import checks before it sees a posting: adjacent nonempty slices up to `offset`. */
  ghost predicate Laid(terms: seq<Term>, offset: nat, docs: nat) {
    if terms == [] then offset == 0
    else
      var t, before := Last(terms), Init(terms);
      && t.start + t.count == offset && 0 < t.count <= docs && IsToken(t.value)
      && (before != [] ==> StrLt(Last(before).value, t.value))
      && Laid(before, t.start, docs)
  }

  lemma {:induction false} WellFormedIsLaid(terms: seq<Term>, postings: seq<Posting>, docs: nat)
    requires WellFormed(terms, postings, docs) && TermsOk(terms)
    ensures Laid(terms, |postings|, docs) && |terms| <= |postings|
  {
    hide IsToken, StrLt;
    if terms != [] {
      var t := Last(terms);
      WellFormedIsLaid(Init(terms), postings[..t.start], docs);
      SliceBound(postings[t.start..], docs);
    }
  }

  /** Term `i` of a dictionary and the terms before it. */
  lemma {:induction false} LaidAt(terms: seq<Term>, offset: nat, docs: nat, i: nat)
    requires Laid(terms, offset, docs) && i < |terms|
    ensures var t := terms[i];
            && t.start + t.count <= offset && 0 < t.count <= docs && IsToken(t.value)
            && (i > 0 ==> StrLt(terms[i - 1].value, t.value))
            && Laid(terms[..i], t.start, docs) && Laid(terms[..i + 1], t.start + t.count, docs)
  {
    var before := Init(terms);
    if i < |terms| - 1 {
      LaidAt(before, Last(terms).start, docs, i);
      assert before[..i] == terms[..i] && before[..i + 1] == terms[..i + 1];
    } else {
      assert terms[..i] == before && terms[..i + 1] == terms;
    }
  }

  /** Every field fits its width, and the counts in the header pass the checks made on them. */
  lemma FieldsFit(s: Snapshot)
    requires Storable(s)
    ensures |s.documents| <= MAX32 && s.total <= SIZE_MAX
    ensures |s.terms| <= |s.postings|
    ensures HEADER + 24 * |s.documents| + 24 * |s.terms| + 8 * |s.postings| <= |Serialize(s)| <= SIZE_MAX
    ensures |s.documents| == 0 ==> |s.terms| == |s.postings| == s.total == 0
  {
    forall d | 0 <= d < |s.documents|
      ensures s.documents[d].length <= MAX32
    {
      assert DocumentOk(s.documents[d]);
    }
    LengthSumBound(s.documents);
    WellFormedIsLaid(s.terms, s.postings, |s.documents|);
  }

  // ---------- one file, one snapshot ----------

  lemma HeaderUnique(a: Snapshot, b: Snapshot)
    requires Storable(a) && Storable(b) && Header(a) == Header(b)
    ensures a.accents == b.accents && a.total == b.total
    ensures |a.documents| == |b.documents| && |a.terms| == |b.terms| && |a.postings| == |b.postings|
  {
    FieldsFit(a);
    FieldsFit(b);
    hide Storable, Serialize, Le32, Le64;
    HeaderReads(a.accents, |a.documents|, |a.terms|, |a.postings|, a.total);
    HeaderReads(b.accents, |b.documents|, |b.terms|, |b.postings|, b.total);
  }

  /** The fields of a header, by their offsets. */
  lemma HeaderReads(accents: bool, documents: nat, terms: nat, postings: nat, total: nat)
    requires documents <= SIZE_MAX && terms <= SIZE_MAX && postings <= SIZE_MAX && total <= SIZE_MAX
    ensures var h := HeaderOf(accents, documents, terms, postings, total);
            && h[..8] == MAGIC && FromLe(h[8..12]) == (if accents then 1 else 0)
            && FromLe(h[12..20]) == documents && FromLe(h[20..28]) == terms
            && FromLe(h[28..36]) == postings && FromLe(h[36..44]) == total
  {
    hide Le32, Le64, FromLe;
    var h := HeaderOf(accents, documents, terms, postings, total);
    assert h[..8] == MAGIC;
    assert h[8..12] == Le32(if accents then 1 else 0);
    assert h[12..20] == Le64(documents);
    assert h[20..28] == Le64(terms);
    assert h[28..36] == Le64(postings);
    assert h[36..44] == Le64(total);
    Le32Reads(if accents then 1 else 0);
    Le64Reads(documents);
    Le64Reads(terms);
    Le64Reads(postings);
    Le64Reads(total);
  }

  ghost predicate DocumentFits(d: Document) {
    |d.id| <= SIZE_MAX && |d.content| <= SIZE_MAX && d.length <= SIZE_MAX
  }

  ghost predicate TermFits(t: Term) {
    |t.value| <= SIZE_MAX && t.start <= SIZE_MAX && t.count <= SIZE_MAX
  }

  ghost predicate PostingFits(p: Posting) {
    p.ordinal <= MAX32 && p.frequency <= MAX32
  }

  lemma DocumentReads(d: Document, tail: seq<byte>)
    requires DocumentFits(d)
    ensures var r := DocumentBytes(d) + tail;
            && FieldsOf(r[..24]) == (|d.id|, |d.content|, d.length)
            && r[24..][..|d.id|] == d.id && r[24..][|d.id|..][..|d.content|] == d.content
            && r[24..][|d.id|..][|d.content|..] == tail
  {
    hide Fields, FieldsOf;
    var r := DocumentBytes(d) + tail;
    FieldsRead(|d.id|, |d.content|, d.length);
    assert r[..24] == Fields(|d.id|, |d.content|, d.length);
    assert r[24..] == d.id + d.content + tail;
    assert r[24..][|d.id|..] == d.content + tail;
  }

  lemma TermReads(t: Term, tail: seq<byte>)
    requires TermFits(t)
    ensures var r := TermBytes(t) + tail;
            && FieldsOf(r[..24]) == (|t.value|, t.start, t.count)
            && r[24..][..|t.value|] == t.value && r[24..][|t.value|..] == tail
  {
    hide Fields, FieldsOf;
    var r := TermBytes(t) + tail;
    FieldsRead(|t.value|, t.start, t.count);
    assert r[..24] == Fields(|t.value|, t.start, t.count);
    assert r[24..] == t.value + tail;
  }

  lemma PostingReads(p: Posting, tail: seq<byte>)
    requires PostingFits(p)
    ensures var r := PostingBytes(p) + tail;
            FromLe(r[..8][..4]) == p.ordinal && FromLe(r[..8][4..]) == p.frequency && r[8..] == tail
  {
    hide Le32, FromLe;
    var r := PostingBytes(p) + tail;
    assert r[..8] == PostingBytes(p);
    assert r[..8][..4] == Le32(p.ordinal) && r[..8][4..] == Le32(p.frequency);
    Le32Reads(p.ordinal);
    Le32Reads(p.frequency);
  }

  lemma DocumentUnique(d: Document, s: seq<byte>, e: Document, t: seq<byte>)
    requires DocumentFits(d) && DocumentFits(e) && DocumentBytes(d) + s == DocumentBytes(e) + t
    ensures d == e && s == t
  {
    hide DocumentBytes, FieldsOf;
    DocumentReads(d, s);
    DocumentReads(e, t);
  }

  lemma TermUnique(a: Term, s: seq<byte>, b: Term, t: seq<byte>)
    requires TermFits(a) && TermFits(b) && TermBytes(a) + s == TermBytes(b) + t
    ensures a == b && s == t
  {
    hide TermBytes, FieldsOf;
    TermReads(a, s);
    TermReads(b, t);
  }

  lemma DocumentsCons(documents: seq<Document>, x: seq<byte>)
    requires documents != []
    ensures DocumentsBytes(documents) + x == DocumentBytes(documents[0]) + (DocumentsBytes(documents[1..]) + x)
  {
    hide DocumentBytes;
  }

  lemma TermsCons(terms: seq<Term>, x: seq<byte>)
    requires terms != []
    ensures TermsBytes(terms) + x == TermBytes(terms[0]) + (TermsBytes(terms[1..]) + x)
  {
    hide TermBytes;
  }

  lemma {:induction false} DocumentsUnique(a: seq<Document>, x: seq<byte>, b: seq<Document>, y: seq<byte>)
    requires |a| == |b| && DocumentsBytes(a) + x == DocumentsBytes(b) + y
    requires forall d :: 0 <= d < |a| ==> DocumentFits(a[d]) && DocumentFits(b[d])
    ensures a == b && x == y
  {
    if a == [] {
      assert DocumentsBytes(a) + x == x && DocumentsBytes(b) + y == y;
    } else {
      var s, t := DocumentsBytes(a[1..]) + x, DocumentsBytes(b[1..]) + y;
      hide DocumentBytes, DocumentsBytes, DocumentFits;
      DocumentsCons(a, x);
      DocumentsCons(b, y);
      DocumentUnique(a[0], s, b[0], t);
      DocumentsUnique(a[1..], x, b[1..], y);
      assert a == [a[0]] + a[1..] && b == [b[0]] + b[1..];
    }
  }

  lemma {:induction false} TermsUnique(a: seq<Term>, x: seq<byte>, b: seq<Term>, y: seq<byte>)
    requires |a| == |b| && TermsBytes(a) + x == TermsBytes(b) + y
    requires forall i :: 0 <= i < |a| ==> TermFits(a[i]) && TermFits(b[i])
    ensures a == b && x == y
  {
    if a == [] {
      assert TermsBytes(a) + x == x && TermsBytes(b) + y == y;
    } else {
      var s, t := TermsBytes(a[1..]) + x, TermsBytes(b[1..]) + y;
      hide TermBytes, TermsBytes, TermFits;
      TermsCons(a, x);
      TermsCons(b, y);
      TermUnique(a[0], s, b[0], t);
      TermsUnique(a[1..], x, b[1..], y);
      assert a == [a[0]] + a[1..] && b == [b[0]] + b[1..];
    }
  }

  lemma {:induction false} PostingsUnique(a: seq<Posting>, b: seq<Posting>)
    requires PostingsBytes(a) == PostingsBytes(b)
    requires forall j :: 0 <= j < |a| ==> PostingFits(a[j])
    requires forall j :: 0 <= j < |b| ==> PostingFits(b[j])
    ensures a == b
  {
    if a != [] {
      hide FromLe;
      PostingReads(a[0], PostingsBytes(a[1..]));
      PostingReads(b[0], PostingsBytes(b[1..]));
      PostingsUnique(a[1..], b[1..]);
      assert a == [a[0]] + a[1..] && b == [b[0]] + b[1..];
    }
  }

  lemma {:induction false} EveryDocumentFits(documents: seq<Document>)
    requires |DocumentsBytes(documents)| <= SIZE_MAX
    requires forall d :: 0 <= d < |documents| ==> documents[d].length <= SIZE_MAX
    ensures forall d :: 0 <= d < |documents| ==> DocumentFits(documents[d])
  {
    if documents != [] {
      EveryDocumentFits(documents[1..]);
      assert DocumentFits(documents[0]);
      assert forall d :: 0 < d < |documents| ==> documents[d] == documents[1..][d - 1];
    }
  }

  lemma {:induction false} EveryTermFits(terms: seq<Term>, n: nat)
    requires |TermsBytes(terms)| <= SIZE_MAX && n <= SIZE_MAX
    requires forall i :: 0 <= i < |terms| ==> terms[i].start + terms[i].count <= n
    ensures forall i :: 0 <= i < |terms| ==> TermFits(terms[i])
  {
    if terms != [] {
      EveryTermFits(terms[1..], n);
      assert TermFits(terms[0]);
      assert forall i :: 0 < i < |terms| ==> terms[i] == terms[1..][i - 1];
    }
  }

  lemma {:induction false} OrdinalsExist(terms: seq<Term>, postings: seq<Posting>, docs: nat)
    requires WellFormed(terms, postings, docs)
    ensures forall j :: 0 <= j < |postings| ==> postings[j].ordinal < docs
  {
    hide StrLt;
    if terms != [] {
      var t := Last(terms);
      OrdinalsExist(Init(terms), postings[..t.start], docs);
      assert SliceOk(postings[t.start..], docs);
      assert forall j :: t.start <= j < |postings| ==> postings[j] == postings[t.start..][j - t.start];
    }
  }

  lemma RecordsFit(s: Snapshot)
    requires Storable(s)
    ensures forall d :: 0 <= d < |s.documents| ==> DocumentFits(s.documents[d])
    ensures forall i :: 0 <= i < |s.terms| ==> TermFits(s.terms[i])
    ensures forall j :: 0 <= j < |s.postings| ==> PostingFits(s.postings[j])
  {
    FieldsFit(s);
    forall d | 0 <= d < |s.documents|
      ensures s.documents[d].length <= SIZE_MAX
    {
      assert DocumentOk(s.documents[d]);
    }
    EveryDocumentFits(s.documents);
    WellFormedMeans(s.terms, s.postings, |s.documents|);
    forall i | 0 <= i < |s.terms|
      ensures s.terms[i].start + s.terms[i].count <= |s.postings|
    {
      assert TermAt(s.terms, s.postings, |s.documents|, i);
    }
    EveryTermFits(s.terms, |s.postings|);
    OrdinalsExist(s.terms, s.postings, |s.documents|);
  }

  /** Serialization loses nothing: different storable snapshots give different files. */
  lemma SerializeInjective(a: Snapshot, b: Snapshot)
    requires Storable(a) && Storable(b) && Serialize(a) == Serialize(b)
    ensures a == b
  {
    RecordsFit(a);
    RecordsFit(b);
    assert Serialize(a)[..HEADER] == Header(a) && Serialize(b)[..HEADER] == Header(b);
    HeaderUnique(a, b);
    var x, y := TermsBytes(a.terms) + PostingsBytes(a.postings), TermsBytes(b.terms) + PostingsBytes(b.postings);
    assert Serialize(a)[HEADER..] == DocumentsBytes(a.documents) + x;
    assert Serialize(b)[HEADER..] == DocumentsBytes(b.documents) + y;
    hide Storable, Header, Serialize, DocumentsBytes, TermsBytes, PostingsBytes;
    DocumentsUnique(a.documents, x, b.documents, y);
    TermsUnique(a.terms, PostingsBytes(a.postings), b.terms, PostingsBytes(b.postings));
    PostingsUnique(a.postings, b.postings);
  }
}
