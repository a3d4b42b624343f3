/** The binary index format by offsets: where each field stands in a file and in a record, octet by octet. */
module Layout {
  import opened Prelude
  import opened Binary
  import opened Postings
  import opened Bm25
  import opened Format

  /** The 32-bit number at offset `at`, its lowest octet first. */
  function U32(b: seq<byte>, at: nat): nat
    requires at + 4 <= |b|
  {
    b[at] as int + b[at + 1] as int * 0x100 + b[at + 2] as int * 0x1_0000 + b[at + 3] as int * 0x100_0000
  }

  /** The 64-bit number at offset `at`, its lowest octet first. */
  function U64(b: seq<byte>, at: nat): nat
    requires at + 8 <= |b|
  {
    U32(b, at) + 0x1_0000_0000 * U32(b, at + 4)
  }

  lemma FromLeFour(b: seq<byte>)
    requires |b| >= 4
    ensures FromLe(b) == U32(b, 0) + 0x1_0000_0000 * FromLe(b[4..])
  {
    assert b[1..][1..] == b[2..] && b[2..][1..] == b[3..] && b[3..][1..] == b[4..];
    assert FromLe(b[3..]) == b[3] + 256 * FromLe(b[4..]);
    assert FromLe(b[2..]) == b[2] + 256 * FromLe(b[3..]);
    assert FromLe(b[1..]) == b[1] + 256 * FromLe(b[2..]);
  }

  /** A 32-bit field written at `at`. */
  lemma Field32(b: seq<byte>, at: nat, v: nat)
    requires at + 4 <= |b| && b[at..at + 4] == Le32(v) && v <= MAX32
    ensures U32(b, at) == v
  {
    Le32Reads(v);
    var f := b[at..at + 4];
    FromLeFour(f);
    assert f[4..] == [];
  }

  /** A 64-bit field written at `at`. */
  lemma Field64(b: seq<byte>, at: nat, v: nat)
    requires at + 8 <= |b| && b[at..at + 8] == Le64(v) && v <= SIZE_MAX
    ensures U64(b, at) == v
  {
    Le64Reads(v);
    var f := b[at..at + 8];
    FromLeFour(f);
    FromLeFour(f[4..]);
    assert f[4..][4..] == [];
    assert U32(b, at) == U32(f, 0) && U32(b, at + 4) == U32(f[4..], 0);
  }

  /** The header of a file: its name, the accent option, and the number of documents, terms, postings and tokens. */
  lemma HeaderLayout(accents: bool, documents: nat, terms: nat, postings: nat, total: nat)
    requires documents <= SIZE_MAX && terms <= SIZE_MAX && postings <= SIZE_MAX && total <= SIZE_MAX
    ensures var b := HeaderOf(accents, documents, terms, postings, total);
            && |b| == 44 && b[..6] == Ascii("KCBM25") && b[6] == b[7] == 0
            && U32(b, 8) == (if accents then 1 else 0) && U64(b, 12) == documents
            && U64(b, 20) == terms && U64(b, 28) == postings && U64(b, 36) == total
  {
    var b := HeaderOf(accents, documents, terms, postings, total);
    HeaderParts(b, accents, documents, terms, postings, total);
    hide HeaderOf, U32, U64, Le32, Le64;
    Field32(b, 8, if accents then 1 else 0);
    Field64(b, 12, documents);
    Field64(b, 20, terms);
    Field64(b, 28, postings);
    Field64(b, 36, total);
  }

  lemma HeaderParts(h: seq<byte>, accents: bool, documents: nat, terms: nat, postings: nat, total: nat)
    requires h == HeaderOf(accents, documents, terms, postings, total)
    ensures |h| == 44 && h[..6] == Ascii("KCBM25") && h[6] == h[7] == 0
    ensures h[8..12] == Le32(if accents then 1 else 0) && h[12..20] == Le64(documents) && h[20..28] == Le64(terms)
    ensures h[28..36] == Le64(postings) && h[36..44] == Le64(total)
  {
    hide Le32, Le64;
    assert h[..8] == MAGIC;
    assert h[..6] == MAGIC[..6] == Ascii("KCBM25") && h[6] == MAGIC[6] && h[7] == MAGIC[7];
  }

  /** A document record: the lengths of its two strings and its token count, then the strings. */
  lemma DocumentLayout(d: Document)
    requires |d.id| <= SIZE_MAX && |d.content| <= SIZE_MAX && d.length <= SIZE_MAX
    ensures var b := DocumentBytes(d);
            && U64(b, 0) == |d.id| && U64(b, 8) == |d.content| && U64(b, 16) == d.length
            && b[24..] == d.id + d.content
  {
    var b := DocumentBytes(d);
    hide U64, Le64;
    assert b[0..8] == Le64(|d.id|) && b[8..16] == Le64(|d.content|) && b[16..24] == Le64(d.length);
    Field64(b, 0, |d.id|);
    Field64(b, 8, |d.content|);
    Field64(b, 16, d.length);
  }

  /** A term record: the length of its text, where its postings start and how many they are, then the text. */
  lemma TermLayout(t: Term)
    requires |t.value| <= SIZE_MAX && t.start <= SIZE_MAX && t.count <= SIZE_MAX
    ensures var b := TermBytes(t);
            && U64(b, 0) == |t.value| && U64(b, 8) == t.start && U64(b, 16) == t.count && b[24..] == t.value
  {
    var b := TermBytes(t);
    hide U64, Le64;
    assert b[0..8] == Le64(|t.value|) && b[8..16] == Le64(t.start) && b[16..24] == Le64(t.count);
    Field64(b, 0, |t.value|);
    Field64(b, 8, t.start);
    Field64(b, 16, t.count);
  }

  /** A posting record: the document's ordinal and the frequency. */
  lemma PostingLayout(p: Posting)
    requires p.ordinal <= MAX32 && p.frequency <= MAX32
    ensures var b := PostingBytes(p); |b| == 8 && U32(b, 0) == p.ordinal && U32(b, 4) == p.frequency
  {
    var b := PostingBytes(p);
    hide U32, Le32;
    assert b[0..4] == Le32(p.ordinal) && b[4..8] == Le32(p.frequency);
    Field32(b, 0, p.ordinal);
    Field32(b, 4, p.frequency);
  }

  function Each<T>(items: seq<T>, bytes: T -> seq<byte>): (r: seq<seq<byte>>)
    ensures |r| == |items| && forall k :: 0 <= k < |r| ==> r[k] == bytes(items[k])
  {
    seq(|items|, k requires 0 <= k < |items| => bytes(items[k]))
  }

  lemma EachTail<T>(items: seq<T>, bytes: T -> seq<byte>)
    requires items != []
    ensures Each(items, bytes)[1..] == Each(items[1..], bytes)
  {
  }

  lemma {:induction false} DocumentsInOrder(documents: seq<Document>)
    ensures DocumentsBytes(documents) == Concat(Each(documents, DocumentBytes))
  {
    hide DocumentBytes;
    if documents != [] {
      DocumentsInOrder(documents[1..]);
      EachTail(documents, DocumentBytes);
    }
  }

  lemma {:induction false} TermsInOrder(terms: seq<Term>)
    ensures TermsBytes(terms) == Concat(Each(terms, TermBytes))
  {
    hide TermBytes;
    if terms != [] {
      TermsInOrder(terms[1..]);
      EachTail(terms, TermBytes);
    }
  }

  lemma {:induction false} PostingsInOrder(postings: seq<Posting>)
    ensures PostingsBytes(postings) == Concat(Each(postings, PostingBytes))
  {
    hide PostingBytes;
    if postings != [] {
      PostingsInOrder(postings[1..]);
      EachTail(postings, PostingBytes);
    }
  }

  /** Behind the header come all document records, then all term records, then all posting records, each in order. */
  lemma SectionsInOrder(s: Snapshot)
    ensures |Serialize(s)| >= 44
    ensures Serialize(s)[..44] == HeaderOf(s.accents, |s.documents|, |s.terms|, |s.postings|, s.total)
    ensures Serialize(s)[44..] == Concat(Each(s.documents, DocumentBytes)) + Concat(Each(s.terms, TermBytes))
                                  + Concat(Each(s.postings, PostingBytes))
  {
    DocumentsInOrder(s.documents);
    TermsInOrder(s.terms);
    PostingsInOrder(s.postings);
    hide HeaderOf, DocumentsBytes, TermsBytes, PostingsBytes;
    Regroup(DocumentsBytes(s.documents), TermsBytes(s.terms), PostingsBytes(s.postings));
  }
}
