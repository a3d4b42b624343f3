/** The orders the BM25 index sorts by, and what `qsort` promises about them. */
module Ordering {
  import opened Prelude

  // ---------- strcmp ----------

  /** The sign of `strcmp` on two C strings: octets compared as unsigned, a prefix first. */
  function StrCmp(a: seq<byte>, b: seq<byte>): (c: int)
    ensures -1 <= c <= 1
    ensures c == 0 <==> a == b
  {
    if a == [] && b == [] then 0
    else if a == [] then -1
    else if b == [] then 1
    else if a[0] < b[0] then -1
    else if a[0] > b[0] then 1
    else
      assert a == [a[0]] + a[1..] && b == [b[0]] + b[1..];
      StrCmp(a[1..], b[1..])
  }

  predicate StrLt(a: seq<byte>, b: seq<byte>) {
    StrCmp(a, b) < 0
  }

  lemma {:induction false} StrCmpSwap(a: seq<byte>, b: seq<byte>)
    ensures StrCmp(b, a) == -StrCmp(a, b)
  {
    if a != [] && b != [] && a[0] == b[0] {
      StrCmpSwap(a[1..], b[1..]);
    }
  }

  lemma {:induction false} StrLtTransitive(a: seq<byte>, b: seq<byte>, c: seq<byte>)
    requires StrLt(a, b) && StrLt(b, c)
    ensures StrLt(a, c)
  {
    if a != [] && a[0] == b[0] == c[0] {
      StrLtTransitive(a[1..], b[1..], c[1..]);
    }
  }

  /** `a` is `b` up to octet `k`, where it ends or is smaller. */
  ghost predicate LessAt(a: seq<byte>, b: seq<byte>, k: nat) {
    k <= |a| && k < |b| && a[..k] == b[..k] && (k == |a| || a[k] < b[k])
  }

  /** Dictionary order: at the first octet where they differ the smaller octet is first, and a prefix is first. */
  ghost predicate Precedes(a: seq<byte>, b: seq<byte>) {
    exists k :: LessAt(a, b, k)
  }

  lemma {:induction false} LessSomewhere(a: seq<byte>, b: seq<byte>) returns (k: nat)
    requires StrLt(a, b)
    ensures LessAt(a, b, k)
  {
    if a == [] || a[0] != b[0] {
      k := 0;
    } else {
      var j := LessSomewhere(a[1..], b[1..]);
      k := j + 1;
      assert a[..k] == [a[0]] + a[1..][..j] && b[..k] == [b[0]] + b[1..][..j];
    }
  }

  lemma {:induction false} LessHere(a: seq<byte>, b: seq<byte>, k: nat)
    requires LessAt(a, b, k)
    ensures StrLt(a, b)
  {
    if k > 0 {
      assert a[0] == a[..k][0] && b[0] == b[..k][0];
      assert a[1..][..k - 1] == a[..k][1..] && b[1..][..k - 1] == b[..k][1..];
      LessHere(a[1..], b[1..], k - 1);
    }
  }

  /** `strcmp` gives the dictionary order. */
  lemma StrLtMeans(a: seq<byte>, b: seq<byte>)
    ensures StrLt(a, b)
            <==> exists k :: 0 <= k <= |a| && k < |b| && a[..k] == b[..k] && (k == |a| || a[k] < b[k])
    ensures Precedes(a, b) <==> StrLt(a, b)
  {
    hide StrCmp;
    if StrLt(a, b) {
      var k := LessSomewhere(a, b);
      assert a[..k] == b[..k];
    }
    if k :| 0 <= k <= |a| && k < |b| && a[..k] == b[..k] && (k == |a| || a[k] < b[k]) {
      LessHere(a, b, k);
    }
  }

  // ---------- total orders and sorting ----------

  ghost predicate TotalOrder<T(!new)>(le: (T, T) -> bool) {
    && (forall x, y :: le(x, y) || le(y, x))
    && (forall x, y :: le(x, y) && le(y, x) ==> x == y)
    && (forall x, y, z :: le(x, y) && le(y, z) ==> le(x, z))
  }

  ghost predicate Sorted<T>(s: seq<T>, le: (T, T) -> bool) {
    forall i, j :: 0 <= i < j < |s| ==> le(s[i], s[j])
  }

  /** `s` is what sorting `m` by `le` gives; SortedUnique shows there is only one such sequence. */
  ghost predicate IsSortOf<T>(s: seq<T>, m: multiset<T>, le: (T, T) -> bool) {
    multiset(s) == m && Sorted(s, le)
  }

  lemma HeadIsLeast<T(!new)>(s: seq<T>, x: T, le: (T, T) -> bool)
    requires TotalOrder(le) && Sorted(s, le) && x in s
    ensures le(s[0], x)
  {
    var i :| 0 <= i < |s| && s[i] == x;
    assert le(x, x);
  }

  lemma TailSorted<T>(s: seq<T>, le: (T, T) -> bool)
    requires Sorted(s, le) && s != []
    ensures Sorted(s[1..], le) && multiset(s[1..]) == multiset(s) - multiset{s[0]}
  {
    assert s == [s[0]] + s[1..];
  }

  lemma {:induction false} SortedUnique<T(!new)>(a: seq<T>, b: seq<T>, le: (T, T) -> bool)
    requires TotalOrder(le) && Sorted(a, le) && Sorted(b, le) && multiset(a) == multiset(b)
    ensures a == b
  {
    assert |a| == |multiset(a)| == |multiset(b)| == |b|;
    if a != [] {
      assert a[0] in multiset(b) && b[0] in multiset(a);
      HeadIsLeast(b, a[0], le);
      HeadIsLeast(a, b[0], le);
      assert a[0] == b[0];
      TailSorted(a, le);
      TailSorted(b, le);
      hide TotalOrder, Sorted;
      SortedUnique(a[1..], b[1..], le);
      assert a == [a[0]] + a[1..] && b == [b[0]] + b[1..];
    }
  }

  /** `qsort`, by its contract: whatever the algorithm, the result is the sorted permutation. */
  method Sort<T(!new)>(s: seq<T>, le: (T, T) -> bool) returns (r: seq<T>)
    requires TotalOrder(le)
    ensures IsSortOf(r, multiset(s), le)
  {
    r := [];
    var i := 0;
    while i < |s|
      invariant 0 <= i <= |s|
      invariant IsSortOf(r, multiset(s[..i]), le)
    {
      r := Insert(r, s[i], le);
      assert s[..i + 1] == s[..i] + [s[i]];
      i := i + 1;
    }
    assert s[..|s|] == s;
  }

  method Insert<T(!new)>(s: seq<T>, x: T, le: (T, T) -> bool) returns (r: seq<T>)
    requires TotalOrder(le) && Sorted(s, le)
    ensures IsSortOf(r, multiset(s) + multiset{x}, le)
  {
    var k := 0;
    while k < |s| && le(s[k], x)
      invariant 0 <= k <= |s|
      invariant forall j :: 0 <= j < k ==> le(s[j], x)
    {
      k := k + 1;
    }
    r := s[..k] + [x] + s[k..];
    InsertSorted(s, k, x, le);
    assert s == s[..k] + s[k..];
  }

  lemma InsertSorted<T(!new)>(s: seq<T>, k: nat, x: T, le: (T, T) -> bool)
    requires TotalOrder(le) && Sorted(s, le) && k <= |s|
    requires forall j :: 0 <= j < k ==> le(s[j], x)
    requires k < |s| ==> !le(s[k], x)
    ensures Sorted(s[..k] + [x] + s[k..], le)
  {
    var r := s[..k] + [x] + s[k..];
    forall i, j | 0 <= i < j < |r|
      ensures le(r[i], r[j])
    {
      var si, sj := if i < k then i else i - 1, if j < k then j else j - 1;
      if i != k && j != k {
        assert le(s[si], s[sj]);
      } else if i == k {
        assert le(x, s[k]);
        assert sj > k ==> le(s[k], s[sj]);
      }
    }
  }

  // ---------- occurrences: a token in a document ----------

  /** kc_bm25_occurrence_t */
  datatype Occurrence = Occurrence(token: seq<byte>, ordinal: nat)

  /** kc_bm25_occurrence_compare(a, b) <= 0 */
  predicate OccurrenceLe(a: Occurrence, b: Occurrence) {
    StrLt(a.token, b.token) || (a.token == b.token && a.ordinal <= b.ordinal)
  }

  lemma OccurrencesTotallyOrdered()
    ensures TotalOrder(OccurrenceLe)
  {
    forall x, y: Occurrence
      ensures OccurrenceLe(x, y) || OccurrenceLe(y, x)
      ensures OccurrenceLe(x, y) && OccurrenceLe(y, x) ==> x == y
    {
      StrCmpSwap(x.token, y.token);
    }
    forall x, y, z: Occurrence | OccurrenceLe(x, y) && OccurrenceLe(y, z)
      ensures OccurrenceLe(x, z)
    {
      if StrLt(x.token, y.token) && StrLt(y.token, z.token) {
        StrLtTransitive(x.token, y.token, z.token);
      }
    }
  }

  /** kc_bm25_string_compare(a, b) <= 0 */
  predicate StrLe(a: seq<byte>, b: seq<byte>) {
    StrCmp(a, b) <= 0
  }

  lemma StringsTotallyOrdered()
    ensures TotalOrder(StrLe)
  {
    forall x: seq<byte>, y: seq<byte>
      ensures StrLe(x, y) || StrLe(y, x)
      ensures StrLe(x, y) && StrLe(y, x) ==> x == y
    {
      StrCmpSwap(x, y);
    }
    forall x: seq<byte>, y: seq<byte>, z: seq<byte> | StrLe(x, y) && StrLe(y, z)
      ensures StrLe(x, z)
    {
      if StrLt(x, y) && StrLt(y, z) {
        StrLtTransitive(x, y, z);
      }
    }
  }

  // ---------- hits: a ranked document ----------

  /** The ranking part of kc_bm25_result_t; its id and content are those of document `ordinal`. */
  datatype Hit = Hit(ordinal: nat, score: real)

  /** kc_bm25_better */
  predicate Better(a: Hit, b: Hit) {
    if a.score > b.score then true
    else if a.score < b.score then false
    else a.ordinal < b.ordinal
  }

  /** kc_bm25_rank_compare(a, b) <= 0 */
  predicate RankLe(a: Hit, b: Hit) {
    !Better(b, a)
  }

  lemma HitsTotallyOrdered()
    ensures TotalOrder(RankLe)
  {
  }

  /** Best first means descending score, and ascending ordinal among equal scores. */
  lemma RankedMeans(hits: seq<Hit>)
    requires Sorted(hits, RankLe) && forall i, j :: 0 <= i < j < |hits| ==> hits[i].ordinal != hits[j].ordinal
    ensures forall i, j :: 0 <= i < j < |hits| ==>
              || hits[i].score > hits[j].score
              || (hits[i].score == hits[j].score && hits[i].ordinal < hits[j].ordinal)
  {
    forall i, j | 0 <= i < j < |hits|
      ensures hits[i].score > hits[j].score || (hits[i].score == hits[j].score && hits[i].ordinal < hits[j].ordinal)
    {
      assert RankLe(hits[i], hits[j]);
    }
  }
}
