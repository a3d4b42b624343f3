/** The bounded worst-first heap of kc_bm25_search: it always holds exactly the best hits offered so far. */
module TopK {
  import opened Prelude
  import opened Ordering

  function Parent(i: nat): nat
    requires i > 0
  {
    (i - 1) / 2
  }

  /** No entry ranks below its parent: the worst hit is at the root. */
  ghost predicate WorstFirst(h: seq<Hit>) {
    forall i :: 0 < i < |h| ==> RankLe(h[i], h[Parent(i)])
  }

  /** `kept` is the best `k` of `seen` (all of it when there are no more than `k`). */
  ghost predicate IsBest(kept: multiset<Hit>, seen: multiset<Hit>, k: nat) {
    && kept <= seen
    && |kept| == (if |seen| < k then |seen| else k)
    && forall x, y :: x in kept && y in seen - kept ==> RankLe(x, y)
  }

  lemma {:induction false} RootIsWorst(h: seq<Hit>, i: nat)
    requires WorstFirst(h) && i < |h|
    ensures RankLe(h[i], h[0])
  {
    if i > 0 {
      RootIsWorst(h, Parent(i));
    }
  }

  // ---------- sifting ----------

  /** Heap order, except that the entry at `r` may rank below its children. */
  ghost predicate WorstFirstBelow(h: seq<Hit>, r: nat) {
    && (forall i :: 0 < i < |h| && Parent(i) != r ==> RankLe(h[i], h[Parent(i)]))
    && (forall i :: 0 < i < |h| && Parent(i) == r && 0 < r ==> RankLe(h[i], h[Parent(r)]))
  }

  /** Heap order, except that the entry at `p` may rank below its parent. */
  ghost predicate WorstFirstAbove(h: seq<Hit>, p: nat) {
    && (forall i :: 0 < i < |h| && i != p ==> RankLe(h[i], h[Parent(i)]))
    && (forall i :: 0 < i < |h| && Parent(i) == p && 0 < p < |h| ==> RankLe(h[i], h[Parent(p)]))
  }

  function Swapped(h: seq<Hit>, i: nat, j: nat): (r: seq<Hit>)
    requires i < |h| && j < |h|
    ensures |r| == |h|
  {
    h[i := h[j]][j := h[i]]
  }

  lemma SwapKeepsEntries(h: seq<Hit>, i: nat, j: nat)
    requires i < |h| && j < |h|
    ensures multiset(Swapped(h, i, j)) == multiset(h)
  {
  }

  method Swap(heap: array<Hit>, n: nat, i: nat, j: nat)
    requires n <= heap.Length && i < n && j < n
    modifies heap
    ensures heap[..n] == old(Swapped(heap[..n], i, j)) && heap[n..] == old(heap[n..])
    ensures multiset(heap[..n]) == old(multiset(heap[..n]))
  {
    SwapKeepsEntries(heap[..n], i, j);
    heap[i], heap[j] := heap[j], heap[i];
  }

  /** The root trades places with its worse child, which ranks below it and below the other child. */
  lemma SiftDownStep(h: seq<Hit>, r: nat, worst: nat)
    requires WorstFirstBelow(h, r) && r < worst < |h| && Parent(worst) == r
    requires RankLe(h[r], h[worst])
    requires forall i :: 0 < i < |h| && Parent(i) == r ==> RankLe(h[i], h[worst])
    ensures WorstFirstBelow(Swapped(h, r, worst), worst)
  {
  }

  lemma SiftUpStep(h: seq<Hit>, p: nat)
    requires 0 < p < |h| && WorstFirstAbove(h, p) && RankLe(h[Parent(p)], h[p])
    ensures WorstFirstAbove(Swapped(h, p, Parent(p)), Parent(p))
  {
    hide RankLe;
    var q := Parent(p);
    var g := Swapped(h, p, q);
    forall i | 0 < i < |g| && i != q
      ensures RankLe(g[i], g[Parent(i)])
    {
      if i != p && Parent(i) == q {
        RankTransitive(h[i], h[q], h[p]);
      }
    }
    forall i | 0 < i < |g| && Parent(i) == q && 0 < q
      ensures RankLe(g[i], g[Parent(q)])
    {
      assert RankLe(h[q], h[Parent(q)]);
      if i != p {
        RankTransitive(h[i], h[q], h[Parent(q)]);
      }
    }
  }

  lemma RankTransitive(a: Hit, b: Hit, c: Hit)
    requires RankLe(a, b) && RankLe(b, c)
    ensures RankLe(a, c)
  {
  }

  /** kc_bm25_heap_down */
  method HeapDown(heap: array<Hit>, count: nat)
    requires count <= heap.Length && WorstFirstBelow(heap[..count], 0)
    modifies heap
    ensures WorstFirst(heap[..count]) && multiset(heap[..count]) == old(multiset(heap[..count]))
  {
    var root := 0;
    while root <= count / 2
      invariant WorstFirstBelow(heap[..count], root)
      invariant multiset(heap[..count]) == old(multiset(heap[..count]))
      decreases count - root
    {
      var left := root * 2 + 1;
      var right := left + 1;
      var worst := root;
      if left < count && Better(heap[worst], heap[left]) { worst := left; }
      if right < count && Better(heap[worst], heap[right]) { worst := right; }
      assert forall i :: 0 < i && Parent(i) == root ==> i == left || i == right;
      if worst == root {
        return;
      }
      SiftDownStep(heap[..count], root, worst);
      Swap(heap, count, root, worst);
      root := worst;
    }
  }

  /** The sift-up loop of kc_bm25_search, after an entry was stored at the last position. */
  method HeapUp(heap: array<Hit>, count: nat)
    requires 0 < count <= heap.Length && WorstFirstAbove(heap[..count], count - 1)
    modifies heap
    ensures WorstFirst(heap[..count]) && multiset(heap[..count]) == old(multiset(heap[..count]))
  {
    var position := count - 1;
    while position > 0
      invariant position < count && WorstFirstAbove(heap[..count], position)
      invariant multiset(heap[..count]) == old(multiset(heap[..count]))
    {
      var parent := (position - 1) / 2;
      if !Better(heap[parent], heap[position]) {
        return;
      }
      SiftUpStep(heap[..count], position);
      Swap(heap, count, position, parent);
      position := parent;
    }
  }

  // ---------- offering one candidate ----------

  /** The entries of a heap of at most `limit` after `item` is offered. */
  ghost function Offered(h: seq<Hit>, limit: nat, item: Hit): multiset<Hit> {
    if |h| < limit then multiset(h) + multiset{item}
    else if h != [] && Better(item, h[0]) then multiset(h) - multiset{h[0]} + multiset{item}
    else multiset(h)
  }

  lemma RootReplaced(h: seq<Hit>, item: Hit)
    requires WorstFirst(h) && h != []
    ensures WorstFirstBelow(h[0 := item], 0)
    ensures multiset(h[0 := item]) == multiset(h) - multiset{h[0]} + multiset{item}
  {
    hide RankLe;
  }

  lemma LastAppended(h: seq<Hit>, item: Hit)
    requires WorstFirst(h)
    ensures WorstFirstAbove(h + [item], |h|)
    ensures multiset(h + [item]) == multiset(h) + multiset{item}
  {
    hide RankLe;
  }

  /** One turn of the candidate loop: append and sift up, or replace the root and sift down, or skip. */
  method Offer(heap: array<Hit>, size: nat, item: Hit) returns (next: nat)
    requires 0 < heap.Length && size <= heap.Length && WorstFirst(heap[..size])
    modifies heap
    ensures next <= heap.Length && WorstFirst(heap[..next])
    ensures multiset(heap[..next]) == Offered(old(heap[..size]), heap.Length, item)
  {
    hide RankLe, Better, WorstFirst, WorstFirstAbove, WorstFirstBelow;
    if size == heap.Length {
      if !Better(item, heap[0]) {
        return size;
      }
      ghost var h := heap[..size];
      heap[0] := item;
      RootReplaced(h, item);
      assert heap[..size] == h[0 := item];
      HeapDown(heap, size);
      return size;
    }
    ghost var h := heap[..size];
    heap[size] := item;
    next := size + 1;
    LastAppended(h, item);
    assert heap[..next] == h + [item];
    HeapUp(heap, next);
  }

  lemma AllRankAboveRoot(h: seq<Hit>)
    requires WorstFirst(h)
    ensures forall x :: x in multiset(h) ==> h != [] && RankLe(x, h[0])
  {
    forall x | x in multiset(h)
      ensures h != [] && RankLe(x, h[0])
    {
      var i :| 0 <= i < |h| && h[i] == x;
      RootIsWorst(h, i);
    }
  }

  /** While the heap is not full it holds everything seen. */
  lemma NotFullHoldsAll(kept: multiset<Hit>, seen: multiset<Hit>, limit: nat)
    requires IsBest(kept, seen, limit) && |kept| < limit
    ensures kept == seen
  {
    assert |seen - kept| == |seen| - |kept| == 0;
    assert seen == kept + (seen - kept);
  }

  /** Dropping the worst of `kept + {item}` keeps the best. */
  lemma DropWorst(kept: multiset<Hit>, seen: multiset<Hit>, limit: nat, item: Hit, worst: Hit)
    requires IsBest(kept, seen, limit) && |kept| == limit
    requires worst in kept + multiset{item}
    requires forall x :: x in kept + multiset{item} ==> RankLe(x, worst)
    ensures IsBest(kept + multiset{item} - multiset{worst}, seen + multiset{item}, limit)
  {
    hide RankLe, Better;
    var after := kept + multiset{item} - multiset{worst};
    assert seen + multiset{item} - after == seen - kept + multiset{worst};
    forall x, y | x in after && y in seen - kept + multiset{worst}
      ensures RankLe(x, y)
    {
      if y != worst {
        if x !in kept {
          assert x == item && worst in kept;
          RankTransitive(item, worst, y);
        }
      }
    }
  }

  /** Offering keeps the best: the invariant of the candidate loop. */
  lemma OfferKeepsBest(h: seq<Hit>, seen: multiset<Hit>, limit: nat, item: Hit)
    requires limit > 0 && WorstFirst(h) && |h| <= limit && IsBest(multiset(h), seen, limit)
    ensures IsBest(Offered(h, limit, item), seen + multiset{item}, limit)
  {
    var kept := multiset(h);
    assert |kept| == |h|;
    if |h| < limit {
      NotFullHoldsAll(kept, seen, limit);
    } else {
      AllRankAboveRoot(h);
      var worst := if Better(item, h[0]) then h[0] else item;
      assert h[0] in kept;
      HitsTotallyOrdered();
      assert kept + multiset{item} - multiset{item} == kept;
      assert kept + multiset{item} - multiset{h[0]} == kept - multiset{h[0]} + multiset{item};
      DropWorst(kept, seen, limit, item, worst);
    }
  }

  /** The best `k`, sorted by rank, are the first `k` of everything sorted by rank. */
  lemma BestSortedIsPrefix(kept: seq<Hit>, seen: seq<Hit>, k: nat)
    requires Sorted(kept, RankLe) && Sorted(seen, RankLe) && IsBest(multiset(kept), multiset(seen), k)
    ensures kept == seen[..if |seen| < k then |seen| else k]
  {
    var n := if |seen| < k then |seen| else k;
    assert |kept| == |multiset(kept)| == n;
    var rest := multiset(seen) - multiset(kept);
    HitsTotallyOrdered();
    var tail := SortedListing(rest);
    assert Sorted(kept + tail, RankLe) by {
      forall i, j | 0 <= i < j < |kept + tail|
        ensures RankLe((kept + tail)[i], (kept + tail)[j])
      {
        if i < |kept| <= j {
          assert kept[i] in multiset(kept) && tail[j - |kept|] in multiset(tail);
        }
      }
    }
    assert multiset(kept + tail) == multiset(seen);
    SortedUnique(kept + tail, seen, RankLe);
  }

  /** Any multiset of hits can be listed in rank order. */
  lemma {:induction false} SortedListing(m: multiset<Hit>) returns (s: seq<Hit>)
    ensures IsSortOf(s, m, RankLe)
    decreases |m|
  {
    if m == multiset{} {
      s := [];
    } else {
      var x :| x in m;
      s := SortedListing(m - multiset{x});
      HitsTotallyOrdered();
      var k := 0;
      while k < |s| && RankLe(s[k], x)
        invariant k <= |s| && forall j :: 0 <= j < k ==> RankLe(s[j], x)
      {
        k := k + 1;
      }
      InsertSorted(s, k, x, RankLe);
      assert s == s[..k] + s[k..];
      s := s[..k] + [x] + s[k..];
    }
  }
}
