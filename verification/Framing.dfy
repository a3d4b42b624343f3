/** End-of-transmission markers in byte streams: occurrences, and scanning chunk by chunk with a short tail. */
module Framing {
  import opened Prelude

  predicate At(s: seq<byte>, eot: seq<byte>, i: int) {
    0 <= i && i + |eot| <= |s| && s[i..i + |eot|] == eot
  }

  /** The marker does not occur. */
  ghost predicate Free(s: seq<byte>, eot: seq<byte>) {
    forall i: int :: !At(s, eot, i)
  }

  ghost predicate FirstAt(s: seq<byte>, eot: seq<byte>, i: int) {
    At(s, eot, i) && forall j: int :: j < i ==> !At(s, eot, j)
  }

  lemma {:induction false} FirstExists(s: seq<byte>, eot: seq<byte>, k: nat)
    requires At(s, eot, k)
    ensures exists i: nat :: FirstAt(s, eot, i)
    decreases k
  {
    if j: nat :| j < k && At(s, eot, j) {
      FirstExists(s, eot, j);
    } else {
      assert FirstAt(s, eot, k);
    }
  }

  /** Where the marker first occurs. */
  ghost function First(s: seq<byte>, eot: seq<byte>): (r: Option<nat>)
    ensures r.Some? ==> FirstAt(s, eot, r.value)
    ensures r.None? <==> Free(s, eot)
  {
    if i: nat :| FirstAt(s, eot, i) then Some(i) else
      assert Free(s, eot) by {
        forall i: int | At(s, eot, i)
          ensures false
        {
          FirstExists(s, eot, i);
        }
      }
      None
  }

  /** The stream before the first marker; all of it when there is none. */
  ghost function Before(s: seq<byte>, eot: seq<byte>): (r: seq<byte>)
    ensures r <= s
  {
    var first := First(s, eot);
    if first.Some? then s[..first.value] else s
  }

  /** The stream up to the end of the first marker. */
  ghost function Upto(s: seq<byte>, eot: seq<byte>): (r: seq<byte>)
    ensures r <= s
  {
    var first := First(s, eot);
    if first.Some? then s[..first.value + |eot|] else s
  }

  lemma FirstUnique(s: seq<byte>, eot: seq<byte>, i: int)
    requires FirstAt(s, eot, i)
    ensures First(s, eot) == Some(i)
  {
    assert !Free(s, eot);
  }

  /** kc_dmn_find_bytes: the first offset, or none for an empty needle or no occurrence. */
  method FindBytes(data: seq<byte>, needle: seq<byte>) returns (r: Option<nat>)
    ensures r == if needle == [] then None else First(data, needle)
  {
    if |needle| == 0 || |data| < |needle| {
      return None;
    }
    var i := 0;
    while i + |needle| <= |data|
      invariant 0 <= i && forall j: int :: j < i ==> !At(data, needle, j)
      decreases |data| - i
    {
      if data[i..i + |needle|] == needle {
        FirstUnique(data, needle, i);
        return Some(i);
      }
      i := i + 1;
    }
    assert Free(data, needle);
    return None;
  }

  // ---------- prefixes ----------

  lemma AtPrefix(s: seq<byte>, t: seq<byte>, eot: seq<byte>, i: int)
    ensures i + |eot| <= |s| ==> At(s + t, eot, i) == At(s, eot, i)
  {
    if 0 <= i && i + |eot| <= |s| {
      assert (s + t)[i..i + |eot|] == s[i..i + |eot|];
    }
  }

  /** More stream does not move a marker already there. */
  lemma FirstStays(s: seq<byte>, t: seq<byte>, eot: seq<byte>)
    requires !Free(s, eot)
    ensures First(s + t, eot) == First(s, eot)
    ensures Before(s + t, eot) == Before(s, eot) && Upto(s + t, eot) == Upto(s, eot)
  {
    var i := First(s, eot).value;
    AtPrefix(s, t, eot, i);
    forall j: int | j < i
      ensures !At(s + t, eot, j)
    {
      AtPrefix(s, t, eot, j);
    }
    FirstUnique(s + t, eot, i);
  }

  /** What comes up to the marker contains it exactly at its end. */
  lemma UptoEndsWithMarker(s: seq<byte>, eot: seq<byte>)
    requires !Free(s, eot)
    ensures !Free(Upto(s, eot), eot)
    ensures Before(Upto(s, eot), eot) == Before(s, eot) && Upto(s, eot) == Before(s, eot) + eot
  {
    var i := First(s, eot).value;
    var u := Upto(s, eot);
    assert u + s[i + |eot|..] == s;
    forall j: int | j <= i
      ensures At(u, eot, j) == At(s, eot, j)
    {
      AtPrefix(u, s[i + |eot|..], eot, j);
    }
    FirstUnique(u, eot, i);
    assert u[i..] == eot && u == u[..i] + u[i..];
  }

  // ---------- scanning with a tail ----------

  function TailLength(n: nat, eot: seq<byte>): nat
    requires eot != []
  {
    if n >= |eot| - 1 then |eot| - 1 else n
  }

  /** The length of the tail both loops keep of what they have joined. */
  method KeepLength(joined: nat, eot: seq<byte>) returns (keep: nat)
    requires eot != []
    ensures keep == TailLength(joined, eot)
  {
    keep := if |eot| > 1 then (if joined >= |eot| - 1 then |eot| - 1 else joined) else 0;
  }

  /** The last octets that can still begin a marker. */
  function Tail(s: seq<byte>, eot: seq<byte>): (r: seq<byte>)
    requires eot != []
    ensures |r| == TailLength(|s|, eot)
  {
    s[|s| - TailLength(|s|, eot)..]
  }

  /** Everything but the tail. */
  function Settled(s: seq<byte>, eot: seq<byte>): (r: seq<byte>)
    requires eot != []
    ensures r + Tail(s, eot) == s
  {
    s[..|s| - TailLength(|s|, eot)]
  }

  lemma DropAt(s: seq<byte>, off: nat, eot: seq<byte>, i: int)
    requires off <= |s| && 0 <= i
    ensures At(s[off..], eot, i) == At(s, eot, off + i)
  {
    if i + |eot| <= |s| - off {
      assert s[off..][i..i + |eot|] == s[off + i..off + i + |eot|];
    }
  }

  /** A marker completed by a chunk begins in the tail or later. */
  lemma StartsInTail(s: seq<byte>, c: seq<byte>, eot: seq<byte>, j: int)
    requires eot != [] && Free(s, eot) && At(s + c, eot, j)
    ensures j >= |Settled(s, eot)|
  {
    AtPrefix(s, c, eot, j);
  }

  lemma NoEarlyStart(s: seq<byte>, c: seq<byte>, eot: seq<byte>, j: int)
    requires eot != [] && Free(s, eot) && j < |Settled(s, eot)|
    ensures !At(s + c, eot, j)
  {
    AtPrefix(s, c, eot, j);
  }

  /** Searching the tail and the chunk finds what searching the whole stream finds. */
  lemma ScanStep(s: seq<byte>, c: seq<byte>, eot: seq<byte>)
    requires eot != [] && Free(s, eot)
    ensures var joined, off := Tail(s, eot) + c, |Settled(s, eot)|;
            && s + c == Settled(s, eot) + joined
            && (First(joined, eot).None? <==> Free(s + c, eot))
            && (First(joined, eot).Some? ==> First(s + c, eot) == Some(off + First(joined, eot).value))
            && Tail(joined, eot) == Tail(s + c, eot)
            && Settled(s, eot) + Settled(joined, eot) == Settled(s + c, eot)
  {
    var joined, off := Tail(s, eot) + c, |Settled(s, eot)|;
    assert Settled(s, eot) + joined == s + c;
    assert (s + c)[off..] == joined;
    forall i: int | 0 <= i
      ensures At(joined, eot, i) == At(s + c, eot, off + i)
    {
      DropAt(s + c, off, eot, i);
    }
    ScanFinds(s, c, eot);
    hide At;
    TailStep(s, c, eot);
  }

  lemma ScanFinds(s: seq<byte>, c: seq<byte>, eot: seq<byte>)
    requires eot != [] && Free(s, eot)
    requires var joined, off := Tail(s, eot) + c, |Settled(s, eot)|;
             forall i: int :: 0 <= i ==> At(joined, eot, i) == At(s + c, eot, off + i)
    ensures var joined, off := Tail(s, eot) + c, |Settled(s, eot)|;
            && (First(joined, eot).None? <==> Free(s + c, eot))
            && (First(joined, eot).Some? ==> First(s + c, eot) == Some(off + First(joined, eot).value))
  {
    hide At, Tail, Settled;
    var joined, off := Tail(s, eot) + c, |Settled(s, eot)|;
    var first := First(joined, eot);
    forall j: int | j < off || first.None?
      ensures !At(s + c, eot, j)
    {
      if j < off {
        NoEarlyStart(s, c, eot, j);
      } else {
        assert At(joined, eot, j - off) == At(s + c, eot, off + (j - off));
      }
    }
    if first.Some? {
      assert At(joined, eot, first.value);
      forall j: int | j < off + first.value
        ensures !At(s + c, eot, j)
      {
        if j < off {
          NoEarlyStart(s, c, eot, j);
        } else {
          assert At(joined, eot, j - off) == At(s + c, eot, off + (j - off));
        }
      }
      FirstUnique(s + c, eot, off + first.value);
    }
  }

  lemma TailStep(s: seq<byte>, c: seq<byte>, eot: seq<byte>)
    requires eot != []
    ensures var joined := Tail(s, eot) + c;
            Tail(joined, eot) == Tail(s + c, eot) && Settled(s, eot) + Settled(joined, eot) == Settled(s + c, eot)
  {
    var joined := Tail(s, eot) + c;
    assert s + c == Settled(s, eot) + joined;
    var n, m := |s + c|, |joined|;
    assert TailLength(n, eot) == TailLength(m, eot);
    assert (s + c)[n - TailLength(n, eot)..] == joined[m - TailLength(m, eot)..];
    assert (s + c)[..n - TailLength(n, eot)] == Settled(s, eot) + joined[..m - TailLength(m, eot)];
  }

  /** What is settled of a marker-free stream lies before any later marker. */
  lemma SettledIsBefore(s: seq<byte>, t: seq<byte>, eot: seq<byte>)
    requires eot != [] && Free(s, eot)
    ensures Settled(s, eot) <= Before(s + t, eot)
  {
    var first := First(s + t, eot);
    if first.Some? {
      StartsInTail(s, t, eot, first.value);
    }
    assert Before(s + t, eot) <= s + t && Settled(s, eot) <= s + t;
  }
}
