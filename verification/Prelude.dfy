/** Vocabulary shared by every component: bytes, optional values and concatenation. */
module Prelude {

  /** One octet (an `unsigned char` of the C sources). */
  type byte = b: int | 0 <= b < 256

  /** The largest `size_t`. */
  const SIZE_MAX: nat := 0xFFFF_FFFF_FFFF_FFFF

  datatype Option<+T> = None | Some(value: T)

  /** A NUL-terminated C string holds its characters but never the terminator. */
  predicate IsCString(s: seq<byte>) {
    0 !in s
  }

  /** The octets of an ASCII string. */
  function Ascii(s: string): seq<byte>
    requires forall k :: 0 <= k < |s| ==> s[k] < 128 as char
  {
    seq(|s|, k requires 0 <= k < |s| => s[k] as int)
  }

  /** The concatenation of a sequence of parts, left to right. */
  function Concat<T>(parts: seq<seq<T>>): seq<T> {
    if parts == [] then [] else parts[0] + Concat(parts[1..])
  }

  lemma {:induction false} ConcatSplit<T>(a: seq<seq<T>>, b: seq<seq<T>>)
    ensures Concat(a + b) == Concat(a) + Concat(b)
  {
    if a == [] {
      assert a + b == b;
    } else {
      assert (a + b)[1..] == a[1..] + b;
      ConcatSplit(a[1..], b);
    }
  }

  lemma ConcatSnoc<T>(a: seq<seq<T>>, x: seq<T>)
    ensures Concat(a + [x]) == Concat(a) + x
  {
    ConcatSplit(a, [x]);
    assert [x][1..] == [];
    assert Concat([x]) == x;
  }

  lemma Regroup<T>(a: seq<T>, b: seq<T>, c: seq<T>)
    ensures a + (b + c) == (a + b) + c
  {
  }

  lemma SliceOfPrefix<T>(s: seq<T>, k: nat, a: nat, b: nat)
    requires a <= b <= k <= |s|
    ensures s[..k][a..b] == s[a..b]
  {
    var cut, part := s[..k][a..b], s[a..b];
    assert |cut| == |part|;
    assert forall i :: 0 <= i < b - a ==> cut[i] == s[a + i] == part[i];
  }
}
