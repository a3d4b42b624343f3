/**
 * Linear probing, shared by the score table of libbm25.c and the vocabulary table of libemb.c.
 * A key lives on the probe path from its home slot, and no gap on that path hides it.
 */
module Probing {
  import opened Prelude
  import opened Binary

  /** The slot after `j` in a table of `m` slots. */
  function Next(j: nat, m: nat): (n: nat)
    requires j < m
    ensures n < m && n == Mod(j + 1, m)
  {
    NextIsMod(j, m);
    if j + 1 == m then 0 else j + 1
  }

  lemma NextIsMod(j: nat, m: nat)
    requires j < m
    ensures Mod(j + 1, m) == if j + 1 == m then 0 else j + 1
  {
    if j + 1 < m {
      DivModUnique(j + 1, m, 0, j + 1);
    }
    DivModUnique(m, m, 1, 0);
  }

  /** Slot `x` is probed when walking from `home` before `j` is reached. */
  predicate Before(home: int, x: int, j: int) {
    if home <= j then home <= x < j else home <= x || x < j
  }

  /** Every slot probed from `home` before `j` is occupied. */
  ghost predicate Covered(occupied: seq<bool>, home: int, j: int) {
    forall x :: 0 <= x < |occupied| && Before(home, x, j) ==> occupied[x]
  }

  /** Probes left from `j` until `e`. */
  function Distance(j: nat, e: nat, m: nat): nat
    requires j < m && e < m
  {
    if j <= e then e - j else e + m - j
  }

  /** One probe further: nothing else becomes visible, and an empty slot `e` gets closer. */
  lemma ProbeStep(occupied: seq<bool>, home: nat, j: nat, e: nat)
    requires home < |occupied| && j < |occupied| && e < |occupied|
    requires Covered(occupied, home, j) && occupied[j] && !occupied[e]
    ensures Covered(occupied, home, Next(j, |occupied|))
    ensures forall x :: 0 <= x < |occupied| ==> (Before(home, x, Next(j, |occupied|)) <==> Before(home, x, j) || x == j)
    ensures Distance(Next(j, |occupied|), e, |occupied|) < Distance(j, e, |occupied|)
  {
    assert !Before(home, e, j);
  }

  function Count(occupied: seq<bool>): (n: nat)
    ensures n <= |occupied|
  {
    if occupied == [] then 0 else Count(occupied[1..]) + if occupied[0] then 1 else 0
  }

  lemma {:induction false} CountFill(occupied: seq<bool>, j: nat)
    requires j < |occupied| && !occupied[j]
    ensures Count(occupied[j := true]) == Count(occupied) + 1
  {
    var after := occupied[j := true];
    if j == 0 {
      assert after[1..] == occupied[1..];
    } else {
      assert after[1..] == occupied[1..][j - 1 := true];
      CountFill(occupied[1..], j - 1);
    }
  }

  lemma {:induction false} CountNone(occupied: seq<bool>)
    requires forall x :: 0 <= x < |occupied| ==> !occupied[x]
    ensures Count(occupied) == 0
  {
    if occupied != [] {
      CountNone(occupied[1..]);
    }
  }

  /** A table that is not full has an empty slot, which is what stops every probe loop. */
  lemma {:induction false} EmptySlot(occupied: seq<bool>) returns (e: nat)
    requires Count(occupied) < |occupied|
    ensures e < |occupied| && !occupied[e]
  {
    if !occupied[0] {
      e := 0;
    } else {
      e := EmptySlot(occupied[1..]);
      e := e + 1;
    }
  }
}
