/** kc_bm25_accumulate: the resizing open-addressing table of running scores refines a map from ordinals to scores. */
module ScoreTable {
  import opened Prelude
  import opened Binary
  import opened Probing

  /** kc_bm25_accumulator_t; `calloc` leaves a slot unoccupied with ordinal and score zero. */
  datatype Cell = Cell(occupied: bool, ordinal: nat, score: real)

  const VACANT := Cell(false, 0, 0.0)
  const MULTIPLIER := 2654435761
  const FIRST_CAPACITY := 32

  /** An ordinal is a `uint32_t`, so its 64-bit product with the multiplier does not wrap. */
  predicate IsOrdinal(o: nat) {
    o < 0x1_0000_0000
  }

  /** The slot where the probe for `ordinal` starts; the code masks, which is this for a power of two. */
  function Home(ordinal: nat, capacity: nat): (h: nat)
    requires capacity > 0
    ensures h < capacity
  {
    Mod(ordinal * MULTIPLIER, capacity)
  }

  function Occupied(cells: seq<Cell>): (r: seq<bool>)
    ensures |r| == |cells|
    ensures forall j :: 0 <= j < |cells| ==> r[j] == cells[j].occupied
  {
    seq(|cells|, j requires 0 <= j < |cells| => cells[j].occupied)
  }

  /** Slot `j` holds an entry. */
  predicate At(cells: seq<Cell>, j: int) {
    0 <= j < |cells| && cells[j].occupied
  }

  /** Every occupied cell is an entry of `m`. */
  ghost predicate EntriesOf(cells: seq<Cell>, m: map<nat, real>) {
    forall j :: At(cells, j) ==> cells[j].ordinal in m && m[cells[j].ordinal] == cells[j].score
  }

  /** Every entry of `m` has a cell. */
  ghost predicate Complete(cells: seq<Cell>, m: map<nat, real>) {
    forall o :: o in m ==> exists j :: At(cells, j) && cells[j].ordinal == o
  }

  ghost predicate Distinct(cells: seq<Cell>) {
    forall i, j :: At(cells, i) && At(cells, j) && cells[i].ordinal == cells[j].ordinal ==> i == j
  }

  /** No occupied cell is hidden by a gap on the probe path to it. */
  ghost predicate Reachable(cells: seq<Cell>) {
    forall j :: At(cells, j) ==> Covered(Occupied(cells), Home(cells[j].ordinal, |cells|), j)
  }

  /** The occupied cells are exactly the entries of `m`, one each, and every probe finds its cell. */
  ghost predicate Holds(cells: seq<Cell>, m: map<nat, real>) {
    EntriesOf(cells, m) && Complete(cells, m) && Distinct(cells) && Reachable(cells) && Count(Occupied(cells)) == |m|
  }

  /** No cell met before `slot` on the path from `home` holds `ordinal`. */
  ghost predicate NotBefore(cells: seq<Cell>, home: nat, slot: nat, ordinal: nat) {
    forall x :: At(cells, x) && Before(home, x, slot) ==> cells[x].ordinal != ordinal
  }

  /** A probe that meets a gap has seen every place the ordinal could be. */
  lemma GapMeansAbsent(cells: seq<Cell>, m: map<nat, real>, slot: nat, ordinal: nat)
    requires Holds(cells, m) && slot < |cells| && !cells[slot].occupied
    requires NotBefore(cells, Home(ordinal, |cells|), slot, ordinal)
    ensures ordinal !in m
  {
    hide Home, EntriesOf, Distinct, Count;
    assert forall j :: At(cells, j) ==> cells[j].ordinal != ordinal;
  }

  lemma FillReachable(cells: seq<Cell>, slot: nat, cell: Cell)
    requires Reachable(cells) && slot < |cells| && !cells[slot].occupied && cell.occupied
    requires Covered(Occupied(cells), Home(cell.ordinal, |cells|), slot)
    ensures Reachable(cells[slot := cell]) && Count(Occupied(cells[slot := cell])) == Count(Occupied(cells)) + 1
  {
    hide Home, Before, Count;
    assert Occupied(cells[slot := cell]) == Occupied(cells)[slot := true];
    CountFill(Occupied(cells), slot);
  }

  lemma StoreComplete(cells: seq<Cell>, m: map<nat, real>, slot: nat, cell: Cell)
    requires Complete(cells, m) && slot < |cells| && cell.occupied
    requires cells[slot].occupied ==> cells[slot].ordinal == cell.ordinal
    ensures Complete(cells[slot := cell], m[cell.ordinal := cell.score])
  {
    var after, m' := cells[slot := cell], m[cell.ordinal := cell.score];
    forall o | o in m'
      ensures exists j :: At(after, j) && after[j].ordinal == o
    {
      if o == cell.ordinal {
        assert At(after, slot);
      } else {
        var j :| At(cells, j) && cells[j].ordinal == o;
        assert At(after, j);
      }
    }
  }

  lemma FillHolds(cells: seq<Cell>, m: map<nat, real>, slot: nat, ordinal: nat, score: real)
    requires Holds(cells, m) && slot < |cells| && !cells[slot].occupied && ordinal !in m
    requires Covered(Occupied(cells), Home(ordinal, |cells|), slot)
    ensures Holds(cells[slot := Cell(true, ordinal, score)], m[ordinal := score])
    ensures |m[ordinal := score]| == |m| + 1
  {
    hide Home, Covered, Complete, Reachable, Count;
    FillReachable(cells, slot, Cell(true, ordinal, score));
    StoreComplete(cells, m, slot, Cell(true, ordinal, score));
  }

  lemma UpdateHolds(cells: seq<Cell>, m: map<nat, real>, slot: nat, score: real)
    requires Holds(cells, m) && At(cells, slot)
    ensures var ordinal := cells[slot].ordinal;
            Holds(cells[slot := Cell(true, ordinal, score)], m[ordinal := score]) && |m[ordinal := score]| == |m|
  {
    hide Home, Covered, Complete, Count;
    var ordinal := cells[slot].ordinal;
    var after := cells[slot := Cell(true, ordinal, score)];
    var m' := m[ordinal := score];
    assert Occupied(after) == Occupied(cells);
    assert |m'| == |m| by {
      assert m'.Keys == m.Keys;
      assert |m'| == |m'.Keys| && |m| == |m.Keys|;
    }
    StoreComplete(cells, m, slot, Cell(true, ordinal, score));
  }

  function Get(m: map<nat, real>, ordinal: nat): real {
    if ordinal in m then m[ordinal] else 0.0
  }

  /** Masked arithmetic of the probe loops, for a capacity that is a power of two. */
  lemma MaskedHome(ordinal: nat, capacity: nat)
    requires IsPow2(capacity)
    ensures And(ordinal * MULTIPLIER, capacity - 1) == Home(ordinal, capacity)
  {
    var k: nat :| capacity == Pow2(k);
    MaskIsMod(ordinal * MULTIPLIER, k);
  }

  lemma MaskedNext(j: nat, capacity: nat)
    requires IsPow2(capacity) && j < capacity
    ensures And(j + 1, capacity - 1) == Next(j, capacity)
  {
    var k: nat :| capacity == Pow2(k);
    MaskIsMod(j + 1, k);
  }

  lemma HoldsCount(cells: seq<Cell>, m: map<nat, real>)
    requires Holds(cells, m)
    ensures Count(Occupied(cells)) == |m|
  {
  }

  lemma CellEntry(cells: seq<Cell>, m: map<nat, real>, i: int)
    requires Holds(cells, m) && At(cells, i)
    ensures cells[i].ordinal in m && m[cells[i].ordinal] == cells[i].score
    ensures forall j :: At(cells, j) && cells[j].ordinal == cells[i].ordinal ==> i == j
  {
    hide Complete, Reachable, Count;
  }

  lemma EntryCell(cells: seq<Cell>, m: map<nat, real>, o: nat) returns (j: int)
    requires Holds(cells, m) && o in m
    ensures At(cells, j) && cells[j].ordinal == o
  {
    hide EntriesOf, Distinct, Reachable, Count;
    j :| At(cells, j) && cells[j].ordinal == o;
  }

  class Accumulator {
    var table: array<Cell>
    var used: nat
    ghost var scores: map<nat, real>

    /** The capacity is zero or a power of two, at most half of it is in use, and the cells hold `scores`. */
    ghost predicate Valid()
      reads this, table
    {
      && (table.Length == 0 || IsPow2(table.Length))
      && used == |scores| && 2 * used <= table.Length
      && Holds(table[..], scores)
      && forall o :: o in scores ==> IsOrdinal(o)
    }

    constructor ()
      ensures Valid() && fresh(table) && scores == map[]
    {
      table := new Cell[0];
      used := 0;
      scores := map[];
    }

    /** Adds `score` to the entry of `ordinal`, creating it at zero, and doubles the table when it is half full. */
    method Accumulate(ordinal: nat, score: real)
      requires Valid() && IsOrdinal(ordinal)
      modifies this, table
      ensures Valid() && (table == old(table) || fresh(table))
      ensures scores == old(scores)[ordinal := Get(old(scores), ordinal) + score]
    {
      hide Holds, IsPow2;
      if table.Length == 0 || used + 1 > table.Length / 2 {
        Grow();
      }
      var slot := Claim(ordinal);
      ghost var held := table[..];
      var sum := table[slot].score + score;
      CellEntry(held, scores, slot);
      UpdateHolds(held, scores, slot, sum);
      table[slot] := table[slot].(score := sum);
      scores := scores[ordinal := sum];
      assert table[..] == held[slot := Cell(true, ordinal, sum)];
    }

    /** Probes for the cell of `ordinal`; at a gap, occupies it with score zero. */
    method Claim(ordinal: nat) returns (slot: nat)
      requires Valid() && IsOrdinal(ordinal) && 2 * (used + 1) <= table.Length
      modifies `used, `scores, table
      ensures Valid() && slot < table.Length && At(table[..], slot) && table[slot].ordinal == ordinal
      ensures scores == old(scores)[ordinal := Get(old(scores), ordinal)]
    {
      hide Holds, IsPow2, Covered, Before;
      ghost var before := table[..];
      HoldsCount(before, scores);
      slot := Probe(table, ordinal);
      if !table[slot].occupied {
        GapMeansAbsent(before, scores, slot, ordinal);
        FillHolds(before, scores, slot, ordinal, 0.0);
        table[slot] := Cell(true, ordinal, 0.0);
        used := used + 1;
        scores := scores[ordinal := 0.0];
        assert table[..] == before[slot := Cell(true, ordinal, 0.0)];
      } else {
        CellEntry(before, scores, slot);
        assert scores == scores[ordinal := scores[ordinal]];
      }
    }

    /** Rehashes every entry into a table twice the size. */
    method Grow()
      requires Valid()
      modifies this
      ensures Valid() && fresh(table) && scores == old(scores) && used == old(used)
      ensures 2 * (used + 1) <= table.Length
    {
      hide Holds, IsPow2, Moved, Covered, Home, Count;
      var capacity := table.Length;
      var next := if capacity == 0 then FIRST_CAPACITY else capacity * 2;
      DoubledPow2(capacity, next);
      var grown := new Cell[next](_ => VACANT);
      ghost var moved: map<nat, real> := map[];
      EmptyHolds(grown[..]);
      NoneMoved(table[..], scores);
      var i := 0;
      while i < capacity
        invariant 0 <= i <= capacity && table == old(table) && fresh(grown) && grown != table
        invariant table[..] == old(table[..]) && scores == old(scores) && used == old(used) && grown.Length == next
        invariant Holds(grown[..], moved)
        invariant Moved(table[..], scores, i, moved)
      {
        MoveOne(table[..], scores, i, moved);
        if table[i].occupied {
          var cell := table[i];
          Rehash(grown, moved, cell);
          moved := moved[cell.ordinal := cell.score];
        }
        i := i + 1;
      }
      MovedAll(table[..], scores, moved);
      table := grown;
    }
  }

  /** Puts one cell of the old table into the new one. */
  method Rehash(grown: array<Cell>, ghost moved: map<nat, real>, cell: Cell)
    requires IsPow2(grown.Length) && Holds(grown[..], moved) && |moved| < grown.Length
    requires cell.occupied && cell.ordinal !in moved
    modifies grown
    ensures Holds(grown[..], moved[cell.ordinal := cell.score])
  {
    hide Holds, IsPow2, Covered, Home, Count;
    ghost var before := grown[..];
    HoldsCount(before, moved);
    var j := ProbeVacant(grown, cell.ordinal);
    FillHolds(before, moved, j, cell.ordinal, cell.score);
    grown[j] := cell;
    assert grown[..] == before[j := cell];
  }

  lemma DoubledPow2(capacity: nat, next: nat)
    requires capacity == 0 || IsPow2(capacity)
    requires next == if capacity == 0 then FIRST_CAPACITY else capacity * 2
    ensures IsPow2(next)
  {
    if capacity == 0 {
      assert Pow2(1) == 2 && Pow2(3) == 8;
      assert 32 == Pow2(5);
    } else {
      var k: nat :| capacity == Pow2(k);
      assert next == Pow2(k + 1);
    }
  }

  lemma EmptyHolds(cells: seq<Cell>)
    requires forall j :: 0 <= j < |cells| ==> cells[j] == VACANT
    ensures Holds(cells, map[])
  {
    CountNone(Occupied(cells));
  }

  /** `moved` holds the entries of the first `i` cells. */
  ghost predicate Moved(cells: seq<Cell>, scores: map<nat, real>, i: nat, moved: map<nat, real>) {
    && (forall o :: o in moved ==> o in scores && moved[o] == scores[o])
    && (forall o :: o in moved ==> exists j :: 0 <= j < i && At(cells, j) && cells[j].ordinal == o)
    && (forall j :: 0 <= j < i && At(cells, j) ==> cells[j].ordinal in moved)
  }

  lemma NoneMoved(cells: seq<Cell>, scores: map<nat, real>)
    ensures Moved(cells, scores, 0, map[])
  {
  }

  lemma MovedSize(moved: map<nat, real>, scores: map<nat, real>)
    requires forall o :: o in moved ==> o in scores
    ensures |moved| <= |scores|
  {
    assert moved.Keys <= scores.Keys;
    SubsetSize(moved.Keys, scores.Keys);
  }

  lemma MoveOne(cells: seq<Cell>, scores: map<nat, real>, i: nat, moved: map<nat, real>)
    requires Holds(cells, scores) && i < |cells| && Moved(cells, scores, i, moved)
    ensures |moved| <= |scores|
    ensures At(cells, i) ==>
              && cells[i].ordinal !in moved
              && Moved(cells, scores, i + 1, moved[cells[i].ordinal := cells[i].score])
    ensures !At(cells, i) ==> Moved(cells, scores, i + 1, moved)
  {
    MovedSize(moved, scores);
    hide Holds;
    if At(cells, i) {
      CellEntry(cells, scores, i);
    }
  }

  lemma MovedAll(cells: seq<Cell>, scores: map<nat, real>, moved: map<nat, real>)
    requires Holds(cells, scores) && Moved(cells, scores, |cells|, moved)
    ensures moved == scores
  {
    hide Holds;
    forall o | o in scores
      ensures o in moved
    {
      var j := EntryCell(cells, scores, o);
    }
  }

  lemma {:induction false} SubsetSize<T>(a: set<T>, b: set<T>)
    requires a <= b
    ensures |a| <= |b|
  {
    if a != {} {
      var x :| x in a;
      SubsetSize(a - {x}, b - {x});
    }
  }

  lemma NothingBefore(occupied: seq<bool>, home: nat)
    ensures Covered(occupied, home, home) && forall x :: !Before(home, x, home)
  {
  }

  /** The probe loop of an insertion: stops at the ordinal's own cell, or at the first gap. */
  method Probe(table: array<Cell>, ordinal: nat) returns (slot: nat)
    requires IsPow2(table.Length) && Count(Occupied(table[..])) < table.Length
    ensures slot < table.Length
    ensures table[slot].occupied ==> table[slot].ordinal == ordinal
    ensures NotBefore(table[..], Home(ordinal, table.Length), slot, ordinal)
    ensures Covered(Occupied(table[..]), Home(ordinal, table.Length), slot)
  {
    hide IsPow2, Home, Before, Count, Covered, Distance;
    ghost var occupied := Occupied(table[..]);
    ghost var e := EmptySlot(occupied);
    MaskedHome(ordinal, table.Length);
    slot := And(ordinal * MULTIPLIER, table.Length - 1);
    ghost var home := slot;
    NothingBefore(occupied, home);
    while table[slot].occupied && table[slot].ordinal != ordinal
      invariant slot < table.Length
      invariant Covered(occupied, home, slot) && NotBefore(table[..], home, slot, ordinal)
      decreases Distance(slot, e, table.Length)
    {
      ProbeStep(occupied, home, slot, e);
      MaskedNext(slot, table.Length);
      slot := And(slot + 1, table.Length - 1);
    }
  }

  /** The probe loop of a rehash: the ordinal is new, so only gaps stop it. */
  method ProbeVacant(table: array<Cell>, ordinal: nat) returns (slot: nat)
    requires IsPow2(table.Length) && Count(Occupied(table[..])) < table.Length
    ensures slot < table.Length && !table[slot].occupied
    ensures Covered(Occupied(table[..]), Home(ordinal, table.Length), slot)
  {
    hide IsPow2, Home, Before, Count, Covered, Distance;
    ghost var occupied := Occupied(table[..]);
    ghost var e := EmptySlot(occupied);
    MaskedHome(ordinal, table.Length);
    slot := And(ordinal * MULTIPLIER, table.Length - 1);
    ghost var home := slot;
    NothingBefore(occupied, home);
    while table[slot].occupied
      invariant slot < table.Length && Covered(occupied, home, slot)
      decreases Distance(slot, e, table.Length)
    {
      ProbeStep(occupied, home, slot, e);
      MaskedNext(slot, table.Length);
      slot := And(slot + 1, table.Length - 1);
    }
  }
}
