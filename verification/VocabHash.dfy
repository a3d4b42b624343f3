/** build_vocab_hash and find_token of libemb.c: the probing table answers exactly like a linear search. */
module VocabHash {
  import opened Prelude
  import opened Binary
  import opened Probing

  /** hash_entry; a NULL `str` marks a vacant slot. */
  datatype Entry = Entry(str: Option<seq<byte>>, id: nat)

  const VACANT := Entry(None, 0)

  /** djb2 over `uint32_t`. */
  function Djb2(s: seq<byte>): (h: nat)
    ensures h < 0x1_0000_0000
  {
    if s == [] then 5381 else (Djb2(s[..|s| - 1]) * 33 + s[|s| - 1]) % 0x1_0000_0000
  }

  /** djb2 of the empty string, of "a" and of "ab". */
  lemma HashExamples()
    ensures Djb2([]) == 5381 && Djb2(Ascii("a")) == 177670 && Djb2(Ascii("ab")) == 5863208
  {
    assert Ascii("a") == [97] && Ascii("ab") == [97, 98];
    assert [97][..0] == [] && [97, 98][..1] == [97];
  }

  lemma WrapOnce(a: nat, b: nat)
    ensures (a % 0x1_0000_0000 + b) % 0x1_0000_0000 == (a + b) % 0x1_0000_0000
  {
  }

  /** hash_str: `((h << 5) + h) + c`, wrapping at 32 bits at every step. */
  method HashStr(str: seq<byte>) returns (h: nat)
    ensures h == Djb2(str)
  {
    h := 5381;
    var i := 0;
    while i < |str|
      invariant 0 <= i <= |str| && h == Djb2(str[..i])
    {
      assert str[..i + 1][..i] == str[..i];
      WrapOnce(h * 32, h + str[i]);
      h := (h * 32 % 0x1_0000_0000 + h + str[i]) % 0x1_0000_0000;
      i := i + 1;
    }
    assert str[..|str|] == str;
  }

  function Home(str: seq<byte>, size: nat): (h: nat)
    requires size > 0
    ensures h < size
  {
    Mod(Djb2(str), size)
  }

  /** What a linear search of the vocabulary returns: the least index holding `str`, or -1. */
  ghost predicate IsLeastIndex(vocab: seq<seq<byte>>, str: seq<byte>, r: int) {
    if r == -1 then str !in vocab
    else 0 <= r < |vocab| && vocab[r] == str && forall k :: 0 <= k < r ==> vocab[k] != str
  }

  function Occupied(slots: seq<Entry>): (r: seq<bool>)
    ensures |r| == |slots|
    ensures forall j :: 0 <= j < |slots| ==> r[j] == slots[j].str.Some?
  {
    seq(|slots|, j requires 0 <= j < |slots| => slots[j].str.Some?)
  }

  predicate At(slots: seq<Entry>, j: int) {
    0 <= j < |slots| && slots[j].str.Some?
  }

  /** Occupied slots hold distinct words of the first `n`, under their own index. */
  ghost predicate EntriesOf(slots: seq<Entry>, vocab: seq<seq<byte>>, n: nat) {
    && (forall j :: At(slots, j) ==> slots[j].id < n <= |vocab| && slots[j].str == Some(vocab[slots[j].id]))
    && (forall i, j :: At(slots, i) && At(slots, j) && slots[i].id == slots[j].id ==> i == j)
  }

  /** Word `k` has a slot. */
  ghost predicate HasSlot(slots: seq<Entry>, k: nat) {
    exists j :: At(slots, j) && slots[j].id == k
  }

  ghost predicate Complete(slots: seq<Entry>, n: nat) {
    forall k :: 0 <= k < n ==> HasSlot(slots, k)
  }

  /** The probe path to an entry is filled with entries that were inserted earlier. */
  ghost predicate PathsAscend(slots: seq<Entry>) {
    forall j, x :: At(slots, j) && 0 <= x < |slots| && Before(Home(slots[j].str.value, |slots|), x, j)
      ==> slots[x].str.Some? && slots[x].id < slots[j].id
  }

  ghost predicate Holds(slots: seq<Entry>, vocab: seq<seq<byte>>, n: nat) {
    n <= |vocab| && EntriesOf(slots, vocab, n) && Complete(slots, n) && PathsAscend(slots)
      && Count(Occupied(slots)) == n
  }

  /** No slot met before `slot` on the path from the home of `str` holds `str`. */
  ghost predicate NotBefore(slots: seq<Entry>, slot: nat, str: seq<byte>)
    requires |slots| > 0
  {
    forall x :: At(slots, x) && Before(Home(str, |slots|), x, slot) ==> slots[x].str.value != str
  }

  lemma HoldsNothing(slots: seq<Entry>, vocab: seq<seq<byte>>)
    requires forall j :: 0 <= j < |slots| ==> slots[j] == VACANT
    ensures Holds(slots, vocab, 0)
  {
    CountNone(Occupied(slots));
  }

  lemma InsertHolds(slots: seq<Entry>, vocab: seq<seq<byte>>, n: nat, h: nat)
    requires n < |vocab| && Holds(slots, vocab, n) && h < |slots| && slots[h].str.None?
    requires Covered(Occupied(slots), Home(vocab[n], |slots|), h)
    ensures Holds(slots[h := Entry(Some(vocab[n]), n)], vocab, n + 1)
  {
    var after := slots[h := Entry(Some(vocab[n]), n)];
    InsertCounts(slots, h, Entry(Some(vocab[n]), n));
    InsertAscends(slots, vocab, n, h);
    hide Home, Covered, PathsAscend, Count;
    forall k | 0 <= k < n + 1
      ensures HasSlot(after, k)
    {
      if k == n {
        assert At(after, h);
      } else {
        assert HasSlot(slots, k);
        var j :| At(slots, j) && slots[j].id == k;
        assert At(after, j);
      }
    }
  }

  lemma InsertCounts(slots: seq<Entry>, h: nat, entry: Entry)
    requires h < |slots| && slots[h].str.None? && entry.str.Some?
    ensures Count(Occupied(slots[h := entry])) == Count(Occupied(slots)) + 1
  {
    assert Occupied(slots[h := entry]) == Occupied(slots)[h := true];
    CountFill(Occupied(slots), h);
  }

  lemma InsertAscends(slots: seq<Entry>, vocab: seq<seq<byte>>, n: nat, h: nat)
    requires n < |vocab| && EntriesOf(slots, vocab, n) && PathsAscend(slots) && h < |slots| && slots[h].str.None?
    requires Covered(Occupied(slots), Home(vocab[n], |slots|), h)
    ensures PathsAscend(slots[h := Entry(Some(vocab[n]), n)])
  {
    hide Home, Before;
    var after := slots[h := Entry(Some(vocab[n]), n)];
    forall j, x | At(after, j) && 0 <= x < |after| && Before(Home(after[j].str.value, |after|), x, j)
      ensures after[x].str.Some? && after[x].id < after[j].id
    {
      if j == h {
        assert x != h by { NotBeforeItself(Home(vocab[n], |slots|), h); }
        assert At(slots, x);
      } else {
        assert At(slots, j);
      }
    }
  }

  lemma NotBeforeItself(home: nat, j: nat)
    ensures !Before(home, j, j)
  {
  }

  /** A probe for `str` that stops at a gap has proved it absent. */
  lemma GapMeansAbsent(slots: seq<Entry>, vocab: seq<seq<byte>>, slot: nat, str: seq<byte>)
    requires Holds(slots, vocab, |vocab|) && slot < |slots| && slots[slot].str.None? && NotBefore(slots, slot, str)
    ensures IsLeastIndex(vocab, str, -1)
  {
    hide Home;
    forall k | 0 <= k < |vocab|
      ensures vocab[k] != str
    {
      assert HasSlot(slots, k);
      var j :| At(slots, j) && slots[j].id == k;
    }
  }

  /** A probe for `str` that stops at an entry has found the word inserted first. */
  lemma HitIsLeast(slots: seq<Entry>, vocab: seq<seq<byte>>, slot: nat, str: seq<byte>)
    requires Holds(slots, vocab, |vocab|) && At(slots, slot) && slots[slot].str.value == str
             && NotBefore(slots, slot, str)
    ensures IsLeastIndex(vocab, str, slots[slot].id)
  {
    hide Home;
    forall k | 0 <= k < slots[slot].id
      ensures vocab[k] != str
    {
      assert HasSlot(slots, k);
      var j :| At(slots, j) && slots[j].id == k;
    }
  }

  /** The part of kc_emb_ctx_t that holds the vocabulary. */
  class Vocabulary {
    const vocab: seq<seq<byte>>
    var table: array?<Entry>

    constructor (vocab: seq<seq<byte>>)
      ensures this.vocab == vocab && table == null
    {
      this.vocab := vocab;
      table := null;
    }

    /** The table is built: 2n + 1 slots holding all n words. */
    ghost predicate Built()
      reads this, table
    {
      table != null && table.Length == 2 * |vocab| + 1 && Holds(table[..], vocab, |vocab|)
    }

    /** build_vocab_hash */
    method Build()
      modifies this
      ensures Built() && fresh(table)
    {
      hide Holds;
      var size := |vocab| * 2 + 1;
      var slots := new Entry[size](_ => VACANT);
      HoldsNothing(slots[..], vocab);
      var i := 0;
      while i < |vocab|
        invariant 0 <= i <= |vocab| && fresh(slots) && slots.Length == size
        invariant Holds(slots[..], vocab, i)
      {
        Insert(slots, vocab, i);
        i := i + 1;
      }
      table := slots;
    }

    /** find_token: the least index of `str`, or -1; before the table is built, -1. */
    method Find(str: seq<byte>) returns (r: int)
      requires table != null ==> Built()
      ensures table == null ==> r == -1
      ensures table != null ==> IsLeastIndex(vocab, str, r)
    {
      if table == null {
        return -1;
      }
      hide Holds, Home, Before, IsLeastIndex, Covered, Mod, Next, Distance;
      ghost var slots := table[..];
      HasRoom(slots, vocab, |vocab|);
      ghost var e := EmptySlot(Occupied(slots));
      var hash := HashStr(str);
      var h := Mod(hash, table.Length);
      ghost var home := h;
      HomeIs(str, |slots|);
      NothingBefore(slots, home);
      while table[h].str.Some?
        invariant 0 <= h < table.Length && table[..] == slots
        invariant Covered(Occupied(slots), home, h) && NotBefore(slots, h, str)
        decreases Distance(h, e, table.Length)
      {
        if table[h].str.value == str {
          HitIsLeast(slots, vocab, h, str);
          return table[h].id;
        }
        ProbeStep(Occupied(slots), home, h, e);
        assert Next(h, table.Length) == Mod(h + 1, table.Length);
        h := Mod(h + 1, table.Length);
      }
      GapMeansAbsent(slots, vocab, h, str);
      return -1;
    }
  }

  lemma HomeIs(str: seq<byte>, size: nat)
    requires size > 0
    ensures Home(str, size) == Mod(Djb2(str), size)
  {
  }

  lemma NothingBefore(slots: seq<Entry>, home: nat)
    ensures Covered(Occupied(slots), home, home)
    ensures forall x :: !Before(home, x, home)
  {
  }

  lemma HasRoom(slots: seq<Entry>, vocab: seq<seq<byte>>, n: nat)
    requires Holds(slots, vocab, n) && n < |slots|
    ensures Count(Occupied(slots)) < |slots|
  {
  }

  /** The body of the building loop: word `i` goes to the first gap on its path. */
  method Insert(slots: array<Entry>, vocab: seq<seq<byte>>, i: nat)
    requires i < |vocab| && slots.Length == 2 * |vocab| + 1 && Holds(slots[..], vocab, i)
    modifies slots
    ensures Holds(slots[..], vocab, i + 1)
  {
    hide Holds, Home, Before, Covered, Mod, Next, Distance;
    ghost var before := slots[..];
    HasRoom(before, vocab, i);
    ghost var e := EmptySlot(Occupied(before));
    var hash := HashStr(vocab[i]);
    var h := Mod(hash, slots.Length);
    ghost var home := h;
    HomeIs(vocab[i], |before|);
    NothingBefore(before, home);
    while slots[h].str.Some?
      invariant 0 <= h < slots.Length && slots[..] == before && Covered(Occupied(before), home, h)
      decreases Distance(h, e, slots.Length)
    {
      ProbeStep(Occupied(before), home, h, e);
      assert Next(h, slots.Length) == Mod(h + 1, slots.Length);
      h := Mod(h + 1, slots.Length);
    }
    InsertHolds(before, vocab, i, h);
    slots[h] := Entry(Some(vocab[i]), i);
    assert slots[..] == before[h := Entry(Some(vocab[i]), i)];
  }
}
