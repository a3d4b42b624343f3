/** Greedy longest-match segmentation of one word, as the WordPiece tokenizer promises it. */
module Segmentation {
  import opened Prelude
  import opened Utf8

  const MAX_CHARS := 100

  /** A pure vocabulary: the token of a C string, negative when there is none. */
  type Vocabulary = seq<byte> -> int

  /** U+2581 before the first piece of a word, "##" before the others. */
  function Prefix(from: nat): (r: seq<byte>)
    ensures |r| <= 3
  {
    if from == 0 then [0xE2, 0x96, 0x81] else [35, 35]
  }

  /** The token of `word[from..to]`: the prefixed spelling first, then the bare one. */
  function Match(vocabulary: Vocabulary, word: seq<Scalar>, from: nat, to: nat): int
    requires from <= to <= |word|
  {
    var text := EncodeAll(word[from..to]);
    var id := vocabulary(Prefix(from) + text);
    if id < 0 then vocabulary(text) else id
  }

  datatype Piece = Piece(from: nat, to: nat, id: int)

  /** The piece is the longest match at its start. */
  ghost predicate Longest(vocabulary: Vocabulary, word: seq<Scalar>, p: Piece) {
    && p.from < p.to <= |word| && p.id == Match(vocabulary, word, p.from, p.to) && p.id >= 0
    && forall e :: p.to < e <= |word| ==> Match(vocabulary, word, p.from, e) < 0
  }

  /** No piece starts at `from`. */
  ghost predicate Stuck(vocabulary: Vocabulary, word: seq<Scalar>, from: nat) {
    from < |word| && forall e :: from < e <= |word| ==> Match(vocabulary, word, from, e) < 0
  }

  /** Consecutive pieces from `from` to `end`, each the longest match where it starts. */
  ghost predicate Walk(vocabulary: Vocabulary, word: seq<Scalar>, pieces: seq<Piece>, from: nat, end: nat)
    decreases |pieces|
  {
    if pieces == [] then from == end
    else
      && pieces[0].from == from && Longest(vocabulary, word, pieces[0])
      && Walk(vocabulary, word, pieces[1..], pieces[0].to, end)
  }

  /** Greedy segmentation goes no further. */
  ghost predicate Final(vocabulary: Vocabulary, word: seq<Scalar>, end: nat) {
    end == |word| || Stuck(vocabulary, word, end)
  }

  /** A greedy tiling of the whole word. */
  ghost predicate Tiles(vocabulary: Vocabulary, word: seq<Scalar>, pieces: seq<Piece>) {
    Walk(vocabulary, word, pieces, 0, |word|)
  }

  /**
   * How a piece is looked up: with U+2581 in front at the start of the word and "##" behind it, and if the
   * vocabulary does not have that, bare.
   */
  lemma Spelling(vocabulary: Vocabulary, word: seq<Scalar>, p: Piece)
    requires Longest(vocabulary, word, p)
    ensures var text := EncodeAll(word[p.from..p.to]);
            var marked := vocabulary((if p.from == 0 then Encode(0x2581) else Encode(0x23) + Encode(0x23)) + text);
            p.id == if marked >= 0 then marked else vocabulary(text)
  {
    Markers();
    hide Encode, EncodeAll;
  }

  lemma Markers()
    ensures Encode(0x2581) == [0xE2, 0x96, 0x81] && Encode(0x23) + Encode(0x23) == [35, 35]
  {
  }

  lemma LongestIsNotShorter(vocabulary: Vocabulary, word: seq<Scalar>, p: Piece, q: Piece)
    requires Longest(vocabulary, word, p) && Longest(vocabulary, word, q) && p.from == q.from
    ensures q.to <= p.to
  {
    hide Match;
  }

  lemma LongestUnique(vocabulary: Vocabulary, word: seq<Scalar>, p: Piece, q: Piece)
    requires Longest(vocabulary, word, p) && Longest(vocabulary, word, q) && p.from == q.from
    ensures p == q
  {
    LongestIsNotShorter(vocabulary, word, p, q);
    LongestIsNotShorter(vocabulary, word, q, p);
  }

  lemma NotFinal(vocabulary: Vocabulary, word: seq<Scalar>, p: Piece)
    requires Longest(vocabulary, word, p)
    ensures !Final(vocabulary, word, p.from)
  {
    hide Match;
  }

  /** Two greedy walks from one place that cannot go on are the same walk. */
  lemma {:induction false} WalksMeet(vocabulary: Vocabulary, word: seq<Scalar>, from: nat, a: seq<Piece>, x: nat,
                                     b: seq<Piece>, y: nat)
    requires Walk(vocabulary, word, a, from, x) && Final(vocabulary, word, x)
    requires Walk(vocabulary, word, b, from, y) && Final(vocabulary, word, y)
    ensures a == b && x == y
    decreases |a|
  {
    hide Longest, Final;
    if a != [] {
      NotFinal(vocabulary, word, a[0]);
    }
    if b != [] {
      NotFinal(vocabulary, word, b[0]);
    }
    if a != [] && b != [] {
      LongestUnique(vocabulary, word, a[0], b[0]);
      WalksMeet(vocabulary, word, a[0].to, a[1..], x, b[1..], y);
      assert a == [a[0]] + a[1..] && b == [b[0]] + b[1..];
    }
  }

  lemma {:induction false} WalkSnoc(vocabulary: Vocabulary, word: seq<Scalar>, pieces: seq<Piece>, from: nat, p: Piece)
    requires Walk(vocabulary, word, pieces, from, p.from) && Longest(vocabulary, word, p)
    ensures Walk(vocabulary, word, pieces + [p], from, p.to)
    decreases |pieces|
  {
    hide Longest;
    if pieces == [] {
      assert ([] + [p])[1..] == [];
    } else {
      WalkSnoc(vocabulary, word, pieces[1..], pieces[0].to, p);
      assert (pieces + [p])[1..] == pieces[1..] + [p];
    }
  }

  function Ids(pieces: seq<Piece>): (r: seq<int>)
    ensures |r| == |pieces|
  {
    seq(|pieces|, k requires 0 <= k < |pieces| => pieces[k].id)
  }

  ghost predicate Tiled(vocabulary: Vocabulary, word: seq<Scalar>) {
    exists pieces :: Tiles(vocabulary, word, pieces)
  }

  /** Some greedy position of the word has no match. */
  ghost predicate GreedyFails(vocabulary: Vocabulary, word: seq<Scalar>) {
    exists pieces, from :: Walk(vocabulary, word, pieces, 0, from) && Stuck(vocabulary, word, from)
  }

  /** The tokens of a word: those of its greedy tiling, or the unknown token. */
  ghost function Segment(vocabulary: Vocabulary, unk: int, word: seq<Scalar>): seq<int> {
    if |word| <= MAX_CHARS && Tiled(vocabulary, word) then
      var pieces :| Tiles(vocabulary, word, pieces);
      Ids(pieces)
    else
      [unk]
  }

  lemma SegmentTiled(vocabulary: Vocabulary, unk: int, word: seq<Scalar>, pieces: seq<Piece>)
    requires |word| <= MAX_CHARS && Tiles(vocabulary, word, pieces)
    ensures Segment(vocabulary, unk, word) == Ids(pieces)
  {
    hide Walk;
    assert Tiled(vocabulary, word);
    var chosen :| Tiles(vocabulary, word, chosen) && Segment(vocabulary, unk, word) == Ids(chosen);
    WalksMeet(vocabulary, word, 0, pieces, |word|, chosen, |word|);
  }

  /** A word of at most a hundred characters that the vocabulary has behind U+2581 is one token. */
  lemma WholeWord(vocabulary: Vocabulary, unk: int, word: seq<Scalar>)
    requires 0 < |word| <= 100 && vocabulary(Encode(0x2581) + EncodeAll(word)) >= 0
    ensures Segment(vocabulary, unk, word) == [vocabulary(Encode(0x2581) + EncodeAll(word))]
  {
    hide Encode, EncodeAll, Segment, Match, Tiles, Ids;
    var id := vocabulary(Encode(0x2581) + EncodeAll(word));
    WholeMatch(vocabulary, word);
    OnePiece(vocabulary, word, Piece(0, |word|, id));
    OneId(Piece(0, |word|, id));
    SegmentTiled(vocabulary, unk, word, [Piece(0, |word|, id)]);
  }

  lemma OneId(p: Piece)
    ensures Ids([p]) == [p.id]
  {
  }

  lemma WholeMatch(vocabulary: Vocabulary, word: seq<Scalar>)
    requires vocabulary(Encode(0x2581) + EncodeAll(word)) >= 0
    ensures Match(vocabulary, word, 0, |word|) == vocabulary(Encode(0x2581) + EncodeAll(word))
  {
    Markers();
    hide Encode, EncodeAll;
    assert word[0..|word|] == word;
  }

  lemma OnePiece(vocabulary: Vocabulary, word: seq<Scalar>, p: Piece)
    requires p.from == 0 && 0 < p.to == |word| && p.id == Match(vocabulary, word, 0, |word|) >= 0
    ensures Tiles(vocabulary, word, [p])
  {
    hide Match;
    assert [p][1..] == [] && Longest(vocabulary, word, p);
    assert Walk(vocabulary, word, [], p.to, |word|);
  }

  lemma SegmentStuck(vocabulary: Vocabulary, unk: int, word: seq<Scalar>, pieces: seq<Piece>, from: nat)
    requires Walk(vocabulary, word, pieces, 0, from) && Stuck(vocabulary, word, from)
    ensures !Tiled(vocabulary, word) && Segment(vocabulary, unk, word) == [unk]
  {
    hide Walk;
    assert from != |word|;
    if Tiled(vocabulary, word) {
      var whole :| Tiles(vocabulary, word, whole);
      WalksMeet(vocabulary, word, 0, pieces, from, whole, |word|);
      assert false;
    }
  }

  /** From every greedy position the walk either completes the tiling or gets stuck. */
  lemma {:induction false} WalkEnds(vocabulary: Vocabulary, word: seq<Scalar>, from: nat)
    returns (pieces: seq<Piece>, end: nat)
    requires from <= |word|
    ensures Walk(vocabulary, word, pieces, from, end) && Final(vocabulary, word, end)
    decreases |word| - from
  {
    if from == |word| || Stuck(vocabulary, word, from) {
      pieces, end := [], from;
    } else {
      var p := LongestExists(vocabulary, word, from, |word|);
      hide Stuck;
      pieces, end := WalkEnds(vocabulary, word, p.to);
      pieces := [p] + pieces;
    }
  }

  lemma {:induction false} LongestExists(vocabulary: Vocabulary, word: seq<Scalar>, from: nat, last: nat)
    returns (p: Piece)
    requires from < last <= |word| && !Stuck(vocabulary, word, from)
    requires forall e :: last < e <= |word| ==> Match(vocabulary, word, from, e) < 0
    ensures Longest(vocabulary, word, p) && p.from == from
    decreases last
  {
    hide Match;
    if Match(vocabulary, word, from, last) >= 0 {
      p := Piece(from, last, Match(vocabulary, word, from, last));
    } else {
      assert last > from + 1;
      p := LongestExists(vocabulary, word, from, last - 1);
    }
  }

  /** The unknown token stands for exactly the overlong words and those with a greedy position without a match. */
  lemma UnknownExactly(vocabulary: Vocabulary, unk: int, word: seq<Scalar>)
    ensures |word| > 100 || GreedyFails(vocabulary, word) ==> Segment(vocabulary, unk, word) == [unk]
    ensures |word| <= 100 && !GreedyFails(vocabulary, word) ==>
              exists pieces :: Tiles(vocabulary, word, pieces) && Segment(vocabulary, unk, word) == Ids(pieces)
  {
    hide Walk, Stuck;
    if GreedyFails(vocabulary, word) {
      var pieces, from :| Walk(vocabulary, word, pieces, 0, from) && Stuck(vocabulary, word, from);
      SegmentStuck(vocabulary, unk, word, pieces, from);
    } else {
      var pieces, end := WalkEnds(vocabulary, word, 0);
      if |word| <= MAX_CHARS {
        SegmentTiled(vocabulary, unk, word, pieces);
      }
    }
  }

  /** The parts of the word the pieces cover. */
  function Covers(word: seq<Scalar>, pieces: seq<Piece>): seq<Scalar> {
    if pieces == [] then []
    else
      var p := pieces[0];
      (if p.from <= p.to <= |word| then word[p.from..p.to] else []) + Covers(word, pieces[1..])
  }

  /** The pieces spell the word, in order and without overlap. */
  lemma {:induction false} WalkCovers(vocabulary: Vocabulary, word: seq<Scalar>, pieces: seq<Piece>, from: nat,
                                      end: nat)
    requires Walk(vocabulary, word, pieces, from, end) && from <= |word|
    ensures from <= end <= |word| && Covers(word, pieces) == word[from..end]
    decreases |pieces|
  {
    hide Match;
    if pieces != [] {
      var p := pieces[0];
      WalkCovers(vocabulary, word, pieces[1..], p.to, end);
      assert word[from..end] == word[from..p.to] + word[p.to..end];
    }
  }
}
