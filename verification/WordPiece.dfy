/** kc_emb_wordpiece_tokenize: normalization, splitting into words, and truncated output. */
module WordPiece {
  import opened Prelude
  import opened Utf8
  import opened Segmentation

  const MAX_BYTES := 4 * MAX_CHARS

  /** The Unicode tables, the vocabulary and the unknown token of one call. */
  datatype Config = Config(
    spaces: Scalar -> bool, controls: Scalar -> bool, punctuation: Scalar -> bool,
    fold: Scalar -> Option<seq<Scalar>>, vocabulary: Vocabulary, unk: int)

  predicate IsSpace(t: Config, cp: Scalar) {
    cp == 32 || cp == 9 || cp == 10 || cp == 13 || t.spaces(cp)
  }

  predicate IsControl(t: Config, cp: Scalar) {
    cp != 9 && cp != 10 && cp != 13 && t.controls(cp)
  }

  predicate IsPunctuation(t: Config, cp: Scalar) {
    33 <= cp <= 47 || 58 <= cp <= 64 || 91 <= cp <= 96 || 123 <= cp <= 126 || t.punctuation(cp)
  }

  predicate IsChinese(cp: Scalar) {
    || 0x4E00 <= cp <= 0x9FFF || 0x3400 <= cp <= 0x4DBF || 0x20000 <= cp <= 0x2A6DF || 0x2A700 <= cp <= 0x2B73F
    || 0x2B740 <= cp <= 0x2B81F || 0x2B820 <= cp <= 0x2CEAF || 0xF900 <= cp <= 0xFAFF || 0x2F800 <= cp <= 0x2FA1F
  }

  // ---------- the unbounded token stream ----------

  /** What one normalized character does to the word being collected. */
  datatype Item = Letter(cp: Scalar) | Alone(cp: Scalar) | Break | Special(id: int)

  function CharacterItems(t: Config, cp: Scalar): seq<Item> {
    if IsSpace(t, cp) then [Break]
    else if cp == 0 || cp == REPLACEMENT || IsControl(t, cp) then []
    else if IsPunctuation(t, cp) || IsChinese(cp) then [Alone(cp)]
    else [Letter(cp)]
  }

  function FoldedItems(t: Config, cps: seq<Scalar>): seq<Item> {
    if cps == [] then [] else CharacterItems(t, cps[0]) + FoldedItems(t, cps[1..])
  }

  /** The items of one decoded character of the input. */
  function InputItems(t: Config, cp: Scalar): seq<Item> {
    if cp == 0 || cp == REPLACEMENT || IsControl(t, cp) then []
    else if IsSpace(t, cp) then [Break]
    else
      var folded := t.fold(cp);
      FoldedItems(t, if folded.Some? then folded.value else [cp])
  }

  /** "[UNK]", "[CLS]", "[SEP]", "[PAD]", "[MASK]". */
  const SPECIALS: seq<seq<byte>> := [
    [91, 85, 78, 75, 93], [91, 67, 76, 83, 93], [91, 83, 69, 80, 93], [91, 80, 65, 68, 93], [91, 77, 65, 83, 75, 93]]

  predicate Spelled(text: seq<byte>, at: nat, special: seq<byte>) {
    at + |special| <= |text| && text[at..at + |special|] == special
  }

  /** The special token spelled at `at`, if the vocabulary has it: its identifier and length. */
  function SpecialAt(t: Config, text: seq<byte>, at: nat, k: nat): (r: Option<(int, nat)>)
    requires k <= |SPECIALS|
    ensures r.Some? ==> r.value.1 > 0 && at + r.value.1 <= |text| && r.value.0 >= 0
    decreases |SPECIALS| - k
  {
    if k == |SPECIALS| then None
    else if Spelled(text, at, SPECIALS[k]) && t.vocabulary(SPECIALS[k]) >= 0
      then Some((t.vocabulary(SPECIALS[k]), |SPECIALS[k]|))
    else SpecialAt(t, text, at, k + 1)
  }

  ghost function Items(t: Config, text: seq<byte>, cursor: nat): seq<Item>
    requires cursor <= |text|
    decreases |text| - cursor
  {
    if cursor == |text| then []
    else
      var special := SpecialAt(t, text, cursor, 0);
      if special.Some? then [Special(special.value.0)] + Items(t, text, cursor + special.value.1)
      else
        var (cp, next) := LenientAt(text, cursor);
        InputItems(t, cp) + Items(t, text, next)
  }

  datatype Unit = Word(letters: seq<Scalar>) | Token(id: int)

  function Ended(word: seq<Scalar>): seq<Unit> {
    if word == [] then [] else [Word(word)]
  }

  /** What an item completes when `word` is being collected. */
  function Completed(item: Item, word: seq<Scalar>): seq<Unit> {
    match item
    case Letter(_) => []
    case Break => Ended(word)
    case Alone(cp) => Ended(word) + [Word([cp])]
    case Special(id) => Ended(word) + [Token(id)]
  }

  function Collecting(item: Item, word: seq<Scalar>): seq<Scalar> {
    if item.Letter? then word + [item.cp] else []
  }

  /** The words and special tokens of an item stream that continues `word`. */
  function Units(items: seq<Item>, word: seq<Scalar>): seq<Unit> {
    if items == [] then Ended(word)
    else Completed(items[0], word) + Units(items[1..], Collecting(items[0], word))
  }

  ghost function UnitTokens(t: Config, unit: Unit): seq<int> {
    match unit
    case Word(letters) => Segment(t.vocabulary, t.unk, letters)
    case Token(id) => [id]
  }

  ghost function TokensOf(t: Config, units: seq<Unit>): seq<int> {
    if units == [] then [] else UnitTokens(t, units[0]) + TokensOf(t, units[1..])
  }

  /** Every token of the text, without specials around it and without a limit. */
  ghost function Body(t: Config, text: seq<byte>): seq<int> {
    TokensOf(t, Units(Items(t, text, 0), []))
  }

  lemma {:induction false} TokensOfSplit(t: Config, a: seq<Unit>, b: seq<Unit>)
    ensures TokensOf(t, a + b) == TokensOf(t, a) + TokensOf(t, b)
  {
    hide UnitTokens;
    if a == [] {
      assert a + b == b;
    } else {
      assert (a + b)[1..] == a[1..] + b;
      TokensOfSplit(t, a[1..], b);
    }
  }

  lemma OneUnit(t: Config, unit: Unit)
    ensures TokensOf(t, [unit]) == UnitTokens(t, unit)
  {
    hide UnitTokens;
    assert [unit][1..] == [];
  }

  /** The tokens that remain when `items` are still to come. */
  ghost function Remaining(t: Config, items: seq<Item>, word: seq<Scalar>): seq<int> {
    TokensOf(t, Units(items, word))
  }

  lemma RemainingStep(t: Config, item: Item, items: seq<Item>, word: seq<Scalar>)
    ensures Remaining(t, [item] + items, word)
         == TokensOf(t, Completed(item, word)) + Remaining(t, items, Collecting(item, word))
  {
    hide Completed, Collecting, TokensOf;
    assert ([item] + items)[1..] == items;
    TokensOfSplit(t, Completed(item, word), Units(items, Collecting(item, word)));
  }

  // ---------- nothing is lost between the input and the words ----------

  function ItemLetters(items: seq<Item>): seq<Scalar> {
    if items == [] then []
    else (if items[0].Letter? || items[0].Alone? then [items[0].cp] else []) + ItemLetters(items[1..])
  }

  function UnitLetters(units: seq<Unit>): seq<Scalar> {
    if units == [] then [] else (if units[0].Word? then units[0].letters else []) + UnitLetters(units[1..])
  }

  lemma {:induction false} UnitLettersSplit(a: seq<Unit>, b: seq<Unit>)
    ensures UnitLetters(a + b) == UnitLetters(a) + UnitLetters(b)
  {
    if a == [] {
      assert a + b == b;
    } else {
      assert (a + b)[1..] == a[1..] + b;
      UnitLettersSplit(a[1..], b);
    }
  }

  lemma CompletedLetters(item: Item, word: seq<Scalar>)
    ensures UnitLetters(Completed(item, word)) + Collecting(item, word)
         == word + if item.Letter? || item.Alone? then [item.cp] else []
  {
    assert UnitLetters(Ended(word)) == word by {
      if word != [] {
        assert [Word(word)][1..] == [];
      }
    }
    if item.Alone? {
      UnitLettersSplit(Ended(word), [Word([item.cp])]);
      assert [Word([item.cp])][1..] == [];
    } else if item.Special? {
      UnitLettersSplit(Ended(word), [Token(item.id)]);
      assert [Token(item.id)][1..] == [];
    }
  }

  lemma UnitsStep(items: seq<Item>, word: seq<Scalar>)
    requires items != []
    ensures Units(items, word) == Completed(items[0], word) + Units(items[1..], Collecting(items[0], word))
    ensures ItemLetters(items)
         == (if items[0].Letter? || items[0].Alone? then [items[0].cp] else []) + ItemLetters(items[1..])
  {
  }

  lemma NoMoreItems(word: seq<Scalar>)
    ensures UnitLetters(Units([], word)) == word == word + ItemLetters([])
  {
    if word != [] {
      assert [Word(word)][1..] == [];
    }
  }

  /** The words spell the normalized characters in order: nothing is lost, repeated or moved. */
  lemma {:induction false} WordsSpellTheText(items: seq<Item>, word: seq<Scalar>)
    ensures UnitLetters(Units(items, word)) == word + ItemLetters(items)
    decreases |items|
  {
    hide Units, UnitLetters, ItemLetters, Completed, Collecting;
    if items == [] {
      NoMoreItems(word);
    } else {
      var done, next := Completed(items[0], word), Collecting(items[0], word);
      WordsSpellTheText(items[1..], next);
      CompletedLetters(items[0], word);
      UnitLettersSplit(done, Units(items[1..], next));
      UnitsStep(items, word);
      var letter := if items[0].Letter? || items[0].Alone? then [items[0].cp] else [];
      Regroup(UnitLetters(done), next, ItemLetters(items[1..]));
      Regroup(word, letter, ItemLetters(items[1..]));
    }
  }

  // ---------- the word buffer ----------

  /** The string a NUL-terminated buffer holds. */
  function CString(buffer: seq<byte>): seq<byte> {
    if buffer == [] || buffer[0] == 0 then [] else [buffer[0]] + CString(buffer[1..])
  }

  lemma {:induction false} CStringStops(s: seq<byte>, rest: seq<byte>)
    requires 0 !in s
    ensures CString(s + [0] + rest) == s
  {
    if s != [] {
      assert (s + [0] + rest)[1..] == s[1..] + [0] + rest;
      CStringStops(s[1..], rest);
    }
  }

  /** `bytes` begins with the encoding of `word`, and `offsets` says where each of its characters begins and ends. */
  ghost predicate Encoded(bytes: seq<byte>, length: nat, offsets: seq<nat>, word: seq<Scalar>) {
    && length <= |bytes| && bytes[..length] == EncodeAll(word)
    && |word| < |offsets| && forall k :: 0 <= k <= |word| ==> offsets[k] == |EncodeAll(word[..k])|
  }

  lemma EncodedSnoc(bytes: seq<byte>, length: nat, offsets: seq<nat>, word: seq<Scalar>, cp: Scalar,
                    bytes': seq<byte>, length': nat, offsets': seq<nat>)
    requires Encoded(bytes, length, offsets, word) && |word| + 1 < |offsets|
    requires length' == length + |Encode(cp)| <= |bytes'| && bytes'[..length'] == bytes[..length] + Encode(cp)
    requires offsets' == offsets[|word| + 1 := length']
    ensures Encoded(bytes', length', offsets', word + [cp])
  {
    hide Encode, EncodeAll;
    EncodeAllSnoc(word, cp);
    var longer := word + [cp];
    forall k | 0 <= k <= |longer|
      ensures offsets'[k] == |EncodeAll(longer[..k])|
    {
      if k <= |word| {
        assert longer[..k] == word[..k];
      } else {
        assert longer[..k] == longer;
      }
    }
  }

  /** word_buffer_t */
  class WordBuffer {
    const bytes: array<byte>
    const offsets: array<nat>
    var length: nat
    var chars: nat
    var tooLong: bool
    // The characters in the buffer, and those that came after it was full.
    ghost var kept: seq<Scalar>
    ghost var dropped: seq<Scalar>

    ghost predicate Valid()
      reads this, bytes, offsets
    {
      && bytes.Length == MAX_BYTES + 1 && offsets.Length == MAX_CHARS + 1
      && chars == |kept| <= MAX_CHARS && Encoded(bytes[..], length, offsets[..], kept)
      && (dropped != [] ==> chars == MAX_CHARS) && tooLong == (dropped != [])
      && 0 !in kept && 0 !in dropped
    }

    /** Every character added since the last reset. */
    ghost function All(): seq<Scalar>
      reads this
    {
      kept + dropped
    }

    constructor ()
      ensures Valid() && All() == [] && fresh(bytes) && fresh(offsets)
    {
      bytes := new byte[MAX_BYTES + 1];
      offsets := new nat[MAX_CHARS + 1];
      new;
      Reset();
    }

    /** word_init */
    method Reset()
      requires bytes.Length == MAX_BYTES + 1 && offsets.Length == MAX_CHARS + 1
      modifies this, offsets
      ensures Valid() && All() == []
    {
      length, chars, tooLong, kept, dropped := 0, 0, false, [], [];
      offsets[0] := 0;
      assert EncodeAll([]) == [];
    }

    /** word_add: the hundred-and-first character marks the word as too long. */
    method Add(cp: Scalar)
      requires Valid() && cp != 0
      modifies this, bytes, offsets
      ensures Valid() && All() == old(All()) + [cp]
    {
      if tooLong {
        dropped := dropped + [cp];
        return;
      }
      if chars >= MAX_CHARS {
        tooLong, dropped := true, [cp];
        return;
      }
      Store(cp);
    }

    method Store(cp: Scalar)
      requires Valid() && cp != 0 && !tooLong && chars < MAX_CHARS
      modifies this, bytes, offsets
      ensures Valid() && kept == old(kept) + [cp] && dropped == []
    {
      hide Encode, EncodeAll, Encoded;
      ghost var bytesBefore, offsetsBefore := bytes[..], offsets[..];
      RoomForOne(bytesBefore, length, offsetsBefore, kept);
      var octets := Encode(cp);
      var start := length;
      forall i | 0 <= i < |octets| {
        bytes[start + i] := octets[i];
      }
      length := start + |octets|;
      assert bytes[..][..length] == bytesBefore[..start] + octets;
      chars := chars + 1;
      offsets[chars] := length;
      assert offsets[..] == offsetsBefore[chars := length];
      EncodedSnoc(bytesBefore, start, offsetsBefore, kept, cp, bytes[..], length, offsets[..]);
      kept := kept + [cp];
    }

    /** What the buffer says about the word it collects. */
    lemma Letters()
      requires Valid()
      ensures 0 !in All() && (!tooLong ==> chars == |All()| <= MAX_CHARS && kept == All())
      ensures tooLong ==> |All()| > MAX_CHARS
    {
    }
  }

  lemma RoomForOne(bytes: seq<byte>, length: nat, offsets: seq<nat>, word: seq<Scalar>)
    requires Encoded(bytes, length, offsets, word)
    ensures length <= 4 * |word|
  {
  }

  lemma EncodeSlice(word: seq<Scalar>, start: nat, end: nat)
    requires start <= end <= |word|
    ensures var text := EncodeAll(word);
            && |EncodeAll(word[..start])| <= |EncodeAll(word[..end])| <= |text|
            && text[|EncodeAll(word[..start])|..|EncodeAll(word[..end])|] == EncodeAll(word[start..end])
  {
    hide EncodeAll;
    EncodeAllSplit(word[..start], word[start..end]);
    assert word[..start] + word[start..end] == word[..end];
    EncodeAllSplit(word[..end], word[end..]);
    assert word[..end] + word[end..] == word;
  }

  /** Where a part of the word lies in the buffer. */
  lemma PartOf(bytes: seq<byte>, length: nat, offsets: seq<nat>, word: seq<Scalar>, start: nat, end: nat)
    requires Encoded(bytes, length, offsets, word) && start <= end <= |word|
    ensures offsets[start] <= offsets[end] <= length <= |bytes|
    ensures bytes[offsets[start]..offsets[end]] == EncodeAll(word[start..end])
    ensures offsets[end] - offsets[start] <= 4 * (end - start)
  {
    hide EncodeAll;
    EncodeSlice(word, start, end);
    SliceOfPrefix(bytes, length, offsets[start], offsets[end]);
  }

  /** A candidate in its buffer of 404 octets: prefix, text and terminator always fit. */
  method Candidate(prefix: seq<byte>, part: seq<byte>) returns (text: seq<byte>)
    requires |prefix| <= 3 && |part| <= MAX_BYTES && 0 !in prefix && 0 !in part
    ensures text == prefix + part
  {
    var candidate := new byte[MAX_BYTES + 4];
    forall i | 0 <= i < |prefix| {
      candidate[i] := prefix[i];
    }
    forall i | 0 <= i < |part| {
      candidate[|prefix| + i] := part[i];
    }
    candidate[|prefix| + |part|] := 0;
    ghost var rest := candidate[|prefix| + |part| + 1..];
    assert candidate[..] == prefix + part + [0] + rest;
    CStringStops(prefix + part, rest);
    text := CString(candidate[..]);
  }

  /** The candidate for the characters from `start` to `end` of the buffered word. */
  method Spell(word: WordBuffer, prefix: seq<byte>, start: nat, end: nat) returns (text: seq<byte>)
    requires word.Valid() && start <= end <= word.chars && |prefix| <= 3 && 0 !in prefix
    ensures text == prefix + EncodeAll(word.kept[start..end])
  {
    PartOf(word.bytes[..], word.length, word.offsets[..], word.kept, start, end);
    NonzeroEncoding(word.kept[start..end]);
    hide Encoded, EncodeAll;
    var from, until := word.offsets[start], word.offsets[end];
    assert word.bytes[from..until] == word.bytes[..][from..until];
    text := Candidate(prefix, word.bytes[from..until]);
  }

  /** The inner loop of word_flush: the longest match at `start`, or a negative token when there is none. */
  method LongestMatch(t: Config, word: WordBuffer, start: nat) returns (found: int, matchEnd: nat)
    requires word.Valid() && !word.tooLong && start < word.chars
    ensures found >= 0 ==> Longest(t.vocabulary, word.All(), Piece(start, matchEnd, found))
    ensures found < 0 ==> Stuck(t.vocabulary, word.All(), start)
  {
    hide WordBuffer.Valid, EncodeAll, Encoded;
    ghost var all := word.All();
    word.Letters();
    var end := word.chars;
    found, matchEnd := -1, start;
    while end > start
      invariant start <= end <= word.chars && found < 0
      invariant forall e :: end < e <= |all| ==> Match(t.vocabulary, all, start, e) < 0
    {
      var prefixed := Spell(word, Prefix(start), start, end);
      found := t.vocabulary(prefixed);
      if found < 0 {
        var bare := Spell(word, [], start, end);
        assert bare == EncodeAll(all[start..end]);
        found := t.vocabulary(bare);
      }
      if found >= 0 {
        return found, end;
      }
      end := end - 1;
    }
  }

  /** The outer loop of word_flush: the pieces of the word, or None for the unknown token. */
  method Pieces(t: Config, word: WordBuffer) returns (pieces: Option<seq<int>>)
    requires word.Valid() && !word.tooLong
    ensures pieces.Some? ==> pieces.value == Segment(t.vocabulary, t.unk, word.All()) && |pieces.value| <= MAX_CHARS
    ensures pieces.None? ==> Segment(t.vocabulary, t.unk, word.All()) == [t.unk]
  {
    hide WordBuffer.Valid, Longest, Stuck, Walk;
    word.Letters();
    ghost var walk: seq<Piece> := [];
    var ids: seq<int> := [];
    var start: nat := 0;
    NoPieces(t.vocabulary, word.All());
    while start < word.chars
      invariant start <= word.chars && |ids| <= start
      invariant Walk(t.vocabulary, word.All(), walk, 0, start) && ids == Ids(walk)
      decreases word.chars - start
    {
      var found, matchEnd := LongestMatch(t, word, start);
      if found < 0 {
        SegmentStuck(t.vocabulary, t.unk, word.All(), walk, start);
        return None;
      }
      LongestBounds(t.vocabulary, word.All(), Piece(start, matchEnd, found));
      WalkSnoc(t.vocabulary, word.All(), walk, 0, Piece(start, matchEnd, found));
      walk := walk + [Piece(start, matchEnd, found)];
      ids := ids + [found];
      start := matchEnd;
    }
    SegmentTiled(t.vocabulary, t.unk, word.All(), walk);
    return Some(ids);
  }

  lemma NoPieces(vocabulary: Vocabulary, word: seq<Scalar>)
    ensures Walk(vocabulary, word, [], 0, 0)
  {
  }

  lemma LongestBounds(vocabulary: Vocabulary, word: seq<Scalar>, p: Piece)
    requires Longest(vocabulary, word, p)
    ensures p.from < p.to <= |word|
  {
  }

  // ---------- the output array ----------

  function Take(s: seq<int>, n: nat): seq<int> {
    if |s| <= n then s else s[..n]
  }

  /** The token array of the caller, with the unbounded stream it holds the beginning of. */
  class Output {
    const tokens: array<int>
    const capacity: nat
    const cls: int
    var count: nat
    ghost var stream: seq<int>

    ghost predicate Valid()
      reads this, tokens
    {
      && 2 <= capacity <= tokens.Length && 1 <= count <= capacity - 1
      && tokens[..count] == [cls] + Take(stream, capacity - 2)
    }

    constructor (tokens: array<int>, capacity: nat, cls: int)
      requires 2 <= capacity <= tokens.Length
      ensures this.tokens == tokens && this.capacity == capacity && this.cls == cls && count == 0 && stream == []
    {
      this.tokens, this.capacity, this.cls, count, stream := tokens, capacity, cls, 0, [];
    }

    /** The classification token comes first. */
    method Open()
      requires 2 <= capacity <= tokens.Length && count == 0 && stream == []
      modifies this, tokens
      ensures Valid() && stream == []
      ensures tokens[1..] == old(tokens[1..])
    {
      tokens[count] := cls;
      count := count + 1;
    }

    /** `tokens[(*count)++] = id` */
    method Push(id: int)
      requires Valid() && count < capacity - 1
      modifies this, tokens
      ensures Valid() && stream == old(stream) + [id]
      ensures tokens[capacity - 1..] == old(tokens[capacity - 1..])
    {
      ghost var before := tokens[..count];
      tokens[count] := id;
      count := count + 1;
      stream := stream + [id];
      assert tokens[..count] == before + [id];
    }

    lemma Room()
      requires Valid()
      ensures count <= capacity - 1 && 2 <= capacity <= tokens.Length
    {
    }

    /** A full array already holds what the whole stream would leave in it. */
    lemma Full(body: seq<int>)
      requires Valid() && count >= capacity - 1 && stream <= body
      ensures Take(stream, capacity - 2) == Take(body, capacity - 2)
    {
    }

    /** A full array: further tokens belong to the stream but are not stored. */
    ghost method Pass(ids: seq<int>)
      requires Valid() && count >= capacity - 1
      modifies `stream
      ensures Valid() && stream == old(stream) + ids
    {
      stream := stream + ids;
    }

    /** The pieces of a word, as far as there is room. */
    method PushAll(ids: seq<int>)
      requires Valid()
      modifies this, tokens
      ensures Valid() && stream == old(stream) + ids
      ensures tokens[capacity - 1..] == old(tokens[capacity - 1..])
    {
      Room();
      hide Valid;
      ghost var start, limit := stream, tokens[capacity - 1..];
      var i := 0;
      while i < |ids| && count < capacity - 1
        invariant 0 <= i <= |ids| && Valid() && stream == start + ids[..i]
        invariant tokens[capacity - 1..] == limit
      {
        Push(ids[i]);
        assert ids[..i + 1] == ids[..i] + [ids[i]];
        i := i + 1;
      }
      if i < |ids| {
        Pass(ids[i..]);
      }
      assert ids[..i] + ids[i..] == ids;
    }
  }

  // ---------- the tokenizer ----------

  /** word_flush: the word is emitted, as far as there is room, and forgotten. */
  method Flush(t: Config, word: WordBuffer, out: Output)
    requires word.Valid() && out.Valid()
    modifies word, word.offsets, out, out.tokens
    ensures word.Valid() && word.All() == [] && out.Valid()
    ensures out.stream == old(out.stream) + TokensOf(t, Ended(old(word.All())))
    ensures out.tokens[out.capacity - 1..] == old(out.tokens[out.capacity - 1..])
  {
    hide Output.Valid, Segment, Encoded;
    word.Letters();
    EndedTokens(t, word.All());
    if word.chars == 0 && !word.tooLong {
      return;
    }
    out.Room();
    if out.count >= out.capacity - 1 {
      out.Pass(Segment(t.vocabulary, t.unk, word.All()));
      word.Reset();
      return;
    }
    var pieces: Option<seq<int>> := None;
    if !word.tooLong {
      pieces := Pieces(t, word);
    }
    if pieces.Some? {
      out.PushAll(pieces.value);
    } else {
      OverlongIsUnknown(t, word.All());
      out.Push(t.unk);
    }
    word.Reset();
  }

  lemma EndedTokens(t: Config, word: seq<Scalar>)
    ensures TokensOf(t, Ended(word)) == if word == [] then [] else Segment(t.vocabulary, t.unk, word)
  {
    hide Segment;
    assert TokensOf(t, []) == [];
    if word != [] {
      OneUnit(t, Word(word));
    }
  }

  lemma OverlongIsUnknown(t: Config, word: seq<Scalar>)
    ensures |word| > MAX_CHARS ==> Segment(t.vocabulary, t.unk, word) == [t.unk]
  {
  }

  /** What processing `items` with `word` in the buffer has emitted, and the word left in the buffer. */
  ghost predicate Processed(t: Config, items: seq<Item>, before: seq<int>, word: seq<Scalar>, after: seq<int>,
                            left: seq<Scalar>)
  {
    forall rest :: after + Remaining(t, rest, left) == before + Remaining(t, items + rest, word)
  }

  lemma ProcessedNothing(t: Config, before: seq<int>, word: seq<Scalar>)
    ensures Processed(t, [], before, word, before, word)
  {
    forall rest: seq<Item>
      ensures before + Remaining(t, rest, word) == before + Remaining(t, [] + rest, word)
    {
      assert [] + rest == rest;
    }
  }

  lemma ProcessedOne(t: Config, item: Item, before: seq<int>, word: seq<Scalar>)
    ensures Processed(t, [item], before, word, before + TokensOf(t, Completed(item, word)), Collecting(item, word))
  {
    hide Completed, Collecting, TokensOf, Remaining;
    forall rest
      ensures before + TokensOf(t, Completed(item, word)) + Remaining(t, rest, Collecting(item, word))
           == before + Remaining(t, [item] + rest, word)
    {
      RemainingStep(t, item, rest, word);
      Regroup(before, TokensOf(t, Completed(item, word)), Remaining(t, rest, Collecting(item, word)));
    }
  }

  lemma ProcessedMore(t: Config, a: seq<Item>, b: seq<Item>, before: seq<int>, word: seq<Scalar>,
                      middle: seq<int>, held: seq<Scalar>, after: seq<int>, left: seq<Scalar>)
    requires Processed(t, a, before, word, middle, held) && Processed(t, b, middle, held, after, left)
    ensures Processed(t, a + b, before, word, after, left)
  {
    hide Remaining;
    forall rest
      ensures after + Remaining(t, rest, left) == before + Remaining(t, (a + b) + rest, word)
    {
      assert after + Remaining(t, rest, left) == middle + Remaining(t, b + rest, held);
      assert middle + Remaining(t, b + rest, held) == before + Remaining(t, a + (b + rest), word);
      assert a + (b + rest) == (a + b) + rest;
    }
  }

  lemma AloneTokens(t: Config, cp: Scalar, word: seq<Scalar>)
    ensures TokensOf(t, Completed(Alone(cp), word)) == TokensOf(t, Ended(word)) + TokensOf(t, Ended([cp]))
  {
    TokensOfSplit(t, Ended(word), [Word([cp])]);
  }

  lemma SpecialTokens(t: Config, id: int, word: seq<Scalar>)
    ensures TokensOf(t, Completed(Special(id), word)) == TokensOf(t, Ended(word)) + [id]
  {
    TokensOfSplit(t, Ended(word), [Token(id)]);
    OneUnit(t, Token(id));
  }

  lemma LetterTokens(t: Config, cp: Scalar, word: seq<Scalar>)
    ensures TokensOf(t, Completed(Letter(cp), word)) == []
  {
  }

  /** emit_character */
  method EmitCharacter(t: Config, cp: Scalar, word: WordBuffer, out: Output)
    requires word.Valid() && out.Valid()
    modifies word, word.bytes, word.offsets, out, out.tokens
    ensures word.Valid() && out.Valid()
    ensures Processed(t, CharacterItems(t, cp), old(out.stream), old(word.All()), out.stream, word.All())
    ensures out.tokens[out.capacity - 1..] == old(out.tokens[out.capacity - 1..])
  {
    hide WordBuffer.Valid, Output.Valid, Processed, TokensOf, IsSpace, IsControl, IsPunctuation, IsChinese;
    ghost var before, collected := out.stream, word.All();
    if IsSpace(t, cp) || cp == 0 || cp == REPLACEMENT || IsControl(t, cp) {
      if IsSpace(t, cp) {
        ProcessedOne(t, Break, before, collected);
        Flush(t, word, out);
      } else {
        ProcessedNothing(t, before, collected);
      }
      return;
    }
    if IsPunctuation(t, cp) || IsChinese(cp) {
      ProcessedOne(t, Alone(cp), before, collected);
      AloneTokens(t, cp, collected);
      Flush(t, word, out);
      word.Add(cp);
      assert word.All() == [cp];
      Regroup(before, TokensOf(t, Ended(collected)), TokensOf(t, Ended([cp])));
      Flush(t, word, out);
      return;
    }
    ProcessedOne(t, Letter(cp), before, collected);
    LetterTokens(t, cp, collected);
    assert before + [] == before;
    word.Add(cp);
  }

  /** The characters a decoded character folds to, one by one. */
  method EmitFolded(t: Config, folded: seq<Scalar>, word: WordBuffer, out: Output)
    requires word.Valid() && out.Valid()
    modifies word, word.bytes, word.offsets, out, out.tokens
    ensures word.Valid() && out.Valid()
    ensures Processed(t, FoldedItems(t, folded), old(out.stream), old(word.All()), out.stream, word.All())
    ensures out.tokens[out.capacity - 1..] == old(out.tokens[out.capacity - 1..])
  {
    hide WordBuffer.Valid, Output.Valid, Processed, CharacterItems, FoldedItems, WordBuffer.All;
    ghost var before, collected := out.stream, word.All();
    out.Room();
    ghost var limit := out.tokens[out.capacity - 1..];
    var i := 0;
    ProcessedNothing(t, before, collected);
    NothingFolded(t);
    assert folded[..0] == [];
    while i < |folded|
      invariant 0 <= i <= |folded| && word.Valid() && out.Valid()
      invariant Processed(t, FoldedItems(t, folded[..i]), before, collected, out.stream, word.All())
      invariant out.tokens[out.capacity - 1..] == limit
    {
      ghost var middle, held := out.stream, word.All();
      EmitCharacter(t, folded[i], word, out);
      ProcessedMore(t, FoldedItems(t, folded[..i]), CharacterItems(t, folded[i]), before, collected, middle, held,
                    out.stream, word.All());
      FoldedSnoc(t, folded[..i], folded[i]);
      assert folded[..i + 1] == folded[..i] + [folded[i]];
      i := i + 1;
    }
    assert folded[..|folded|] == folded;
  }

  lemma NothingFolded(t: Config)
    ensures FoldedItems(t, []) == []
  {
  }

  lemma {:induction false} FoldedSnoc(t: Config, cps: seq<Scalar>, cp: Scalar)
    ensures FoldedItems(t, cps + [cp]) == FoldedItems(t, cps) + CharacterItems(t, cp)
  {
    hide CharacterItems;
    if cps == [] {
      assert [cp][1..] == [];
    } else {
      assert (cps + [cp])[1..] == cps[1..] + [cp];
      FoldedSnoc(t, cps[1..], cp);
    }
  }

  /** The loop over the special spellings. */
  method FindSpecial(t: Config, text: seq<byte>, at: nat) returns (r: Option<(int, nat)>)
    requires at < |text|
    ensures r == SpecialAt(t, text, at, 0)
  {
    var k := 0;
    while k < |SPECIALS|
      invariant 0 <= k <= |SPECIALS| && SpecialAt(t, text, at, k) == SpecialAt(t, text, at, 0)
    {
      var n := |SPECIALS[k]|;
      if n <= |text| - at && text[at..at + n] == SPECIALS[k] {
        var id := t.vocabulary(SPECIALS[k]);
        if id >= 0 {
          return Some((id, n));
        }
      }
      k := k + 1;
    }
    return None;
  }

  /** Every special spelling begins with '['. */
  lemma {:induction false} OnlyAfterBracket(t: Config, text: seq<byte>, at: nat, k: nat)
    requires at < |text| && text[at] != 91 && k <= |SPECIALS|
    ensures SpecialAt(t, text, at, k) == None
    decreases |SPECIALS| - k
  {
    if k < |SPECIALS| {
      OnlyAfterBracket(t, text, at, k + 1);
      NotSpelled(text, at, SPECIALS[k]);
    }
  }

  lemma NotSpelled(text: seq<byte>, at: nat, special: seq<byte>)
    requires at < |text| && special != [] && special[0] != text[at]
    ensures !Spelled(text, at, special)
  {
    if at + |special| <= |text| {
      assert text[at..at + |special|][0] == text[at];
    }
  }

  /** One round of the main loop: a special token, or one character of the input. */
  method Advance(t: Config, text: seq<byte>, cursor: nat, word: WordBuffer, out: Output)
    returns (next: nat, ghost items: seq<Item>)
    requires word.Valid() && out.Valid() && cursor < |text|
    modifies word, word.bytes, word.offsets, out, out.tokens
    ensures word.Valid() && out.Valid() && cursor < next <= |text|
    ensures Items(t, text, cursor) == items + Items(t, text, next)
    ensures Processed(t, items, old(out.stream), old(word.All()), out.stream, word.All())
    ensures out.tokens[out.capacity - 1..] == old(out.tokens[out.capacity - 1..])
  {
    hide WordBuffer.Valid, Output.Valid, Processed, LenientAt, FoldedItems, TokensOf, SpecialAt, WordBuffer.All;
    ghost var before, collected := out.stream, word.All();
    if text[cursor] == 91 {
      var special := FindSpecial(t, text, cursor);
      if special.Some? {
        var (id, n) := special.value;
        SpecialFits(t, text, cursor);
        ProcessedOne(t, Special(id), before, collected);
        SpecialTokens(t, id, collected);
        Flush(t, word, out);
        Regroup(before, TokensOf(t, Ended(collected)), [id]);
        out.Room();
        if out.count < out.capacity - 1 {
          out.Push(id);
        } else {
          out.Pass([id]);
        }
        return cursor + n, [Special(id)];
      }
    } else {
      OnlyAfterBracket(t, text, cursor, 0);
    }
    var cp;
    cp, next := DecodeLenient(text, cursor);
    items := InputItems(t, cp);
    if cp == 0 || cp == REPLACEMENT || IsControl(t, cp) {
      ProcessedNothing(t, before, collected);
      return;
    }
    if IsSpace(t, cp) {
      ProcessedOne(t, Break, before, collected);
      Flush(t, word, out);
      return;
    }
    var folded := t.fold(cp);
    EmitFolded(t, if folded.Some? then folded.value else [cp], word, out);
  }

  lemma SpecialFits(t: Config, text: seq<byte>, at: nat)
    ensures var r := SpecialAt(t, text, at, 0); r.Some? ==> r.value.1 > 0 && at + r.value.1 <= |text|
  {
  }

  /**
   * kc_emb_wordpiece_tokenize: the classification token, the first `capacity - 2` tokens of the whole
   * text's stream, and the separator; nothing at all below a capacity of two.
   */
  method Tokenize(t: Config, text: seq<byte>, tokens: array<int>, capacity: int, cls: int, sep: int)
    returns (count: nat)
    requires IsCString(text) && capacity <= tokens.Length
    modifies tokens
    ensures count == if capacity < 2 then 0 else |Take(Body(t, text), capacity - 2)| + 2
    ensures count <= tokens.Length
    ensures capacity >= 2 ==> count <= capacity && tokens[..count] == [cls] + Take(Body(t, text), capacity - 2) + [sep]
    ensures capacity < 2 ==> tokens[..] == old(tokens[..])
    ensures capacity >= 2 ==> tokens[capacity..] == old(tokens[capacity..])
  {
    if capacity < 2 {
      return 0;
    }
    hide WordBuffer.Valid, WordBuffer.All, Output.Valid, Body, Take;
    ghost var start := tokens[..];
    DropDrop(start, 1, capacity - 2);
    var out := new Output(tokens, capacity, cls);
    var word := new WordBuffer();
    out.Open();
    DropDrop(tokens[..], 1, capacity - 2);
    Process(t, text, word, out);
    DropDrop(tokens[..], capacity - 1, 1);
    DropDrop(start, capacity - 1, 1);
    count := Close(out, Body(t, text), sep);
  }

  lemma DropDrop<T>(s: seq<T>, i: nat, j: nat)
    requires i + j <= |s|
    ensures s[i..][j..] == s[i + j..]
  {
  }

  /** The main loop and the last word: the array holds what it would hold of the whole stream. */
  method Process(t: Config, text: seq<byte>, word: WordBuffer, out: Output)
    requires word.Valid() && word.All() == [] && out.Valid() && out.stream == []
    modifies word, word.bytes, word.offsets, out, out.tokens
    ensures out.Valid() && Take(out.stream, out.capacity - 2) == Take(Body(t, text), out.capacity - 2)
    ensures out.tokens[out.capacity - 1..] == old(out.tokens[out.capacity - 1..])
  {
    hide WordBuffer.Valid, Output.Valid, Processed, Items, Remaining, WordBuffer.All, Body, Take;
    out.Room();
    ghost var limit := out.tokens[out.capacity - 1..];
    var cursor: nat := 0;
    BodyStarts(t, text);
    while cursor < |text| && out.count < out.capacity - 1
      invariant cursor <= |text| && word.Valid() && out.Valid()
      invariant out.stream + Remaining(t, Items(t, text, cursor), word.All()) == Body(t, text)
      invariant out.tokens[out.capacity - 1..] == limit
    {
      ghost var before, collected := out.stream, word.All();
      ghost var items;
      cursor, items := Advance(t, text, cursor, word, out);
      ProcessedThen(t, items, before, collected, out.stream, word.All(), Items(t, text, cursor));
    }
    if out.count < out.capacity - 1 {
      NothingRemains(t, text, word.All());
      Flush(t, word, out);
    } else {
      out.Full(Body(t, text));
    }
  }

  lemma BodyStarts(t: Config, text: seq<byte>)
    ensures Remaining(t, Items(t, text, 0), []) == Body(t, text)
  {
  }

  lemma ProcessedThen(t: Config, items: seq<Item>, before: seq<int>, word: seq<Scalar>, after: seq<int>,
                      left: seq<Scalar>, rest: seq<Item>)
    requires Processed(t, items, before, word, after, left)
    ensures after + Remaining(t, rest, left) == before + Remaining(t, items + rest, word)
  {
  }

  lemma NothingRemains(t: Config, text: seq<byte>, word: seq<Scalar>)
    ensures Remaining(t, Items(t, text, |text|), word) == TokensOf(t, Ended(word))
  {
  }

  /** The separator goes after what the array holds. */
  method Close(out: Output, ghost body: seq<int>, sep: int) returns (count: nat)
    requires out.Valid() && Take(out.stream, out.capacity - 2) == Take(body, out.capacity - 2)
    modifies out, out.tokens
    ensures count == |Take(body, out.capacity - 2)| + 2 <= out.capacity <= out.tokens.Length
    ensures out.tokens[..count] == [out.cls] + Take(body, out.capacity - 2) + [sep]
    ensures out.tokens[out.capacity..] == old(out.tokens[out.capacity..])
  {
    ghost var before := out.tokens[..out.count];
    out.tokens[out.count] := sep;
    out.count := out.count + 1;
    assert out.tokens[..out.count] == before + [sep];
    count := out.count;
  }
}
