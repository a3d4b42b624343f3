/** kc_bm25_analyze: splits UTF-8 text into normalised lexical tokens. */
module Analyzer {
  import opened Prelude
  import opened Utf8

  /**
   * The Unicode data, kept abstract: membership in the word and mark ranges, and the lowercase NFD
   * form of a scalar when it differs from the scalar itself.
   */
  datatype Tables = Tables(isWord: Scalar -> bool, isMark: Scalar -> bool, fold: Scalar -> Option<seq<Scalar>>)
  {
    /** The only fact the index needs about the data: NUL is not a word character. */
    predicate Valid() {
      !isWord(0)
    }

    function Fold(cp: Scalar): seq<Scalar> {
      match fold(cp)
      case Some(sequence) => sequence
      case None => [cp]
    }
  }

  /** The folded scalars of `cps`, in order. */
  function Folded(tab: Tables, cps: seq<Scalar>): seq<Scalar> {
    if cps == [] then [] else Folded(tab, cps[..|cps| - 1]) + tab.Fold(cps[|cps| - 1])
  }

  /** Combining marks are dropped when accents are folded. */
  function Kept(tab: Tables, accents: bool, items: seq<Scalar>): seq<Scalar> {
    if items == [] then []
    else
      var x := items[|items| - 1];
      Kept(tab, accents, items[..|items| - 1]) + if tab.isMark(x) && accents then [] else [x]
  }

  /** Words completed so far and the word being collected. */
  datatype State = State(words: seq<seq<Scalar>>, cur: seq<Scalar>)

  function Close(st: State): State {
    if st.cur == [] then st else State(st.words + [st.cur], [])
  }

  function Step(tab: Tables, st: State, x: Scalar): State {
    if tab.isWord(x) then st.(cur := st.cur + [x]) else Close(st)
  }

  function Scan(tab: Tables, items: seq<Scalar>): State {
    if items == [] then State([], []) else Step(tab, Scan(tab, items[..|items| - 1]), items[|items| - 1])
  }

  function Words(tab: Tables, items: seq<Scalar>): seq<seq<Scalar>> {
    Close(Scan(tab, items)).words
  }

  function EncodeWords(words: seq<seq<Scalar>>): (r: seq<seq<byte>>)
    ensures |r| == |words|
    ensures forall k :: 0 <= k < |r| ==> r[k] == EncodeAll(words[k])
  {
    seq(|words|, k requires 0 <= k < |words| => EncodeAll(words[k]))
  }

  function Items(tab: Tables, accents: bool, cps: seq<Scalar>): seq<Scalar> {
    Kept(tab, accents, Folded(tab, cps))
  }

  /** The tokens of a scalar sequence: its words, encoded. */
  function TokensOf(tab: Tables, accents: bool, cps: seq<Scalar>): seq<seq<byte>> {
    EncodeWords(Words(tab, Items(tab, accents, cps)))
  }

  /** The tokens of a well-formed text. */
  ghost function Tokens(tab: Tables, accents: bool, text: seq<byte>): seq<seq<byte>>
    requires IsUtf8(text)
  {
    TokensOf(tab, accents, Scalars(text))
  }

  // ---------- the words are the maximal runs of word characters ----------

  ghost predicate AllWord(tab: Tables, items: seq<Scalar>) {
    forall k :: 0 <= k < |items| ==> tab.isWord(items[k])
  }

  ghost predicate NoWord(tab: Tables, items: seq<Scalar>) {
    forall k :: 0 <= k < |items| ==> !tab.isWord(items[k])
  }

  /** `items[a..b]` is a run of word characters that cannot be extended to the left, and nothing follows it. */
  ghost predicate LastRun(tab: Tables, items: seq<Scalar>, a: int, b: int) {
    && 0 <= a < b <= |items|
    && AllWord(tab, items[a..b])
    && NoWord(tab, items[b..])
    && (a > 0 ==> !tab.isWord(items[a - 1]))
  }

  /** `words` are the maximal runs of word characters of `items`, from left to right. */
  ghost predicate SplitsInto(tab: Tables, items: seq<Scalar>, words: seq<seq<Scalar>>)
    decreases |words|
  {
    if words == [] then NoWord(tab, items)
    else exists a, b :: LastRun(tab, items, a, b) && items[a..b] == words[|words| - 1]
                        && SplitsInto(tab, items[..a], words[..|words| - 1])
  }

  lemma SplitSeparator(tab: Tables, items: seq<Scalar>, words: seq<seq<Scalar>>, x: Scalar)
    requires SplitsInto(tab, items, words) && !tab.isWord(x)
    ensures SplitsInto(tab, items + [x], words)
  {
    var all := items + [x];
    if words != [] {
      var a, b :| LastRun(tab, items, a, b) && items[a..b] == words[|words| - 1]
                  && SplitsInto(tab, items[..a], words[..|words| - 1]);
      assert all[a..b] == items[a..b] && all[..a] == items[..a] && all[b..] == items[b..] + [x];
      assert LastRun(tab, all, a, b);
    }
  }

  lemma SplitWord(tab: Tables, items: seq<Scalar>, start: int, words: seq<seq<Scalar>>)
    requires 0 <= start < |items| && AllWord(tab, items[start..])
    requires start > 0 ==> !tab.isWord(items[start - 1])
    requires SplitsInto(tab, items[..start], words)
    ensures SplitsInto(tab, items, words + [items[start..]])
  {
    var all := words + [items[start..]];
    assert items[start..|items|] == items[start..] && all[..|all| - 1] == words;
    assert LastRun(tab, items, start, |items|);
  }

  /** Where the word being collected starts: what was scanned before it is split already. */
  ghost predicate ScanSplits(tab: Tables, items: seq<Scalar>, st: State) {
    var start := |items| - |st.cur|;
    && 0 <= start
    && st.cur == items[start..]
    && AllWord(tab, st.cur)
    && (start > 0 ==> !tab.isWord(items[start - 1]))
    && SplitsInto(tab, items[..start], st.words)
  }

  lemma ScanSplitsStep(tab: Tables, items: seq<Scalar>, st: State, x: Scalar)
    requires ScanSplits(tab, items, st)
    ensures ScanSplits(tab, items + [x], Step(tab, st, x))
  {
    hide SplitsInto;
    var all, start := items + [x], |items| - |st.cur|;
    if tab.isWord(x) {
      assert all[start..] == items[start..] + [x] && all[..start] == items[..start];
    } else {
      if st.cur != [] {
        SplitWord(tab, items, start, st.words);
      } else {
        assert items[..start] == items;
      }
      SplitSeparator(tab, items, Close(st).words, x);
      assert all[..|all|] == all && all[|all|..] == [];
    }
  }

  lemma {:induction false} ScanIsSplit(tab: Tables, items: seq<Scalar>)
    ensures ScanSplits(tab, items, Scan(tab, items))
  {
    if items != [] {
      var before, x := items[..|items| - 1], items[|items| - 1];
      ScanIsSplit(tab, before);
      ScanSplitsStep(tab, before, Scan(tab, before), x);
      assert items == before + [x];
    }
  }

  /** The words are exactly the maximal runs of word characters, in order. */
  lemma WordsAreMaximalRuns(tab: Tables, items: seq<Scalar>)
    ensures SplitsInto(tab, items, Words(tab, items))
  {
    hide SplitsInto;
    ScanIsSplit(tab, items);
    var st := Scan(tab, items);
    var start := |items| - |st.cur|;
    if st.cur != [] {
      SplitWord(tab, items, start, st.words);
    } else {
      assert items[..start] == items;
    }
  }

  // ---------- the tokens in terms of the Unicode data ----------

  lemma {:induction false} FoldedSplit(tab: Tables, a: seq<Scalar>, b: seq<Scalar>)
    ensures Folded(tab, a + b) == Folded(tab, a) + Folded(tab, b)
  {
    if b == [] {
      assert a + b == a;
    } else {
      assert (a + b)[..|a + b| - 1] == a + b[..|b| - 1];
      FoldedSplit(tab, a, b[..|b| - 1]);
    }
  }

  lemma {:induction false} KeptSplit(tab: Tables, accents: bool, a: seq<Scalar>, b: seq<Scalar>)
    ensures Kept(tab, accents, a + b) == Kept(tab, accents, a) + Kept(tab, accents, b)
  {
    if b == [] {
      assert a + b == a;
    } else {
      assert (a + b)[..|a + b| - 1] == a + b[..|b| - 1];
      KeptSplit(tab, accents, a, b[..|b| - 1]);
    }
  }

  lemma ItemsSplit(tab: Tables, accents: bool, a: seq<Scalar>, b: seq<Scalar>)
    ensures Items(tab, accents, a + b) == Items(tab, accents, a) + Items(tab, accents, b)
  {
    FoldedSplit(tab, a, b);
    KeptSplit(tab, accents, Folded(tab, a), Folded(tab, b));
  }

  /** The folded text has one block for every scalar: its entry in the fold table, or the scalar itself. */
  lemma {:induction false} FoldedBlocks(tab: Tables, cps: seq<Scalar>) returns (blocks: seq<seq<Scalar>>)
    ensures |blocks| == |cps| && Folded(tab, cps) == Concat(blocks)
    ensures forall k :: 0 <= k < |cps| ==>
              && (tab.fold(cps[k]).None? ==> blocks[k] == [cps[k]])
              && (tab.fold(cps[k]).Some? ==> blocks[k] == tab.fold(cps[k]).value)
  {
    if cps == [] {
      blocks := [];
    } else {
      var before, cp := cps[..|cps| - 1], cps[|cps| - 1];
      var done := FoldedBlocks(tab, before);
      blocks := done + [tab.Fold(cp)];
      ConcatSnoc(done, tab.Fold(cp));
    }
  }

  lemma {:induction false} NothingFolded(tab: Tables, cps: seq<Scalar>)
    requires forall k :: 0 <= k < |cps| ==> tab.fold(cps[k]) == None
    ensures Folded(tab, cps) == cps
  {
    if cps != [] {
      NothingFolded(tab, cps[..|cps| - 1]);
      assert cps == cps[..|cps| - 1] + [cps[|cps| - 1]];
    }
  }

  lemma {:induction false} AllKept(tab: Tables, accents: bool, items: seq<Scalar>)
    requires forall k :: 0 <= k < |items| ==> !(accents && tab.isMark(items[k]))
    ensures Kept(tab, accents, items) == items
  {
    if items != [] {
      AllKept(tab, accents, items[..|items| - 1]);
      assert items == items[..|items| - 1] + [items[|items| - 1]];
    }
  }

  /** With nothing being collected, scanning on is scanning anew. */
  lemma {:induction false} ScanAnew(tab: Tables, a: seq<Scalar>, b: seq<Scalar>)
    requires Scan(tab, a).cur == []
    ensures Scan(tab, a + b) == State(Scan(tab, a).words + Scan(tab, b).words, Scan(tab, b).cur)
  {
    if b == [] {
      assert a + b == a;
    } else {
      var before, x := b[..|b| - 1], b[|b| - 1];
      assert (a + b)[..|a + b| - 1] == a + before;
      ScanAnew(tab, a, before);
    }
  }

  lemma {:induction false} ScanWord(tab: Tables, items: seq<Scalar>)
    requires AllWord(tab, items)
    ensures Scan(tab, items) == State([], items)
  {
    if items != [] {
      var before, x := items[..|items| - 1], items[|items| - 1];
      assert AllWord(tab, before) && tab.isWord(x);
      ScanWord(tab, before);
      hide AllWord;
      assert items == before + [x];
    }
  }

  lemma EncodeWordsSplit(a: seq<seq<Scalar>>, b: seq<seq<Scalar>>)
    ensures EncodeWords(a + b) == EncodeWords(a) + EncodeWords(b)
  {
    hide EncodeAll;
  }

  /** A character that is neither a word character nor a dropped mark separates words. */
  lemma SeparatorSplits(tab: Tables, accents: bool, u: seq<Scalar>, c: Scalar, v: seq<Scalar>)
    requires tab.fold(c) == None && !tab.isWord(c) && !(accents && tab.isMark(c))
    ensures TokensOf(tab, accents, u + [c] + v) == TokensOf(tab, accents, u) + TokensOf(tab, accents, v)
  {
    hide Items, Kept, Folded, Scan, EncodeWords, Words;
    var left, right := Items(tab, accents, u), Items(tab, accents, v);
    NothingFolded(tab, [c]);
    AllKept(tab, accents, [c]);
    assert Items(tab, accents, [c]) == [c] by { ItemsAre(tab, accents, [c]); }
    ItemsSplit(tab, accents, u + [c], v);
    ItemsSplit(tab, accents, u, [c]);
    WordsSplit(tab, left, c, right);
    EncodeWordsSplit(Words(tab, left), Words(tab, right));
  }

  lemma ItemsAre(tab: Tables, accents: bool, cps: seq<Scalar>)
    requires Folded(tab, cps) == cps && Kept(tab, accents, cps) == cps
    ensures Items(tab, accents, cps) == cps
  {
  }

  lemma WordsSplit(tab: Tables, left: seq<Scalar>, c: Scalar, right: seq<Scalar>)
    requires !tab.isWord(c)
    ensures Words(tab, left + [c] + right) == Words(tab, left) + Words(tab, right)
  {
    ScanSnoc(tab, left, c);
    hide Scan;
    ScanAnew(tab, left + [c], right);
    var closed, rest := Close(Scan(tab, left)).words, Scan(tab, right);
    assert closed + (rest.words + [rest.cur]) == closed + rest.words + [rest.cur];
  }

  /** Word characters that are not folded or dropped, with nothing between them, are one token: the text itself. */
  lemma PlainWord(tab: Tables, accents: bool, w: seq<Scalar>)
    requires w != []
    requires forall k :: 0 <= k < |w| ==>
               tab.fold(w[k]) == None && tab.isWord(w[k]) && !(accents && tab.isMark(w[k]))
    ensures TokensOf(tab, accents, w) == [EncodeAll(w)]
  {
    hide Items, Kept, Folded, Scan, EncodeAll;
    NothingFolded(tab, w);
    AllKept(tab, accents, w);
    ItemsAre(tab, accents, w);
    ScanWord(tab, w);
    assert Words(tab, w) == [w];
    assert EncodeWords([w]) == [EncodeAll(w)];
  }

  /** A folded character counts as its entry in the fold table. */
  lemma FoldCounts(tab: Tables, accents: bool, u: seq<Scalar>, c: Scalar, s: seq<Scalar>, v: seq<Scalar>)
    requires tab.fold(c) == Some(s) && forall k :: 0 <= k < |s| ==> tab.fold(s[k]) == None
    ensures TokensOf(tab, accents, u + [c] + v) == TokensOf(tab, accents, u + s + v)
  {
    assert Folded(tab, [c]) == s by {
      assert [c][..0] == [] && Folded(tab, []) == [] && [] + s == s;
    }
    NothingFolded(tab, s);
    FoldedSplit(tab, u + [c], v);
    FoldedSplit(tab, u, [c]);
    FoldedSplit(tab, u + s, v);
    FoldedSplit(tab, u, s);
  }

  /** When accents are folded a combining mark counts as nothing. */
  lemma MarkDropped(tab: Tables, u: seq<Scalar>, c: Scalar, v: seq<Scalar>)
    requires tab.fold(c) == None && tab.isMark(c)
    ensures TokensOf(tab, true, u + [c] + v) == TokensOf(tab, true, u + v)
  {
    hide Kept, Folded, Words, EncodeWords;
    NothingFolded(tab, [c]);
    OnlyMark(tab, c);
    assert Items(tab, true, [c]) == [];
    hide Items;
    ItemsSplit(tab, true, u + [c], v);
    ItemsSplit(tab, true, u, [c]);
    ItemsSplit(tab, true, u, v);
    assert Items(tab, true, u) + [] == Items(tab, true, u);
  }

  lemma OnlyMark(tab: Tables, c: Scalar)
    requires tab.isMark(c)
    ensures Kept(tab, true, [c]) == []
  {
    assert [c][..0] == [] && Kept(tab, true, []) == [];
  }

  /** The tokens of a text are those of the scalars it encodes. */
  lemma TextTokens(tab: Tables, accents: bool, cps: seq<Scalar>)
    ensures IsUtf8(EncodeAll(cps)) && Tokens(tab, accents, EncodeAll(cps)) == TokensOf(tab, accents, cps)
  {
    ScalarsAre(EncodeAll(cps), cps);
  }

  /** Nothing but word characters that are neither folded nor dropped. */
  ghost predicate PlainText(tab: Tables, accents: bool, text: seq<byte>) {
    exists w :: w != [] && text == EncodeAll(w)
                && forall k :: 0 <= k < |w| ==>
                     tab.fold(w[k]) == None && tab.isWord(w[k]) && !(accents && tab.isMark(w[k]))
  }

  lemma PlainTextIsToken(tab: Tables, accents: bool, text: seq<byte>)
    ensures PlainText(tab, accents, text) ==> IsUtf8(text) && Tokens(tab, accents, text) == [text]
  {
    hide TokensOf, EncodeAll;
    if PlainText(tab, accents, text) {
      var w :| w != [] && text == EncodeAll(w)
               && forall k :: 0 <= k < |w| ==>
                    tab.fold(w[k]) == None && tab.isWord(w[k]) && !(accents && tab.isMark(w[k]));
      TextTokens(tab, accents, w);
      PlainWord(tab, accents, w);
    }
  }

  // ---------- what tokens look like ----------

  /** Tokens are nonempty, free of NUL, and well-formed UTF-8. */
  ghost predicate IsToken(t: seq<byte>) {
    t != [] && IsCString(t) && IsUtf8(t)
  }

  lemma WordIsToken(tab: Tables, word: seq<Scalar>)
    requires tab.Valid() && word != [] && AllWord(tab, word)
    ensures IsToken(EncodeAll(word))
  {
    NonzeroEncoding(word);
  }

  lemma {:induction false} SplitWordsProper(tab: Tables, items: seq<Scalar>, words: seq<seq<Scalar>>, k: int)
    requires SplitsInto(tab, items, words) && 0 <= k < |words|
    ensures words[k] != [] && AllWord(tab, words[k])
    decreases |words|
  {
    var a, b :| LastRun(tab, items, a, b) && items[a..b] == words[|words| - 1]
                && SplitsInto(tab, items[..a], words[..|words| - 1]);
    if k < |words| - 1 {
      SplitWordsProper(tab, items[..a], words[..|words| - 1], k);
    }
  }

  lemma TokensAreTokens(tab: Tables, accents: bool, cps: seq<Scalar>)
    requires tab.Valid()
    ensures forall t :: t in TokensOf(tab, accents, cps) ==> IsToken(t)
  {
    hide SplitsInto, Kept, Folded, Scan;
    var items := Items(tab, accents, cps);
    var words := Words(tab, items);
    WordsAreMaximalRuns(tab, items);
    forall k | 0 <= k < |words|
      ensures IsToken(EncodeAll(words[k]))
    {
      SplitWordsProper(tab, items, words, k);
      WordIsToken(tab, words[k]);
    }
  }

  // ---------- the streaming analyzer ----------

  lemma FoldedSnoc(tab: Tables, cps: seq<Scalar>, cp: Scalar)
    ensures Folded(tab, cps + [cp]) == Folded(tab, cps) + tab.Fold(cp)
  {
    assert (cps + [cp])[..|cps|] == cps;
  }

  lemma KeptSnoc(tab: Tables, accents: bool, items: seq<Scalar>, x: Scalar)
    ensures Kept(tab, accents, items + [x]) == Kept(tab, accents, items) + if tab.isMark(x) && accents then [] else [x]
  {
    assert (items + [x])[..|items|] == items;
  }

  lemma ScanSnoc(tab: Tables, items: seq<Scalar>, x: Scalar)
    ensures Scan(tab, items + [x]) == Step(tab, Scan(tab, items), x)
  {
    assert (items + [x])[..|items|] == items;
  }

  /** The buffers hold the state of the scan over `items`. */
  ghost predicate Mirrors(st: State, tokens: seq<seq<byte>>, word: seq<byte>) {
    tokens == EncodeWords(st.words) && word == EncodeAll(st.cur)
  }

  /** kc_bm25_flush: delivers the word being collected, if there is one. */
  method Flush(tokens: seq<seq<byte>>, word: seq<byte>, ghost st: State)
    returns (tokens': seq<seq<byte>>, word': seq<byte>)
    requires Mirrors(st, tokens, word)
    ensures Mirrors(Close(st), tokens', word')
  {
    if |word| == 0 {
      return tokens, word;
    }
    tokens' := tokens + [word];
    word' := [];
    assert tokens' == EncodeWords(st.words + [st.cur]);
  }

  /** One folded scalar: a dropped mark, a separator, or one more character of the word. */
  method Feed(tab: Tables, accents: bool, item: Scalar, tokens: seq<seq<byte>>, word: seq<byte>,
              ghost items: seq<Scalar>)
    returns (tokens': seq<seq<byte>>, word': seq<byte>)
    requires Mirrors(Scan(tab, Kept(tab, accents, items)), tokens, word)
    ensures Mirrors(Scan(tab, Kept(tab, accents, items + [item])), tokens', word')
  {
    ghost var st := Scan(tab, Kept(tab, accents, items));
    KeptSnoc(tab, accents, items, item);
    if tab.isMark(item) && accents {
      assert Kept(tab, accents, items + [item]) == Kept(tab, accents, items);
      return tokens, word;
    }
    ScanSnoc(tab, Kept(tab, accents, items), item);
    if !tab.isWord(item) {
      tokens', word' := Flush(tokens, word, st);
    } else {
      EncodeAllSnoc(st.cur, item);
      tokens', word' := tokens, word + Encode(item);
    }
  }

  /**
   * kc_bm25_analyze: succeeds exactly on well-formed text and then delivers its tokens in order.
   * On malformed text it has delivered the tokens completed before the first place where no scalar is encoded.
   */
  method Analyze(tab: Tables, accents: bool, text: seq<byte>) returns (ok: bool, tokens: seq<seq<byte>>)
    ensures ok <==> IsUtf8(text)
    ensures ok ==> tokens == Tokens(tab, accents, text)
    ensures PlainText(tab, accents, text) ==> ok && tokens == [text]
    ensures !ok ==>
            exists done :: EncodeAll(done) <= text && tokens == EncodeWords(Scan(tab, Items(tab, accents, done)).words)
                           && forall cp: Scalar :: !EncodedAt(text, |EncodeAll(done)|, cp)
  {
    PlainTextIsToken(tab, accents, text);
    hide PlainText, IsUtf8, ScalarAt, EncodeAll, Encode, Scan, Kept, Folded;
    var word: seq<byte> := [];
    var offset := 0;
    ghost var done: seq<Scalar> := [];
    tokens := [];
    NothingScanned(tab, accents);
    while offset < |text|
      invariant offset <= |text| && EncodeAll(done) == text[..offset]
      invariant Mirrors(Scan(tab, Items(tab, accents, done)), tokens, word)
    {
      if IsUtf8(text) {
        NextScalar(text, done);
      }
      var step := DecodeStrict(text, offset);
      if step.None? {
        return false, tokens;
      }
      var cp := step.value.0;
      var sequence := tab.Fold(cp);
      ghost var items := Folded(tab, done);
      var i := 0;
      assert items + sequence[..0] == items;
      while i < |sequence|
        invariant 0 <= i <= |sequence|
        invariant Mirrors(Scan(tab, Kept(tab, accents, items + sequence[..i])), tokens, word)
      {
        assert items + sequence[..i + 1] == items + sequence[..i] + [sequence[i]];
        tokens, word := Feed(tab, accents, sequence[i], tokens, word, items + sequence[..i]);
        i := i + 1;
      }
      assert items + sequence[..|sequence|] == items + sequence;
      FoldedSnoc(tab, done, cp);
      EncodeAllSnoc(done, cp);
      done := done + [cp];
      assert text[..step.value.1] == text[..offset] + text[offset..step.value.1];
      offset := step.value.1;
    }
    assert text[..|text|] == text;
    ScalarsAre(text, done);
    tokens, word := Flush(tokens, word, Scan(tab, Items(tab, accents, done)));
    ok := true;
  }

  lemma NothingScanned(tab: Tables, accents: bool)
    ensures EncodeAll([]) == [] && Mirrors(Scan(tab, Items(tab, accents, [])), [], [])
  {
  }

  lemma ScalarsAre(text: seq<byte>, cps: seq<Scalar>)
    requires EncodeAll(cps) == text
    ensures IsUtf8(text) && Scalars(text) == cps
  {
    EncodeAllInjective(cps, Scalars(text));
  }
}
