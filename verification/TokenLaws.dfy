/** The WordPiece token stream in terms of the text: what separates words, what stands alone, what is one word. */
module TokenLaws {
  import opened Prelude
  import opened Utf8
  import opened Segmentation
  import opened WordPiece

  // ---------- characters and special spellings at a cut of the text ----------

  /** The octet does not continue a character begun before it. */
  predicate Begins(v: seq<byte>) {
    v == [] || v[0] < 0x80 || v[0] >= 0xC0
  }

  lemma EncodingOctets(cp: Scalar)
    ensures Begins(Encode(cp)) && forall j :: 1 <= j < |Encode(cp)| ==> 0x80 <= Encode(cp)[j] < 0xC0
    ensures |Encode(cp)| > 1 ==> Encode(cp)[0] >= 0xC0
  {
  }

  lemma EncodedBefore(u: seq<byte>, v: seq<byte>, i: nat, cp: Scalar)
    requires Begins(v) && i < |u|
    ensures EncodedAt(u + v, i, cp) <==> EncodedAt(u, i, cp)
  {
    hide Encode;
    var n, text := |Encode(cp)|, u + v;
    if i + n <= |u| {
      assert text[i..i + n] == u[i..i + n];
    } else if EncodedAt(text, i, cp) {
      CutEncoding(u, v, i, cp);
    }
  }

  /** A cut within an encoding is before a continuation octet. */
  lemma CutEncoding(u: seq<byte>, v: seq<byte>, i: nat, cp: Scalar)
    requires EncodedAt(u + v, i, cp) && i < |u| < i + |Encode(cp)|
    ensures v != [] && 0x80 <= v[0] < 0xC0
  {
    EncodingOctets(cp);
    hide Encode;
    var e := Encode(cp);
    assert e[|u| - i] == (u + v)[i..i + |e|][|u| - i] == (u + v)[|u|];
  }

  /** Decoding before a cut does not see what is behind it. */
  lemma DecodedBefore(u: seq<byte>, v: seq<byte>, i: nat)
    requires Begins(v) && i < |u|
    ensures LenientAt(u + v, i) == LenientAt(u, i)
  {
    hide Encode, EncodedAt, LenientAt;
    forall cp: Scalar
      ensures EncodedAt(u + v, i, cp) <==> EncodedAt(u, i, cp)
    {
      EncodedBefore(u, v, i, cp);
    }
    if cp: Scalar :| EncodedAt(u, i, cp) {
      LenientReads(u, i, cp);
      LenientReads(u + v, i, cp);
    } else {
      LenientSkips(u, i);
      LenientSkips(u + v, i);
    }
  }

  lemma EncodedBehind(u: seq<byte>, v: seq<byte>, j: nat, cp: Scalar)
    ensures EncodedAt(u + v, |u| + j, cp) <==> EncodedAt(v, j, cp)
  {
    hide Encode;
    var n := |Encode(cp)|;
    if j + n <= |v| {
      assert (u + v)[|u| + j..|u| + j + n] == v[j..j + n];
    }
  }

  lemma DecodedBehind(u: seq<byte>, v: seq<byte>, j: nat)
    ensures LenientAt(u + v, |u| + j) == (LenientAt(v, j).0, |u| + LenientAt(v, j).1)
  {
    hide Encode, EncodedAt, LenientAt;
    if cp: Scalar :| EncodedAt(v, j, cp) {
      EncodedBehind(u, v, j, cp);
      LenientReads(v, j, cp);
      LenientReads(u + v, |u| + j, cp);
    } else {
      var at := |u| + j;
      forall cp: Scalar
        ensures !EncodedAt(u + v, at, cp)
      {
        EncodedBehind(u, v, j, cp);
      }
      LenientSkips(v, j);
      LenientSkips(u + v, at);
    }
  }

  /** No special token is spelled across offset `at`. */
  ghost predicate Uncut(text: seq<byte>, at: nat) {
    forall c: nat, k :: 0 <= k < |SPECIALS| && c < at < c + |SPECIALS[k]| ==> !Spelled(text, c, SPECIALS[k])
  }

  lemma {:induction false} SpecialBefore(t: Config, u: seq<byte>, v: seq<byte>, i: nat, k: nat)
    requires Uncut(u + v, |u|) && i < |u| && k <= |SPECIALS|
    ensures SpecialAt(t, u + v, i, k) == SpecialAt(t, u, i, k)
    decreases |SPECIALS| - k
  {
    if k < |SPECIALS| {
      SpecialBefore(t, u, v, i, k + 1);
      var n := |SPECIALS[k]|;
      if i + n <= |u| {
        assert (u + v)[i..i + n] == u[i..i + n];
      }
    }
  }

  lemma SpelledBehind(u: seq<byte>, v: seq<byte>, j: nat, special: seq<byte>)
    ensures Spelled(u + v, |u| + j, special) <==> Spelled(v, j, special)
  {
    var n := |special|;
    if j + n <= |v| {
      assert (u + v)[|u| + j..|u| + j + n] == v[j..j + n];
    }
  }

  lemma {:induction false} SpecialBehind(t: Config, u: seq<byte>, v: seq<byte>, j: nat, k: nat)
    requires k <= |SPECIALS|
    ensures var r := SpecialAt(t, v, j, k); SpecialAt(t, u + v, |u| + j, k) == r
    decreases |SPECIALS| - k
  {
    hide Spelled;
    if k < |SPECIALS| {
      SpecialBehind(t, u, v, j, k + 1);
      SpelledBehind(u, v, j, SPECIALS[k]);
    }
  }

  // ---------- items of a text in two parts ----------

  lemma {:induction false} ItemsBehind(t: Config, u: seq<byte>, v: seq<byte>, j: nat)
    requires j <= |v|
    ensures Items(t, u + v, |u| + j) == Items(t, v, j)
    decreases |v| - j
  {
    hide InputItems, SpecialAt, LenientAt;
    if j < |v| {
      SpecialBehind(t, u, v, j, 0);
      DecodedBehind(u, v, j);
      var special := SpecialAt(t, v, j, 0);
      ItemsBehind(t, u, v, if special.Some? then j + special.value.1 else LenientAt(v, j).1);
    }
  }

  lemma {:induction false} ItemsFrom(t: Config, u: seq<byte>, v: seq<byte>, i: nat)
    requires Begins(v) && Uncut(u + v, |u|) && i <= |u|
    ensures Items(t, u + v, i) == Items(t, u, i) + Items(t, v, 0)
    decreases |u| - i
  {
    hide InputItems, SpecialAt, LenientAt, Uncut;
    if i == |u| {
      ItemsBehind(t, u, v, 0);
    } else {
      SpecialBefore(t, u, v, i, 0);
      DecodedBefore(u, v, i);
      var special := SpecialAt(t, u, i, 0);
      ItemsFrom(t, u, v, if special.Some? then i + special.value.1 else LenientAt(u, i).1);
    }
  }

  /** Cut at a character that no special spelling crosses, a text has the items of its two parts. */
  lemma ItemsSplit(t: Config, u: seq<byte>, v: seq<byte>)
    requires Begins(v) && Uncut(u + v, |u|)
    ensures Items(t, u + v, 0) == Items(t, u, 0) + Items(t, v, 0)
  {
    ItemsFrom(t, u, v, 0);
  }

  /** No special token is spelled over the character at the start of `rest`. */
  ghost predicate Clear(u: seq<byte>, rest: seq<byte>) {
    Uncut(u + rest, |u|) && forall k :: 0 <= k < |SPECIALS| ==> !Spelled(rest, 0, SPECIALS[k])
  }

  /** Special spellings consist of capital letters and brackets. */
  lemma OtherwiseClear(u: seq<byte>, rest: seq<byte>)
    requires rest != [] && !(65 <= rest[0] <= 93)
    ensures Clear(u, rest)
  {
    forall c: nat, k | 0 <= k < |SPECIALS| && c <= |u| < c + |SPECIALS[k]|
      ensures !Spelled(u + rest, c, SPECIALS[k])
    {
      SpecialOctet(u + rest, c, k, |u|);
    }
    forall k | 0 <= k < |SPECIALS|
      ensures !Spelled(rest, 0, SPECIALS[k])
    {
      SpecialOctet(rest, 0, k, 0);
    }
  }

  /** An octet of a special spelling is a capital letter or a bracket, and only the first opens a bracket. */
  lemma SpecialOctet(text: seq<byte>, c: nat, k: nat, p: nat)
    requires k < |SPECIALS| && c <= p < |text| && p < c + |SPECIALS[k]|
    ensures Spelled(text, c, SPECIALS[k]) ==> 65 <= text[p] <= 93 && (text[p] == 91 ==> p == c)
  {
    if Spelled(text, c, SPECIALS[k]) {
      assert text[c..c + |SPECIALS[k]|][p - c] == text[p];
    }
  }

  lemma {:induction false} NoSpecial(t: Config, text: seq<byte>, at: nat, k: nat)
    requires k <= |SPECIALS| && forall j :: 0 <= j < |SPECIALS| ==> !Spelled(text, at, SPECIALS[j])
    ensures SpecialAt(t, text, at, k) == None
    decreases |SPECIALS| - k
  {
    if k < |SPECIALS| {
      NoSpecial(t, text, at, k + 1);
    }
  }

  /** One character among others. */
  lemma ItemsAround(t: Config, u: seq<byte>, cp: Scalar, v: seq<byte>)
    requires Clear(u, Encode(cp) + v)
    ensures Items(t, u + Encode(cp) + v, 0) == Items(t, u, 0) + InputItems(t, cp) + Items(t, v, 0)
  {
    EncodingOctets(cp);
    var e, rest := Encode(cp), Encode(cp) + v;
    hide Encode;
    ItemsSplit(t, u, rest);
    assert u + e + v == u + rest;
    NoSpecial(t, rest, 0, 0);
    assert rest[0..|e|] == e;
    LenientReads(rest, 0, cp);
    ItemsBehind(t, e, v, 0);
  }

  // ---------- units of items in two parts ----------

  /** The word being collected after some items, and what they completed. */
  function Held(items: seq<Item>, word: seq<Scalar>): seq<Scalar> {
    if items == [] then word else Held(items[1..], Collecting(items[0], word))
  }

  function Done(items: seq<Item>, word: seq<Scalar>): seq<Unit> {
    if items == [] then [] else Completed(items[0], word) + Done(items[1..], Collecting(items[0], word))
  }

  lemma UnitsUnfold(items: seq<Item>, word: seq<Scalar>)
    requires items != []
    ensures var next := Collecting(items[0], word);
            && Units(items, word) == Completed(items[0], word) + Units(items[1..], next)
            && Done(items, word) == Completed(items[0], word) + Done(items[1..], next)
            && Held(items, word) == Held(items[1..], next)
  {
  }

  lemma {:induction false} UnitsSplit(a: seq<Item>, b: seq<Item>, word: seq<Scalar>)
    ensures Units(a + b, word) == Done(a, word) + Units(b, Held(a, word))
    ensures Units(a, word) == Done(a, word) + Ended(Held(a, word))
    decreases |a|
  {
    hide Completed, Collecting, Ended;
    if a == [] {
      assert a + b == b;
    } else {
      assert (a + b)[1..] == a[1..] + b;
      var next := Collecting(a[0], word);
      UnitsSplit(a[1..], b, next);
      UnitsUnfold(a + b, word);
      UnitsUnfold(a, word);
      hide Units, Done, Held;
      Regroup(Completed(a[0], word), Done(a[1..], next), Units(b, Held(a[1..], next)));
      Regroup(Completed(a[0], word), Done(a[1..], next), Ended(Held(a[1..], next)));
    }
  }

  /** An item that ends the word: what it completes comes between the units of both sides. */
  lemma UnitsAround(a: seq<Item>, item: Item, b: seq<Item>, own: seq<Unit>)
    requires !item.Letter? && forall word :: Completed(item, word) == Ended(word) + own
    ensures Units(a + [item] + b, []) == Units(a, []) + own + Units(b, [])
  {
    hide Completed, Ended;
    var word := Held(a, []);
    UnitsSplit(a, [item] + b, []);
    assert a + [item] + b == a + ([item] + b);
    assert ([item] + b)[1..] == b;
    assert Units([item] + b, word) == Completed(item, word) + Units(b, Collecting(item, word));
  }

  lemma TokensAround(t: Config, a: seq<Unit>, b: seq<Unit>, c: seq<Unit>)
    ensures TokensOf(t, a + b + c) == TokensOf(t, a) + TokensOf(t, b) + TokensOf(t, c)
  {
    TokensOfSplit(t, a + b, c);
    TokensOfSplit(t, a, b);
  }

  // ---------- the laws ----------

  /** White space that is not a control character separates words, and leaves nothing in the stream. */
  lemma WhiteSpaceSeparates(t: Config, u: seq<byte>, cp: Scalar, v: seq<byte>)
    requires cp == 9 || cp == 10 || cp == 13 || ((cp == 32 || t.spaces(cp)) && !t.controls(cp))
    requires cp != 0 && cp != 0xFFFD && !(65 <= cp <= 93)
    ensures Body(t, u + Encode(cp) + v) == Body(t, u) + Body(t, v)
  {
    EncodingOctets(cp);
    OtherwiseClear(u, Encode(cp) + v);
    ItemsAround(t, u, cp, v);
    hide Encode, Items;
    var a, b := Items(t, u, 0), Items(t, v, 0);
    UnitsAround(a, Break, b, []);
    assert TokensOf(t, []) == [];
    TokensAround(t, Units(a, []), [], Units(b, []));
  }

  /** A space separates words. */
  lemma SpaceSeparates(t: Config, u: seq<byte>, v: seq<byte>)
    requires !t.controls(32)
    ensures Body(t, u + [32] + v) == Body(t, u) + Body(t, v)
  {
    WhiteSpaceSeparates(t, u, 32, v);
  }

  /** The CJK ideographs. */
  predicate Ideograph(cp: Scalar) {
    || 0x3400 <= cp <= 0x4DBF || 0x4E00 <= cp <= 0x9FFF || 0xF900 <= cp <= 0xFAFF || 0x20000 <= cp <= 0x2A6DF
    || 0x2A700 <= cp <= 0x2B73F || 0x2B740 <= cp <= 0x2B81F || 0x2B820 <= cp <= 0x2CEAF || 0x2F800 <= cp <= 0x2FA1F
  }

  /** ASCII punctuation, by its characters, and what the table adds. */
  predicate Punctuation(t: Config, cp: Scalar) {
    (cp < 128 && cp as char in "!\"#$%&'()*+,-./:;<=>?@[\\]^_`{|}~") || t.punctuation(cp)
  }

  /** A character that is neither dropped nor white space, and that folding leaves alone. */
  ghost predicate Visible(t: Config, cp: Scalar) {
    && cp != 0 && cp != 0xFFFD && t.fold(cp) == None
    && !(cp == 9 || cp == 10 || cp == 13 || cp == 32 || t.spaces(cp) || t.controls(cp))
  }

  lemma PunctuationRanges(t: Config, cp: Scalar)
    ensures Punctuation(t, cp) <==> IsPunctuation(t, cp)
  {
  }

  /** A punctuation character or an ideograph is a word of its own. */
  lemma StandsAlone(t: Config, u: seq<byte>, cp: Scalar, v: seq<byte>)
    requires Visible(t, cp) && (Punctuation(t, cp) || Ideograph(cp)) && Clear(u, Encode(cp) + v)
    ensures Body(t, u + Encode(cp) + v) == Body(t, u) + Segment(t.vocabulary, t.unk, [cp]) + Body(t, v)
  {
    PunctuationRanges(t, cp);
    ItemsAround(t, u, cp, v);
    assert InputItems(t, cp) == [Alone(cp)] by {
      OneFolded(t, cp);
    }
    hide Encode, Items;
    var a, b := Items(t, u, 0), Items(t, v, 0);
    UnitsAround(a, Alone(cp), b, [Word([cp])]);
    OneUnit(t, Word([cp]));
    TokensAround(t, Units(a, []), [Word([cp])], Units(b, []));
  }

  lemma OneFolded(t: Config, cp: Scalar)
    ensures FoldedItems(t, [cp]) == CharacterItems(t, cp)
  {
    assert [cp][1..] == [];
  }

  /** A letter: visible, and neither punctuation nor an ideograph. */
  ghost predicate PlainLetter(t: Config, cp: Scalar) {
    Visible(t, cp) && !Punctuation(t, cp) && !Ideograph(cp)
  }

  /** Letters with nothing between them are one word. */
  lemma LettersAreAWord(t: Config, w: seq<Scalar>)
    requires w != [] && forall k :: 0 <= k < |w| ==> PlainLetter(t, w[k])
    ensures Body(t, EncodeAll(w)) == Segment(t.vocabulary, t.unk, w)
  {
    hide EncodeAll, Segment, PlainLetter, Items, Units, TokensOf;
    LetterItems(t, w);
    LetterUnits(w, []);
    assert [] + w == w;
    OneUnit(t, Word(w));
  }

  function Letters(w: seq<Scalar>): seq<Item> {
    if w == [] then [] else [Letter(w[0])] + Letters(w[1..])
  }

  lemma LetterItem(t: Config, cp: Scalar)
    requires PlainLetter(t, cp)
    ensures cp != 91 && InputItems(t, cp) == [Letter(cp)]
  {
    assert cp == 91 ==> IsPunctuation(t, cp);
    PunctuationRanges(t, cp);
    OneFolded(t, cp);
  }

  lemma {:induction false} LetterItems(t: Config, w: seq<Scalar>)
    requires forall k :: 0 <= k < |w| ==> PlainLetter(t, w[k])
    ensures Items(t, EncodeAll(w), 0) == Letters(w)
  {
    hide InputItems, PlainLetter;
    if w != [] {
      var e, rest := Encode(w[0]), EncodeAll(w[1..]);
      LetterItems(t, w[1..]);
      LetterItem(t, w[0]);
      EncodingOctets(w[0]);
      assert e[0] != 91 && (e + rest)[0..|e|] == e;
      hide Encode, EncodeAll, LenientAt;
      OnlyAfterBracket(t, e + rest, 0, 0);
      LenientReads(e + rest, 0, w[0]);
      ItemsBehind(t, e, rest, 0);
    }
  }

  lemma {:induction false} LetterUnits(w: seq<Scalar>, word: seq<Scalar>)
    ensures Units(Letters(w), word) == Ended(word + w)
    decreases |w|
  {
    if w == [] {
      assert word + w == word;
    } else {
      assert ([Letter(w[0])] + Letters(w[1..]))[1..] == Letters(w[1..]);
      LetterUnits(w[1..], word + [w[0]]);
      assert word + [w[0]] + w[1..] == word + w;
    }
  }

  lemma SpecialIndex(s: string) returns (k: nat)
    requires s in {"[UNK]", "[CLS]", "[SEP]", "[PAD]", "[MASK]"}
    ensures k < |SPECIALS| && SPECIALS[k] == Ascii(s)
  {
    k := if s == "[UNK]" then 0 else if s == "[CLS]" then 1 else if s == "[SEP]" then 2
         else if s == "[PAD]" then 3 else 4;
    assert |SPECIALS[k]| == |s|;
  }

  /** No special spelling begins with another. */
  lemma SpelledOnce(text: seq<byte>, at: nat, j: nat, k: nat)
    requires j < |SPECIALS| && k < |SPECIALS| && Spelled(text, at, SPECIALS[j]) && Spelled(text, at, SPECIALS[k])
    ensures j == k
  {
    assert text[at..at + |SPECIALS[j]|][1] == text[at + 1] == text[at..at + |SPECIALS[k]|][1];
    assert text[at..at + |SPECIALS[j]|][2] == text[at + 2] == text[at..at + |SPECIALS[k]|][2];
  }

  lemma {:induction false} SpecialReads(t: Config, text: seq<byte>, k: nat, from: nat)
    requires from <= k < |SPECIALS| && Spelled(text, 0, SPECIALS[k]) && t.vocabulary(SPECIALS[k]) >= 0
    ensures SpecialAt(t, text, 0, from) == Some((t.vocabulary(SPECIALS[k]), |SPECIALS[k]|))
    decreases k - from
  {
    if from < k {
      if Spelled(text, 0, SPECIALS[from]) {
        SpelledOnce(text, 0, from, k);
      }
      SpecialReads(t, text, k, from + 1);
    }
  }

  /** A bracket opens a special spelling, so none goes across it. */
  lemma BracketUncut(u: seq<byte>, rest: seq<byte>)
    requires rest != [] && rest[0] == 91
    ensures Uncut(u + rest, |u|)
  {
    forall c: nat, k | 0 <= k < |SPECIALS| && c < |u| < c + |SPECIALS[k]|
      ensures !Spelled(u + rest, c, SPECIALS[k])
    {
      SpecialOctet(u + rest, c, k, |u|);
    }
  }

  lemma SpecialItems(t: Config, u: seq<byte>, s: string, v: seq<byte>)
    requires s in {"[UNK]", "[CLS]", "[SEP]", "[PAD]", "[MASK]"} && t.vocabulary(Ascii(s)) >= 0
    ensures Items(t, u + Ascii(s) + v, 0)
         == Items(t, u, 0) + [Special(t.vocabulary(Ascii(s)))] + Items(t, v, 0)
  {
    var special := Ascii(s);
    var k := SpecialIndex(s);
    assert special[0] == 91 && |special| > 0;
    hide Ascii;
    var rest := special + v;
    assert rest[0..|special|] == special;
    SpecialReads(t, rest, k, 0);
    BracketUncut(u, rest);
    FirstSpecial(t, special, v, t.vocabulary(special));
    hide Items;
    ItemsSplit(t, u, rest);
    assert u + special + v == u + rest;
    Regroup(Items(t, u, 0), [Special(t.vocabulary(special))], Items(t, v, 0));
  }

  lemma FirstSpecial(t: Config, special: seq<byte>, v: seq<byte>, id: int)
    requires special != [] && SpecialAt(t, special + v, 0, 0) == Some((id, |special|))
    ensures Items(t, special + v, 0) == [Special(id)] + Items(t, v, 0)
  {
    hide SpecialAt, LenientAt;
    ItemsBehind(t, special, v, 0);
  }

  /** A special token in the text is one token, whatever surrounds it, if the vocabulary has it. */
  lemma SpecialStands(t: Config, u: seq<byte>, s: string, v: seq<byte>)
    requires s in {"[UNK]", "[CLS]", "[SEP]", "[PAD]", "[MASK]"} && t.vocabulary(Ascii(s)) >= 0
    ensures Body(t, u + Ascii(s) + v) == Body(t, u) + [t.vocabulary(Ascii(s))] + Body(t, v)
  {
    var special, id := Ascii(s), t.vocabulary(Ascii(s));
    SpecialItems(t, u, s, v);
    hide Items, Ascii;
    var a, b := Items(t, u, 0), Items(t, v, 0);
    UnitsAround(a, Special(id), b, [Token(id)]);
    OneUnit(t, Token(id));
    TokensAround(t, Units(a, []), [Token(id)], Units(b, []));
  }

  /** NUL, U+FFFD and control characters leave no trace: the characters around them belong together. */
  lemma ControlVanishes(t: Config, u: seq<byte>, cp: Scalar, v: seq<byte>)
    requires cp == 0 || cp == 0xFFFD || (t.controls(cp) && cp != 9 && cp != 10 && cp != 13)
    requires Clear(u, Encode(cp) + v) && Begins(v) && Uncut(u + v, |u|)
    ensures Body(t, u + Encode(cp) + v) == Body(t, u + v)
  {
    ItemsAround(t, u, cp, v);
    ItemsSplit(t, u, v);
    hide Encode, Items;
    assert Items(t, u, 0) + [] == Items(t, u, 0);
  }

  /** Folding leaves the character alone, and it is not both white space and a character that vanishes. */
  ghost predicate Settled(t: Config, x: Scalar) {
    && t.fold(x) == None && !(65 <= x <= 93)
    && (x == 32 || t.spaces(x) ==> x != 0 && x != 0xFFFD && (!t.controls(x) || x == 9 || x == 10 || x == 13))
  }

  lemma {:induction false} ItemsOfFolded(t: Config, u: seq<byte>, s: seq<Scalar>, v: seq<byte>)
    requires forall k :: 0 <= k < |s| ==> Settled(t, s[k])
    requires Begins(v) && Uncut(u + EncodeAll(s) + v, |u + EncodeAll(s)|)
    ensures Items(t, u + EncodeAll(s) + v, 0) == Items(t, u, 0) + FoldedItems(t, s) + Items(t, v, 0)
    decreases |s|
  {
    if s == [] {
      assert u + EncodeAll(s) == u;
      ItemsSplit(t, u, v);
      assert Items(t, u, 0) + [] == Items(t, u, 0);
    } else {
      var longer := u + Encode(s[0]);
      Regroup(u, Encode(s[0]), EncodeAll(s[1..]));
      assert u + EncodeAll(s) == longer + EncodeAll(s[1..]);
      SettledAppended(t, u, s[0]);
      hide Encode, Items, EncodeAll, Settled, CharacterItems;
      ItemsOfFolded(t, longer, s[1..], v);
      Regroup(Items(t, u, 0), CharacterItems(t, s[0]), FoldedItems(t, s[1..]));
    }
  }

  lemma SettledAppended(t: Config, u: seq<byte>, x: Scalar)
    requires Settled(t, x)
    ensures Items(t, u + Encode(x), 0) == Items(t, u, 0) + CharacterItems(t, x)
  {
    EncodingOctets(x);
    SettledItems(t, x);
    var e := Encode(x);
    OtherwiseClear(u, e + []);
    hide Encode, CharacterItems, InputItems, Settled, Clear;
    ItemsAround(t, u, x, []);
    assert Items(t, [], 0) == [];
    hide Items;
    assert u + e + [] == u + e;
    assert Items(t, u, 0) + CharacterItems(t, x) + [] == Items(t, u, 0) + CharacterItems(t, x);
  }

  lemma SettledItems(t: Config, x: Scalar)
    requires Settled(t, x)
    ensures InputItems(t, x) == CharacterItems(t, x)
  {
    OneFolded(t, x);
  }

  /** A character with an entry in the fold table counts as that entry. */
  lemma FoldCounts(t: Config, u: seq<byte>, cp: Scalar, s: seq<Scalar>, v: seq<byte>)
    requires t.fold(cp) == Some(s) && forall k :: 0 <= k < |s| ==> Settled(t, s[k])
    requires cp != 0 && cp != 0xFFFD
    requires !(cp == 9 || cp == 10 || cp == 13 || cp == 32 || t.spaces(cp) || t.controls(cp))
    requires Clear(u, Encode(cp) + v) && Begins(v) && Uncut(u + EncodeAll(s) + v, |u + EncodeAll(s)|)
    ensures Body(t, u + Encode(cp) + v) == Body(t, u + EncodeAll(s) + v)
  {
    ItemsAround(t, u, cp, v);
    ItemsOfFolded(t, u, s, v);
  }
}
