/** Quote-aware substitution into shell commands, and what a POSIX shell reads in the result. */
module ShellQuote {
  import opened Prelude

  const SQ: byte := 39
  const DQ: byte := 34
  const BACKSLASH: byte := 92
  const DOLLAR: byte := 36
  const BACKQUOTE: byte := 96
  const NEWLINE: byte := 10

  /** kc_flow_quote_state_t */
  datatype Quote = Bare | Single | Double

  /** kc_flow_shell_quote_step: the quote state and pending escape after one literal character. */
  function QuoteStep(quote: Quote, escaped: bool, c: byte): (Quote, bool) {
    if !quote.Single? && c == BACKSLASH && !escaped then (quote, true)
    else if c == SQ && quote.Bare? && !escaped then (Single, false)
    else if c == SQ && quote.Single? then (Bare, false)
    else if c == DQ && !quote.Single? && !escaped then (if quote.Double? then Bare else Double, false)
    else (quote, false)
  }

  /** The characters the code escapes between double quotes. */
  predicate Special(c: byte) {
    c == DQ || c == BACKSLASH || c == DOLLAR || c == BACKQUOTE
  }

  /** What one character of a value becomes. */
  function QuotedChar(c: byte, quote: Quote): seq<byte> {
    if quote.Single? && c == SQ then [SQ, BACKSLASH, SQ, SQ]
    else if quote.Double? && Special(c) then [BACKSLASH, c]
    else [c]
  }

  function Quoted(value: seq<byte>, quote: Quote): seq<byte> {
    if value == [] then [] else QuotedChar(value[0], quote) + Quoted(value[1..], quote)
  }

  lemma {:induction false} QuotedSnoc(value: seq<byte>, c: byte, quote: Quote)
    ensures Quoted(value + [c], quote) == Quoted(value, quote) + QuotedChar(c, quote)
  {
    hide QuotedChar;
    if value == [] {
      assert [c][1..] == [];
    } else {
      assert (value + [c])[1..] == value[1..] + [c];
      QuotedSnoc(value[1..], c, quote);
    }
  }

  lemma {:induction false} BareIsRaw(value: seq<byte>)
    ensures Quoted(value, Bare) == value
  {
    if value != [] {
      BareIsRaw(value[1..]);
    }
  }

  /** kc_flow_append_shell_value */
  method AppendShellValue(out: seq<byte>, value: seq<byte>, quote: Quote) returns (longer: seq<byte>)
    ensures longer == out + Quoted(value, quote)
  {
    if quote.Bare? {
      BareIsRaw(value);
      return out + value;
    }
    longer := out;
    var i := 0;
    assert value[..0] == [] && out + [] == out;
    while i < |value|
      invariant 0 <= i <= |value| && longer == out + Quoted(value[..i], quote)
    {
      var c := value[i];
      assert value[..i + 1] == value[..i] + [c];
      QuotedSnoc(value[..i], c, quote);
      hide Quoted;
      if quote.Single? && c == SQ {
        longer := longer + [SQ, BACKSLASH, SQ, SQ];
      } else {
        if quote.Double? && Special(c) {
          longer := longer + [BACKSLASH];
        }
        longer := longer + [c];
      }
      i := i + 1;
    }
    assert value[..i] == value;
  }

  // ---------- how a shell reads a command ----------

  /** A character stands for itself, or the shell still interprets it. */
  datatype Token = Literal(c: byte) | Active(c: byte)

  /** Inside a parameter expansion: just after the dollar sign, or within the name. */
  datatype Dollar = NoDollar | AfterDollar | InName

  /**
   * The quoting rules of sections 2.2.1 to 2.2.3 of the POSIX Shell Command Language, with the plain
   * parameter expansions of section 2.6.2. Command substitution, arithmetic, braces and comments begin
   * a context of their own, which this reading does not enter.
   */
  datatype Reading = Reading(quote: Quote, pending: bool, dollar: Dollar, wordStart: bool) | Entered

  const START := Reading(Bare, false, NoDollar, true)

  predicate NameStart(c: byte) {
    65 <= c <= 90 || 97 <= c <= 122 || c == 95
  }

  predicate Digit(c: byte) {
    48 <= c <= 57
  }

  /** "@", "*", "#", "?", "-", "$" and "!". */
  predicate SpecialParameter(c: byte) {
    c == 64 || c == 42 || c == 35 || c == 63 || c == 45 || c == 36 || c == 33
  }

  /** "(" and "{" */
  predicate Opens(c: byte) {
    c == 40 || c == 123
  }

  /** The character belongs to the expansion begun before it. */
  predicate Absorbs(dollar: Dollar, c: byte) {
    match dollar
    case NoDollar => false
    case AfterDollar => NameStart(c) || Digit(c) || SpecialParameter(c) || Opens(c)
    case InName => NameStart(c) || Digit(c)
  }

  /** Blanks, newline and the characters of operators end a word. */
  predicate EndsWord(c: byte) {
    c == 32 || c == 9 || c == NEWLINE || c == 59 || c == 38 || c == 124 || c == 40 || c == 41 || c == 60 || c == 62
  }

  /** The characters of the quoting rules, by themselves. */
  lemma ShellCharacters(c: byte)
    requires c < 128
    ensures c == SQ <==> c as char == '\''
    ensures c == DQ <==> c as char == '"'
    ensures c == BACKSLASH <==> c as char == '\\'
    ensures c == DOLLAR <==> c as char == '$'
    ensures c == BACKQUOTE <==> c as char == '`'
    ensures c == NEWLINE <==> c as char == '\n'
    ensures Special(c) <==> c as char in "$`\"\\"
    ensures NameStart(c) <==> 'a' <= c as char <= 'z' || 'A' <= c as char <= 'Z' || c as char == '_'
    ensures Digit(c) <==> '0' <= c as char <= '9'
    ensures SpecialParameter(c) <==> c as char in "@*#?-$!"
    ensures Opens(c) <==> c as char in "({"
    ensures EndsWord(c) <==> c as char in " \t\n;&|()<>"
  {
  }

  /** Beyond ASCII every character is an ordinary one. */
  lemma OrdinaryOctets(c: byte)
    requires c >= 128
    ensures !Special(c) && !NameStart(c) && !Digit(c) && !SpecialParameter(c) && !Opens(c) && !EndsWord(c)
    ensures c !in {SQ, DQ, BACKSLASH, DOLLAR, BACKQUOTE, NEWLINE}
  {
  }

  function Within(quote: Quote): (r: Reading)
    ensures r.Reading?
  {
    Reading(quote, false, NoDollar, false)
  }

  /** One character without a pending backslash. */
  function Unescaped(s: Reading, c: byte): (Reading, seq<Token>)
    requires s.Reading? && !s.pending
  {
    if s.quote.Single? then
      if c == SQ then (Within(Bare), []) else (Within(Single), [Literal(c)])
    else if Absorbs(s.dollar, c) then
      if Opens(c) then (Entered, [Active(c)])
      else (Reading(s.quote, false, if NameStart(c) || s.dollar.InName? then InName else NoDollar, false), [Active(c)])
    else if c == BACKSLASH then (s.(pending := true), [])
    else if c == DQ then (Within(if s.quote.Double? then Bare else Double), [])
    else if c == DOLLAR then (Reading(s.quote, false, AfterDollar, false), [Active(c)])
    else if c == BACKQUOTE then (Entered, [Active(c)])
    else if s.quote.Double? then (Within(Double), [Literal(c)])
    else if c == SQ then (Within(Single), [])
    else if c == 35 && s.wordStart then (Entered, [Active(c)])
    else (Reading(Bare, false, NoDollar, EndsWord(c)), [Active(c)])
  }

  /** One character; a backslash before a newline removes both. */
  function Read(s: Reading, c: byte): (Reading, seq<Token>) {
    if s.Entered? then (Entered, [Active(c)])
    else if !s.pending then Unescaped(s, c)
    else if c == NEWLINE then (s.(pending := false), [])
    else if s.quote.Bare? || Special(c) then (Within(s.quote), [Literal(c)])
    else
      var (next, tokens) := Unescaped(s.(pending := false, dollar := NoDollar), c);
      (next, [Literal(BACKSLASH)] + tokens)
  }

  /** Outside quotes a number sign begins a comment where a word could begin, and is an ordinary character elsewhere. */
  lemma CommentsBegin(before: byte)
    requires before as char in " \t\n;&|()<>" || 'a' <= before as char <= 'z'
    ensures Read(START, '#' as int).0.Entered?
    ensures var (next, tokens) := Read(Read(START, before).0, '#' as int);
            && tokens == [Active('#' as int)] && (next.Entered? <==> before as char in " \t\n;&|()<>")
  {
  }

  /** How far a parameter expansion goes: a name is taken whole, a digit or special parameter alone. */
  lemma ExpansionsEnd(quote: Quote, a: byte, b: byte)
    requires !quote.Single?
    ensures var (begun, first) := Read(Within(quote), DOLLAR); var (next, second) := Read(begun, a);
            && first == [Active(DOLLAR)]
            && (NameStart(a) && (NameStart(b) || Digit(b)) ==> second == [Active(a)] && Read(next, b).1 == [Active(b)])
            && (NameStart(a) && quote.Double? && (b == 32 || b == 46) ==> Read(next, b).1 == [Literal(b)])
            && ((Digit(a) || SpecialParameter(a)) && quote.Double? && (NameStart(b) || Digit(b)) ==>
                  second == [Active(a)] && Read(next, b).1 == [Literal(b)])
            && (Opens(a) ==> next.Entered?)
  {
  }

  function ReadAll(s: Reading, text: seq<byte>): (Reading, seq<Token>)
    decreases |text|
  {
    if text == [] then (s, [])
    else
      var (next, tokens) := Read(s, text[0]);
      var (end, rest) := ReadAll(next, text[1..]);
      (end, tokens + rest)
  }

  lemma {:induction false} ReadAllSplit(s: Reading, a: seq<byte>, b: seq<byte>)
    ensures var (middle, first) := ReadAll(s, a);
            var (end, second) := ReadAll(middle, b);
            ReadAll(s, a + b) == (end, first + second)
    decreases |a|
  {
    hide Read;
    if a == [] {
      assert a + b == b;
      assert [] + ReadAll(s, b).1 == ReadAll(s, b).1;
    } else {
      assert (a + b)[1..] == a[1..] + b;
      var (next, tokens) := Read(s, a[0]);
      ReadAllSplit(next, a[1..], b);
      var (middle, rest) := ReadAll(next, a[1..]);
      Regroup(tokens, rest, ReadAll(middle, b).1);
    }
  }

  /** Between single quotes nothing is pending and no expansion is open. */
  predicate Regular(s: Reading) {
    s.Reading? && s.quote.Single? ==> !s.pending && s.dollar.NoDollar?
  }

  /** The template's tracked state is the shell's. */
  predicate Tracks(s: Reading, quote: Quote, escaped: bool) {
    s.Entered? || (s.quote == quote && s.pending == escaped)
  }

  lemma TrackStep(s: Reading, quote: Quote, escaped: bool, c: byte)
    requires Regular(s) && Tracks(s, quote, escaped)
    ensures var (quote', escaped') := QuoteStep(quote, escaped, c);
            Regular(Read(s, c).0) && Tracks(Read(s, c).0, quote', escaped')
  {
  }

  // ---------- one value ----------

  function Literals(value: seq<byte>): (r: seq<Token>)
    ensures |r| == |value|
  {
    if value == [] then [] else [Literal(value[0])] + Literals(value[1..])
  }

  /** The shell's state after reading a value as plain characters. */
  function AfterValue(s: Reading, value: seq<byte>): Reading
    requires s.Reading?
  {
    if value == [] then s else Within(s.quote)
  }

  /** The first character of the value would continue the expansion in front of it. */
  predicate Continues(s: Reading, c: byte)
    requires s.Reading?
  {
    s.quote.Double? && !Special(c) && Absorbs(s.dollar, c)
  }

  /** What a caller can check: no backslash is pending, and no expansion the value would continue is open. */
  predicate Ready(s: Reading, value: seq<byte>)
    requires s.Reading?
  {
    value == [] || (!s.pending && !Continues(s, value[0]))
  }

  /** The value is read as its own characters, and the quote state is what it was. */
  predicate Preserved(s: Reading, value: seq<byte>)
    requires s.Reading?
  {
    ReadAll(s, Quoted(value, s.quote)) == (AfterValue(s, value), Literals(value))
  }

  lemma ReadOne(s: Reading, c: byte)
    ensures ReadAll(s, [c]) == Read(s, c)
  {
    assert [c][1..] == [];
    assert Read(s, c).1 + [] == Read(s, c).1;
  }

  lemma ReadTwo(s: Reading, a: byte, b: byte)
    ensures var (middle, first) := Read(s, a); var (end, second) := Read(middle, b);
            ReadAll(s, [a, b]) == (end, first + second)
  {
    hide Read;
    ReadOne(s, a);
    ReadOne(Read(s, a).0, b);
    ReadAllSplit(s, [a], [b]);
    assert [a] + [b] == [a, b];
  }

  /** One quoted character with nothing pending. */
  lemma ReadQuoted(s: Reading, c: byte)
    requires s.Reading? && Regular(s) && !s.quote.Bare? && !s.pending
    ensures var (end, tokens) := ReadAll(s, QuotedChar(c, s.quote));
            if Continues(s, c) then tokens == [Active(c)] else (end, tokens) == (Within(s.quote), [Literal(c)])
  {
    hide ReadAll;
    if s.quote.Single? && c == SQ {
      var out := Reading(Bare, true, NoDollar, false);
      ReadTwo(s, SQ, BACKSLASH);
      assert ReadAll(s, [SQ, BACKSLASH]).1 == [];
      ReadTwo(out, SQ, SQ);
      assert ReadAll(out, [SQ, SQ]).1 == [Literal(SQ)];
      ReadAllSplit(s, [SQ, BACKSLASH], [SQ, SQ]);
      assert [SQ, BACKSLASH] + [SQ, SQ] == [SQ, BACKSLASH, SQ, SQ];
      assert ReadAll(s, QuotedChar(c, s.quote)).1 == [Literal(SQ)];
    } else if s.quote.Double? && Special(c) {
      ReadTwo(s, BACKSLASH, c);
      assert ReadAll(s, QuotedChar(c, s.quote)).1 == [Literal(c)];
    } else {
      ReadOne(s, c);
    }
  }

  lemma QuotedHead(s: Reading, value: seq<byte>)
    requires s.Reading? && value != []
    ensures var (middle, first) := ReadAll(s, QuotedChar(value[0], s.quote));
            var (end, rest) := ReadAll(middle, Quoted(value[1..], s.quote));
            ReadAll(s, Quoted(value, s.quote)) == (end, first + rest)
  {
    hide ReadAll, QuotedChar;
    ReadAllSplit(s, QuotedChar(value[0], s.quote), Quoted(value[1..], s.quote));
  }

  lemma {:induction false} ReadyIsPreserved(s: Reading, value: seq<byte>)
    requires s.Reading? && Regular(s) && !s.quote.Bare? && Ready(s, value)
    ensures Preserved(s, value)
    decreases |value|
  {
    if value != [] {
      hide ReadAll, Read, QuotedChar, Quoted;
      QuotedHead(s, value);
      ReadQuoted(s, value[0]);
      ReadyIsPreserved(Within(s.quote), value[1..]);
    } else {
      assert Quoted(value, s.quote) == [];
    }
  }

  /** A first token other than the value's first character shows that the value is not preserved. */
  lemma WrongHead(s: Reading, value: seq<byte>)
    requires s.Reading? && value != []
    requires var first := ReadAll(s, QuotedChar(value[0], s.quote)).1; first != [] && first[0] != Literal(value[0])
    ensures !Preserved(s, value)
  {
    hide ReadAll, QuotedChar, Quoted;
    QuotedHead(s, value);
    var (middle, first) := ReadAll(s, QuotedChar(value[0], s.quote));
    assert (first + ReadAll(middle, Quoted(value[1..], s.quote)).1)[0] == first[0];
    assert Literals(value)[0] == Literal(value[0]);
  }

  /** What a pending backslash makes of the first character of a value. */
  lemma PendingHead(s: Reading, c: byte)
    requires s.Reading? && s.quote.Double? && s.pending
    ensures var (end, tokens) := ReadAll(s, QuotedChar(c, Double));
            && (c == NEWLINE ==> (end, tokens) == (s.(pending := false), []))
            && (c == BACKSLASH ==> (end, tokens) == (Reading(Double, true, NoDollar, false), [Literal(BACKSLASH)]))
            && (c != NEWLINE && c != BACKSLASH ==> tokens != [] && tokens[0] != Literal(c))
  {
    hide ReadAll;
    if Special(c) {
      ReadTwo(s, BACKSLASH, c);
      assert Read(s, BACKSLASH) == (Within(Double), [Literal(BACKSLASH)]);
      assert c == BACKSLASH ==> ReadAll(s, [BACKSLASH, c]).1 == [Literal(BACKSLASH)];
    } else {
      ReadOne(s, c);
    }
  }

  /** A pending backslash garbles any value: it swallows the first character, or is read in its place. */
  lemma {:induction false} PendingGarbles(s: Reading, value: seq<byte>)
    requires s.Reading? && s.quote.Double? && s.pending && value != []
    ensures !Preserved(s, value)
    decreases |value|
  {
    hide ReadAll, Read, QuotedChar, Quoted;
    var c, rest := value[0], value[1..];
    PendingHead(s, c);
    if c == NEWLINE {
      QuotedHead(s, value);
      SwallowedIsMissed(s, value);
    } else if c == BACKSLASH {
      QuotedHead(s, value);
      var p := Reading(Double, true, NoDollar, false);
      if rest == [] {
        assert Quoted(rest, Double) == [] by { NothingQuoted(Double); }
        assert ReadAll(p, []) == (p, []) by { NothingRead(p); }
      } else {
        PendingGarbles(p, rest);
        BackslashHead(ReadAll(p, Quoted(rest, Double)).1, value);
      }
    } else {
      WrongHead(s, value);
    }
  }

  lemma NothingQuoted(quote: Quote)
    ensures Quoted([], quote) == []
  {
  }

  lemma NothingRead(s: Reading)
    ensures ReadAll(s, []) == (s, [])
  {
  }

  lemma BackslashHead(tokens: seq<Token>, value: seq<byte>)
    requires value != [] && value[0] == BACKSLASH
    ensures [Literal(BACKSLASH)] + tokens == Literals(value) ==> tokens == Literals(value[1..])
  {
    assert ([Literal(BACKSLASH)] + tokens)[1..] == tokens;
    assert Literals(value)[1..] == Literals(value[1..]);
  }

  /** A newline swallowed by the backslash is missing from what is read. */
  lemma SwallowedIsMissed(s: Reading, value: seq<byte>)
    requires s.Reading? && s.quote.Double? && s.pending && value != [] && value[0] == NEWLINE
    requires ReadAll(s, Quoted(value, Double)).1 == [] + ReadAll(s.(pending := false), Quoted(value[1..], Double)).1
    ensures !Preserved(s, value)
  {
    hide ReadAll, Read, QuotedChar, Quoted;
    var next, rest := s.(pending := false), value[1..];
    if rest == [] || !Continues(next, rest[0]) {
      ReadyIsPreserved(next, rest);
      assert |Literals(rest)| < |Literals(value)|;
    } else {
      ReadQuoted(next, rest[0]);
      QuotedHead(next, rest);
      var (middle, first) := ReadAll(next, QuotedChar(rest[0], Double));
      assert ReadAll(s, Quoted(value, Double)).1[0] == Active(rest[0]);
      assert Literals(value)[0] == Literal(NEWLINE);
    }
  }

  /**
   * A value between quotes is read as its own characters exactly when no backslash is pending and no
   * expansion is continued.
   */
  lemma PreservedIffReady(s: Reading, value: seq<byte>)
    requires s.Reading? && Regular(s) && !s.quote.Bare?
    ensures Preserved(s, value) <==> Ready(s, value)
  {
    hide ReadAll, Preserved, Quoted;
    if Ready(s, value) {
      ReadyIsPreserved(s, value);
    } else if s.pending {
      PendingGarbles(s, value);
    } else {
      ReadQuoted(s, value[0]);
      WrongHead(s, value);
    }
  }

  /**
   * The two places between double quotes where a value is not safe: behind a backslash and behind an open
   * expansion.
   */
  lemma UnsafePlaces()
    ensures var s := ReadAll(START, [DQ, BACKSLASH]).0; s.Reading? && !Preserved(s, [DOLLAR])
    ensures var s := ReadAll(START, [DQ, DOLLAR]).0; s.Reading? && !Preserved(s, [72])
  {
    ReadTwo(START, DQ, BACKSLASH);
    ReadTwo(START, DQ, DOLLAR);
    assert ReadAll(START, [DQ, BACKSLASH]).0 == Reading(Double, true, NoDollar, false);
    assert ReadAll(START, [DQ, DOLLAR]).0 == Reading(Double, false, AfterDollar, false);
    hide ReadAll, Preserved;
    PreservedIffReady(ReadAll(START, [DQ, BACKSLASH]).0, [DOLLAR]);
    PreservedIffReady(ReadAll(START, [DQ, DOLLAR]).0, [72]);
  }

  // ---------- a whole template ----------

  /** A template whose placeholders are resolved. */
  datatype Part = Text(c: byte) | Value(bytes: seq<byte>)

  /** The command kc_flow_template_mode produces, from a tracked quote state on. */
  function Expansion(parts: seq<Part>, quote: Quote, escaped: bool): seq<byte> {
    if parts == [] then []
    else match parts[0]
      case Text(c) =>
        var (quote', escaped') := QuoteStep(quote, escaped, c);
        [c] + Expansion(parts[1..], quote', escaped')
      case Value(bytes) => Quoted(bytes, quote) + Expansion(parts[1..], quote, escaped)
  }

  /** What the author of the template means: its own text read by the shell, every value as it is. */
  function Meaning(parts: seq<Part>, s: Reading): (Reading, seq<Token>)
    decreases |parts|
  {
    if parts == [] then (s, [])
    else match parts[0]
      case Text(c) =>
        var (next, tokens) := Read(s, c);
        var (end, rest) := Meaning(parts[1..], next);
        (end, tokens + rest)
      case Value(bytes) =>
        var (end, rest) := Meaning(parts[1..], if s.Reading? then AfterValue(s, bytes) else s);
        (end, Literals(bytes) + rest)
  }

  /** Every placeholder stands between quotes, where its value is read as it is. */
  predicate Protected(parts: seq<Part>, s: Reading)
    decreases |parts|
  {
    if parts == [] then true
    else match parts[0]
      case Text(c) => Protected(parts[1..], Read(s, c).0)
      case Value(bytes) =>
        s.Reading? && !s.quote.Bare? && Ready(s, bytes) && Protected(parts[1..], AfterValue(s, bytes))
  }

  /**
   * Substitution preserves meaning: the shell reads the expanded command as the template with every value in
   * place, character for character.
   */
  lemma {:induction false} ExpansionPreserves(parts: seq<Part>, s: Reading, quote: Quote, escaped: bool)
    requires Regular(s) && Tracks(s, quote, escaped) && Protected(parts, s)
    ensures ReadAll(s, Expansion(parts, quote, escaped)) == Meaning(parts, s)
    decreases |parts|
  {
    hide Read, ReadAll, QuoteStep, Quoted, Literals;
    if parts == [] {
      NothingRead(s);
    } else {
      match parts[0]
      case Text(c) =>
        var (quote', escaped') := QuoteStep(quote, escaped, c);
        TrackStep(s, quote, escaped, c);
        ExpansionPreserves(parts[1..], Read(s, c).0, quote', escaped');
        ReadOne(s, c);
        ReadAllSplit(s, [c], Expansion(parts[1..], quote', escaped'));
      case Value(bytes) =>
        ReadyIsPreserved(s, bytes);
        ExpansionPreserves(parts[1..], AfterValue(s, bytes), quote, escaped);
        ReadAllSplit(s, Quoted(bytes, quote), Expansion(parts[1..], quote, escaped));
    }
  }
}
