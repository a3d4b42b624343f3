/** kc_flow_template_mode: finding and resolving the placeholders of a template. */
module Template {
  import opened Prelude
  import opened ShellQuote

  const OPEN: byte := 60
  const CLOSE: byte := 62
  const MAX_KEY := 256
  const MAX_DEPTH := 64

  /** What a reference resolves to at a recursion depth; None where the code reports a failure. */
  type Resolver = (seq<byte>, nat) -> Option<seq<byte>>

  /** More opening than closing brackets. */
  function Balance(s: seq<byte>): int {
    if s == [] then 0
    else
      var last := s[|s| - 1];
      Balance(s[..|s| - 1]) + if last == OPEN then 1 else if last == CLOSE then -1 else 0
  }

  /** Brackets open at `k`, counting the one opened just before `from`. */
  function Depth(text: seq<byte>, from: nat, k: nat): int
    requires from <= k <= |text|
  {
    1 + Balance(text[from..k])
  }

  /** The bracket opened before `from` is still open at every position up to `k`. */
  ghost predicate OpenUpto(text: seq<byte>, from: nat, k: nat)
    requires from <= k <= |text|
  {
    forall i :: from <= i <= k ==> Depth(text, from, i) > 0
  }

  /** `end` closes the bracket opened just before `from`. */
  ghost predicate Closes(text: seq<byte>, from: nat, end: nat) {
    from <= end < |text| && OpenUpto(text, from, end) && Depth(text, from, end + 1) == 0
  }

  function MatchEnd(text: seq<byte>, from: nat, balance: nat): (r: Option<nat>)
    requires from <= |text| && balance > 0
    ensures r.Some? ==> from <= r.value < |text|
    decreases |text| - from
  {
    if from == |text| then None
    else if text[from] == OPEN then MatchEnd(text, from + 1, balance + 1)
    else if text[from] != CLOSE then MatchEnd(text, from + 1, balance)
    else if balance > 1 then MatchEnd(text, from + 1, balance - 1)
    else Some(from)
  }

  lemma DepthStep(text: seq<byte>, from: nat, k: nat)
    requires from <= k < |text|
    ensures Depth(text, from, from) == 1
    ensures Depth(text, from, k + 1)
         == Depth(text, from, k) + if text[k] == OPEN then 1 else if text[k] == CLOSE then -1 else 0
  {
    assert text[from..k + 1][..k - from] == text[from..k];
    assert text[from..from] == [];
  }

  /** The loop that looks for the closing bracket finds the one that balances the placeholder's own. */
  lemma {:induction false} MatchCloses(text: seq<byte>, from: nat, k: nat, balance: nat)
    requires from <= k <= |text| && balance == Depth(text, from, k) && balance > 0 && OpenUpto(text, from, k)
    ensures var r := MatchEnd(text, k, balance);
            if r.Some? then Closes(text, from, r.value) && text[r.value] == CLOSE else OpenUpto(text, from, |text|)
    decreases |text| - k
  {
    if k < |text| {
      DepthStep(text, from, k);
      hide Depth;
      if text[k] == OPEN {
        MatchCloses(text, from, k + 1, balance + 1);
      } else if text[k] != CLOSE {
        MatchCloses(text, from, k + 1, balance);
      } else if balance > 1 {
        MatchCloses(text, from, k + 1, balance - 1);
      }
    }
  }

  lemma NotBefore(text: seq<byte>, from: nat, a: nat, b: nat)
    requires Closes(text, from, b) && from <= a < b
    ensures !Closes(text, from, a)
  {
    assert Depth(text, from, a + 1) > 0;
  }

  lemma ClosedOnce(text: seq<byte>, from: nat, a: nat, b: nat)
    ensures Closes(text, from, a) && Closes(text, from, b) ==> a == b
  {
    hide Depth, OpenUpto;
    if Closes(text, from, b) && from <= a < b {
      NotBefore(text, from, a, b);
    }
    if Closes(text, from, a) && from <= b < a {
      NotBefore(text, from, b, a);
    }
  }

  lemma NeverClosed(text: seq<byte>, from: nat, end: nat)
    requires from <= |text| && OpenUpto(text, from, |text|)
    ensures !Closes(text, from, end)
  {
    if from <= end < |text| {
      assert Depth(text, from, end + 1) > 0;
    }
  }

  /** The bracket that closes a placeholder is unique, and it is the one the code takes. */
  lemma PlaceholderEnd(text: seq<byte>, from: nat, end: nat)
    requires from <= |text|
    ensures MatchEnd(text, from, 1) == Some(end) <==> Closes(text, from, end)
  {
    assert text[from..from] == [] && Balance([]) == 0;
    MatchCloses(text, from, from, 1);
    hide Depth, MatchEnd, OpenUpto;
    var r := MatchEnd(text, from, 1);
    if r.None? {
      NeverClosed(text, from, end);
    } else {
      ClosedOnce(text, from, end, r.value);
    }
  }

  /** The parts of a template with every placeholder resolved; None when one is malformed or does not resolve. */
  function Parts(text: seq<byte>, depth: nat, resolve: Resolver): Option<seq<Part>>
    decreases |text|, 0
  {
    if text == [] then Some([])
    else if text[0] != OPEN then Prefixed([Text(text[0])], Parts(text[1..], depth, resolve))
    else
      var end := MatchEnd(text, 1, 1);
      if end.None? then None
      else
        var value := Placeholder(text[1..end.value], depth, resolve);
        if value.None? then None else Prefixed([Value(value.value)], Parts(text[end.value + 1..], depth, resolve))
  }

  /** The value of a placeholder: its name is itself a template, or taken as it is when that fails. */
  function Placeholder(name: seq<byte>, depth: nat, resolve: Resolver): Option<seq<byte>>
    decreases |name|, 2
  {
    if |name| == 0 || |name| >= MAX_KEY then None
    else
      var resolved := PlainTemplate(name, depth + 1, resolve);
      resolve(if resolved.Some? then resolved.value else name, depth + 1)
  }

  /** The limits of a placeholder: a name of 1 to 255 octets, and at most 64 templates within each other. */
  lemma Limits(name: seq<byte>, depth: nat, resolve: Resolver)
    ensures OPEN as char == '<' && CLOSE as char == '>'
    ensures name == [] || |name| > 255 ==> Placeholder(name, depth, resolve) == None
    ensures 0 < |name| <= 255 && depth >= 64 ==> Placeholder(name, depth, resolve) == resolve(name, depth + 1)
    ensures 0 < |name| <= 255 && depth < 64 && OPEN !in name ==>
              Placeholder(name, depth, resolve) == resolve(name, depth + 1)
  {
    if 0 < |name| <= 255 && depth < 64 && OPEN !in name {
      NoPlaceholders(name, depth + 1, resolve);
    }
  }

  lemma {:induction false} NoPlaceholders(text: seq<byte>, depth: nat, resolve: Resolver)
    requires OPEN !in text
    ensures Parts(text, depth, resolve).Some? && Plain(Parts(text, depth, resolve).value) == text
    decreases |text|
  {
    if text != [] {
      NoPlaceholders(text[1..], depth, resolve);
      var rest := Parts(text[1..], depth, resolve).value;
      assert ([Text(text[0])] + rest)[1..] == rest;
      assert text == [text[0]] + text[1..];
    }
  }

  lemma {:induction false} NameEnds(text: seq<byte>, from: nat, end: nat)
    requires from <= end < |text| && text[end] == CLOSE
    requires forall k :: from <= k < end ==> text[k] != OPEN && text[k] != CLOSE
    ensures MatchEnd(text, from, 1) == Some(end)
    decreases end - from
  {
    if from < end {
      NameEnds(text, from + 1, end);
    }
  }

  /** A placeholder at the front: its value, and what the rest of the template gives. */
  lemma FirstPlaceholder(name: seq<byte>, v: seq<byte>, depth: nat, resolve: Resolver)
    requires 0 < |name| <= 255 && OPEN !in name && CLOSE !in name
    ensures Parts([OPEN] + name + [CLOSE] + v, depth, resolve)
         == if resolve(name, depth + 1).None? then None
            else Prefixed([Value(resolve(name, depth + 1).value)], Parts(v, depth, resolve))
  {
    var text := [OPEN] + name + [CLOSE] + v;
    var end := |name| + 1;
    assert forall k :: 1 <= k < end ==> text[k] == name[k - 1];
    NameEnds(text, 1, end);
    Limits(name, depth, resolve);
    hide Placeholder, MatchEnd;
    assert text[1..end] == name && text[end + 1..] == v;
  }

  /** Text around a placeholder stays, and its value takes its place; every other character is copied. */
  lemma {:induction false} PlaceholderReplaced(u: seq<byte>, name: seq<byte>, v: seq<byte>, depth: nat,
                                               resolve: Resolver)
    requires OPEN !in u && OPEN !in v && 0 < |name| <= 255 && OPEN !in name && CLOSE !in name
    ensures var parts := Parts(u + [OPEN] + name + [CLOSE] + v, depth, resolve);
            if resolve(name, depth + 1).None? then parts == None
            else parts.Some? && Plain(parts.value) == u + resolve(name, depth + 1).value + v
    decreases |u|
  {
    hide Parts, Plain;
    var text := u + [OPEN] + name + [CLOSE] + v;
    if u == [] {
      FirstPlaceholder(name, v, depth, resolve);
      assert text == [OPEN] + name + [CLOSE] + v;
      NoPlaceholders(v, depth, resolve);
      if resolve(name, depth + 1).Some? {
        var value := resolve(name, depth + 1).value;
        PlainFirst(Value(value), Parts(v, depth, resolve).value);
        assert u + value + v == value + v;
      }
    } else {
      PlaceholderReplaced(u[1..], name, v, depth, resolve);
      assert text[1..] == u[1..] + [OPEN] + name + [CLOSE] + v;
      CopiedFirst(text, depth, resolve);
      if resolve(name, depth + 1).Some? {
        PlainFirst(Text(u[0]), Parts(text[1..], depth, resolve).value);
        CopiedText(u, resolve(name, depth + 1).value, v);
      }
    }
  }

  /** A placeholder within the name of another is resolved first, and the name is taken raw when that fails. */
  lemma NestedName(u: seq<byte>, name: seq<byte>, v: seq<byte>, depth: nat, resolve: Resolver)
    requires OPEN !in u && OPEN !in v && 0 < |name| && OPEN !in name && CLOSE !in name
    requires |u| + |name| + |v| <= 253 && depth < 64
    ensures var outer, inner := u + [OPEN] + name + [CLOSE] + v, resolve(name, depth + 2);
            Placeholder(outer, depth, resolve)
            == resolve(if inner.Some? then u + inner.value + v else outer, depth + 1)
  {
    var outer := u + [OPEN] + name + [CLOSE] + v;
    PlaceholderReplaced(u, name, v, depth + 1, resolve);
    hide Parts, Plain;
  }

  lemma CopiedFirst(text: seq<byte>, depth: nat, resolve: Resolver)
    requires text != [] && text[0] != OPEN
    ensures Parts(text, depth, resolve) == Prefixed([Text(text[0])], Parts(text[1..], depth, resolve))
  {
  }

  lemma CopiedText(u: seq<byte>, value: seq<byte>, v: seq<byte>)
    requires u != []
    ensures [u[0]] + (u[1..] + value + v) == u + value + v
  {
  }

  lemma PlainFirst(part: Part, rest: seq<Part>)
    ensures Plain([part] + rest) == (match part case Text(c) => [c] case Value(bytes) => bytes) + Plain(rest)
  {
    assert ([part] + rest)[1..] == rest;
  }

  /** A template outside a shell command: every value as it is. */
  function PlainTemplate(text: seq<byte>, depth: nat, resolve: Resolver): Option<seq<byte>>
    decreases |text|, 1
  {
    if depth > MAX_DEPTH then None
    else
      var parts := Parts(text, depth, resolve);
      if parts.None? then None else Some(Plain(parts.value))
  }

  function Prefixed(done: seq<Part>, rest: Option<seq<Part>>): Option<seq<Part>> {
    if rest.None? then None else Some(done + rest.value)
  }

  function Plain(parts: seq<Part>): seq<byte> {
    if parts == [] then []
    else (match parts[0] case Text(c) => [c] case Value(bytes) => bytes) + Plain(parts[1..])
  }

  /** The tracked quote state behind some parts. */
  function StateAfter(parts: seq<Part>, quote: Quote, escaped: bool): (Quote, bool)
    decreases |parts|
  {
    if parts == [] then (quote, escaped)
    else match parts[0]
      case Text(c) => var (q, e) := QuoteStep(quote, escaped, c); StateAfter(parts[1..], q, e)
      case Value(_) => StateAfter(parts[1..], quote, escaped)
  }

  /** What one more part adds. */
  function Added(part: Part, shell: bool, quote: Quote): seq<byte> {
    match part
    case Text(c) => [c]
    case Value(bytes) => if shell then Quoted(bytes, quote) else bytes
  }

  /** The text a template expands to, inside or outside a shell command. */
  function Expanded(parts: seq<Part>, shell: bool): seq<byte> {
    if shell then Expansion(parts, Bare, false) else Plain(parts)
  }

  lemma {:induction false} ExpansionSnoc(parts: seq<Part>, part: Part, quote: Quote, escaped: bool)
    ensures var (q, e) := StateAfter(parts, quote, escaped);
            && Expansion(parts + [part], quote, escaped) == Expansion(parts, quote, escaped) + Added(part, true, q)
            && StateAfter(parts + [part], quote, escaped)
               == (match part case Text(c) => QuoteStep(q, e, c) case Value(_) => (q, e))
    decreases |parts|
  {
    hide QuoteStep, Quoted;
    var longer := parts + [part];
    if parts == [] {
      assert longer == [part] && [part][1..] == [];
      assert Expansion([], quote, escaped) == [];
    } else {
      hide Added;
      assert longer[0] == parts[0] && longer[1..] == parts[1..] + [part];
      match parts[0]
      case Text(c) =>
        var (q, e) := QuoteStep(quote, escaped, c);
        ExpansionSnoc(parts[1..], part, q, e);
        Regroup([c], Expansion(parts[1..], q, e), Added(part, true, StateAfter(parts[1..], q, e).0));
      case Value(bytes) =>
        ExpansionSnoc(parts[1..], part, quote, escaped);
        Regroup(Quoted(bytes, quote), Expansion(parts[1..], quote, escaped),
                Added(part, true, StateAfter(parts[1..], quote, escaped).0));
    }
  }

  lemma {:induction false} PlainSnoc(parts: seq<Part>, part: Part, quote: Quote)
    ensures Plain(parts + [part]) == Plain(parts) + Added(part, false, quote)
  {
    if parts == [] {
      assert [part][1..] == [];
    } else {
      assert (parts + [part])[1..] == parts[1..] + [part];
      PlainSnoc(parts[1..], part, quote);
    }
  }

  lemma ExpandedSnoc(parts: seq<Part>, part: Part, shell: bool)
    ensures var (q, e) := StateAfter(parts, Bare, false);
            && Expanded(parts + [part], shell) == Expanded(parts, shell) + Added(part, shell, q)
            && StateAfter(parts + [part], Bare, false)
               == (match part case Text(c) => QuoteStep(q, e, c) case Value(_) => (q, e))
  {
    ExpansionSnoc(parts, part, Bare, false);
    PlainSnoc(parts, part, Bare);
  }

  /** The balance loop over a placeholder. */
  method FindEnd(text: seq<byte>, open: nat) returns (r: Option<nat>)
    requires open < |text|
    ensures r == MatchEnd(text, open + 1, 1)
  {
    var end := open + 1;
    var balance: nat := 1;
    while end < |text| && balance > 0
      invariant open < end <= |text|
      invariant if balance > 0 then MatchEnd(text, open + 1, 1) == MatchEnd(text, end, balance)
                else end < |text| && MatchEnd(text, open + 1, 1) == Some(end)
      decreases |text| - end, balance
    {
      if text[end] == OPEN {
        balance := balance + 1;
      } else if text[end] == CLOSE {
        balance := balance - 1;
      }
      if balance > 0 {
        end := end + 1;
      }
    }
    return if end < |text| then Some(end) else None;
  }

  lemma DropMatch(text: seq<byte>, i: nat, from: nat, balance: nat)
    requires i <= |text| && from <= |text| - i && balance > 0
    ensures var r := MatchEnd(text[i..], from, balance);
            MatchEnd(text, i + from, balance) == if r.None? then None else Some(i + r.value)
    decreases |text| - i - from
  {
    if from < |text| - i {
      var c := text[i + from];
      assert text[i..][from] == c;
      if c == OPEN {
        DropMatch(text, i, from + 1, balance + 1);
      } else if c != CLOSE {
        DropMatch(text, i, from + 1, balance);
      } else if balance > 1 {
        DropMatch(text, i, from + 1, balance - 1);
      }
    }
  }

  /** A resolved value, escaped for its quotes inside a shell command. */
  method AppendValue(out: seq<byte>, value: seq<byte>, shell: bool, quote: Quote) returns (longer: seq<byte>)
    ensures longer == out + Added(Value(value), shell, quote)
  {
    if shell {
      longer := AppendShellValue(out, value, quote);
    } else {
      longer := out + value;
    }
  }

  /** kc_flow_template_mode */
  method TemplateMode(text: seq<byte>, depth: nat, shell: bool, resolve: Resolver) returns (r: Option<seq<byte>>)
    ensures r == if depth > MAX_DEPTH || Parts(text, depth, resolve).None? then None
                 else Some(Expanded(Parts(text, depth, resolve).value, shell))
    decreases |text|, 1
  {
    if depth > MAX_DEPTH {
      return None;
    }
    hide Placeholder, Added, Parts, MatchEnd, Expanded, Scanned, QuoteStep;
    var out: seq<byte> := [];
    var quote, escaped := Bare, false;
    ghost var done: seq<Part> := [];
    NothingScanned(text, depth, resolve, shell);
    var i := 0;
    while i < |text|
      invariant 0 <= i <= |text| && Scanned(text, i, depth, resolve, shell, done, out, quote, escaped)
    {
      if text[i] == OPEN {
        var end := FindEnd(text, i);
        if end.None? {
          StuckScan(text, i, depth, resolve, shell, done, out, quote, escaped);
          return None;
        }
        var value := ResolvePlaceholder(text[i + 1..end.value], depth, resolve);
        if value.None? {
          StuckScan(text, i, depth, resolve, shell, done, out, quote, escaped);
          return None;
        }
        ScanValue(text, i, depth, resolve, shell, done, out, quote, escaped);
        out := AppendValue(out, value.value, shell, quote);
        done := done + [Value(value.value)];
        i := end.value + 1;
      } else {
        ScanText(text, i, depth, resolve, shell, done, out, quote, escaped);
        if shell {
          var step := QuoteStep(quote, escaped, text[i]);
          quote, escaped := step.0, step.1;
        }
        out := out + [text[i]];
        done := done + [Text(text[i])];
        i := i + 1;
      }
    }
    ScanEnds(text, depth, resolve, shell, done, out, quote, escaped);
    return Some(out);
  }

  /** The first `i` characters are expanded: `done` are their parts, and the quote state behind them is tracked. */
  ghost predicate Scanned(text: seq<byte>, i: nat, depth: nat, resolve: Resolver, shell: bool,
                          done: seq<Part>, out: seq<byte>, quote: Quote, escaped: bool)
  {
    && i <= |text| && Parts(text, depth, resolve) == Prefixed(done, Parts(text[i..], depth, resolve))
    && out == Expanded(done, shell) && (shell ==> (quote, escaped) == StateAfter(done, Bare, false))
  }

  lemma NothingScanned(text: seq<byte>, depth: nat, resolve: Resolver, shell: bool)
    ensures Scanned(text, 0, depth, resolve, shell, [], [], Bare, false)
  {
    NoParts(text, depth, resolve, shell);
  }

  lemma ScanText(text: seq<byte>, i: nat, depth: nat, resolve: Resolver, shell: bool,
                 done: seq<Part>, out: seq<byte>, quote: Quote, escaped: bool)
    requires i < |text| && text[i] != OPEN && Scanned(text, i, depth, resolve, shell, done, out, quote, escaped)
    ensures var (q, e) := if shell then QuoteStep(quote, escaped, text[i]) else (quote, escaped);
            Scanned(text, i + 1, depth, resolve, shell, done + [Text(text[i])], out + [text[i]], q, e)
  {
    hide Parts, Prefixed, Expanded, StateAfter, QuoteStep;
    TextParts(text, i, depth, resolve, done);
    ExpandedSnoc(done, Text(text[i]), shell);
  }

  lemma ScanValue(text: seq<byte>, i: nat, depth: nat, resolve: Resolver, shell: bool,
                  done: seq<Part>, out: seq<byte>, quote: Quote, escaped: bool)
    requires i < |text| && text[i] == OPEN && Scanned(text, i, depth, resolve, shell, done, out, quote, escaped)
    ensures var end := MatchEnd(text, i + 1, 1);
            end.Some? ==>
              var value := Placeholder(text[i + 1..end.value], depth, resolve);
              value.Some? ==>
                Scanned(text, end.value + 1, depth, resolve, shell, done + [Value(value.value)],
                        out + Added(Value(value.value), shell, quote), quote, escaped)
  {
    hide Parts, Prefixed, Expanded, StateAfter, Placeholder, MatchEnd;
    var end := MatchEnd(text, i + 1, 1);
    if end.Some? {
      var value := Placeholder(text[i + 1..end.value], depth, resolve);
      if value.Some? {
        PlaceholderParts(text, i, depth, resolve, done);
        ExpandedSnoc(done, Value(value.value), shell);
      }
    }
  }

  lemma StuckScan(text: seq<byte>, i: nat, depth: nat, resolve: Resolver, shell: bool,
                  done: seq<Part>, out: seq<byte>, quote: Quote, escaped: bool)
    requires i < |text| && text[i] == OPEN && Scanned(text, i, depth, resolve, shell, done, out, quote, escaped)
    requires var end := MatchEnd(text, i + 1, 1);
             end.None? || Placeholder(text[i + 1..end.value], depth, resolve).None?
    ensures Parts(text, depth, resolve).None?
  {
    hide Parts, Prefixed, Expanded, StateAfter, Placeholder, MatchEnd;
    PlaceholderParts(text, i, depth, resolve, done);
  }

  lemma ScanEnds(text: seq<byte>, depth: nat, resolve: Resolver, shell: bool,
                 done: seq<Part>, out: seq<byte>, quote: Quote, escaped: bool)
    requires Scanned(text, |text|, depth, resolve, shell, done, out, quote, escaped)
    ensures Parts(text, depth, resolve) == Some(done) && out == Expanded(done, shell)
  {
    AllParts(text, depth, resolve, done);
  }

  /** One placeholder: its name is expanded as a template, and the result resolved. */
  method ResolvePlaceholder(name: seq<byte>, depth: nat, resolve: Resolver) returns (value: Option<seq<byte>>)
    ensures value == Placeholder(name, depth, resolve)
    decreases |name|, 2
  {
    hide Parts, Expanded;
    if |name| == 0 || |name| >= MAX_KEY {
      return None;
    }
    var resolved := TemplateMode(name, depth + 1, false, resolve);
    ResolvedName(name, depth, resolve);
    value := resolve(if resolved.Some? then resolved.value else name, depth + 1);
  }

  lemma NoParts(text: seq<byte>, depth: nat, resolve: Resolver, shell: bool)
    ensures Expanded([], shell) == [] && StateAfter([], Bare, false) == (Bare, false)
    ensures Parts(text, depth, resolve) == Prefixed([], Parts(text[0..], depth, resolve))
  {
    hide Parts;
    assert text[0..] == text;
    var p := Parts(text, depth, resolve);
    assert p.Some? ==> [] + p.value == p.value;
  }

  lemma AllParts(text: seq<byte>, depth: nat, resolve: Resolver, done: seq<Part>)
    requires Parts(text, depth, resolve) == Prefixed(done, Parts(text[|text|..], depth, resolve))
    ensures Parts(text, depth, resolve) == Some(done)
  {
    assert text[|text|..] == [];
    assert done + [] == done;
  }

  lemma TextParts(text: seq<byte>, i: nat, depth: nat, resolve: Resolver, done: seq<Part>)
    requires i < |text| && text[i] != OPEN
    ensures Prefixed(done, Parts(text[i..], depth, resolve))
         == Prefixed(done + [Text(text[i])], Parts(text[i + 1..], depth, resolve))
  {
    assert text[i..][1..] == text[i + 1..];
    Shift(done, Text(text[i]), Parts(text[i + 1..], depth, resolve));
  }

  lemma Shift(done: seq<Part>, part: Part, rest: Option<seq<Part>>)
    ensures Prefixed(done, Prefixed([part], rest)) == Prefixed(done + [part], rest)
  {
    assert rest.Some? ==> done + ([part] + rest.value) == (done + [part]) + rest.value;
  }

  lemma PlaceholderParts(text: seq<byte>, i: nat, depth: nat, resolve: Resolver, done: seq<Part>)
    requires i < |text| && text[i] == OPEN
    ensures var end := MatchEnd(text, i + 1, 1);
            Prefixed(done, Parts(text[i..], depth, resolve))
            == if end.None? then None
               else
                 var value := Placeholder(text[i + 1..end.value], depth, resolve);
                 if value.None? then None
                 else Prefixed(done + [Value(value.value)], Parts(text[end.value + 1..], depth, resolve))
  {
    DropMatch(text, i, 1, 1);
    hide MatchEnd, Placeholder;
    var end := MatchEnd(text[i..], 1, 1);
    if end.Some? {
      assert text[i..][1..end.value] == text[i + 1..i + end.value];
      assert text[i..][end.value + 1..] == text[i + end.value + 1..];
      var value := Placeholder(text[i + 1..i + end.value], depth, resolve);
      if value.Some? {
        Shift(done, Value(value.value), Parts(text[i + end.value + 1..], depth, resolve));
      }
    }
  }

  lemma ResolvedName(name: seq<byte>, depth: nat, resolve: Resolver)
    requires 0 < |name| < MAX_KEY
    ensures var resolved := if depth + 1 > MAX_DEPTH || Parts(name, depth + 1, resolve).None? then None
                            else Some(Expanded(Parts(name, depth + 1, resolve).value, false));
            Placeholder(name, depth, resolve) == resolve(if resolved.Some? then resolved.value else name, depth + 1)
  {
  }

  /** A shell command whose placeholders are protected by its quotes means what its template means. */
  lemma CommandPreserves(text: seq<byte>, depth: nat, resolve: Resolver)
    requires Parts(text, depth, resolve).Some? && Protected(Parts(text, depth, resolve).value, START)
    ensures var parts := Parts(text, depth, resolve).value;
            ReadAll(START, Expanded(parts, true)) == Meaning(parts, START)
  {
    ExpansionPreserves(Parts(text, depth, resolve).value, START, Bare, false);
  }

  // ---------- templates that are not protected ----------

  lemma OneName(resolve: Resolver)
    ensures Placeholder([120], 0, resolve) == resolve([120], 1)
  {
    assert [120][1..] == [];
    assert Parts([], 1, resolve) == Some([]);
    CopiedFirst([120], 1, resolve);
    assert [Text(120)] + [] == [Text(120)] && [Text(120)][1..] == [];
    assert Plain([Text(120)]) == [120] + Plain([]) == [120];
    hide Parts;
    assert PlainTemplate([120], 1, resolve) == Some([120]);
  }

  /** The template `"` `c` `<x>` `"`. */
  function QuotedPlaceholder(c: byte): seq<byte> {
    [DQ, c, OPEN, 120, CLOSE, DQ]
  }

  lemma QuotedPlaceholderParts(c: byte, resolve: Resolver, value: seq<byte>)
    requires c != OPEN && resolve([120], 1) == Some(value)
    ensures Parts(QuotedPlaceholder(c), 0, resolve) == Some([Text(DQ), Text(c), Value(value), Text(DQ)])
  {
    hide Placeholder;
    OneName(resolve);
    var rest := [OPEN, 120, CLOSE, DQ];
    assert [DQ][1..] == [] && Parts([], 0, resolve) == Some([]);
    CopiedFirst([DQ], 0, resolve);
    assert [Text(DQ)] + [] == [Text(DQ)];
    assert MatchEnd(rest, 2, 1) == Some(2) && MatchEnd(rest, 1, 1) == Some(2);
    assert rest[1..2] == [120] && rest[3..] == [DQ];
    assert [Value(value)] + [Text(DQ)] == [Value(value), Text(DQ)];
    assert Parts(rest, 0, resolve) == Some([Value(value), Text(DQ)]);
    hide Parts;
    assert ([c] + rest)[1..] == rest;
    CopiedFirst([c] + rest, 0, resolve);
    assert QuotedPlaceholder(c)[1..] == [c] + rest;
    CopiedFirst(QuotedPlaceholder(c), 0, resolve);
    assert [Text(DQ)] + ([Text(c)] + [Value(value), Text(DQ)]) == [Text(DQ), Text(c), Value(value), Text(DQ)];
  }

  /** The template expands, and the shell reads the result differently from what the template means. */
  ghost predicate Misread(text: seq<byte>, resolve: Resolver) {
    var parts := Parts(text, 0, resolve);
    parts.Some? && ReadAll(START, Expanded(parts.value, true)) != Meaning(parts.value, START)
  }

  /**
   * Behind a backslash or a dollar sign between double quotes a value is not safe: with the value `$` for the
   * first and `H` for the second template the shell reads something else than the template with the value in place.
   */
  lemma UnsafeTemplates(dollar: Resolver, letter: Resolver)
    requires dollar([120], 1) == Some([DOLLAR]) && letter([120], 1) == Some([72])
    ensures Misread(QuotedPlaceholder(BACKSLASH), dollar) && Misread(QuotedPlaceholder(DOLLAR), letter)
  {
    QuotedPlaceholderParts(BACKSLASH, dollar, [DOLLAR]);
    QuotedPlaceholderParts(DOLLAR, letter, [72]);
    hide Parts, ReadAll, Expanded, Meaning;
    MisreadAfter(BACKSLASH, DOLLAR);
    MisreadAfter(DOLLAR, 72);
  }

  lemma MisreadAfter(c: byte, v: byte)
    requires (c == BACKSLASH && v == DOLLAR) || (c == DOLLAR && v == 72)
    ensures var parts := [Text(DQ), Text(c), Value([v]), Text(DQ)];
            ReadAll(START, Expanded(parts, true)) != Meaning(parts, START)
  {
    var parts := [Text(DQ), Text(c), Value([v]), Text(DQ)];
    var last, tail := [Value([v]), Text(DQ)], QuotedChar(v, Double) + [DQ];
    var (s, before) := Read(Within(Double), c);
    assert parts[1..][1..] == last && parts[1..][0] == Text(c);
    MeaningTwo(parts, c, s, before);
    ExpansionTwo(parts, c, v);
    ReadTwo(START, DQ, c);
    assert [] + before == before;
    hide ReadAll, Expansion, Meaning, QuotedChar;
    ReadAllSplit(START, [DQ, c], tail);
    ReadAllSplit(s, QuotedChar(v, Double), [DQ]);
    if c == BACKSLASH {
      PendingHead(s, v);
    } else {
      ReadQuoted(s, v);
    }
    MeaningValue(last, [v], s);
    var (middle, wrong) := ReadAll(s, QuotedChar(v, Double));
    Differ(before, wrong, ReadAll(middle, [DQ]).1, v, Meaning([Text(DQ)], AfterValue(s, [v])).1);
  }

  lemma MeaningTwo(parts: seq<Part>, c: byte, s: Reading, before: seq<Token>)
    requires |parts| >= 2 && parts[0] == Text(DQ) && parts[1] == Text(c) && Read(Within(Double), c) == (s, before)
    ensures Meaning(parts, START) == (Meaning(parts[2..], s).0, before + Meaning(parts[2..], s).1)
  {
    assert parts[1..][0] == Text(c) && parts[1..][1..] == parts[2..];
    assert Read(START, DQ) == (Within(Double), []);
    assert Meaning(parts[1..], Within(Double)) == (Meaning(parts[2..], s).0, before + Meaning(parts[2..], s).1);
    assert [] + (before + Meaning(parts[2..], s).1) == before + Meaning(parts[2..], s).1;
  }

  lemma MeaningValue(last: seq<Part>, value: seq<byte>, s: Reading)
    requires s.Reading? && last == [Value(value), Text(DQ)]
    ensures Meaning(last, s).1 == Literals(value) + Meaning([Text(DQ)], AfterValue(s, value)).1
  {
    assert last[1..] == [Text(DQ)];
  }

  lemma ExpansionTwo(parts: seq<Part>, c: byte, v: byte)
    requires parts == [Text(DQ), Text(c), Value([v]), Text(DQ)] && (c == BACKSLASH || c == DOLLAR)
    ensures Expansion(parts, Bare, false) == [DQ, c] + (QuotedChar(v, Double) + [DQ])
  {
    var e := c == BACKSLASH;
    assert parts[1..] == [Text(c), Value([v]), Text(DQ)] && parts[1..][1..] == [Value([v]), Text(DQ)];
    assert [Value([v]), Text(DQ)][1..] == [Text(DQ)] && [Text(DQ)][1..] == [] && [v][1..] == [];
    assert Quoted([v], Double) == QuotedChar(v, Double) + Quoted([], Double) == QuotedChar(v, Double);
    hide QuotedChar, Quoted;
    assert Expansion([Text(DQ)], Double, e) == [DQ] + [] == [DQ];
    assert Expansion([Value([v]), Text(DQ)], Double, e) == QuotedChar(v, Double) + [DQ];
    assert Expansion(parts[1..], Double, false) == [c] + (QuotedChar(v, Double) + [DQ]);
    assert [DQ] + ([c] + (QuotedChar(v, Double) + [DQ])) == [DQ, c] + (QuotedChar(v, Double) + [DQ]);
  }

  lemma Differ(before: seq<Token>, wrong: seq<Token>, rest: seq<Token>, v: byte, meant: seq<Token>)
    requires wrong != [] && wrong[0] != Literal(v)
    ensures before + (wrong + rest) != before + (Literals([v]) + meant)
  {
    assert (before + (wrong + rest))[|before|] == wrong[0];
    assert (before + (Literals([v]) + meant))[|before|] == Literal(v);
  }
}
