/**
 * UTF-8 as sections 3 and 4 of RFC 3629 define it, and the two decoders of the
 * repository: the strict one of the BM25 analyzer and the lenient one of the
 * WordPiece tokenizer.
 */
module Utf8 {
  import opened Prelude

  /** A Unicode scalar value: a code point that is not a surrogate. */
  predicate IsScalar(cp: int) {
    0 <= cp < 0xD800 || 0xE000 <= cp <= 0x10FFFF
  }

  type Scalar = cp: int | 0 <= cp < 0xD800 || 0xE000 <= cp <= 0x10FFFF

  const REPLACEMENT: Scalar := 0xFFFD

  /**
   * The octets of one scalar. The C code's `>> 6`, `>> 12`, `>> 18` are repeated quotients by 64, its ORs
   * of disjoint bits are sums.
   */
  function Encode(cp: Scalar): (r: seq<byte>)
    ensures 1 <= |r| <= 4
  {
    if cp < 0x80 then [cp]
    else if cp < 0x800 then [0xC0 + cp / 64, 0x80 + cp % 64]
    else if cp < 0x10000 then [0xE0 + cp / 64 / 64, 0x80 + cp / 64 % 64, 0x80 + cp % 64]
    else [0xF0 + cp / 64 / 64 / 64, 0x80 + cp / 64 / 64 % 64, 0x80 + cp / 64 % 64, 0x80 + cp % 64]
  }

  /** The examples of section 7 of RFC 3629, one for every length. */
  lemma EncodingExamples()
    ensures Encode(0x41) == [0x41] && Encode(0x391) == [0xCE, 0x91] && Encode(0x65E5) == [0xE6, 0x97, 0xA5]
    ensures Encode(0x233B4) == [0xF0, 0xA3, 0x8E, 0xB4]
  {
  }

  function EncodeAll(cps: seq<Scalar>): (r: seq<byte>)
    ensures |cps| <= |r| <= 4 * |cps|
  {
    if cps == [] then [] else Encode(cps[0]) + EncodeAll(cps[1..])
  }

  /** The octets at offset `i` of `text` begin with the encoding of `cp`. */
  predicate EncodedAt(text: seq<byte>, i: nat, cp: Scalar) {
    i + |Encode(cp)| <= |text| && text[i..i + |Encode(cp)|] == Encode(cp)
  }

  /** The scalar encoded at offset `i`, when there is one; EncodedAtUnique shows it is the only one. */
  ghost function ScalarAt(text: seq<byte>, i: nat): (r: Option<Scalar>)
    ensures r.Some? ==> EncodedAt(text, i, r.value)
    ensures r.None? ==> forall cp: Scalar :: !EncodedAt(text, i, cp)
  {
    if exists cp: Scalar :: EncodedAt(text, i, cp) then
      var cp: Scalar :| EncodedAt(text, i, cp);
      Some(cp)
    else
      None
  }

  /** Number of octets the lead octet announces after itself; None for an octet that cannot lead. */
  function TailLength(first: byte): (tail: Option<nat>)
    ensures tail.Some? ==> tail.value <= 3
  {
    if first <= 0x7F then Some(0)
    else if 0xC2 <= first <= 0xDF then Some(1)
    else if 0xE0 <= first <= 0xEF then Some(2)
    else if 0xF0 <= first <= 0xF4 then Some(3)
    else None
  }

  /** Smallest value that may use `tail` continuation octets; anything below it would be overlong. */
  function Minimum(tail: nat): nat {
    if tail == 0 then 0 else if tail == 1 then 0x80 else if tail == 2 then 0x800 else 0x10000
  }

  predicate IsContinuation(b: int) {
    b / 64 == 2
  }

  /** One step of both decoders' `value << 6 | octet & 0x3F`. */
  function Shift(value: nat, octet: nat): nat {
    value * 64 + octet % 64
  }

  /** The number spelt by the payload bits of a lead octet and its continuation octets. */
  function Payload(lead: nat, tail: seq<byte>): nat {
    if tail == [] then lead else Shift(Payload(lead, tail[..|tail| - 1]), tail[|tail| - 1])
  }

  /** The payload bits of a lead octet with `tail` octets to follow (masks 0x7F, 0x1F, 0x0F, 0x07). */
  function LeadBits(first: nat, tail: nat): nat {
    if tail == 0 then first else if tail == 1 then first % 32 else if tail == 2 then first % 16 else first % 8
  }

  function ValueOf(r: seq<byte>): nat
    requires |r| > 0
  {
    Payload(LeadBits(r[0], |r| - 1), r[1..])
  }

  lemma ValueUnfolds(r: seq<byte>)
    requires 1 <= |r| <= 4
    ensures |r| == 1 ==> ValueOf(r) == r[0]
    ensures |r| == 2 ==> ValueOf(r) == Shift(LeadBits(r[0], 1), r[1])
    ensures |r| == 3 ==> ValueOf(r) == Shift(Shift(LeadBits(r[0], 2), r[1]), r[2])
    ensures |r| == 4 ==> ValueOf(r) == Shift(Shift(Shift(LeadBits(r[0], 3), r[1]), r[2]), r[3])
  {
    var lead, t := LeadBits(r[0], |r| - 1), r[1..];
    if |t| >= 1 {
      assert t[..1] == [t[0]] && [t[0]][..0] == [];
      assert Payload(lead, t[..1]) == Shift(lead, t[0]);
    }
    if |t| >= 2 {
      assert t[..2][..1] == t[..1];
      assert Payload(lead, t[..2]) == Shift(Payload(lead, t[..1]), t[1]);
    }
    if |t| == 3 {
      assert t[..3] == t && t[..3][..2] == t[..2];
    }
    assert t[..|t|] == t;
  }

  /** The continuation octet for the low digit of `x` is well formed and shifts back to `x`. */
  lemma ContinuationOctet(x: nat)
    ensures var b := 0x80 + x % 64; IsContinuation(b) && Shift(x / 64, b) == x
  {
  }

  lemma LeadOctet(q: nat)
    ensures 2 <= q < 32 ==> TailLength(0xC0 + q) == Some(1) && LeadBits(0xC0 + q, 1) == q
    ensures q < 16 ==> TailLength(0xE0 + q) == Some(2) && LeadBits(0xE0 + q, 2) == q
    ensures q <= 4 ==> TailLength(0xF0 + q) == Some(3) && LeadBits(0xF0 + q, 3) == q
  {
  }

  predicate PassesChecks(r: seq<byte>) {
    && 1 <= |r| <= 4
    && TailLength(r[0]) == Some(|r| - 1)
    && forall k :: 1 <= k < |r| ==> IsContinuation(r[k])
  }

  /** What both decoders check holds of every encoding, and their arithmetic returns the scalar. */
  lemma EncodingChecks(cp: Scalar)
    ensures var r := Encode(cp); PassesChecks(r) && ValueOf(r) == cp && Minimum(|r| - 1) <= cp
  {
    ValueUnfolds(Encode(cp));
    if 0x80 <= cp < 0x800 {
      EncodingTwo(cp);
    } else if 0x800 <= cp < 0x10000 {
      EncodingThree(cp);
    } else if 0x10000 <= cp {
      EncodingFour(cp);
    }
  }

  lemma EncodingTwo(cp: Scalar)
    requires 0x80 <= cp < 0x800
    ensures var r := Encode(cp);
            && TailLength(r[0]) == Some(1) && IsContinuation(r[1])
            && Shift(LeadBits(r[0], 1), r[1]) == cp
  {
    hide IsContinuation, Shift, LeadBits, TailLength;
    ContinuationOctet(cp);
    LeadOctet(cp / 64);
  }

  lemma EncodingThree(cp: Scalar)
    requires 0x800 <= cp < 0x10000
    ensures var r := Encode(cp);
            && TailLength(r[0]) == Some(2) && IsContinuation(r[1]) && IsContinuation(r[2])
            && Shift(Shift(LeadBits(r[0], 2), r[1]), r[2]) == cp
  {
    hide IsContinuation, Shift, LeadBits, TailLength;
    ContinuationOctet(cp);
    ContinuationOctet(cp / 64);
    LeadOctet(cp / 64 / 64);
  }

  lemma EncodingFour(cp: Scalar)
    requires 0x10000 <= cp
    ensures var r := Encode(cp);
            && TailLength(r[0]) == Some(3) && IsContinuation(r[1]) && IsContinuation(r[2]) && IsContinuation(r[3])
            && Shift(Shift(Shift(LeadBits(r[0], 3), r[1]), r[2]), r[3]) == cp
  {
    hide IsContinuation, Shift, LeadBits, TailLength;
    ContinuationOctet(cp);
    ContinuationOctet(cp / 64);
    ContinuationOctet(cp / 64 / 64);
    LeadOctet(cp / 64 / 64 / 64);
  }

  lemma EmptyPayload(lead: nat, text: seq<byte>, from: nat)
    requires from <= |text|
    ensures Payload(lead, text[from..from]) == lead
  {
  }

  lemma PayloadStep(lead: nat, text: seq<byte>, from: nat, i: nat)
    requires from <= i < |text|
    ensures Payload(lead, text[from..i + 1]) == Shift(Payload(lead, text[from..i]), text[i])
  {
    assert text[from..i + 1][..i - from] == text[from..i];
  }

  /** Conversely, octets that pass every check are the encoding of the number they spell. */
  lemma CheckedIsEncoding(r: seq<byte>)
    requires PassesChecks(r) && Minimum(|r| - 1) <= ValueOf(r) && IsScalar(ValueOf(r))
    ensures Encode(ValueOf(r)) == r
  {
    hide Encode, Shift, LeadBits, IsContinuation, TailLength, ValueOf;
    ValueUnfolds(r);
    if |r| == 1 {
      CheckedOne(r[0]);
      assert r == [r[0]];
    } else if |r| == 2 {
      CheckedTwo(r[0], r[1]);
      assert r == [r[0], r[1]];
    } else if |r| == 3 {
      CheckedThree(r[0], r[1], r[2]);
      assert r == [r[0], r[1], r[2]];
    } else {
      CheckedFour(r[0], r[1], r[2], r[3]);
      assert r == [r[0], r[1], r[2], r[3]];
    }
  }

  lemma ShiftSplits(value: nat, octet: nat)
    requires IsContinuation(octet)
    ensures Shift(value, octet) / 64 == value && 0x80 + Shift(value, octet) % 64 == octet
  {
  }

  lemma CheckedOne(a: byte)
    requires TailLength(a) == Some(0)
    ensures Encode(a) == [a]
  {
  }

  lemma CheckedTwo(a: byte, b: byte)
    requires TailLength(a) == Some(1) && IsContinuation(b)
    requires 0x80 <= Shift(LeadBits(a, 1), b)
    ensures Encode(Shift(LeadBits(a, 1), b)) == [a, b]
  {
    ShiftSplits(LeadBits(a, 1), b);
    assert Shift(LeadBits(a, 1), b) < 0x800 && 0xC0 + LeadBits(a, 1) == a;
    hide Shift, LeadBits, IsContinuation, TailLength;
  }

  lemma CheckedThree(a: byte, b: byte, c: byte)
    requires TailLength(a) == Some(2) && IsContinuation(b) && IsContinuation(c)
    requires var v := Shift(Shift(LeadBits(a, 2), b), c); 0x800 <= v && IsScalar(v)
    ensures Encode(Shift(Shift(LeadBits(a, 2), b), c)) == [a, b, c]
  {
    var u := Shift(LeadBits(a, 2), b);
    assert u < 0x400 && 0xE0 + LeadBits(a, 2) == a && Shift(u, c) < 0x10000;
    ShiftSplits(LeadBits(a, 2), b);
    ShiftSplits(u, c);
    hide Shift, LeadBits, IsContinuation, TailLength;
  }

  lemma CheckedFour(a: byte, b: byte, c: byte, d: byte)
    requires TailLength(a) == Some(3) && IsContinuation(b) && IsContinuation(c) && IsContinuation(d)
    requires var v := Shift(Shift(Shift(LeadBits(a, 3), b), c), d); 0x10000 <= v && IsScalar(v)
    ensures Encode(Shift(Shift(Shift(LeadBits(a, 3), b), c), d)) == [a, b, c, d]
  {
    assert 0xF0 + LeadBits(a, 3) == a;
    ShiftSplits(LeadBits(a, 3), b);
    ShiftSplits(Shift(LeadBits(a, 3), b), c);
    ShiftSplits(Shift(Shift(LeadBits(a, 3), b), c), d);
    hide Shift, LeadBits, IsContinuation, TailLength;
  }

  /** No two scalars can be read at the same place: no encoding is a prefix of another. */
  lemma EncodedAtUnique(text: seq<byte>, i: nat, a: Scalar, b: Scalar)
    requires EncodedAt(text, i, a) && EncodedAt(text, i, b)
    ensures a == b
  {
    EncodingChecks(a);
    EncodingChecks(b);
    assert Encode(a)[0] == text[i..i + |Encode(a)|][0] == text[i..i + |Encode(b)|][0] == Encode(b)[0];
  }

  lemma ScalarAtIs(text: seq<byte>, i: nat, cp: Scalar)
    requires EncodedAt(text, i, cp)
    ensures ScalarAt(text, i) == Some(cp)
  {
    EncodedAtUnique(text, i, cp, ScalarAt(text, i).value);
  }

  /** An encoded scalar passes every check of the decoders, so a failed check rules out every scalar. */
  lemma EncodedPasses(text: seq<byte>, i: nat, cp: Scalar)
    requires EncodedAt(text, i, cp)
    ensures i < |text| && TailLength(text[i]) == Some(|Encode(cp)| - 1)
    ensures forall k :: i < k < i + |Encode(cp)| ==> IsContinuation(text[k])
    ensures var v := ValueOf(text[i..i + |Encode(cp)|]); v == cp && Minimum(|Encode(cp)| - 1) <= v
  {
    EncodingChecks(cp);
    var r := text[i..i + |Encode(cp)|];
    assert r[0] == text[i];
    forall k | i < k < i + |Encode(cp)|
      ensures IsContinuation(text[k])
    {
      assert text[k] == r[k - i];
    }
  }

  /** Octets of `text` that pass every check are an encoded scalar. */
  lemma CheckedAt(text: seq<byte>, i: nat, tail: nat)
    requires i + tail < |text| && TailLength(text[i]) == Some(tail)
    requires forall k :: i < k <= i + tail ==> IsContinuation(text[k])
    requires var v := Payload(LeadBits(text[i], tail), text[i + 1..i + tail + 1]); Minimum(tail) <= v && IsScalar(v)
    ensures var v := Payload(LeadBits(text[i], tail), text[i + 1..i + tail + 1]);
            EncodedAt(text, i, v) && |Encode(v)| == tail + 1
  {
    hide IsContinuation, TailLength, LeadBits, Payload, Minimum;
    var octets := text[i..i + tail + 1];
    assert octets[1..] == text[i + 1..i + tail + 1];
    assert forall k :: 1 <= k < |octets| ==> octets[k] == text[i + k];
    CheckedIsEncoding(octets);
  }

  lemma ValueAt(text: seq<byte>, i: nat, tail: nat)
    requires i + tail < |text|
    ensures ValueOf(text[i..i + tail + 1]) == Payload(LeadBits(text[i], tail), text[i + 1..i + tail + 1])
  {
    assert text[i..i + tail + 1][1..] == text[i + 1..i + tail + 1];
  }

  /** A check that fails at `i` leaves no scalar there; `checked` is the octet that failed, if one did. */
  lemma ChecksRefute(text: seq<byte>, i: nat, checked: nat)
    requires i < |text|
    requires var tail := TailLength(text[i]);
             || tail.None?
             || |text| - i <= tail.value
             || (i < checked <= i + tail.value && !IsContinuation(text[checked]))
             || (var v := ValueOf(text[i..i + tail.value + 1]); v < Minimum(tail.value) || !IsScalar(v))
    ensures forall cp: Scalar :: !EncodedAt(text, i, cp)
  {
    forall cp: Scalar | EncodedAt(text, i, cp)
      ensures false
    {
      EncodedPasses(text, i, cp);
    }
  }

  /** The loop over the continuation octets both decoders share: None at the first octet that is not one. */
  method ReadTail(text: seq<byte>, i: nat, tail: nat) returns (r: Option<nat>)
    requires i + tail < |text| && TailLength(text[i]) == Some(tail)
    ensures r.Some? ==> && r.value == Payload(LeadBits(text[i], tail), text[i + 1..i + tail + 1])
                        && r.value == ValueOf(text[i..i + tail + 1])
                        && forall k :: i < k <= i + tail ==> IsContinuation(text[k])
    ensures r.None? ==> forall cp: Scalar :: !EncodedAt(text, i, cp)
  {
    hide Encode, EncodedAt, TailLength, LeadBits, Shift, IsContinuation, Payload, ValueOf, Minimum;
    var value: nat := LeadBits(text[i], tail);
    EmptyPayload(value, text, i + 1);
    for j := i + 1 to i + tail + 1
      invariant value == Payload(LeadBits(text[i], tail), text[i + 1..j])
      invariant forall k :: i < k < j ==> IsContinuation(text[k])
    {
      if !IsContinuation(text[j]) {
        ChecksRefute(text, i, j);
        return None;
      }
      PayloadStep(LeadBits(text[i], tail), text, i + 1, j);
      value := Shift(value, text[j]);
    }
    ValueAt(text, i, tail);
    return Some(value);
  }

  /**
   * The strict decoder of the BM25 analyzer: the scalar at `offset` and the offset after it, or
   * nothing exactly when no scalar is encoded there.
   */
  method DecodeStrict(text: seq<byte>, offset: nat) returns (r: Option<(Scalar, nat)>)
    ensures r.Some? ==> EncodedAt(text, offset, r.value.0) && r.value.1 == offset + |Encode(r.value.0)|
    ensures r.None? ==> forall cp: Scalar :: !EncodedAt(text, offset, cp)
  {
    if offset >= |text| {
      return None;
    }
    hide Encode, EncodedAt, TailLength, LeadBits, Shift, IsContinuation, Payload, ValueOf, Minimum;
    var first := text[offset];
    var lead := TailLength(first);
    if lead.None? || |text| - offset <= lead.value {
      ChecksRefute(text, offset, 0);
      return None;
    }
    var tail := lead.value;
    var tailed := ReadTail(text, offset, tail);
    if tailed.None? {
      return None;
    }
    var value := tailed.value;
    if value < Minimum(tail) || value > 0x10FFFF || 0xD800 <= value <= 0xDFFF {
      ChecksRefute(text, offset, 0);
      return None;
    }
    CheckedAt(text, offset, tail);
    return Some((value, offset + tail + 1));
  }

  /** What the lenient decoder consumes: the scalar that is there, or U+FFFD for one malformed octet. */
  ghost function LenientAt(text: seq<byte>, i: nat): (r: (Scalar, nat))
    ensures i < r.1 && (i < |text| ==> r.1 <= |text|)
  {
    var at := ScalarAt(text, i);
    if at.Some? then (at.value, i + |Encode(at.value)|) else (REPLACEMENT, i + 1)
  }

  lemma AsciiAt(text: seq<byte>, i: nat)
    requires i < |text| && text[i] < 0x80
    ensures LenientAt(text, i) == (text[i], i + 1)
  {
    assert Encode(text[i]) == text[i..i + 1];
    LenientReads(text, i, text[i]);
  }

  lemma LenientReads(text: seq<byte>, i: nat, cp: Scalar)
    requires EncodedAt(text, i, cp)
    ensures LenientAt(text, i) == (cp, i + |Encode(cp)|)
  {
    ScalarAtIs(text, i, cp);
  }

  lemma LenientSkips(text: seq<byte>, i: nat)
    requires forall cp: Scalar :: !EncodedAt(text, i, cp)
    ensures LenientAt(text, i) == (REPLACEMENT, i + 1)
  {
  }

  /** The lenient decoder of the tokenizer; its caller guarantees an octet at `cursor`. */
  method DecodeLenient(text: seq<byte>, cursor: nat) returns (cp: Scalar, next: nat)
    requires cursor < |text|
    ensures (cp, next) == LenientAt(text, cursor)
  {
    var first := text[cursor];
    if first < 0x80 {
      AsciiAt(text, cursor);
      return first, cursor + 1;
    }
    hide Encode, EncodedAt, TailLength, LeadBits, Shift, IsContinuation, Payload, ValueOf, LenientAt, Minimum;
    var lead := TailLength(first);
    if lead.None? || |text| - cursor <= lead.value {
      ChecksRefute(text, cursor, 0);
      LenientSkips(text, cursor);
      return REPLACEMENT, cursor + 1;
    }
    var extra := lead.value;
    var tailed := ReadTail(text, cursor, extra);
    if tailed.None? {
      LenientSkips(text, cursor);
      return REPLACEMENT, cursor + 1;
    }
    var value := tailed.value;
    if value < Minimum(extra) || value > 0x10FFFF || 0xD800 <= value <= 0xDFFF {
      ChecksRefute(text, cursor, 0);
      LenientSkips(text, cursor);
      return REPLACEMENT, cursor + 1;
    }
    CheckedAt(text, cursor, extra);
    LenientReads(text, cursor, value);
    return value, cursor + extra + 1;
  }

  /** Text is well formed when it is the encoding of some scalar sequence. */
  ghost predicate IsUtf8(text: seq<byte>) {
    exists cps: seq<Scalar> :: EncodeAll(cps) == text
  }

  lemma {:induction false} EncodeAllInjective(a: seq<Scalar>, b: seq<Scalar>)
    requires EncodeAll(a) == EncodeAll(b)
    ensures a == b
  {
    if a == [] || b == [] {
      assert |a| == |b| == 0;
    } else {
      var text := EncodeAll(a);
      assert EncodedAt(text, 0, a[0]) && EncodedAt(text, 0, b[0]);
      EncodedAtUnique(text, 0, a[0], b[0]);
      assert EncodeAll(a[1..]) == text[|Encode(a[0])|..] == EncodeAll(b[1..]);
      EncodeAllInjective(a[1..], b[1..]);
    }
  }

  /** The scalars of a well-formed text; EncodeAllInjective makes them unique. */
  ghost function Scalars(text: seq<byte>): (cps: seq<Scalar>)
    requires IsUtf8(text)
    ensures EncodeAll(cps) == text
  {
    var cps: seq<Scalar> :| EncodeAll(cps) == text;
    cps
  }

  lemma {:induction false} EncodeAllSplit(a: seq<Scalar>, b: seq<Scalar>)
    ensures EncodeAll(a + b) == EncodeAll(a) + EncodeAll(b)
  {
    if a == [] {
      assert a + b == b;
    } else {
      assert (a + b)[1..] == a[1..] + b;
      EncodeAllSplit(a[1..], b);
    }
  }

  lemma EncodeAllSnoc(a: seq<Scalar>, cp: Scalar)
    ensures EncodeAll(a + [cp]) == EncodeAll(a) + Encode(cp)
  {
    EncodeAllSplit(a, [cp]);
    assert [cp][1..] == [];
    assert EncodeAll([cp]) == Encode(cp);
  }

  /** A well-formed text stays well formed after its leading scalars are cut off, and never ends mid-scalar. */
  lemma {:induction false} Utf8Suffix(cps: seq<Scalar>, done: seq<Scalar>)
    requires EncodeAll(done) <= EncodeAll(cps)
    ensures done <= cps
  {
    if done != [] {
      var text := EncodeAll(cps);
      assert cps != [];
      assert EncodedAt(text, 0, done[0]) && EncodedAt(text, 0, cps[0]) by {
        assert EncodeAll(done)[..|Encode(done[0])|] == Encode(done[0]);
      }
      EncodedAtUnique(text, 0, done[0], cps[0]);
      assert EncodeAll(done[1..]) == EncodeAll(done)[|Encode(done[0])|..];
      assert EncodeAll(cps[1..]) == text[|Encode(done[0])|..];
      Utf8Suffix(cps[1..], done[1..]);
    }
  }

  lemma NextScalar(text: seq<byte>, done: seq<Scalar>)
    requires IsUtf8(text) && EncodeAll(done) < text
    ensures exists cp: Scalar :: EncodedAt(text, |EncodeAll(done)|, cp)
  {
    var cps := Scalars(text);
    Utf8Suffix(cps, done);
    var rest := cps[|done|..];
    assert cps == done + rest;
    EncodeAllSplit(done, rest);
    var tail := EncodeAll(rest);
    assert rest != [] && text == EncodeAll(done) + tail;
    assert tail == Encode(rest[0]) + EncodeAll(rest[1..]);
    hide Encode, EncodeAll;
    HeadOfTail(EncodeAll(done), Encode(rest[0]), EncodeAll(rest[1..]));
    assert EncodedAt(text, |EncodeAll(done)|, rest[0]);
  }

  lemma HeadOfTail(a: seq<byte>, b: seq<byte>, c: seq<byte>)
    ensures (a + (b + c))[|a|..|a| + |b|] == b
  {
  }

  /** kc_bm25_validate_utf8: succeeds exactly on well-formed text. */
  method Validate(text: seq<byte>) returns (ok: bool)
    ensures ok <==> IsUtf8(text)
  {
    var offset := 0;
    ghost var done: seq<Scalar> := [];
    while offset < |text|
      invariant offset <= |text|
      invariant EncodeAll(done) == text[..offset]
    {
      if IsUtf8(text) {
        NextScalar(text, done);
      }
      var step := DecodeStrict(text, offset);
      if step.None? {
        return false;
      }
      EncodeAllSnoc(done, step.value.0);
      done := done + [step.value.0];
      assert text[..step.value.1] == text[..offset] + text[offset..step.value.1];
      offset := step.value.1;
    }
    assert text[..offset] == text;
    return true;
  }

  /** Text without U+0000 is a C string. */
  lemma {:induction false} NonzeroEncoding(cps: seq<Scalar>)
    requires 0 !in cps
    ensures 0 !in EncodeAll(cps)
  {
    if cps != [] {
      NonzeroEncoding(cps[1..]);
      assert 0 !in Encode(cps[0]);
    }
  }
}
