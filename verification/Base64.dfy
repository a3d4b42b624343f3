/**
 * The Base64 codec of libb64.c: an encoder, and a strict decoder that is exactly its partial inverse.
 * The bit-stream definition of section 4 of RFC 4648 is the reference for both.
 */
module Base64 {
  import opened Prelude
  import opened Binary

  const PAD: byte := 61 // '='

  /** Entry `x` of the encoder's table. */
  function Letter(x: nat): byte
    requires x < 64
  {
    if x < 26 then 65 + x
    else if x < 52 then 97 + (x - 26)
    else if x < 62 then 48 + (x - 52)
    else if x == 62 then 43
    else 47
  }

  /** Entry `ch` of the decoder's table; every octet it does not list holds zero. */
  function Table(ch: byte): (x: nat)
    ensures x < 64
  {
    if 65 <= ch <= 90 then ch - 65
    else if 97 <= ch <= 122 then ch - 97 + 26
    else if 48 <= ch <= 57 then ch - 48 + 52
    else if ch == 43 then 62
    else if ch == 47 then 63
    else 0
  }

  /** The decoder's test for an octet of the alphabet. */
  predicate InAlphabet(ch: byte) {
    !(ch == PAD || (Table(ch) == 0 && ch != 65))
  }

  lemma LetterTable(x: nat, ch: byte)
    requires x < 64
    ensures InAlphabet(Letter(x)) && Table(Letter(x)) == x
    ensures InAlphabet(ch) ==> Letter(Table(ch)) == ch
  {
  }

  /** The alphabet of table 1 of RFC 4648, and the pad character. */
  lemma Alphabet(x: nat)
    requires x < 64
    ensures x < 26 ==> Letter(x) == 'A' as int + x
    ensures 26 <= x < 52 ==> Letter(x) == 'a' as int + (x - 26)
    ensures 52 <= x < 62 ==> Letter(x) == '0' as int + (x - 52)
    ensures x == 62 ==> Letter(x) == '+' as int
    ensures x == 63 ==> Letter(x) == '/' as int
    ensures PAD == '=' as int
  {
  }

  // ---------- the encoder ----------

  /** The three octets of a group as the code packs them: `a << 16 | b << 8 | c`. */
  function Triple(a: nat, b: nat, c: nat): nat {
    a * 65536 + b * 256 + c
  }

  /** The sextets a group of octets falls into, `n` octets being present. */
  function Quad(a: byte, b: byte, c: byte, n: nat): (r: seq<byte>)
    ensures |r| == 4
  {
    [Letter(a / 4), Letter(a % 4 * 16 + b / 16),
     if n < 2 then PAD else Letter(b % 16 * 4 + c / 64),
     if n < 3 then PAD else Letter(c % 64)]
  }

  lemma TripleSextets(a: nat, b: nat, c: nat)
    requires a < 256 && b < 256 && c < 256
    ensures var t := Triple(a, b, c);
            && t / 262144 % 64 == a / 4
            && t / 4096 % 64 == a % 4 * 16 + b / 16
            && t / 64 % 64 == b % 16 * 4 + c / 64
            && t % 64 == c % 64
  {
    var q := a * 1024 + b * 4 + c / 64;
    Split64(q, c % 64);
    Split64(a * 16 + b / 16, b % 16 * 4 + c / 64);
    Split64(a / 4, a % 4 * 16 + b / 16);
    var t := Triple(a, b, c);
    assert t == q * 64 + c % 64;
    Quotients64(t);
  }

  lemma Split64(q: nat, r: nat)
    requires r < 64
    ensures (q * 64 + r) / 64 == q && (q * 64 + r) % 64 == r
  {
  }

  lemma Quotients64(t: nat)
    ensures t / 4096 == t / 64 / 64 && t / 262144 == t / 64 / 64 / 64
  {
  }

  lemma Split256(q: nat, r: nat)
    requires r < 256
    ensures (q * 256 + r) / 256 == q && (q * 256 + r) % 256 == r
  {
  }

  function Encode(d: seq<byte>): (r: seq<byte>)
    ensures |r| == 4 * ((|d| + 2) / 3)
  {
    if |d| == 0 then []
    else if |d| == 1 then Quad(d[0], 0, 0, 1)
    else if |d| == 2 then Quad(d[0], d[1], 0, 2)
    else Quad(d[0], d[1], d[2], 3) + Encode(d[3..])
  }

  lemma EncodeStep(d: seq<byte>, a: byte, b: byte, c: byte, n: nat)
    requires d != [] && n == (if |d| < 3 then |d| else 3)
    requires a == d[0] && b == (if |d| > 1 then d[1] else 0) && c == (if |d| > 2 then d[2] else 0)
    ensures Encode(d) == Quad(a, b, c, n) + Encode(d[n..])
  {
    hide Quad;
    assert |d| < 3 ==> d[n..] == [] && Encode(d[n..]) == [];
  }

  /** The body of the encoder's loop: writes one group of four characters at `j`. */
  method PutQuad(out: array<byte>, j: nat, a: byte, b: byte, c: byte, n: nat)
    requires j + 4 <= out.Length
    modifies out
    ensures out[..j] == old(out[..j]) && out[j..j + 4] == Quad(a, b, c, n)
  {
    hide Quad, Triple, Letter;
    var triple := Triple(a, b, c);
    QuadLetters(a, b, c, n);
    out[j] := Letter(triple / 262144 % 64);
    out[j + 1] := Letter(triple / 4096 % 64);
    out[j + 2] := if n < 2 then PAD else Letter(triple / 64 % 64);
    out[j + 3] := if n < 3 then PAD else Letter(triple % 64);
  }

  lemma QuadLetters(a: byte, b: byte, c: byte, n: nat)
    ensures var t := Triple(a, b, c);
            Quad(a, b, c, n) == [Letter(t / 262144 % 64), Letter(t / 4096 % 64),
                                 if n < 2 then PAD else Letter(t / 64 % 64), if n < 3 then PAD else Letter(t % 64)]
  {
    hide Triple, Letter;
    TripleSextets(a, b, c);
  }

  /** kc_b64_encode: the encoding of `data`, followed by a NUL. */
  method EncodeBuffer(data: seq<byte>) returns (out: array<byte>)
    ensures fresh(out) && out[..] == Encode(data) + [0]
  {
    hide Quad, Encode;
    EncodedNothing();
    var outLen := 4 * ((|data| + 2) / 3);
    out := new byte[outLen + 1];
    var i, j := 0, 0;
    while i < |data|
      invariant 0 <= i <= |data| && 0 <= j <= outLen
      invariant out[..j] + Encode(data[i..]) == Encode(data)
      decreases |data| - i
    {
      ghost var rest := data[i..];
      ghost var done := out[..j];
      var start := i;
      var a: byte, b: byte, c: byte := data[i], 0, 0;
      i := i + 1;
      if i < |data| { b := data[i]; i := i + 1; }
      if i < |data| { c := data[i]; i := i + 1; }
      var n := i - start;
      EncodeStep(rest, a, b, c, n);
      assert rest[n..] == data[i..];
      PutQuad(out, j, a, b, c, n);
      assert out[..j + 4] == done + out[j..j + 4];
      j := j + 4;
    }
    out[j] := 0;
    assert out[..j + 1] == out[..j] + [0];
  }

  // ---------- the decoder ----------

  /** Number of padding characters closing a group of four. */
  function Padding(g: seq<byte>): nat
    requires |g| == 4
  {
    if g[3] != PAD then 0 else if g[2] != PAD then 1 else 2
  }

  /** A last group in canonical form: alphabet, then padding, and zero bits under the padding. */
  predicate CanonicalGroup(g: seq<byte>)
    requires |g| == 4
  {
    && (forall k :: 0 <= k < 4 - Padding(g) ==> InAlphabet(g[k]))
    && (Padding(g) == 1 ==> Table(g[2]) % 4 == 0)
    && (Padding(g) == 2 ==> Table(g[1]) % 16 == 0)
  }

  predicate Canonical(s: seq<byte>) {
    && |s| % 4 == 0
    && (s == []
        || (|s| == 4 && CanonicalGroup(s))
        || (|s| > 4 && (forall k :: 0 <= k < 4 ==> InAlphabet(s[k])) && Canonical(s[4..])))
  }

  /** The bits a character contributes to its group. */
  function Low(ch: byte): (x: nat)
    ensures x < 64
  {
    if ch == PAD then 0 else Table(ch)
  }

  function GroupOctets(g: seq<byte>): (r: seq<byte>)
    requires |g| == 4
    ensures |r| == 3
  {
    Octets(Table(g[0]), Table(g[1]), Low(g[2]), Low(g[3]))
  }

  /** The octets that four sextets spell. */
  function Octets(w: nat, x: nat, y: nat, z: nat): (r: seq<byte>)
    requires w < 64 && x < 64 && y < 64 && z < 64
    ensures |r| == 3
  {
    [w * 4 + x / 16, x % 16 * 16 + y / 4, y % 4 * 64 + z]
  }

  /** The code packs the sextets into 24 bits first: `a << 18 | b << 12 | c << 6 | d`. */
  lemma PackedOctets(w: nat, x: nat, y: nat, z: nat)
    requires w < 64 && x < 64 && y < 64 && z < 64
    ensures var t := w * 262144 + x * 4096 + y * 64 + z;
            Octets(w, x, y, z) == [t / 65536 % 256, t / 256 % 256, t % 256]
  {
    Split256(w * 1024 + x * 16 + y / 4, y % 4 * 64 + z);
    Split256(w * 4 + x / 16, x % 16 * 16 + y / 4);
    var t := w * 262144 + x * 4096 + y * 64 + z;
    assert t == (w * 1024 + x * 16 + y / 4) * 256 + (y % 4 * 64 + z);
    assert t / 65536 == t / 256 / 256;
  }

  /** All octets of a text of whole groups, before the padding is taken off. */
  function AllOctets(s: seq<byte>): (r: seq<byte>)
    requires |s| % 4 == 0
    ensures |r| == |s| / 4 * 3
  {
    if s == [] then [] else GroupOctets(s[..4]) + AllOctets(s[4..])
  }

  function PaddingOf(s: seq<byte>): (p: nat)
    requires |s| % 4 == 0
    ensures p <= 2 && (s == [] ==> p == 0)
  {
    if s == [] then 0 else Padding(s[|s| - 4..])
  }

  function Decoded(s: seq<byte>): seq<byte>
    requires |s| % 4 == 0
  {
    AllOctets(s)[..|s| / 4 * 3 - PaddingOf(s)]
  }

  lemma QuadDecodes(a: byte, b: byte, c: byte, n: nat)
    requires 1 <= n <= 3 && (n < 2 ==> b == 0) && (n < 3 ==> c == 0)
    ensures var q := Quad(a, b, c, n);
            && Padding(q) == 3 - n && CanonicalGroup(q) && GroupOctets(q) == [a, b, c]
            && (n == 3 ==> forall k :: 0 <= k < 4 ==> InAlphabet(q[k]))
  {
    var w, x, y, z := a / 4, a % 4 * 16 + b / 16, b % 16 * 4 + c / 64, c % 64;
    LetterTable(w, 0);
    LetterTable(x, 0);
    LetterTable(y, 0);
    LetterTable(z, 0);
    OctetsOfSextets(a, b, c);
  }

  lemma OctetsOfSextets(a: byte, b: byte, c: byte)
    ensures Octets(a / 4, a % 4 * 16 + b / 16, b % 16 * 4 + c / 64, c % 64) == [a, b, c]
  {
  }

  lemma SextetsOfOctets(w: nat, x: nat, y: nat, z: nat)
    requires w < 64 && x < 64 && y < 64 && z < 64
    ensures var r := Octets(w, x, y, z);
            && r[0] / 4 == w
            && r[0] % 4 * 16 + r[1] / 16 == x
            && r[1] % 16 * 4 + r[2] / 64 == y
            && r[2] % 64 == z
            && (z == 0 && y % 4 == 0 ==> r[2] == 0)
            && (z == 0 && y == 0 && x % 16 == 0 ==> r[1] == 0)
  {
  }

  lemma GroupEncodes(g: seq<byte>)
    requires |g| == 4 && CanonicalGroup(g)
    ensures var r := GroupOctets(g);
            && Quad(r[0], r[1], r[2], 3 - Padding(g)) == g
            && (Padding(g) >= 1 ==> r[2] == 0)
            && (Padding(g) == 2 ==> r[1] == 0)
  {
    SextetsOfOctets(Table(g[0]), Table(g[1]), Low(g[2]), Low(g[3]));
    LetterTable(0, g[0]);
    LetterTable(0, g[1]);
    LetterTable(0, g[2]);
    LetterTable(0, g[3]);
  }

  /** decode(encode(d)) = d, and every encoding is canonical. */
  lemma {:induction false} DecodeOfEncode(d: seq<byte>)
    ensures Canonical(Encode(d)) && Decoded(Encode(d)) == d
  {
    hide GroupOctets, Decoded, InAlphabet, CanonicalGroup;
    if 1 <= |d| <= 3 {
      var b: byte, c: byte := if |d| > 1 then d[1] else 0, if |d| > 2 then d[2] else 0;
      QuadDecodes(d[0], b, c, |d|);
      assert |d| == 3 ==> Encode(d[3..]) == [];
      assert Encode(d) == Quad(d[0], b, c, |d|);
      DecodedLast(Encode(d));
      assert d == [d[0], b, c][..|d|];
    } else if |d| > 3 {
      DecodeOfEncode(d[3..]);
      DecodeOfEncodeStep(Quad(d[0], d[1], d[2], 3), Encode(d[3..]), d[0], d[1], d[2]);
      assert d == [d[0], d[1], d[2]] + d[3..];
    } else {
      assert Decoded([]) == [] by { DecodedNothing(); }
    }
  }

  lemma DecodedNothing()
    ensures Decoded([]) == []
  {
  }

  lemma DecodeOfEncodeStep(q: seq<byte>, rest: seq<byte>, a: byte, b: byte, c: byte)
    requires q == Quad(a, b, c, 3) && Canonical(rest) && rest != []
    ensures Canonical(q + rest) && Decoded(q + rest) == [a, b, c] + Decoded(rest)
  {
    hide Quad, GroupOctets, Decoded, InAlphabet, CanonicalGroup;
    var e := q + rest;
    QuadDecodes(a, b, c, 3);
    assert e[..4] == q && e[4..] == rest;
    assert forall k :: 0 <= k < 4 ==> e[k] == q[k];
    DecodedFirst(e);
  }

  lemma DecodedLast(s: seq<byte>)
    requires |s| == 4
    ensures Decoded(s) == GroupOctets(s)[..3 - Padding(s)]
  {
    assert s[..4] == s && s[|s| - 4..] == s && s[4..] == [];
    assert AllOctets(s) == GroupOctets(s) + [];
  }

  lemma DecodedFirst(s: seq<byte>)
    requires |s| > 4 && |s| % 4 == 0
    ensures Decoded(s) == GroupOctets(s[..4]) + Decoded(s[4..])
    ensures PaddingOf(s) == PaddingOf(s[4..])
  {
    var rest := s[4..];
    assert s[|s| - 4..] == rest[|rest| - 4..];
    assert AllOctets(s) == GroupOctets(s[..4]) + AllOctets(rest);
  }

  /** encode(decode(s)) = s for every canonical text. */
  lemma {:induction false} EncodeOfDecode(s: seq<byte>)
    requires Canonical(s)
    ensures Encode(Decoded(s)) == s
  {
    hide Decoded, Encode, InAlphabet, CanonicalGroup;
    if s == [] {
      EncodedNothing();
    } else if |s| == 4 {
      EncodeOfLast(s);
    } else {
      EncodeOfDecode(s[4..]);
      EncodeOfFirst(s);
    }
  }

  lemma EncodedNothing()
    ensures Encode(Decoded([])) == [] && Encode([]) == []
  {
  }

  lemma EncodeOfLast(s: seq<byte>)
    requires |s| == 4 && CanonicalGroup(s)
    ensures Encode(Decoded(s)) == s
  {
    hide Quad, GroupOctets, Decoded, InAlphabet, CanonicalGroup;
    GroupEncodes(s);
    DecodedLast(s);
    assert Padding(s) == 0 ==> Encode(Decoded(s)[3..]) == [];
  }

  lemma EncodeOfFirst(s: seq<byte>)
    requires |s| > 4 && Canonical(s) && Encode(Decoded(s[4..])) == s[4..]
    ensures Encode(Decoded(s)) == s
  {
    hide Quad, GroupOctets, Decoded;
    var g := s[..4];
    LetterTable(0, s[3]);
    GroupEncodes(g);
    DecodedFirst(s);
    hide InAlphabet, CanonicalGroup, Canonical;
    assert Decoded(s)[3..] == Decoded(s[4..]);
    EncodeStep(Decoded(s), Decoded(s)[0], Decoded(s)[1], Decoded(s)[2], 3);
    assert s == g + s[4..];
  }

  /** The texts that have a preimage are exactly the canonical ones. */
  lemma CanonicalIffEncoded(s: seq<byte>)
    ensures Canonical(s) <==> exists d :: Encode(d) == s
  {
    if Canonical(s) {
      EncodeOfDecode(s);
    }
    if d :| Encode(d) == s {
      DecodeOfEncode(d);
    }
  }

  /** The decoder's tests over the whole text say the same as the group-wise definition. */
  lemma {:induction false} CanonicalIffChecks(s: seq<byte>)
    requires s != [] && |s| % 4 == 0
    ensures Canonical(s) <==> (&& (forall k :: 0 <= k < |s| - PaddingOf(s) ==> InAlphabet(s[k]))
                               && (PaddingOf(s) == 1 ==> Table(s[|s| - 2]) % 4 == 0)
                               && (PaddingOf(s) == 2 ==> Table(s[|s| - 3]) % 16 == 0))
  {
    if |s| == 4 {
      assert s[|s| - 4..] == s;
    } else {
      var rest := s[4..];
      CanonicalIffChecks(rest);
      assert s[|s| - 4..] == rest[|rest| - 4..];
      assert s[|s| - 2] == rest[|rest| - 2] && s[|s| - 3] == rest[|rest| - 3];
      assert forall k :: 0 <= k < |rest| ==> rest[k] == s[k + 4];
      assert forall k :: 4 <= k < |s| ==> s[k] == rest[k - 4];
    }
  }

  lemma {:induction false} AllOctetsSplit(s: seq<byte>, i: nat)
    requires |s| % 4 == 0 && i % 4 == 0 && i < |s|
    ensures AllOctets(s[..i + 4]) == AllOctets(s[..i]) + GroupOctets(s[i..i + 4])
  {
    hide GroupOctets;
    if i == 0 {
      assert s[..4][..4] == s[..4] && s[..4][4..] == [] && s[0..4] == s[..4];
    } else {
      AllOctetsSplit(s[4..], i - 4);
      assert s[..i + 4][..4] == s[..4] == s[..i][..4];
      assert s[..i + 4][4..] == s[4..][..i];
      assert s[..i][4..] == s[4..][..i - 4];
      assert s[4..][i - 4..i] == s[i..i + 4];
    }
  }

  /**
   * kc_b64_decode: fails exactly on the texts that encode nothing, and otherwise returns the
   * octets whose encoding is the text.
   */
  method DecodeText(str: seq<byte>) returns (out: array?<byte>)
    ensures out == null <==> !exists d :: Encode(d) == str
    ensures out != null ==> fresh(out) && Encode(out[..]) == str
  {
    CanonicalIffEncoded(str);
    if |str| % 4 != 0 {
      return null;
    }
    var ok, padding := CheckText(str);
    if !ok {
      return null;
    }
    EncodeOfDecode(str);
    out := DecodeGroups(str, padding);
  }

  /** The checks the decoder makes before it writes anything. */
  method CheckText(str: seq<byte>) returns (ok: bool, padding: nat)
    requires |str| % 4 == 0
    ensures ok <==> Canonical(str)
    ensures ok ==> padding == PaddingOf(str)
  {
    var len := |str|;
    if len > 0 {
      CanonicalIffChecks(str);
    }
    hide InAlphabet, Table, Canonical;
    assert !InAlphabet(PAD) by { PadNotInAlphabet(); }
    padding := 0;
    if len > 0 && str[len - 1] == PAD { padding := padding + 1; }
    if len > 1 && str[len - 2] == PAD { padding := padding + 1; }
    var i := 0;
    while i < len - padding
      invariant 0 <= i <= len - padding
      invariant forall k :: 0 <= k < i ==> InAlphabet(str[k])
    {
      if !InAlphabet(str[i]) {
        return false, padding;
      }
      i := i + 1;
    }
    while i < len
      invariant len - padding <= i <= len
      invariant forall k :: len - padding <= k < i ==> str[k] == PAD
    {
      if str[i] != PAD {
        return false, padding;
      }
      i := i + 1;
    }
    if len > 0 {
      if padding == 2 {
        if Table(str[len - 3]) % 16 != 0 {
          return false, padding;
        }
      } else if padding == 1 {
        if Table(str[len - 2]) % 4 != 0 {
          return false, padding;
        }
      }
    } else {
      assert Canonical(str) by { EmptyIsCanonical(); }
    }
    return true, padding;
  }

  lemma EmptyIsCanonical()
    ensures Canonical([])
  {
  }

  lemma PadNotInAlphabet()
    ensures !InAlphabet(PAD)
  {
  }

  /** Stores one decoded group at `j`, dropping what does not fit. */
  method PutOctets(out: array<byte>, j: nat, o0: byte, o1: byte, o2: byte) returns (next: nat)
    requires j <= out.Length
    modifies out
    ensures next == (if j + 3 < out.Length then j + 3 else out.Length)
    ensures out[..next] == old(out[..j]) + [o0, o1, o2][..next - j]
  {
    next := j;
    if next < out.Length { out[next] := o0; next := next + 1; }
    if next < out.Length { out[next] := o1; next := next + 1; }
    if next < out.Length { out[next] := o2; next := next + 1; }
  }

  /** One group of the decoder: four sextets packed into 24 bits, and those cut into three octets. */
  method UnpackGroup(str: seq<byte>, i: nat) returns (o0: byte, o1: byte, o2: byte)
    requires i + 4 <= |str|
    ensures [o0, o1, o2] == GroupOctets(str[i..i + 4])
  {
    hide Table, Octets, Low;
    var w, x, y, z := Table(str[i]), Table(str[i + 1]), Low(str[i + 2]), Low(str[i + 3]);
    var triple := w * 262144 + x * 4096 + y * 64 + z;
    PackedOctets(w, x, y, z);
    o0, o1, o2 := triple / 65536 % 256, triple / 256 % 256, triple % 256;
  }

  /** The writing loop of the decoder: `padding` octets of the last group are not stored. */
  method DecodeGroups(str: seq<byte>, padding: nat) returns (out: array<byte>)
    requires |str| % 4 == 0 && padding == PaddingOf(str)
    ensures fresh(out) && out[..] == Decoded(str)
  {
    hide Table, Octets, AllOctets, GroupOctets, Low;
    var len := |str|;
    var outLen := len / 4 * 3 - padding;
    out := new byte[outLen];
    var j := 0;
    var i := 0;
    while i < len
      invariant 0 <= i <= len && i % 4 == 0
      invariant j == (if i / 4 * 3 < outLen then i / 4 * 3 else outLen)
      invariant out[..j] == AllOctets(str[..i])[..j]
    {
      AllOctetsSplit(str, i);
      ghost var all := AllOctets(str[..i + 4]);
      assert j == i / 4 * 3 && all[j..] == GroupOctets(str[i..i + 4]);
      var o0, o1, o2 := UnpackGroup(str, i);
      j := PutOctets(out, j, o0, o1, o2);
      i := i + 4;
    }
    assert str[..len] == str;
  }

  // ---------- the bit-stream definition of RFC 4648 ----------

  /** The `n` low bits of `v`, most significant first. */
  function Bits(v: nat, n: nat): (r: seq<bool>)
    ensures |r| == n
  {
    if n == 0 then [] else Bits(v / 2, n - 1) + [v % 2 == 1]
  }

  /** The number some bits spell, most significant first. */
  function Spelled(b: seq<bool>): nat {
    if b == [] then 0 else 2 * Spelled(b[..|b| - 1]) + if b[|b| - 1] then 1 else 0
  }

  lemma {:induction false} BitsMean(v: nat, n: nat)
    requires v < Pow2(n)
    ensures Spelled(Bits(v, n)) == v
  {
    if n > 0 {
      BitsMean(v / 2, n - 1);
      assert Bits(v, n)[..n - 1] == Bits(v / 2, n - 1);
    }
  }

  function OctetBits(d: seq<byte>): seq<bool> {
    if d == [] then [] else Bits(d[0], 8) + OctetBits(d[1..])
  }

  function SextetBits(s: seq<byte>): seq<bool> {
    if s == [] then [] else Bits(Table(s[0]), 6) + SextetBits(s[1..])
  }

  function Zeros(n: nat): (r: seq<bool>)
    ensures |r| == n
  {
    seq(n, _ => false)
  }

  /** Writing `hi` before `lo` is adding `hi` shifted left by the width of `lo`. */
  lemma {:induction false} BitsJoin(hi: nat, m: nat, lo: nat, n: nat)
    requires lo < Pow2(n)
    ensures Bits(hi * Pow2(n) + lo, m + n) == Bits(hi, m) + Bits(lo, n)
  {
    if n > 0 {
      var v := hi * Pow2(n) + lo;
      assert v == 2 * (hi * Pow2(n - 1)) + lo;
      assert v / 2 == hi * Pow2(n - 1) + lo / 2 && v % 2 == lo % 2;
      BitsJoin(hi, m, lo / 2, n - 1);
    }
  }

  lemma {:induction false} SextetBitsSplit(a: seq<byte>, b: seq<byte>)
    ensures SextetBits(a + b) == SextetBits(a) + SextetBits(b)
  {
    if a == [] {
      assert a + b == b;
    } else {
      assert (a + b)[1..] == a[1..] + b;
      SextetBitsSplit(a[1..], b);
    }
  }

  lemma {:induction false} OctetBitsSplit(a: seq<byte>, b: seq<byte>)
    ensures OctetBits(a + b) == OctetBits(a) + OctetBits(b)
  {
    if a == [] {
      assert a + b == b;
    } else {
      assert (a + b)[1..] == a[1..] + b;
      OctetBitsSplit(a[1..], b);
    }
  }

  lemma OctetAsBits(a: byte)
    ensures Bits(a, 8) == Bits(a / 4, 6) + Bits(a % 4, 2)
    ensures Bits(a, 8) == Bits(a / 16, 4) + Bits(a % 16, 4)
    ensures Bits(a, 8) == Bits(a / 64, 2) + Bits(a % 64, 6)
  {
    hide Bits;
    SmallPowers();
    BitsJoin(a / 4, 6, a % 4, 2);
    BitsJoin(a / 16, 4, a % 16, 4);
    BitsJoin(a / 64, 2, a % 64, 6);
  }

  lemma SextetAsBits(two: nat, four: nat)
    requires two < 4 && four < 16
    ensures Bits(two * 16 + four, 6) == Bits(two, 2) + Bits(four, 4)
    ensures Bits(four * 4 + two, 6) == Bits(four, 4) + Bits(two, 2)
  {
    hide Bits;
    SmallPowers();
    BitsJoin(two, 2, four, 4);
    BitsJoin(four, 4, two, 2);
  }

  lemma SmallPowers()
    ensures Pow2(2) == 4 && Pow2(4) == 16 && Pow2(6) == 64
  {
    assert Pow2(1) == 2 && Pow2(3) == 8 && Pow2(5) == 32;
  }

  lemma ZeroBits(n: nat)
    ensures Bits(0, n) == Zeros(n)
  {
  }

  lemma QuadBits(a: byte, b: byte, c: byte)
    ensures Bits(a / 4, 6) + Bits(a % 4 * 16 + b / 16, 6) == Bits(a, 8) + Bits(b / 16, 4)
    ensures Bits(b / 16, 4) + Bits(b % 16 * 4 + c / 64, 6) == Bits(b, 8) + Bits(c / 64, 2)
    ensures Bits(c / 64, 2) + Bits(c % 64, 6) == Bits(c, 8)
  {
    hide Bits;
    OctetAsBits(a);
    OctetAsBits(b);
    OctetAsBits(c);
    SextetAsBits(a % 4, b / 16);
    SextetAsBits(c / 64, b % 16);
  }

  /** The significant characters of one group spell its octets, filled up with zero bits. */
  lemma GroupBitStream(a: byte, b: byte, c: byte, n: nat)
    requires 1 <= n <= 3 && (n < 2 ==> b == 0) && (n < 3 ==> c == 0)
    ensures var q := Quad(a, b, c, n);
            && SextetBits(q[..n + 1]) == OctetBits([a, b, c][..n]) + Zeros(2 * (3 - n))
            && (forall k :: n < k < 4 ==> q[k] == PAD)
  {
    hide Bits, Letter, Table, InAlphabet;
    var w, x, y, z := a / 4, a % 4 * 16 + b / 16, b % 16 * 4 + c / 64, c % 64;
    LetterTable(w, 0);
    LetterTable(x, 0);
    LetterTable(y, 0);
    LetterTable(z, 0);
    FewSextets(Quad(a, b, c, n)[..n + 1]);
    FewOctets([a, b, c][..n]);
    QuadBits(a, b, c);
    var W, X, Y, Z := Bits(w, 6), Bits(x, 6), Bits(y, 6), Bits(z, 6);
    if n == 1 {
      assert W + X == Bits(a, 8) + Bits(0, 4);
      ZeroBits(4);
    } else {
      assert W + X + Y == Bits(a, 8) + (Bits(b / 16, 4) + Y);
      if n == 2 {
        assert W + X + Y == Bits(a, 8) + Bits(b, 8) + Bits(0, 2);
        ZeroBits(2);
      } else {
        assert W + X + Y + Z == Bits(a, 8) + Bits(b, 8) + (Bits(c / 64, 2) + Z);
        assert Bits(a, 8) + Bits(b, 8) + Bits(c, 8) + [] == Bits(a, 8) + Bits(b, 8) + Bits(c, 8);
      }
    }
  }

  lemma FewSextets(s: seq<byte>)
    requires 2 <= |s| <= 4
    ensures SextetBits(s) == Bits(Table(s[0]), 6) + Bits(Table(s[1]), 6)
                             + (if |s| > 2 then Bits(Table(s[2]), 6) else [])
                             + (if |s| > 3 then Bits(Table(s[3]), 6) else [])
  {
    hide Table, Bits;
    var t := s[1..];
    var u := t[1..];
    assert SextetBits(s) == Bits(Table(s[0]), 6) + SextetBits(t);
    assert SextetBits(t) == Bits(Table(s[1]), 6) + SextetBits(u);
    if |s| > 2 {
      assert SextetBits(u) == Bits(Table(s[2]), 6) + SextetBits(u[1..]);
      if |s| > 3 {
        assert u[1..] == [s[3]] && [s[3]][1..] == [];
        assert SextetBits([s[3]]) == Bits(Table(s[3]), 6) + SextetBits([]);
      } else {
        assert u[1..] == [];
      }
    } else {
      assert u == [];
    }
  }

  lemma FewOctets(d: seq<byte>)
    requires 1 <= |d| <= 3
    ensures OctetBits(d)
            == Bits(d[0], 8) + (if |d| > 1 then Bits(d[1], 8) else []) + (if |d| > 2 then Bits(d[2], 8) else [])
  {
    hide Bits;
    var t := d[1..];
    assert OctetBits(d) == Bits(d[0], 8) + OctetBits(t);
    if |d| > 1 {
      assert OctetBits(t) == Bits(d[1], 8) + OctetBits(t[1..]);
      if |d| > 2 {
        assert t[1..] == [d[2]] && [d[2]][1..] == [];
        assert OctetBits([d[2]]) == Bits(d[2], 8) + OctetBits([]);
      }
    }
  }

  /** How many padding characters the encoding of `n` octets ends in. */
  function PaddingFor(n: nat): (p: nat)
    ensures p <= 2
  {
    (3 - n % 3) % 3
  }

  /**
   * Section 4 of RFC 4648: the characters before the padding, read as six-bit groups, are the bits
   * of the octets in order, completed by zero bits only.
   */
  lemma {:induction false} EncodeBitStream(d: seq<byte>)
    ensures var e := Encode(d);
            var m := |e| - PaddingFor(|d|);
            && 0 <= m
            && SextetBits(e[..m]) == OctetBits(d) + Zeros(2 * PaddingFor(|d|))
            && (forall k :: m <= k < |e| ==> e[k] == PAD)
  {
    hide Quad, SextetBits, OctetBits, Zeros;
    if d == [] {
      NoBits();
      assert Encode(d)[..0] == [];
    } else if |d| <= 3 {
      var b: byte, c: byte := if |d| > 1 then d[1] else 0, if |d| > 2 then d[2] else 0;
      GroupBitStream(d[0], b, c, |d|);
      assert |d| == 3 ==> Encode(d[3..]) == [];
      assert Encode(d) == Quad(d[0], b, c, |d|);
      assert d == [d[0], b, c][..|d|];
    } else {
      var q, rest := Quad(d[0], d[1], d[2], 3), Encode(d[3..]);
      GroupBitStream(d[0], d[1], d[2], 3);
      EncodeBitStream(d[3..]);
      EncodeMore(d);
      hide Encode;
      OctetBitsSplit([d[0], d[1], d[2]][..3], d[3..]);
      assert (|d| - 3) % 3 == |d| % 3;
      BitStreamStep(q, rest, OctetBits([d[0], d[1], d[2]][..3]), OctetBits(d[3..]), PaddingFor(|d|));
    }
  }

  lemma EncodeMore(d: seq<byte>)
    requires |d| > 3
    ensures Encode(d) == Quad(d[0], d[1], d[2], 3) + Encode(d[3..])
    ensures d == [d[0], d[1], d[2]][..3] + d[3..]
  {
    hide Quad, Encode;
    EncodeStep(d, d[0], d[1], d[2], 3);
  }

  lemma BitStreamStep(q: seq<byte>, rest: seq<byte>, head: seq<bool>, bits: seq<bool>, padding: nat)
    requires |q| == 4 && SextetBits(q[..4]) == head + Zeros(0)
    requires padding <= |rest| && SextetBits(rest[..|rest| - padding]) == bits + Zeros(2 * padding)
    ensures SextetBits((q + rest)[..4 + |rest| - padding]) == head + bits + Zeros(2 * padding)
  {
    hide SextetBits;
    assert (q + rest)[..4 + |rest| - padding] == q[..4] + rest[..|rest| - padding];
    SextetBitsSplit(q[..4], rest[..|rest| - padding]);
  }

  lemma NoBits()
    ensures SextetBits([]) == [] && OctetBits([]) == [] && Zeros(0) == []
  {
  }

  lemma OneGroup(d: seq<byte>)
    requires 1 <= |d| <= 3
    ensures Encode(d) == Quad(d[0], if |d| > 1 then d[1] else 0, if |d| > 2 then d[2] else 0, |d|)
  {
    EncodeStep(d, d[0], if |d| > 1 then d[1] else 0, if |d| > 2 then d[2] else 0, |d|);
    assert d[|d|..] == [];
  }

  lemma FooAnd(d: seq<byte>)
    requires 1 <= |d| <= 3
    ensures Encode([102, 111, 111] + d) == [90, 109, 57, 118] + Encode(d)
  {
    hide Encode, Quad;
    var all := [102, 111, 111] + d;
    FooLetters();
    EncodeStep(all, 102, 111, 111, 3);
    assert all[3..] == d;
  }

  lemma FooLetters()
    ensures Quad(102, 111, 111, 3) == [90, 109, 57, 118]
  {
  }

  /** Test vectors of section 10 of RFC 4648, one for every amount of padding. */
  lemma TestVectors()
    ensures Encode(Ascii("foob")) == Ascii("Zm9vYg==")
    ensures Encode(Ascii("fooba")) == Ascii("Zm9vYmE=")
    ensures Encode(Ascii("foobar")) == Ascii("Zm9vYmFy")
  {
    hide Encode;
    Vector([98], "foob", [89, 103, 61, 61], "Zm9vYg==");
    Vector([98, 97], "fooba", [89, 109, 69, 61], "Zm9vYmE=");
    Vector([98, 97, 114], "foobar", [89, 109, 70, 121], "Zm9vYmFy");
  }

  lemma Vector(d: seq<byte>, plain: string, q: seq<byte>, encoded: string)
    requires 1 <= |d| <= 3
    requires q == Quad(d[0], if |d| > 1 then d[1] else 0, if |d| > 2 then d[2] else 0, |d|)
    requires |plain| == 3 + |d| && (forall k :: 0 <= k < |plain| ==> plain[k] as int == ([102, 111, 111] + d)[k])
    requires |encoded| == 8 && (forall k :: 0 <= k < 8 ==> encoded[k] as int == ([90, 109, 57, 118] + q)[k])
    requires forall k :: 0 <= k < |plain| ==> plain[k] < 128 as char
    requires forall k :: 0 <= k < |encoded| ==> encoded[k] < 128 as char
    ensures Encode(Ascii(plain)) == Ascii(encoded)
  {
    hide Encode, Quad;
    OneGroup(d);
    FooAnd(d);
    assert Ascii(plain) == [102, 111, 111] + d;
    assert Ascii(encoded) == [90, 109, 57, 118] + q;
  }
}
