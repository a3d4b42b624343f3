/** Machine arithmetic on naturals: powers of two, masking, and little-endian integers. */
module Binary {
  import opened Prelude

  function Pow2(n: nat): (p: nat)
    ensures p >= 1
  {
    if n == 0 then 1 else 2 * Pow2(n - 1)
  }

  ghost predicate IsPow2(n: nat) {
    exists k: nat :: n == Pow2(k)
  }

  /** The remainder by a modulus that is not a literal. */
  function Mod(x: nat, m: nat): (r: nat)
    requires m > 0
    ensures r < m
  {
    x % m
  }

  /** Bitwise AND. */
  function And(x: nat, y: nat): nat
    decreases x + y
  {
    if x == 0 || y == 0 then 0 else 2 * And(x / 2, y / 2) + (x % 2) * (y % 2)
  }

  lemma MulAtLeast(m: nat, d: nat)
    requires d >= 1
    ensures m * d >= m
  {
  }

  lemma DivModUnique(x: nat, m: nat, q: nat, r: nat)
    requires x == m * q + r && r < m
    ensures x / m == q && x % m == r
  {
    var q', r' := x / m, x % m;
    assert x == m * q' + r';
    if q' > q {
      assert m * (q' - q) == r - r';
      MulAtLeast(m, q' - q);
    } else if q' < q {
      assert m * (q - q') == r' - r;
      MulAtLeast(m, q - q');
    }
  }

  lemma ModDouble(x: nat, p: nat)
    requires p > 0
    ensures x % (2 * p) == 2 * (x / 2 % p) + x % 2
  {
    var h := x / 2;
    var q, r := h / p, h % p;
    assert h == p * q + r;
    assert 2 * (p * q) == 2 * p * q;
    DivModUnique(x, 2 * p, q, 2 * r + x % 2);
  }

  lemma AndOdd(x: nat, y: nat)
    ensures And(x, 2 * y + 1) == 2 * And(x / 2, y) + x % 2
  {
    assert (2 * y + 1) / 2 == y && (2 * y + 1) % 2 == 1;
  }

  /** Masking with `2^k - 1`, as the probe loops do, is the remainder by `2^k`. */
  lemma {:induction false} MaskIsMod(x: nat, k: nat)
    ensures And(x, Pow2(k) - 1) == x % Pow2(k)
  {
    if k > 0 {
      var p := Pow2(k - 1);
      MaskIsMod(x / 2, k - 1);
      hide And;
      AndOdd(x, p - 1);
      ModDouble(x, p);
    }
  }

  // ---------- little-endian integers ----------

  /** The `n` low octets of `v`, least significant first. */
  function Le(v: nat, n: nat): (r: seq<byte>)
    ensures |r| == n
  {
    if n == 0 then [] else [v % 256] + Le(v / 256, n - 1)
  }

  /** The number a little-endian octet sequence spells. */
  function FromLe(b: seq<byte>): nat {
    if b == [] then 0 else b[0] + 256 * FromLe(b[1..])
  }

  lemma {:induction false} FromLeOfLe(v: nat, n: nat)
    requires v < Pow2(8 * n)
    ensures FromLe(Le(v, n)) == v
  {
    if n > 0 {
      Pow2Octet(8 * (n - 1));
      assert Le(v, n)[1..] == Le(v / 256, n - 1);
      FromLeOfLe(v / 256, n - 1);
    }
  }

  lemma {:induction false} LeOfFromLe(b: seq<byte>)
    ensures Le(FromLe(b), |b|) == b && FromLe(b) < Pow2(8 * |b|)
  {
    if b != [] {
      LeOfFromLe(b[1..]);
      var v := FromLe(b);
      assert v % 256 == b[0] && v / 256 == FromLe(b[1..]);
      Pow2Octet(8 * (|b| - 1));
    }
  }

  lemma Pow2Octet(n: nat)
    ensures Pow2(n + 8) == 256 * Pow2(n)
  {
    assert Pow2(n + 2) == 4 * Pow2(n);
    assert Pow2(n + 4) == 4 * Pow2(n + 2);
    assert Pow2(n + 6) == 4 * Pow2(n + 4);
    assert Pow2(n + 8) == 4 * Pow2(n + 6);
  }

  lemma MachineWords()
    ensures Pow2(32) == 0x1_0000_0000 && Pow2(64) == 0x1_0000_0000_0000_0000
  {
    assert Pow2(0) == 1;
    hide Pow2;
    Pow2Octet(0);
    Pow2Octet(8);
    Pow2Octet(16);
    Pow2Octet(24);
    Pow2Octet(32);
    Pow2Octet(40);
    Pow2Octet(48);
    Pow2Octet(56);
  }

  /** kc_bm25_write32 and kc_bm25_write64, at 4 and 8 octets: octet `i` is `value >> (8 * i)`. */
  method WriteLe(value: nat, width: nat) returns (out: seq<byte>)
    ensures out == Le(value, width)
  {
    out := [];
    var rest := value;
    var i := 0;
    while i < width
      invariant 0 <= i <= width && out + Le(rest, width - i) == Le(value, width)
    {
      out := out + [rest % 256];
      rest := rest / 256;
      i := i + 1;
    }
  }

  /** kc_bm25_read32 and kc_bm25_read64. */
  method ReadLe(octets: seq<byte>) returns (value: nat)
    ensures value == FromLe(octets) && value < Pow2(8 * |octets|)
  {
    LeOfFromLe(octets);
    value := 0;
    var unit: nat := 1;
    var i := 0;
    assert octets[0..] == octets;
    while i < |octets|
      invariant 0 <= i <= |octets| && value + unit * FromLe(octets[i..]) == FromLe(octets)
    {
      assert octets[i..][1..] == octets[i + 1..];
      Distribute(unit, octets[i], FromLe(octets[i + 1..]));
      value := value + octets[i] * unit;
      unit := unit * 256;
      i := i + 1;
    }
  }

  lemma Distribute(unit: nat, low: nat, high: nat)
    ensures unit * (low + 256 * high) == low * unit + unit * 256 * high
  {
  }
}
