/** IPv4 arithmetic on byte strings, as net.IPNet and internal/network/store.go do it:
    masks byte by byte (section 3.1 of RFC 4632), addition without carry. Each byte
    operation is tied to the number the address stands for. */
module Ipv4 {
  import opened Bytes

  type Ip = s: seq<Byte> | |s| == 4 witness [0, 0, 0, 0]

  function Pow2(n: nat): (r: nat)
    ensures r >= 1
  {
    if n == 0 then 1 else 2 * Pow2(n - 1)
  }

  lemma {:induction false} Pow2Add(a: nat, b: nat)
    ensures Pow2(a + b) == Pow2(a) * Pow2(b)
  {
    if b == 0 {
    } else {
      Pow2Add(a, b - 1);
    }
  }

  lemma ByteSizes()
    ensures Pow2(0) == 1 && Pow2(1) == 2 && Pow2(2) == 4 && Pow2(3) == 8 && Pow2(4) == 16
    ensures Pow2(5) == 32 && Pow2(6) == 64 && Pow2(7) == 128 && Pow2(8) == 256
  {
    assert Pow2(4) == 2 * Pow2(3) && Pow2(6) == 2 * Pow2(5) && Pow2(8) == 2 * Pow2(7);
  }

  // ----- Bitwise operations

  function And(a: nat, b: nat): nat {
    if a == 0 || b == 0 then 0
    else 2 * And(a / 2, b / 2) + (if a % 2 + b % 2 == 2 then 1 else 0)
  }

  function Or(a: nat, b: nat): nat {
    if a == 0 then b else if b == 0 then a
    else 2 * Or(a / 2, b / 2) + (if a % 2 + b % 2 > 0 then 1 else 0)
  }

  lemma {:induction false} AndOnes(a: nat, w: nat)
    requires a < Pow2(w)
    ensures And(a, Pow2(w) - 1) == a
  {
    if w == 0 {
    } else {
      AndOnes(a / 2, w - 1);
      assert (Pow2(w) - 1) / 2 == Pow2(w - 1) - 1 && (Pow2(w) - 1) % 2 == 1;
    }
  }

  /** Keeping the bits above the lowest j clears the remainder modulo 2^j. */
  lemma {:induction false} AndMask(a: nat, w: nat, j: nat)
    requires a < Pow2(w) && j <= w
    ensures Pow2(j) <= Pow2(w) && And(a, Pow2(w) - Pow2(j)) == a - a % Pow2(j)
    decreases w
  {
    if j == 0 {
      AndOnes(a, w);
    } else {
      AndMask(a / 2, w - 1, j - 1);
      var m := Pow2(w - 1) - Pow2(j - 1);
      assert (2 * m) / 2 == m && (2 * m) % 2 == 0;
      ModDouble(a, Pow2(j - 1));
    }
  }

  lemma ModDouble(a: nat, p: nat)
    requires p > 0
    ensures a % (2 * p) == 2 * ((a / 2) % p) + a % 2
  {
    var q, r := (a / 2) / p, (a / 2) % p;
    assert a == (2 * p) * q + (2 * r + a % 2) by { assert a / 2 == p * q + r; }
    ModIs(a, 2 * p, q, 2 * r + a % 2);
  }

  lemma ModIs(a: int, m: nat, q: int, r: nat)
    requires m > 0 && r < m && a == m * q + r
    ensures a % m == r && a / m == q
  {
    var d := q - a / m;
    assert d >= 1 ==> m * d >= m by { assert m * d == m * (d - 1) + m; }
    assert d <= -1 ==> m * d + m <= 0 by { assert m * d + m == m * (d + 1); }
    assert m * d == a % m - r;
  }

  lemma {:induction false} OrLowOnes(a: nat, j: nat)
    requires a % Pow2(j) == 0
    ensures Or(a, Pow2(j) - 1) == a + Pow2(j) - 1
  {
    if j == 0 || a == 0 {
    } else {
      ModDouble(a, Pow2(j - 1));
      OrLowOnes(a / 2, j - 1);
      assert (Pow2(j) - 1) / 2 == Pow2(j - 1) - 1 && (Pow2(j) - 1) % 2 == 1;
    }
  }

  lemma {:induction false} OrBound(a: nat, b: nat, w: nat)
    requires a < Pow2(w) && b < Pow2(w)
    ensures Or(a, b) < Pow2(w)
  {
    if a == 0 || b == 0 {
    } else {
      OrBound(a / 2, b / 2, w - 1);
    }
  }

  // ----- Masks

  /** How many of byte i's bits a prefix of p covers. */
  function Ones(p: nat, i: nat): (k: nat)
    ensures k <= 8
  {
    if p >= 8 * i + 8 then 8 else if p <= 8 * i then 0 else p - 8 * i
  }

  /** The number of values of byte i that share its covered bits. */
  function Unit(p: nat, i: nat): nat { Pow2(8 - Ones(p, i)) }

  lemma UnitCases(p: nat, i: nat)
    ensures Unit(p, i) in {1, 2, 4, 8, 16, 32, 64, 128, 256}
    ensures p >= 8 * i + 8 ==> Unit(p, i) == 1
    ensures p <= 8 * i ==> Unit(p, i) == 256
    ensures 8 * i <= p <= 8 * i + 8 ==> Unit(p, i) == Pow2(8 * i + 8 - p)
  {
    ByteSizes();
  }

  /** net.CIDRMask, byte i */
  function MaskByte(p: nat, i: nat): Byte {
    UnitCases(p, i);
    256 - Unit(p, i)
  }

  function Masked(b: Byte, p: nat, i: nat): nat { And(b, MaskByte(p, i)) }

  lemma MaskedIs(b: Byte, p: nat, i: nat)
    ensures Masked(b, p, i) == b - b % Unit(p, i)
  {
    ByteSizes();
    AndMask(b, 8, 8 - Ones(p, i));
  }

  /** Two bytes agree under the mask exactly when they lie in the same unit. */
  lemma SameMasked(a: Byte, b: Byte, p: nat, i: nat)
    ensures Masked(a, p, i) == Masked(b, p, i) <==> a / Unit(p, i) == b / Unit(p, i)
  {
    hide Masked, Unit;
    MaskedIs(a, p, i);
    MaskedIs(b, p, i);
    UnitCases(p, i);
    var s := Unit(p, i);
    if s == 1 {} else if s == 2 {} else if s == 4 {} else if s == 8 {} else if s == 16 {}
    else if s == 32 {} else if s == 64 {} else if s == 128 {} else {}
  }

  // ----- Byte strings as numbers

  function Num(s: seq<Byte>): nat {
    if s == [] then 0 else Num(s[..|s| - 1]) * 256 + s[|s| - 1]
  }

  lemma NumSplit(s: seq<Byte>)
    requires s != []
    ensures Num(s) == Num(s[..|s| - 1]) * 256 + s[|s| - 1]
  {
  }

  /** net.IPNet.Contains on byte strings of equal length. */
  predicate Agree(a: seq<Byte>, b: seq<Byte>, p: nat)
    requires |a| == |b|
  {
    forall i | 0 <= i < |a| :: Masked(a[i], p, i) == Masked(b[i], p, i)
  }

  predicate Aligned(a: seq<Byte>, p: nat) {
    forall i | 0 <= i < |a| :: Masked(a[i], p, i) == a[i]
  }

  lemma AgreeSplit(a: seq<Byte>, b: seq<Byte>, p: nat)
    requires |a| == |b| > 0
    ensures var n := |a| - 1;
      Agree(a, b, p) <==> Agree(a[..n], b[..n], p) && Masked(a[n], p, n) == Masked(b[n], p, n)
  {
    var n := |a| - 1;
    if Agree(a[..n], b[..n], p) && Masked(a[n], p, n) == Masked(b[n], p, n) {
      forall i | 0 <= i < |a| ensures Masked(a[i], p, i) == Masked(b[i], p, i) {
        if i < n { assert Masked(a[..n][i], p, i) == Masked(b[..n][i], p, i); }
      }
    }
    if Agree(a, b, p) {
      forall i | 0 <= i < n ensures Masked(a[..n][i], p, i) == Masked(b[..n][i], p, i) {
        assert Masked(a[i], p, i) == Masked(b[i], p, i);
      }
    }
  }

  /** Beyond the last covered byte a longer prefix changes nothing. */
  lemma AgreeClamp(a: seq<Byte>, b: seq<Byte>, p: nat, q: nat)
    requires |a| == |b| && 8 * |a| <= p && 8 * |a| <= q
    ensures Agree(a, b, p) <==> Agree(a, b, q)
  {
    assert forall i | 0 <= i < |a| :: Ones(p, i) == Ones(q, i) == 8;
  }

  /** What is left of x above its lowest k bits. */
  function Leading(x: nat, k: nat): int { x / Pow2(k) }

  /** Agreement under a prefix is agreement of the numbers' leading bits. */
  lemma {:induction false} AgreeIsDivision(a: seq<Byte>, b: seq<Byte>, p: nat)
    requires |a| == |b| && p <= 8 * |a|
    ensures Agree(a, b, p) <==> Leading(Num(a), 8 * |a| - p) == Leading(Num(b), 8 * |a| - p)
    decreases |a|
  {
    hide Masked, Num, Pow2, Leading;
    if |a| == 0 {
      assert a == b;
    } else {
      hide Agree;
      var n := |a| - 1;
      var x, y := Num(a[..n]), Num(b[..n]);
      NumSplit(a);
      NumSplit(b);
      AgreeSplit(a, b, p);
      if p <= 8 * n {
        HostMasked(a[n], p, n);
        HostMasked(b[n], p, n);
        AgreeIsDivision(a[..n], b[..n], p);
        BlockQuotients(x, a[n], y, b[n], 8 * n - p);
      } else {
        AgreeClamp(a[..n], b[..n], p, 8 * n);
        AgreeIsDivision(a[..n], b[..n], 8 * n);
        ByteQuotients(x, a[n], y, b[n], p, n);
      }
    }
  }

  /** A byte past the prefix is masked away. */
  lemma HostMasked(b: Byte, p: nat, i: nat)
    requires p <= 8 * i
    ensures Masked(b, p, i) == 0
  {
    MaskedIs(b, p, i);
    UnitCases(p, i);
  }

  lemma BlockQuotients(x: nat, l: Byte, y: nat, m: Byte, k: nat)
    ensures Leading(x * 256 + l, k + 8) == Leading(y * 256 + m, k + 8) <==> Leading(x, k) == Leading(y, k)
  {
    hide Pow2;
    BlockOfBytes(k);
    DivByteTimes(x, l, Pow2(k));
    DivByteTimes(y, m, Pow2(k));
  }

  lemma ByteQuotients(x: nat, l: Byte, y: nat, m: Byte, p: nat, i: nat)
    requires 8 * i < p <= 8 * i + 8
    ensures Leading(x * 256 + l, 8 * i + 8 - p) == Leading(y * 256 + m, 8 * i + 8 - p)
       <==> Leading(x, 0) == Leading(y, 0) && Masked(l, p, i) == Masked(m, p, i)
  {
    hide Pow2, Unit, Masked;
    ByteSizes();
    UnitCases(p, i);
    SameMasked(l, m, p, i);
    DivInByte(x, l, y, m, Unit(p, i));
  }

  lemma BlockOfBytes(k: nat)
    ensures Pow2(k + 8) == Pow2(k) * 256
  {
    Pow2Add(k, 8);
    ByteSizes();
  }

  lemma DivByteTimes(x: nat, l: Byte, q: nat)
    requires q > 0
    ensures (x * 256 + l) / (q * 256) == x / q
  {
    var r := x % q;
    assert x == q * (x / q) + r;
    assert (x * 256 + l) == (q * 256) * (x / q) + (r * 256 + l);
    ModIs(x * 256 + l, q * 256, x / q, r * 256 + l);
  }

  lemma ByteQuotient(x: nat, l: Byte, s: nat)
    requires s in {1, 2, 4, 8, 16, 32, 64, 128, 256}
    ensures (x * 256 + l) / s == x * (256 / s) + l / s
    ensures l / s < 256 / s
  {
    if s == 1 {} else if s == 2 {} else if s == 4 {} else if s == 8 {} else if s == 16 {}
    else if s == 32 {} else if s == 64 {} else if s == 128 {} else {}
  }

  lemma OneSplit(x: nat, a: nat, y: nat, b: nat, k: nat)
    requires a < k && b < k
    ensures x * k + a == y * k + b <==> x == y && a == b
  {
    if x * k + a == y * k + b {
      ModIs(x * k + a, k, x, a);
      ModIs(x * k + a, k, y, b);
    }
  }

  lemma DivInByte(x: nat, l: Byte, y: nat, m: Byte, s: nat)
    requires s in {1, 2, 4, 8, 16, 32, 64, 128, 256}
    ensures (x * 256 + l) / s == (y * 256 + m) / s <==> x == y && l / s == m / s
  {
    ByteQuotient(x, l, s);
    ByteQuotient(y, m, s);
    OneSplit(x, l / s, y, m / s, 256 / s);
  }

  /** Numbers determine byte strings. */
  lemma {:induction false} NumInjective(a: seq<Byte>, b: seq<Byte>)
    requires |a| == |b| && Num(a) == Num(b)
    ensures a == b
    decreases |a|
  {
    if |a| == 0 {
    } else {
      NumInjective(a[..|a| - 1], b[..|b| - 1]);
    }
  }

  lemma {:induction false} NumBound(a: seq<Byte>)
    ensures Num(a) < Pow2(8 * |a|)
    decreases |a|
  {
    if |a| == 0 {
    } else {
      NumBound(a[..|a| - 1]);
      BlockOfBytes(8 * (|a| - 1));
    }
  }

  // ----- Subnets

  datatype Subnet = Subnet(ip: Ip, prefix: nat) {
    predicate Valid() { prefix <= 32 && Aligned(ip, prefix) }

    function Size(): nat
      requires prefix <= 32
    {
      Pow2(32 - prefix)
    }

    predicate Contains(x: Ip) { Agree(ip, x, prefix) }
  }

  const ANY: Subnet := Subnet([0, 0, 0, 0], 0)

  lemma AnyIsValid()
    ensures ANY.Valid()
  {
  }

  lemma AnyIsZero()
    ensures Num(ANY.ip) == 0
  {
    assert Num([0, 0, 0]) == 0 by { assert Num([0, 0]) == 0; }
    assert ANY.ip[..3] == [0, 0, 0];
  }

  /** A subnet is the block of Size() numbers that starts at its address. */
  lemma ContainsIsRange(net: Subnet, x: Ip)
    requires net.Valid()
    ensures net.Contains(x) <==> Num(net.ip) <= Num(x) < Num(net.ip) + net.Size()
  {
    hide Agree, Aligned, Num, Pow2;
    AgreeIsDivision(net.ip, x, net.prefix);
    AlignedIsMultiple(net.ip, net.prefix);
    var a, s := Num(net.ip), net.Size();
    assert a == s * (a / s) && Num(x) == s * (Num(x) / s) + Num(x) % s;
    if a <= Num(x) < a + s { ModIs(Num(x), s, a / s, Num(x) - a); }
  }

  lemma {:induction false} AlignedIsMultiple(a: seq<Byte>, p: nat)
    requires p <= 8 * |a| && Aligned(a, p)
    ensures Num(a) % Pow2(8 * |a| - p) == 0
    decreases |a|
  {
    if |a| == 0 {
    } else {
      hide Masked;
      var n := |a| - 1;
      MaskedIs(a[n], p, n);
      UnitCases(p, n);
      if p <= 8 * n {
        assert Aligned(a[..n], p);
        AlignedIsMultiple(a[..n], p);
        BlockOfBytes(8 * n - p);
        MultipleOfBlock(Num(a[..n]), Pow2(8 * n - p));
      } else {
        MultipleInByte(Num(a[..n]), a[n], Unit(p, n));
      }
    }
  }

  lemma MultipleOfBlock(x: nat, s: nat)
    requires s > 0 && x % s == 0
    ensures s * 256 > 0 && (x * 256) % (s * 256) == 0
  {
    assert x * 256 == (s * 256) * (x / s) by { assert x == s * (x / s); }
    ModIs(x * 256, s * 256, x / s, 0);
  }

  lemma MultipleInByte(x: nat, l: Byte, s: nat)
    requires s in {1, 2, 4, 8, 16, 32, 64, 128, 256} && l % s == 0
    ensures (x * 256 + l) % s == 0
  {
    assert s * (256 / s) == 256 by {
      if s == 1 {} else if s == 2 {} else if s == 4 {} else if s == 8 {} else if s == 16 {}
      else if s == 32 {} else if s == 64 {} else if s == 128 {} else {}
    }
    MultipleBy(x, l, s, 256 / s);
  }

  lemma MultipleBy(x: nat, l: nat, s: nat, k: nat)
    requires s > 0 && s * k == 256 && l % s == 0
    ensures (x * 256 + l) % s == 0
  {
    var q := l / s;
    assert l == s * q;
    assert s * (x * k + q) == x * (s * k) + s * q;
    ModIs(x * 256 + l, s, x * k + q, 0);
  }

  predicate Overlap(a: Subnet, b: Subnet) {
    a.Contains(b.ip) || b.Contains(a.ip)
  }

  lemma AgreeShorter(a: seq<Byte>, b: seq<Byte>, p: nat, q: nat)
    requires |a| == |b| && p <= q && Agree(a, b, q)
    ensures Agree(a, b, p)
  {
    forall i | 0 <= i < |a| ensures Masked(a[i], p, i) == Masked(b[i], p, i) {
      assert Masked(a[i], q, i) == Masked(b[i], q, i);
      SameMasked(a[i], b[i], p, i);
      SameMasked(a[i], b[i], q, i);
      UnitCases(p, i);
      UnitCases(q, i);
      CoarserUnit(a[i], b[i], Ones(p, i), Ones(q, i));
    }
  }

  lemma CoarserUnit(a: Byte, b: Byte, k: nat, l: nat)
    requires k <= l <= 8 && a / Pow2(8 - l) == b / Pow2(8 - l)
    ensures a / Pow2(8 - k) == b / Pow2(8 - k)
  {
    Pow2Add(8 - l, l - k);
    DivTwice(a, Pow2(8 - l), Pow2(l - k));
    DivTwice(b, Pow2(8 - l), Pow2(l - k));
  }

  lemma DivTwice(a: nat, s: nat, t: nat)
    requires s > 0 && t > 0
    ensures s * t > 0 && a / (s * t) == (a / s) / t
  {
    var q, r := a / s, a % s;
    assert a == s * q + r && q == t * (q / t) + q % t;
    assert a == (s * t) * (q / t) + (s * (q % t) + r);
    assert s * (q % t) <= s * (t - 1);
    ModIs(a, s * t, q / t, s * (q % t) + r);
  }

  /** subnetsOverlap is true exactly when the two ranges share an address. */
  lemma OverlapIsSharing(a: Subnet, b: Subnet)
    ensures Overlap(a, b) <==> exists x: Ip :: a.Contains(x) && b.Contains(x)
  {
    if Overlap(a, b) {
      if a.Contains(b.ip) { assert b.Contains(b.ip); } else { assert a.Contains(a.ip); }
    }
    if x: Ip :| a.Contains(x) && b.Contains(x) {
      if a.prefix <= b.prefix {
        AgreeShorter(b.ip, x, a.prefix, b.prefix);
        assert a.Contains(b.ip) by {
          forall i | 0 <= i < 4 ensures Masked(a.ip[i], a.prefix, i) == Masked(b.ip[i], a.prefix, i) {
            assert Masked(a.ip[i], a.prefix, i) == Masked(x[i], a.prefix, i);
            assert Masked(b.ip[i], a.prefix, i) == Masked(x[i], a.prefix, i);
          }
        }
      } else {
        AgreeShorter(a.ip, x, b.prefix, a.prefix);
        assert b.Contains(a.ip) by {
          forall i | 0 <= i < 4 ensures Masked(b.ip[i], b.prefix, i) == Masked(a.ip[i], b.prefix, i) {
            assert Masked(b.ip[i], b.prefix, i) == Masked(x[i], b.prefix, i);
            assert Masked(a.ip[i], b.prefix, i) == Masked(x[i], b.prefix, i);
          }
        }
      }
    }
  }
}
