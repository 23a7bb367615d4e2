/** nextIP and networkOrBroadcast of internal/network/store.go: byte loops without
    carry, and the addresses they stand for. */
module NextIp {
  import opened Options
  import opened Bytes
  import opened Ipv4

  /** Byte-wise addition of index, last byte first, each byte wrapping on its own. */
  function AddBytes(base: seq<Byte>, index: nat): (r: seq<Byte>)
    ensures |r| == |base|
    decreases |base|
  {
    if base == [] then []
    else AddBytes(base[..|base| - 1], index / 256) + [(base[|base| - 1] + index % 256) % 256]
  }

  method Next(net: Subnet, index: nat) returns (r: Option<Ip>)
    ensures r == if net.Contains(AddBytes(net.ip, index)) then Some(AddBytes(net.ip, index)) else None
  {
    hide AddBytes;
    var ip := new Byte[4](i requires 0 <= i < 4 => net.ip[i]);
    var rest := index;
    var i := 4;
    assert net.ip[..4] == net.ip && ip[4..] == [];
    while i > 0
      invariant 0 <= i <= 4 && rest >= 0
      invariant ip[..i] == net.ip[..i]
      invariant AddBytes(net.ip, index) == AddBytes(net.ip[..i], rest) + ip[i..]
    {
      i := i - 1;
      assert ip[i] == ip[..i + 1][i] == net.ip[i];
      ghost var done := ip[i + 1..];
      AddOne(net.ip, i, rest, done);
      ip[i] := (ip[i] + rest % 256) % 256;
      assert ip[..i] == net.ip[..i] && ip[i..] == [ip[i]] + done;
      rest := rest / 256;
    }
    assert net.ip[..0] == [] && ip[..] == [] + ip[0..];
    r := if net.Contains(ip[..]) then Some(ip[..]) else None;
  }

  lemma AddOne(base: seq<Byte>, i: nat, rest: nat, done: seq<Byte>)
    requires i < |base|
    ensures AddBytes(base[..i + 1], rest) + done
         == AddBytes(base[..i], rest / 256) + ([(base[i] + rest % 256) % 256] + done)
  {
    hide AddBytes;
    AddPrefix(base[..i + 1], rest);
    assert base[..i + 1][..i] == base[..i];
    var low := [(base[i] + rest % 256) % 256];
    assert AddBytes(base[..i], rest / 256) + low + done == AddBytes(base[..i], rest / 256) + (low + done);
  }

  lemma AddPrefix(base: seq<Byte>, index: nat)
    requires |base| > 0
    ensures var n := |base| - 1;
      && AddBytes(base, index) == AddBytes(base[..n], index / 256) + [(base[n] + index % 256) % 256]
      && AddBytes(base, index)[..n] == AddBytes(base[..n], index / 256)
      && AddBytes(base, index)[n] == (base[n] + index % 256) % 256
  {
  }

  /** The sum without carry is exact when it stays under the prefix, and leaves it otherwise. */
  ghost predicate Exact(base: seq<Byte>, p: nat, index: nat)
    requires p <= 8 * |base|
  {
    && (Agree(base, AddBytes(base, index), p) <==> index < Pow2(8 * |base| - p))
    && (index < Pow2(8 * |base| - p) ==> Num(AddBytes(base, index)) == Num(base) + index)
  }

  lemma {:induction false} AddExact(base: seq<Byte>, p: nat, index: nat)
    requires p <= 8 * |base| && Aligned(base, p) && index < Pow2(8 * |base|)
    ensures Exact(base, p, index)
    decreases |base|
  {
    if |base| == 0 {
    } else {
      var n := |base| - 1;
      AlignedPrefix(base, p);
      BlockOfBytes(8 * n);
      if p <= 8 * n {
        AddExact(base[..n], p, index / 256);
        HostByte(base, p, index);
      } else {
        AddExact(base[..n], 8 * n, index / 256);
        SplitByte(base, p, index);
      }
    }
  }

  /** The last byte lies wholly in the host part. */
  lemma HostByte(base: seq<Byte>, p: nat, index: nat)
    requires |base| > 0 && Aligned(base, p) && p <= 8 * (|base| - 1)
    requires Exact(base[..|base| - 1], p, index / 256)
    ensures Exact(base, p, index)
  {
    var n := |base| - 1;
    hide Agree, Aligned, Num, AddBytes, Pow2;
    HostAgree(base, p, index);
    HostSum(base, p, index);
    BlockOfBytes(8 * n - p);
  }

  lemma HostAgree(base: seq<Byte>, p: nat, index: nat)
    requires |base| > 0 && p <= 8 * (|base| - 1)
    ensures var n := |base| - 1;
      Agree(base, AddBytes(base, index), p) <==> Agree(base[..n], AddBytes(base[..n], index / 256), p)
  {
    var n, r := |base| - 1, AddBytes(base, index);
    hide Agree, AddBytes, Masked;
    AddPrefix(base, index);
    HostMasked(base[n], p, n);
    HostMasked(r[n], p, n);
    AgreeSplit(base, r, p);
  }

  lemma HostSum(base: seq<Byte>, p: nat, index: nat)
    requires |base| > 0 && Aligned(base, p) && p <= 8 * (|base| - 1)
    ensures var n := |base| - 1;
      && Num(base) == Num(base[..n]) * 256
      && Num(AddBytes(base, index)) == Num(AddBytes(base[..n], index / 256)) * 256 + index % 256
  {
    var n := |base| - 1;
    hide Masked, AddBytes, Num;
    assert Masked(base[n], p, n) == base[n];
    HostMasked(base[n], p, n);
    AddPrefix(base, index);
    NumSplit(base);
    NumSplit(AddBytes(base, index));
  }

  /** The prefix ends in the last byte. */
  lemma SplitByte(base: seq<Byte>, p: nat, index: nat)
    requires |base| > 0 && Aligned(base, p) && 8 * (|base| - 1) < p <= 8 * |base|
    requires Exact(base[..|base| - 1], 8 * (|base| - 1), index / 256)
    ensures Exact(base, p, index)
  {
    var n := |base| - 1;
    var r := AddBytes(base, index);
    hide Agree, Masked, Num, AddBytes, Pow2;
    assert Masked(base[n], p, n) == base[n];
    AddPrefix(base, index);
    AddMasked(base[n], index % 256, p, n);
    assert Agree(base, r, p) <==> Agree(base[..n], r[..n], 8 * n) && index % 256 < Pow2(8 * |base| - p) by {
      AgreeSplit(base, r, p);
      AgreeClamp(base[..n], r[..n], p, 8 * n);
    }
    NumSplit(base);
    NumSplit(r);
  }

  lemma AddMasked(b: Byte, d: Byte, p: nat, i: nat)
    requires 8 * i < p <= 8 * i + 8 && Masked(b, p, i) == b
    ensures Masked(b, p, i) == Masked((b + d) % 256, p, i) <==> d < Pow2(8 * i + 8 - p)
    ensures d < Pow2(8 * i + 8 - p) ==> (b + d) % 256 == b + d
    ensures Pow2(8 * i + 8 - p) <= 256 && Pow2(0) == 1
  {
    hide Masked, Unit, Pow2;
    ByteSizes();
    UnitCases(p, i);
    MaskedIs(b, p, i);
    SameMasked(b, (b + d) % 256, p, i);
    AddInUnit(b, d, Unit(p, i));
  }

  lemma AddInUnit(b: Byte, d: Byte, s: nat)
    requires s in {1, 2, 4, 8, 16, 32, 64, 128, 256} && b % s == 0
    ensures ((b + d) % 256) / s == b / s <==> d < s
    ensures d < s ==> (b + d) % 256 == b + d
  {
    if s == 1 {} else if s == 2 {} else if s == 4 {} else if s == 8 {} else if s == 16 {}
    else if s == 32 {} else if s == 64 {} else if s == 128 {} else {}
  }

  lemma AlignedPrefix(base: seq<Byte>, p: nat)
    requires |base| > 0 && Aligned(base, p)
    ensures var n := |base| - 1; Aligned(base[..n], if p <= 8 * n then p else 8 * n)
  {
    var n := |base| - 1;
    forall i | 0 <= i < n ensures p > 8 * n ==> Masked(base[i], p, i) == Masked(base[i], 8 * n, i) {
      assert p > 8 * n ==> Ones(p, i) == Ones(8 * n, i);
    }
  }

  /** For an aligned prefix, the carry-free sum is base + index exactly when index is below
      the subnet's size, and otherwise it falls outside the subnet. */
  lemma NextIsExact(net: Subnet, index: nat)
    requires net.Valid() && index < Pow2(32)
    ensures net.Contains(AddBytes(net.ip, index)) <==> index < net.Size()
    ensures index < net.Size() ==> Num(AddBytes(net.ip, index)) == Num(net.ip) + index
  {
    hide Agree, Aligned, Num, AddBytes, Pow2;
    AddExact(net.ip, net.prefix, index);
  }

  lemma NextIsInjective(net: Subnet, i: nat, j: nat)
    requires net.Valid() && i < Pow2(32) && j < Pow2(32)
    requires net.Contains(AddBytes(net.ip, i)) && AddBytes(net.ip, i) == AddBytes(net.ip, j)
    ensures i == j
  {
    NextIsExact(net, i);
    NextIsExact(net, j);
  }

  /** The address at an offset is the one numbered base + offset. */
  lemma OffsetOf(net: Subnet, x: Ip)
    requires net.Valid() && net.Contains(x)
    ensures Num(net.ip) <= Num(x) && Num(x) - Num(net.ip) < net.Size()
    ensures AddBytes(net.ip, Num(x) - Num(net.ip)) == x
  {
    ContainsIsRange(net, x);
    var index := Num(x) - Num(net.ip);
    NumBound(x);
    NextIsExact(net, index);
    NumInjective(AddBytes(net.ip, index), x);
  }

  // ----- Indexes past 2^32 wrap

  lemma {:induction false} AddWraps(base: seq<Byte>, index: nat)
    ensures AddBytes(base, index) == AddBytes(base, index % Pow2(8 * |base|))
    decreases |base|
  {
    if |base| == 0 {
    } else {
      var n := |base| - 1;
      BlockOfBytes(8 * n);
      ModBlock(index, Pow2(8 * n));
      AddWraps(base[..n], index / 256);
    }
  }

  lemma ModBlock(a: nat, m: nat)
    requires m > 0
    ensures m * 256 > 0
    ensures (a % (m * 256)) / 256 == (a / 256) % m && (a % (m * 256)) % 256 == a % 256
  {
    var q, r := (a / 256) / m, (a / 256) % m;
    assert a == (m * 256) * q + (r * 256 + a % 256) by { assert a / 256 == m * q + r; }
    ModIs(a, m * 256, q, r * 256 + a % 256);
  }

  // ----- Network and broadcast address

  /** base | ^mask, byte i */
  function BroadcastByte(b: Byte, p: nat, i: nat): Byte {
    ByteSizes();
    OrBound(b, 255 - MaskByte(p, i), 8);
    Or(b, 255 - MaskByte(p, i))
  }

  method NetworkOrBroadcast(net: Subnet, ip: Ip) returns (r: bool)
    requires net.Valid()
    ensures r <==> Num(ip) == Num(net.ip) || Num(ip) == Num(net.ip) + net.Size() - 1
  {
    hide Num, BroadcastByte;
    if ip == net.ip { return true; }
    var bcast: seq<Byte> := [];
    for i := 0 to 4
      invariant |bcast| == i
      invariant forall k | 0 <= k < i :: bcast[k] == BroadcastByte(net.ip[k], net.prefix, k)
    {
      bcast := bcast + [BroadcastByte(net.ip[i], net.prefix, i)];
    }
    BroadcastIsLast(net.ip, net.prefix, bcast);
    r := ip == bcast;
    if Num(ip) == Num(net.ip) { NumInjective(ip, net.ip); }
    if Num(ip) == Num(bcast) { NumInjective(ip, bcast); }
  }

  /** The directed broadcast address of section 3.2.1.3 of RFC 1122: the last of the block. */
  lemma {:induction false} BroadcastIsLast(base: seq<Byte>, p: nat, bcast: seq<Byte>)
    requires p <= 8 * |base| && Aligned(base, p) && |bcast| == |base|
    requires forall k | 0 <= k < |base| :: bcast[k] == BroadcastByte(base[k], p, k)
    ensures Num(bcast) == Num(base) + Pow2(8 * |base| - p) - 1
    decreases |base|
  {
    hide BroadcastByte, Masked;
    if |base| == 0 {
    } else {
      var n := |base| - 1;
      BroadcastByteIs(base[n], p, n);
      assert p <= 8 * n ==> Unit(p, n) == 256 by { UnitCases(p, n); }
      AlignedPrefix(base, p);
      assert Num(bcast) == Num(bcast[..n]) * 256 + bcast[n];
      assert Num(base) == Num(base[..n]) * 256 + base[n];
      assert p > 8 * n ==> Pow2(8 * |base| - p) == Unit(p, n) && Pow2(0) == 1;
      hide Aligned, Num, Pow2, Unit;
      if p <= 8 * n {
        BroadcastIsLast(base[..n], p, bcast[..n]);
        BlockOfBytes(8 * n - p);
      } else {
        SameBroadcast(base, p, bcast);
        BroadcastIsLast(base[..n], 8 * n, bcast[..n]);
      }
    }
  }

  lemma SameBroadcast(base: seq<Byte>, p: nat, bcast: seq<Byte>)
    requires |bcast| == |base| > 0 && p >= 8 * (|base| - 1)
    requires forall k | 0 <= k < |base| :: bcast[k] == BroadcastByte(base[k], p, k)
    ensures forall k | 0 <= k < |base| - 1 :: bcast[k] == BroadcastByte(base[k], 8 * (|base| - 1), k)
  {
    assert forall k | 0 <= k < |base| - 1 :: Ones(p, k) == Ones(8 * (|base| - 1), k);
  }

  lemma BroadcastByteIs(b: Byte, p: nat, i: nat)
    requires Masked(b, p, i) == b
    ensures BroadcastByte(b, p, i) == b + Unit(p, i) - 1
  {
    MaskedIs(b, p, i);
    UnitCases(p, i);
    OrLowOnes(b, 8 - Ones(p, i));
  }
}
