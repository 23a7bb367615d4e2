/** The network store of internal/network/store.go: networks by name, each with its
    subnet, bridge and address pool. Every method keeps Valid(): subnets pairwise
    disjoint, bridge names distinct and short. */
module NetworkStore {
  import opened Options
  import opened Bytes
  import opened StringSeqs
  import opened Ipv4
  import opened NextIp
  import opened AddressText
  import opened AddressPool
  import GuestPaths

  const MAX_RESOURCE_NAME := 64
  const BRIDGE_PREFIX := "jerboa-br-"
  const MAX_IFACE_NAME := 15
  const DEFAULT_BASE: Ip := [10, 100, 0, 0]
  const CANDIDATE_PREFIX := 24

  // ----- Names

  predicate AlphaNumeric(c: char) {
    'a' <= c <= 'z' || 'A' <= c <= 'Z' || '0' <= c <= '9'
  }

  function Upper(c: char): char {
    if 'a' <= c <= 'z' then (c as int - 32) as char else c
  }

  function UpToDot(s: string): string {
    if s == "" || s[0] == '.' then "" else [Upper(s[0])] + UpToDot(s[1..])
  }

  predicate Reserved(base: string) {
    || base in {"CON", "PRN", "AUX", "NUL"}
    || (|base| == 4 && base[..3] in {"COM", "LPT"} && '1' <= base[3] <= '9')
  }

  /** naming.ValidateResourceName */
  predicate ValidName(name: string) {
    && 1 <= |name| <= MAX_RESOURCE_NAME
    && (forall i | 0 <= i < |name| - 1 :: !(name[i] == '.' && name[i + 1] == '.'))
    && AlphaNumeric(name[0])
    && (forall i | 0 <= i < |name| :: AlphaNumeric(name[i]) || name[i] in "_.-")
    && name[|name| - 1] != '.'
    && !Reserved(UpToDot(name))
  }

  /** A valid name is one path component, so the directory of a network lies directly in that of the
      store, whatever that is, and no two names share one. */
  lemma NameIsComponent(root: string, name: string)
    requires ValidName(name)
    ensures GuestPaths.SplitAbs(root + "/" + name) == GuestPaths.SplitAbs(root) + [name]
  {
    hide GuestPaths.SplitAbs;
    assert name[0] != '.' && '/' !in name;
    GuestPaths.SplitAbsStep(root, name);
  }

  /** deriveBridgeName, with the hex digest of the name taken from outside. */
  function BridgeName(name: string, hexDigest: string): (b: string)
    requires |hexDigest| == 64
    ensures |b| <= 15 && "jerboa-br-" <= b
    ensures if |name| <= 5 then b[10..] == name else b[10..] == hexDigest[..5]
  {
    var candidate := BRIDGE_PREFIX + name;
    if |candidate| <= MAX_IFACE_NAME then candidate
    else BRIDGE_PREFIX + hexDigest[..MAX_IFACE_NAME - |BRIDGE_PREFIX|]
  }

  // ----- Subnets

  /** The subnet argument of Create, after net.ParseCIDR. */
  datatype SubnetArg = Auto | Cidr(ip: Ip, prefix: nat) | BadCidr

  function MaskedByte(b: Byte, prefix: nat, i: nat): Byte {
    MaskedIs(b, prefix, i);
    Masked(b, prefix, i)
  }

  function MaskIp(ip: Ip, prefix: nat): Ip {
    [MaskedByte(ip[0], prefix, 0), MaskedByte(ip[1], prefix, 1),
     MaskedByte(ip[2], prefix, 2), MaskedByte(ip[3], prefix, 3)]
  }

  lemma MaskIsValid(ip: Ip, prefix: nat)
    requires prefix <= 32
    ensures Subnet(MaskIp(ip, prefix), prefix).Valid()
    ensures Subnet(MaskIp(ip, prefix), prefix).Contains(ip)
  {
    hide Masked;
    forall i | 0 <= i < 4 ensures Masked(MaskIp(ip, prefix)[i], prefix, i) == Masked(ip[i], prefix, i) {
      MaskedIs(ip[i], prefix, i);
      MaskedIs(MaskIp(ip, prefix)[i], prefix, i);
      UnitCases(prefix, i);
      RoundTwice(ip[i], Unit(prefix, i));
    }
  }

  lemma RoundTwice(b: nat, s: nat)
    requires s > 0
    ensures (b - b % s) % s == 0
  {
    assert b - b % s == s * (b / s) + 0;
    ModIs(b - b % s, s, b / s, 0);
  }

  function Candidate(i: Byte): Subnet {
    Subnet(DEFAULT_BASE[2 := i][3 := 0], CANDIDATE_PREFIX)
  }

  lemma CandidateIsValid(i: Byte)
    ensures Candidate(i).Valid()
  {
    forall k | 0 <= k < 4 ensures Masked(Candidate(i).ip[k], 24, k) == Candidate(i).ip[k] {
      MaskedIs(Candidate(i).ip[k], 24, k);
      UnitCases(24, k);
    }
  }

  /** No address belongs to both. */
  ghost predicate Disjoint(a: Subnet, b: Subnet) {
    forall x: Ip :: !(a.Contains(x) && b.Contains(x))
  }

  datatype Network = Network(bridge: string, driver: string, pool: Pool)

  /** Some existing network shares an address with net. */
  ghost predicate Blocked(net: Subnet, networks: map<string, Network>) {
    exists n | n in networks :: Overlap(net, networks[n].pool.net)
  }

  ghost predicate Apart(net: Subnet, networks: map<string, Network>) {
    forall n | n in networks :: Disjoint(net, networks[n].pool.net)
  }

  lemma BlockedOrApart(net: Subnet, networks: map<string, Network>)
    ensures Apart(net, networks) <==> !Blocked(net, networks)
  {
    hide Overlap, Subnet.Contains;
    forall n | n in networks ensures Disjoint(net, networks[n].pool.net) <==> !Overlap(net, networks[n].pool.net) {
      OverlapIsSharing(net, networks[n].pool.net);
    }
  }

  /** overlappingSubnet, over the networks in some directory order. */
  method OverlappingSubnet(candidate: Subnet, networks: map<string, Network>) returns (conflict: Option<string>)
    ensures conflict.Some? ==>
      conflict.value in networks && Overlap(candidate, networks[conflict.value].pool.net)
    ensures conflict.None? <==> !Blocked(candidate, networks)
  {
    hide Overlap;
    var todo := networks.Keys;
    while todo != {}
      invariant todo <= networks.Keys
      invariant forall n | n in networks.Keys - todo :: !Overlap(candidate, networks[n].pool.net)
    {
      var n :| n in todo;
      if Overlap(candidate, networks[n].pool.net) { return Some(n); }
      todo := todo - {n};
    }
    conflict := None;
  }

  /** The first /24 of 10.100.0.0/16 that shares no address with a network. */
  ghost predicate FirstCandidate(net: Subnet, networks: map<string, Network>) {
    && !Blocked(net, networks)
    && exists i: Byte :: net == Subnet([10, 100, i, 0], 24) && AllBlocked(i, networks)
  }

  ghost predicate AllBlocked(n: nat, networks: map<string, Network>) {
    forall j: Byte | j < n :: Blocked(Subnet([10, 100, j, 0], 24), networks)
  }

  /** allocateSubnet */
  method AllocateSubnet(networks: map<string, Network>) returns (r: Option<Subnet>)
    ensures r.Some? ==> r.value.Valid() && FirstCandidate(r.value, networks)
    ensures r.None? ==> AllBlocked(256, networks)
  {
    hide Overlap, Subnet.Valid;
    for i := 0 to 256
      invariant AllBlocked(i, networks)
    {
      var candidate := Candidate(i);
      CandidateIsValid(i);
      assert candidate == Subnet([10, 100, i, 0], 24);
      var conflict := OverlappingSubnet(candidate, networks);
      if conflict.None? { return Some(candidate); }
    }
    r := None;
  }

  // ----- The store

  /** The subnet argument cannot be met. */
  ghost predicate NoSubnetFor(arg: SubnetArg, networks: map<string, Network>) {
    match arg
    case Auto => AllBlocked(256, networks)
    case BadCidr => true
    case Cidr(ip, p) => Blocked(Subnet(MaskIp(ip, p), p), networks)
  }

  ghost predicate Addable(name: string, networks: map<string, Network>) { ValidName(name) && name !in networks }

  ghost predicate BridgeInUse(bridge: string, networks: map<string, Network>) {
    exists n | n in networks :: networks[n].bridge == bridge
  }

  datatype CreateError =
    | InvalidName | Exists | NoFreeSubnet | InvalidSubnet | Overlaps(name: string) | BridgeTaken(name: string)

  /** What every run of the store keeps. */
  ghost predicate Good(networks: map<string, Network>, hexDigest: string -> string)
    requires forall n :: |hexDigest(n)| == 64
  {
    && (forall n | n in networks :: GoodNetwork(n, networks[n], hexDigest(n)))
    && (forall m, n | m in networks && n in networks && m != n :: Separate(networks[m], networks[n]))
  }

  ghost predicate GoodNetwork(name: string, n: Network, hex: string)
    requires |hex| == 64
  {
    ValidName(name) && n.bridge == BridgeName(name, hex) && Sound(n.pool)
  }

  ghost predicate Separate(m: Network, n: Network) {
    Disjoint(m.pool.net, n.pool.net) && m.bridge != n.bridge
  }

  /** Changing a network's address state alone keeps the store good. */
  lemma PoolChangeIsGood(networks: map<string, Network>, hexDigest: string -> string, name: string, p: Pool)
    requires forall n :: |hexDigest(n)| == 64
    requires Good(networks, hexDigest) && name in networks
    requires p.net == networks[name].pool.net && Sound(p)
    ensures Good(networks[name := networks[name].(pool := p)], hexDigest)
  {
    hide Disjoint, ValidName, BridgeName, Sound;
  }

  lemma AdditionIsGood(networks: map<string, Network>, hexDigest: string -> string, name: string, n: Network)
    requires forall n :: |hexDigest(n)| == 64
    requires Good(networks, hexDigest) && name !in networks
    requires GoodNetwork(name, n, hexDigest(name)) && Apart(n.pool.net, networks)
    requires forall m | m in networks :: networks[m].bridge != n.bridge
    ensures Good(networks[name := n], hexDigest)
  {
    hide Subnet.Contains, GoodNetwork;
    forall m | m in networks ensures Separate(networks[m], n) && Separate(n, networks[m]) {
      assert Disjoint(n.pool.net, networks[m].pool.net);
    }
  }

  class Store {
    var networks: map<string, Network>
    const hexDigest: string -> string

    ghost predicate Valid()
      reads this
    {
      (forall n :: |hexDigest(n)| == 64) && Good(networks, hexDigest)
    }

    constructor (hexDigest: string -> string)
      requires forall n :: |hexDigest(n)| == 64
      ensures Valid() && networks == map[] && this.hexDigest == hexDigest
    {
      networks := map[];
      this.hexDigest := hexDigest;
    }

    /** ensureBridgeAvailableLocked */
    method BridgeHolder(name: string, bridge: string) returns (r: Option<string>)
      ensures r.Some? ==> r.value in networks && r.value != name && networks[r.value].bridge == bridge
      ensures r.None? ==> forall n | n in networks && n != name :: networks[n].bridge != bridge
    {
      var todo := networks.Keys;
      while todo != {}
        invariant todo <= networks.Keys
        invariant forall n | n in networks.Keys - todo && n != name :: networks[n].bridge != bridge
      {
        var n :| n in todo;
        if n != name && networks[n].bridge == bridge { return Some(n); }
        todo := todo - {n};
      }
      r := None;
    }

    method ChooseSubnet(arg: SubnetArg) returns (r: Result<Subnet, CreateError>)
      requires arg.Cidr? ==> arg.prefix <= 32
      ensures r.Ok? ==> r.value.Valid() && Apart(r.value, networks)
      ensures r.Ok? && arg.Cidr? ==> r.value == Subnet(MaskIp(arg.ip, arg.prefix), arg.prefix)
      ensures r.Ok? && arg.Auto? ==> FirstCandidate(r.value, networks)
      ensures r.Err? <==> NoSubnetFor(arg, networks)
      ensures r.Err? ==> if arg.Auto? then r.error == NoFreeSubnet
                         else if arg.BadCidr? then r.error == InvalidSubnet else r.error.Overlaps?
    {
      hide Apart, Blocked, Subnet.Valid, MaskIp;
      match arg
      case Auto =>
        var s := AllocateSubnet(networks);
        if s.None? { return Err(NoFreeSubnet); }
        BlockedOrApart(s.value, networks);
        r := Ok(s.value);
      case BadCidr =>
        r := Err(InvalidSubnet);
      case Cidr(ip, p) =>
        var net := Subnet(MaskIp(ip, p), p);
        MaskIsValid(ip, p);
        BlockedOrApart(net, networks);
        var conflict := OverlappingSubnet(net, networks);
        if conflict.Some? { return Err(Overlaps(conflict.value)); }
        r := Ok(net);
    }

    /** Every outcome has its exact condition, in the order of the checks. */
    method Create(name: string, arg: SubnetArg, driver: string) returns (r: Result<Network, CreateError>)
      requires Valid() && (arg.Cidr? ==> arg.prefix <= 32)
      modifies this
      ensures Valid()
      ensures r.Err? ==> networks == old(networks)
      ensures r == Err(InvalidName) <==> !ValidName(name)
      ensures r == Err(Exists) <==> ValidName(name) && name in old(networks)
      ensures r == Err(InvalidSubnet) <==> Addable(name, old(networks)) && arg.BadCidr?
      ensures r == Err(NoFreeSubnet) <==> Addable(name, old(networks)) && arg.Auto? && NoSubnetFor(arg, old(networks))
      ensures r.Err? && r.error.Overlaps? <==>
        Addable(name, old(networks)) && arg.Cidr? && NoSubnetFor(arg, old(networks))
      ensures r.Err? && r.error.BridgeTaken? <==>
        Addable(name, old(networks)) && !NoSubnetFor(arg, old(networks))
        && BridgeInUse(BridgeName(name, hexDigest(name)), old(networks))
      ensures r.Err? && r.error.BridgeTaken? ==>
        r.error.name in networks && networks[r.error.name].bridge == BridgeName(name, hexDigest(name))
      ensures r.Ok? ==> networks == old(networks)[name := r.value] && r.value.pool == Fresh(r.value.pool.net)
      ensures r.Ok? ==> r.value.driver == if driver == "" then "bridge" else driver
      ensures r.Ok? && arg.Cidr? ==> r.value.pool.net == Subnet(MaskIp(arg.ip, arg.prefix), arg.prefix)
      ensures r.Ok? && arg.Auto? ==> FirstCandidate(r.value.pool.net, old(networks))
      ensures r.Ok? ==> r.value.bridge == BridgeName(name, hexDigest(name))
    {
      hide Blocked, Disjoint, MaskIp, ValidName, BridgeName, Subnet.Valid, Sound;
      if !ValidName(name) { return Err(InvalidName); }
      if name in networks { return Err(Exists); }
      var chosen := ChooseSubnet(arg);
      if chosen.Err? { return Err(chosen.error); }
      var net := chosen.value;
      var bridge := BridgeName(name, hexDigest(name));
      var holder := BridgeHolder(name, bridge);
      if holder.Some? { return Err(BridgeTaken(holder.value)); }
      var n := Network(bridge, if driver == "" then "bridge" else driver, Fresh(net));
      FreshIsSound(net);
      AdditionIsGood(networks, hexDigest, name, n);
      networks := networks[name := n];
      r := Ok(n);
    }

    method Remove(name: string) returns (found: bool)
      requires Valid()
      modifies this
      ensures Valid()
      ensures found == (name in old(networks)) && networks == old(networks) - {name}
    {
      hide Disjoint, ValidName, BridgeName, Sound;
      found := name in networks;
      networks := networks - {name};
    }

    ghost function WithPool(name: string, p: Pool): map<string, Network>
      requires name in networks
      reads this
    {
      networks[name := networks[name].(pool := p)]
    }

    method ReserveIP(name: string, text: string) returns (r: Result<(), Option<ReserveError>>)
      requires Valid()
      modifies this
      ensures Valid()
      ensures name !in old(networks) ==> r == Err(None) && networks == old(networks)
      ensures name in old(networks) ==>
        var p := old(networks[name].pool);
        && r == (if ReserveFailure(p, text).None? then Ok(()) else Err(ReserveFailure(p, text)))
        && networks == old(WithPool(name, Apply(p, Reserve(text))))
    {
      hide Subnet.Contains, IsNetworkOrBroadcast, ValidName, BridgeName, Disjoint, Aligned, Print, Parse;
      hide Distinct, AllPrinted, LastIsLast;
      if name !in networks { return Err(None); }
      var pool := networks[name].pool;
      var failure := Failure(pool, text);
      if failure.Some? { return Err(failure); }
      var want := Print(Parse(text).value);
      StepKeepsSound(pool, Reserve(text));
      PoolChangeIsGood(networks, hexDigest, name, pool.(held := pool.held + [want]));
      hide Good;
      networks := networks[name := networks[name].(pool := pool.(held := pool.held + [want]))];
      r := Ok(());
    }

    /** The checks of ReserveIP, in order. */
    static method Failure(pool: Pool, text: string) returns (r: Option<ReserveError>)
      requires pool.net.Valid()
      ensures r == ReserveFailure(pool, text)
    {
      hide Subnet.Contains, Num, Print, Parse;
      var parsed := Parse(text);
      if parsed.None? { return Some(BadAddress); }
      if !pool.net.Contains(parsed.value) { return Some(OutsideSubnet); }
      var unusable := NetworkOrBroadcast(pool.net, parsed.value);
      if unusable { return Some(NotAHostAddress); }
      var want := Print(parsed.value);
      for i := 0 to |pool.held|
        invariant want !in pool.held[..i]
      {
        if pool.held[i] == want { return Some(AlreadyAllocated); }
      }
      assert pool.held == pool.held[..|pool.held|];
      r := None;
    }

    method AllocateIP(name: string) returns (r: Option<Ip>)
      requires Valid() && (name in networks ==> Searchable(networks[name].pool))
      modifies this
      ensures Valid()
      ensures name !in old(networks) ==> r.None? && networks == old(networks)
      ensures name in old(networks) ==>
        var p := old(networks[name].pool);
        exists k: nat ::
          && Enabled(p, if r.Some? then Allocate(k) else AllocateFails(k))
          && (r.Some? ==> r.value == Addr(p.net, k) && networks == old(WithPool(name, Allocated(p, k))))
          && (r.None? ==> networks == old(networks))
      ensures name in old(networks) ==> (r.None? <==> Exhausted(old(networks[name].pool)))
      ensures r.Some? ==> FirstFree(old(networks[name].pool), r.value)
    {
      hide Subnet.Contains, AddBytes, Searchable, Aligned, Print, Distinct, AllPrinted, LastIsLast;
      if name !in networks { return None; }
      var pool := networks[name].pool;
      hide Good;
      var k, ip := Search(pool);
      AllocationSays(pool, k);
      if ip.None? {
        assert Enabled(pool, AllocateFails(k));
        return None;
      }
      assert Enabled(pool, Allocate(k));
      StepKeepsSound(pool, Allocate(k));
      PoolChangeIsGood(networks, hexDigest, name, Allocated(pool, k));
      pool := pool.(held := pool.held + [Print(ip.value)], next := k + 1);
      networks := networks[name := networks[name].(pool := pool)];
      r := ip;
    }

    /** The loop of AllocateIP: k is the last index tried. */
    static method Search(pool: Pool) returns (k: nat, ip: Option<Ip>)
      requires pool.net.Valid() && Searchable(pool)
      ensures StopsAt(pool, k)
      ensures ip == if pool.net.Contains(Addr(pool.net, k)) then Some(Addr(pool.net, k)) else None
    {
      hide Subnet.Contains, AddBytes, Print;
      SearchEnds(pool);
      ghost var stop: nat :| pool.next <= stop && !Taken(pool, stop);
      k := pool.next;
      while true
        invariant pool.next <= k <= stop
        invariant forall j: nat | pool.next <= j < k :: Taken(pool, j)
        decreases stop - k
      {
        ip := Next(pool.net, k);
        if ip.None? || Print(ip.value) !in pool.held { return; }
        k := k + 1;
      }
    }

    method ReleaseIP(name: string, text: string) returns (found: bool)
      requires Valid()
      modifies this
      ensures Valid()
      ensures found == (name in old(networks))
      ensures !found ==> networks == old(networks)
      ensures found ==> networks == old(WithPool(name, Released(networks[name].pool, text)))
    {
      hide Disjoint, ValidName, BridgeName, Without, Aligned, Distinct, AllPrinted, LastIsLast;
      if name !in networks { return false; }
      var pool := networks[name].pool;
      StepKeepsSound(pool, Release(text));
      var held := RemoveFirst(pool.held, text);
      PoolChangeIsGood(networks, hexDigest, name, pool.(held := held));
      networks := networks[name := networks[name].(pool := pool.(held := held))];
      found := true;
    }

    static method RemoveFirst(s: seq<string>, x: string) returns (r: seq<string>)
      ensures r == Without(s, x)
    {
      for i := 0 to |s|
        invariant Without(s, x) == s[..i] + Without(s[i..], x)
      {
        assert s[i..][1..] == s[i + 1..];
        if s[i] == x { return s[..i] + s[i + 1..]; }
        assert s[..i] + ([s[i]] + Without(s[i + 1..], x)) == s[..i + 1] + Without(s[i + 1..], x);
      }
      assert s[..|s|] == s && s[|s|..] == [];
      r := s;
    }
  }
}
