/** VM.Run of internal/apiserver/server.go against the network store: the daemon owns
    an address from its reservation until the VM is registered, and rolls it back
    otherwise. */
module RunServer {
  import opened Options
  import opened Decimals
  import opened Ipv4
  import opened AddressText
  import opened AddressPool
  import opened NetworkStore

  /** address is the text VM.Run passed on; owned is what the daemon itself assigned. */
  datatype Vm = Vm(name: string, network: string, address: Option<string>, owned: Option<Ip>)

  datatype RunParams = RunParams(name: string, network: string, ip: Option<string>)

  /** What the image store, the volumes and the VM manager answer during one call. */
  datatype Outcome = Outcome(prepared: bool, created: Option<string>, started: bool, removed: bool)

  datatype RunError = NotPrepared | NoSuchNetwork | NoAddress | NotReserved(why: ReserveError) | NameInUse
    | CreateFailed | StartFailed | CleanupFailed
  {
    predicate OfAddress() { NoSuchNetwork? || NoAddress? || NotReserved? }
  }

  class Server {
    const netStore: Store
    var vms: map<string, Vm>

    constructor (netStore: Store)
      requires netStore.Valid()
      ensures this.netStore == netStore && vms == map[] && Valid()
    {
      this.netStore := netStore;
      vms := map[];
    }

    /** Every address the daemon assigned to a registered VM is allocated in its network,
        and no two VMs of a network share one. */
    ghost predicate Valid()
      reads this, netStore
    {
      netStore.Valid() && Owned(vms, netStore.networks)
    }

    /** createUnique */
    method CreateUnique(cfg: Vm, created: Option<string>) returns (r: Result<string, RunError>)
      requires created.Some? ==> created.value !in vms
      modifies this
      ensures r == (if NameTaken(cfg.name, old(vms)) then Err(NameInUse)
                    else if created.None? then Err(CreateFailed) else Ok(created.value))
      ensures vms == if r.Ok? then old(vms)[r.value := cfg] else old(vms)
    {
      if cfg.name != "" {
        var todo := vms.Keys;
        while todo != {}
          invariant todo <= vms.Keys
          invariant forall v | v in vms.Keys - todo :: vms[v].name != cfg.name
        {
          var v :| v in todo;
          if vms[v].name == cfg.name { return Err(NameInUse); }
          todo := todo - {v};
        }
      }
      if created.None? { return Err(CreateFailed); }
      vms := vms[created.value := cfg];
      r := Ok(created.value);
    }

    /** VM.Remove forgets the VM and keeps its address allocated. */
    method HandleRemove(id: string)
      requires Valid()
      modifies this
      ensures Valid() && vms == old(vms) - {id}
    {
      vms := vms - {id};
    }

    /** Network.Create */
    method HandleNetworkCreate(name: string, arg: SubnetArg, driver: string) returns (r: Result<Network, CreateError>)
      requires Valid() && (arg.Cidr? ==> arg.prefix <= 32)
      modifies netStore
      ensures Valid()
      ensures r.Err? ==> netStore.networks == old(netStore.networks)
      ensures r.Ok? ==> name !in old(netStore.networks) && netStore.networks == old(netStore.networks)[name := r.value]
    {
      hide Good, Blocked, ValidName, BridgeName, MaskIp;
      r := netStore.Create(name, arg, driver);
    }

    /** Network.AllocateIP */
    method HandleAllocateIP(name: string) returns (ip: Option<Ip>)
      requires Valid() && (name in netStore.networks ==> Searchable(netStore.networks[name].pool))
      modifies netStore
      ensures Valid() && (ip.Some? ==> name in old(netStore.networks))
      ensures ip.Some? ==> Grows(old(netStore.networks), netStore.networks, name, Print(ip.value))
      ensures ip.None? ==> netStore.networks == old(netStore.networks)
      ensures name in old(netStore.networks) ==> (ip.None? <==> Exhausted(old(netStore.networks[name].pool)))
      ensures ip.Some? ==> FirstFree(old(netStore.networks[name].pool), ip.value)
    {
      hide Good, Searchable, Exhausted, FirstFree;
      if name !in netStore.networks { return None; }
      ip := Allocate(name);
    }

    /** handleRun. Every outcome has its exact condition, in the order of the checks. A call that
        registers no VM leaves every network's addresses as they were, exactly unless an address
        was reserved under another spelling than the printed one. */
    method HandleRun(p: RunParams, o: Outcome) returns (r: Result<string, RunError>)
      requires Valid() && (o.created.Some? ==> o.created.value !in vms)
      requires p.network in netStore.networks && p.ip.None? ==> Searchable(netStore.networks[p.network].pool)
      modifies this, netStore
      ensures Valid()
      ensures var before := old(netStore.networks);
        && (r == Err(NotPrepared) <==> !o.prepared)
        && (r == Err(NoSuchNetwork) <==> o.prepared && p.network !in before && p.network != "" && p.ip.None?)
        && (p.network !in before ==> r != Err(NoAddress) && forall why :: r != Err(NotReserved(why)))
        && (p.network in before ==>
              var pool := before[p.network].pool;
              && (r == Err(NoAddress) <==>
                    o.prepared && p.ip.None? && pool.net.prefix >= 1 && pool.next >= pool.net.Size())
              && (forall why :: r == Err(NotReserved(why)) <==>
                    o.prepared && p.ip.Some? && ReserveFailure(pool, p.ip.value) == Some(why)))
      ensures var ready := o.prepared && AddressError(p, old(netStore.networks)).None?;
        var taken := p.name != "" && exists v | v in old(vms) :: old(vms)[v].name == p.name;
        var create := ready && !taken;
        && (r == Err(NameInUse) <==> ready && taken)
        && (r == Err(CreateFailed) <==> create && o.created.None?)
        && (r == Err(StartFailed) <==> create && o.created.Some? && !o.started && o.removed)
        && (r == Err(CleanupFailed) <==> create && o.created.Some? && !o.started && !o.removed)
        && (r.Ok? <==> create && o.created.Some? && o.started)
        && (r.Ok? ==> r.value == o.created.value)
      ensures r.Ok? || r == Err(CleanupFailed) <==> vms != old(vms)
      ensures vms != old(vms) ==>
        && o.created.Some? && o.created.value in vms && vms == old(vms)[o.created.value := vms[o.created.value]]
        && Registers(p, old(netStore.networks), vms[o.created.value], netStore.networks)
      ensures vms == old(vms) ==>
        (SameAddresses(old(netStore.networks), netStore.networks) <==> !Leaks(p, o, old(netStore.networks)))
      ensures vms == old(vms) && Leaks(p, o, old(netStore.networks)) ==>
        Grows(old(netStore.networks), netStore.networks, p.network, p.ip.value)
    {
      hide Good, Owned, SameAddresses, ReserveFailure, Searchable, Printed, Parse, Print, FirstFree;
      hide Grows, Registers;
      ghost var before := netStore.networks;
      NothingMoved(before, netStore.hexDigest);
      if !o.prepared { return Err(NotPrepared); }
      var given := Assign(p);
      if given.Err? { return Err(given.error); }
      var (address, mine) := given.value;
      if mine.Some? { PrintedExactly(mine.value); }
      assert mine.Some? && !Printed(mine.value) <==> Leaks(p, o, before);
      r := Register(VmOf(p, address, mine), mine, o, before);
    }

    /** The rest of handleRun: create, start, and roll back. */
    method Register(cfg: Vm, mine: Option<string>, o: Outcome, ghost before: map<string, Network>)
      returns (r: Result<string, RunError>)
      requires netStore.Valid() && Owned(vms, before) && (o.created.Some? ==> o.created.value !in vms)
      requires if mine.None? then netStore.networks == before
               else Grows(before, netStore.networks, cfg.network, mine.value)
      requires cfg.owned == (if mine.Some? then Parse(mine.value) else None)
      requires mine.Some? ==> cfg.address == mine
      modifies this, netStore
      ensures Valid()
      ensures r == if NameTaken(cfg.name, old(vms)) then Err(NameInUse) else if o.created.None? then Err(CreateFailed)
                   else if o.started then Ok(o.created.value)
                   else if o.removed then Err(StartFailed) else Err(CleanupFailed)
      ensures r.Ok? || r == Err(CleanupFailed) <==> vms != old(vms)
      ensures vms != old(vms) ==>
        o.created.Some? && vms == old(vms)[o.created.value := cfg] && netStore.networks == old(netStore.networks)
      ensures vms == old(vms) ==>
        (SameAddresses(before, netStore.networks) <==> mine.None? || Printed(mine.value))
      ensures vms == old(vms) && mine.Some? && !Printed(mine.value) ==> netStore.networks == old(netStore.networks)
    {
      hide Good;
      StillOwned(vms, before, netStore.networks, cfg.network, mine);
      if o.created.Some? { NowOwned(vms, before, netStore.networks, cfg, mine, o.created.value); }
      hide Owned, Grows, SameAddresses;
      var v := CreateUnique(cfg, o.created);
      if v.Err? {
        Undo(cfg.network, mine, before);
        return Err(v.error);
      }
      if !o.started {
        if !o.removed { return Err(CleanupFailed); }
        vms := vms - {v.value};
        assert vms == old(vms);
        Undo(cfg.network, mine, before);
        return Err(StartFailed);
      }
      assert v.value in vms;
      r := v;
    }

    method Undo(name: string, mine: Option<string>, ghost before: map<string, Network>)
      requires Valid() && Owned(vms, before)
      requires if mine.None? then netStore.networks == before else Grows(before, netStore.networks, name, mine.value)
      modifies netStore
      ensures Valid()
      ensures SameAddresses(before, netStore.networks) <==> mine.None? || Printed(mine.value)
      ensures mine.Some? && !Printed(mine.value) ==> netStore.networks == old(netStore.networks)
    {
      hide Good;
      if mine.Some? { Rollback(name, mine.value, before); }
    }

    /** ReleaseIP, right after the reservation of text turned the networks `before` into the
        present ones. */
    method Rollback(name: string, text: string, ghost before: map<string, Network>)
      requires netStore.Valid() && Grows(before, netStore.networks, name, text)
      modifies netStore
      ensures netStore.Valid()
      ensures SameAddresses(before, netStore.networks) <==> Printed(text)
      ensures !Printed(text) ==> netStore.networks == old(netStore.networks)
    {
      assert AllPrinted(netStore.networks[name].pool.held);
      ReleaseUndoes(before, netStore.networks, name, text);
      hide Good, AllPrinted, Printed, SameAddresses, Grows, Released;
      var found := netStore.ReleaseIP(name, text);
    }

    /** The address part of handleRun: the text for the VM, and what the daemon now owns. */
    method Assign(p: RunParams) returns (r: Result<(Option<string>, Option<string>), RunError>)
      requires Valid()
      requires p.network in netStore.networks && p.ip.None? ==> Searchable(netStore.networks[p.network].pool)
      modifies netStore
      ensures netStore.Valid()
      ensures r.Err? || r.value.1.None? ==> netStore.networks == old(netStore.networks)
      ensures r.Ok? <==> AddressError(p, old(netStore.networks)).None?
      ensures r.Err? ==> AddressError(p, old(netStore.networks)) == Some(r.error) && r.error.OfAddress()
      ensures r.Ok? ==> r.value.1 == (if p.network in old(netStore.networks) then r.value.0 else None)
      ensures r.Ok? && p.network in old(netStore.networks) ==> r.value.0.Some?
      ensures r.Ok? && p.ip.Some? ==> r.value.0 == p.ip
      ensures r.Ok? && r.value.1.Some? ==> Parse(r.value.1.value).Some?
      ensures r.Ok? && p.ip.None? && r.value.0.Some? ==> Printed(r.value.0.value)
      ensures r.Ok? ==>
        Registers(p, old(netStore.networks), VmOf(p, r.value.0, r.value.1), netStore.networks)
      ensures r.Ok? && r.value.1.Some? ==> Grows(old(netStore.networks), netStore.networks, p.network, r.value.1.value)
    {
      hide Good, Searchable, Print, Parse, Exhausted, FirstFree, ReserveFailure, Grows, Printed, Owned;
      NothingMoved(netStore.networks, netStore.hexDigest);
      if p.network == "" { return Ok((p.ip, None)); }
      if p.network !in netStore.networks {
        if p.ip.None? { return Err(NoSuchNetwork); }
        return Ok((p.ip, None));
      }
      if p.ip.None? {
        var ip := Allocate(p.network);
        if ip.None? { return Err(NoAddress); }
        PrintIsInjective(ip.value, ip.value);
        PrintReads(ip.value);
        return Ok((Some(Print(ip.value)), Some(Print(ip.value))));
      }
      var why := ReserveText(p.network, p.ip.value);
      if why.Some? { return Err(NotReserved(why.value)); }
      r := Ok((p.ip, p.ip));
    }

    method Allocate(name: string) returns (ip: Option<Ip>)
      requires netStore.Valid() && name in netStore.networks && Searchable(netStore.networks[name].pool)
      modifies netStore
      ensures netStore.Valid()
      ensures ip.None? ==> netStore.networks == old(netStore.networks)
      ensures ip.Some? ==> Grows(old(netStore.networks), netStore.networks, name, Print(ip.value))
      ensures ip.None? <==> Exhausted(old(netStore.networks[name].pool))
      ensures ip.Some? ==> FirstFree(old(netStore.networks[name].pool), ip.value)
    {
      hide Good, Addr, Subnet.Contains, Print, Parse, Exhausted, FirstFree;
      ip := netStore.AllocateIP(name);
      if ip.Some? { PrintReads(ip.value); }
    }

    method ReserveText(name: string, text: string) returns (why: Option<ReserveError>)
      requires netStore.Valid() && name in netStore.networks
      modifies netStore
      ensures netStore.Valid()
      ensures why == ReserveFailure(old(netStore.networks[name].pool), text)
      ensures why.Some? ==> netStore.networks == old(netStore.networks)
      ensures why.None? ==> Parse(text).Some? && Grows(old(netStore.networks), netStore.networks, name, text)
    {
      hide Good, Subnet.Contains, IsNetworkOrBroadcast, Print, Parse;
      var done := netStore.ReserveIP(name, text);
      why := if done.Err? then done.error else None;
    }
  }

  ghost predicate Owned(vms: map<string, Vm>, networks: map<string, Network>) {
    && (forall v | v in vms && vms[v].owned.Some? ::
          && vms[v].network in networks
          && Print(vms[v].owned.value) in networks[vms[v].network].pool.held
          && vms[v].address.Some? && Parse(vms[v].address.value) == vms[v].owned)
    && (forall v, w | v in vms && w in vms && v != w && vms[v].owned.Some? && vms[v].network == vms[w].network ::
          vms[v].owned != vms[w].owned)
  }

  function VmOf(p: RunParams, address: Option<string>, mine: Option<string>): Vm {
    Vm(p.name, p.network, address, if mine.Some? then Parse(mine.value) else None)
  }

  ghost predicate NameTaken(name: string, vms: map<string, Vm>) {
    name != "" && exists v | v in vms :: vms[v].name == name
  }

  /** Why no address can be had: an unknown network and no address given, an address that cannot be
      reserved, or no address left. */
  ghost function AddressError(p: RunParams, networks: map<string, Network>): Option<RunError>
    requires forall n | n in networks :: networks[n].pool.net.prefix <= 32
  {
    if p.network !in networks then if p.network != "" && p.ip.None? then Some(NoSuchNetwork) else None
    else
      var pool := networks[p.network].pool;
      match p.ip
      case None => if Exhausted(pool) then Some(NoAddress) else None
      case Some(text) =>
        match ReserveFailure(pool, text)
        case None => None
        case Some(why) => Some(NotReserved(why))
  }

  /** The VM carries what the call asked for. On a managed network it owns the address it asked for,
      or else the first free one, which the network has gained. */
  ghost predicate Registers(p: RunParams, networks: map<string, Network>, vm: Vm, after: map<string, Network>) {
    && vm.name == p.name && vm.network == p.network
    && if p.network !in networks then vm.owned.None? && vm.address == p.ip && after == networks
       else
         && vm.owned.Some? && vm.address.Some? && Parse(vm.address.value) == vm.owned
         && Grows(networks, after, p.network, vm.address.value)
         && if p.ip.Some? then vm.address == p.ip
            else vm.address == Some(Print(vm.owned.value)) && FirstFree(networks[p.network].pool, vm.owned.value)
  }

  ghost predicate SameAddresses(before: map<string, Network>, after: map<string, Network>) {
    && before.Keys == after.Keys
    && forall n | n in before :: before[n] == after[n].(pool := after[n].pool.(next := before[n].pool.next))
  }

  /** The caller named a free host address of a managed network, in a spelling with a colon. */
  ghost predicate Leaks(p: RunParams, o: Outcome, networks: map<string, Network>) {
    && o.prepared && p.network in networks && p.ip.Some? && ':' in p.ip.value
    && networks[p.network].pool.net.prefix <= 32
    && ReserveFailure(networks[p.network].pool, p.ip.value).None?
  }

  lemma StillOwned(vms: map<string, Vm>, before: map<string, Network>, after: map<string, Network>,
                   name: string, text: Option<string>)
    requires Owned(vms, before)
    requires if text.None? then after == before else Grows(before, after, name, text.value)
    ensures Owned(vms, after)
  {
    hide Print, Parse;
  }

  lemma NowOwned(vms: map<string, Vm>, before: map<string, Network>, after: map<string, Network>,
                 cfg: Vm, text: Option<string>, id: string)
    requires Owned(vms, before) && id !in vms
    requires if text.None? then after == before else Grows(before, after, cfg.network, text.value)
    requires cfg.owned == (if text.Some? then Parse(text.value) else None)
    requires text.Some? ==> cfg.address.Some? && Parse(cfg.address.value) == cfg.owned
    ensures Owned(vms[id := cfg], after)
  {
    hide Print, Parse;
  }

  /** Releasing the text that was reserved undoes the reservation exactly when it is the text
      its address prints as. */
  lemma ReleaseUndoes(before: map<string, Network>, after: map<string, Network>, name: string, text: string)
    requires Grows(before, after, name, text) && AllPrinted(after[name].pool.held)
    ensures var released := after[name := after[name].(pool := Released(after[name].pool, text))];
      && (SameAddresses(before, released) <==> Printed(text))
      && (!Printed(text) ==> released == after)
  {
    hide AllPrinted, Print, Parse;
    var held, grown := before[name].pool.held, after[name].pool.held;
    if Printed(text) {
      LastOut(held, text);
    } else {
      NotPrinted(grown, text);
      WithoutKeeps(grown, text);
      assert |grown| == |held| + 1;
      var released := after[name := after[name].(pool := Released(after[name].pool, text))];
      assert released[name].pool.held != before[name].pool.held;
    }
  }

  lemma NotPrinted(held: seq<string>, text: string)
    requires AllPrinted(held) && !Printed(text)
    ensures text !in held
  {
    hide Printed;
  }

  /** The networks differ only in that name holds one more address, which was free. */
  ghost predicate Grows(before: map<string, Network>, after: map<string, Network>, name: string, text: string) {
    && name in before && name in after && after == before[name := after[name]]
    && Parse(text).Some? && Print(Parse(text).value) !in before[name].pool.held
    && after[name] == before[name].(pool := after[name].pool)
    && after[name].pool == before[name].pool.(held := before[name].pool.held + [Print(Parse(text).value)],
                                              next := after[name].pool.next)
  }

  lemma NothingMoved(networks: map<string, Network>, hexDigest: string -> string)
    requires (forall n :: |hexDigest(n)| == 64) && Good(networks, hexDigest)
    ensures SameAddresses(networks, networks) && "" !in networks
    ensures forall n | n in networks :: networks[n].pool.net.prefix <= 32
  {
  }

  // ----- A call that leaks

  const LAN: Subnet := Subnet([10, 0, 0, 0], 24)
  const GUEST: Ip := [10, 0, 0, 5]

  /** An address of a /24 is reserved in IPv4-mapped spelling, creation fails, and the address
      stays allocated with no VM to hold it. */
  method LeakingRun(hexDigest: string -> string) returns (server: Server, r: Result<string, RunError>)
    requires forall n :: |hexDigest(n)| == 64
    ensures r.Err? && server.vms == map[]
    ensures "lan" in server.netStore.networks
    ensures server.netStore.networks["lan"].pool.held == ["10.0.0.1", "10.0.0.5"]
  {
    LanFacts();
    LeakingText();
    hide Print, Parse, Good, Subnet.Contains, Num, Subnet.Valid, Owned, Registers, SameAddresses, FirstCandidate;
    hide Exhausted;
    var store := new Store(hexDigest);
    var made := store.Create("lan", Cidr(LAN.ip, 24), "");
    server := new Server(store);
    ghost var before := store.networks;
    r := server.HandleRun(RunParams("vm", "lan", Some("::ffff:10.0.0.5")), Outcome(true, None, true, true));
    assert Leaks(RunParams("vm", "lan", Some("::ffff:10.0.0.5")), Outcome(true, None, true, true), before);
  }

  lemma LanFacts()
    ensures ValidName("lan") && MaskIp(LAN.ip, 24) == LAN.ip
  {
    assert "lan"[1..] == "an" && "an"[1..] == "n" && "n"[1..] == "";
    assert UpToDot("n") == "N";
    assert UpToDot("an") == "AN";
    assert UpToDot("lan") == "LAN";
    hide UpToDot;
    forall i | 0 <= i < 4 ensures Masked(LAN.ip[i], 24, i) == LAN.ip[i] {
      hide Masked, Unit;
      MaskedIs(LAN.ip[i], 24, i);
      UnitCases(24, i);
    }
    hide Masked, ValidName;
  }

  lemma LeakingText()
    ensures Print(GatewayOf(LAN.ip)) == "10.0.0.1" && Print(GUEST) == "10.0.0.5"
    ensures Parse("::ffff:10.0.0.5") == Some(GUEST) && !Printed("::ffff:10.0.0.5")
    ensures ReserveFailure(Fresh(LAN), "::ffff:10.0.0.5").None?
  {
    hide Parse, Printed, Print, Agree;
    LeakingPrints();
    MappedReads(GUEST);
    assert "::ffff:" + "10.0.0.5" == "::ffff:10.0.0.5";
    LanContains();
  }

  lemma LeakingPrints()
    ensures Print(GatewayOf(LAN.ip)) == "10.0.0.1" && Print(GUEST) == "10.0.0.5"
  {
    hide Decimal;
    SmallDecimals();
    var tail := "." + ("0" + ("." + "1"));
    assert "0" + tail == "0.0.1" && "10" + ("." + "0.0.1") == "10.0.0.1";
    assert "0" + ("." + ("0" + ("." + "5"))) == "0.0.5" && "10" + ("." + "0.0.5") == "10.0.0.5";
  }

  lemma SmallDecimals()
    ensures Decimal(10) == "10" && Decimal(0) == "0" && Decimal(1) == "1" && Decimal(5) == "5"
  {
    assert Decimal(1) == "1";
  }

  lemma LanContains()
    ensures LAN.Contains(GUEST) && !IsNetworkOrBroadcast(LAN, GUEST)
  {
    forall i | 0 <= i < 4 ensures Masked(LAN.ip[i], 24, i) == Masked(GUEST[i], 24, i) {
      if i == 3 {
        HostMasked(LAN.ip[i], 24, i);
        HostMasked(GUEST[i], 24, i);
      }
    }
    hide Masked, Agree;
    ByteSizes();
    assert LAN.ip[..3] == GUEST[..3];
  }
}
