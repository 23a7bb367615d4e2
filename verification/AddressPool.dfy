/** The address state of one network (internal/network/store.go): a list of allocated
    addresses, kept as texts, and a next index that only grows. Steps, and laws of every run
    of them. */
module AddressPool {
  import opened Options
  import opened StringSeqs
  import opened Ipv4
  import opened NextIp
  import opened AddressText

  const FIRST_INDEX := 2

  datatype Pool = Pool(net: Subnet, gateway: Ip, held: seq<string>, next: nat)

  datatype ReserveError = BadAddress | OutsideSubnet | NotAHostAddress | AlreadyAllocated

  /** The address at an index, as nextIP computes it before its range check. */
  function Addr(net: Subnet, k: nat): Ip { AddBytes(net.ip, k) }

  predicate Taken(p: Pool, k: nat) {
    p.net.Contains(Addr(p.net, k)) && Print(Addr(p.net, k)) in p.held
  }

  /** k is where the search from the next index stops. */
  ghost predicate StopsAt(p: Pool, k: nat) {
    p.next <= k && !Taken(p, k) && forall j: nat | p.next <= j < k :: Taken(p, j)
  }

  function Allocated(p: Pool, k: nat): Pool {
    p.(held := p.held + [Print(Addr(p.net, k))], next := k + 1)
  }

  predicate IsNetworkOrBroadcast(net: Subnet, ip: Ip)
    requires net.prefix <= 32
  {
    Num(ip) == Num(net.ip) || Num(ip) == Num(net.ip) + net.Size() - 1
  }

  function ReserveFailure(p: Pool, text: string): Option<ReserveError>
    requires p.net.prefix <= 32
  {
    match Parse(text)
    case None => Some(BadAddress)
    case Some(ip) =>
      if !p.net.Contains(ip) then Some(OutsideSubnet)
      else if IsNetworkOrBroadcast(p.net, ip) then Some(NotAHostAddress)
      else if Print(ip) in p.held then Some(AlreadyAllocated)
      else None
  }

  /** ReserveIP parses the text and stores what the address prints as. */
  function Reserved(p: Pool, text: string): Pool
    requires Parse(text).Some?
  {
    p.(held := p.held + [Print(Parse(text).value)])
  }

  function Without(s: seq<string>, x: string): seq<string> {
    if s == [] then [] else if s[0] == x then s[1..] else [s[0]] + Without(s[1..], x)
  }

  /** ReleaseIP compares texts and does not parse. */
  function Released(p: Pool, text: string): Pool { p.(held := Without(p.held, text)) }

  /** A new pool, as Create writes it: the gateway is the base with last byte 1. */
  function GatewayOf(base: Ip): Ip { base[3 := 1] }

  function Fresh(net: Subnet): Pool {
    Pool(net, GatewayOf(net.ip), [Print(GatewayOf(net.ip))], FIRST_INDEX)
  }

  /** Each answer of ReserveIP has its own condition on the number of the address. */
  lemma ReserveExactly(p: Pool, text: string)
    requires p.net.Valid()
    ensures ReserveFailure(p, text) == Some(BadAddress) <==> Parse(text).None?
    ensures Parse(text).Some? ==>
      var ip := Parse(text).value;
      var first, last := Num(p.net.ip), Num(p.net.ip) + p.net.Size() - 1;
      && (ReserveFailure(p, text) == Some(OutsideSubnet) <==> Num(ip) < first || last < Num(ip))
      && (ReserveFailure(p, text) == Some(NotAHostAddress) <==> Num(ip) == first || Num(ip) == last)
      && (ReserveFailure(p, text) == Some(AlreadyAllocated) <==> first < Num(ip) < last && Print(ip) in p.held)
      && (ReserveFailure(p, text).None? <==> first < Num(ip) < last && Print(ip) !in p.held)
  {
    hide Parse, Print, Num, Aligned, Agree;
    if Parse(text).Some? { ContainsIsRange(p.net, Parse(text).value); }
  }

  // ----- When the search ends

  /** Some index is still to come that is outside the subnet or free. */
  ghost predicate Searchable(p: Pool) {
    p.net.prefix >= 1 || exists x: Ip :: Print(x) !in p.held
  }

  /** The search loop ends exactly when the pool is searchable: always for prefixes from /1
      up, and for /0 while some address is free. */
  lemma SearchEnds(p: Pool)
    requires p.net.Valid()
    ensures Searchable(p) <==> exists k: nat :: p.next <= k && !Taken(p, k)
  {
    hide Pow2, AddBytes, Num, Agree, Aligned, Print;
    var turn := Pow2(32) * p.next;
    assert turn >= p.next by { assert turn == (Pow2(32) - 1) * p.next + p.next; }
    if p.net.prefix >= 1 {
      var k := turn + p.net.Size();
      PastTheEnd(p, turn, p.next);
      assert p.next <= k && !Taken(p, k);
    } else if x: Ip :| Print(x) !in p.held {
      var k := turn + (Num(x) - Num(p.net.ip));
      AllOfZeroPrefix(p.net, x, p.next);
      assert p.next <= k && !Taken(p, k);
    }
    if k: nat :| p.next <= k && !Taken(p, k) {
      if p.net.prefix == 0 {
        ZeroPrefixContainsAll(p.net, Addr(p.net, k));
      }
    }
  }

  lemma PastTheEnd(p: Pool, turn: nat, m: nat)
    requires p.net.Valid() && p.net.prefix >= 1 && turn == Pow2(32) * m
    ensures !Taken(p, turn + p.net.Size())
  {
    hide Pow2, AddBytes, Agree, Print;
    var k := turn + p.net.Size();
    SizeBound(p.net);
    AddWraps(p.net.ip, k);
    ModIs(k, Pow2(32), m, p.net.Size());
    NextIsExact(p.net, p.net.Size());
  }

  lemma SizeBound(net: Subnet)
    requires 1 <= net.prefix <= 32
    ensures net.Size() < Pow2(32)
  {
    SmallerPower(32 - net.prefix, 32);
  }

  lemma {:induction false} SmallerPower(a: nat, b: nat)
    requires a < b
    ensures Pow2(a) < Pow2(b)
  {
    if a == b - 1 {
    } else {
      SmallerPower(a, b - 1);
    }
  }

  lemma ZeroPrefixContainsAll(net: Subnet, x: Ip)
    requires net.Valid() && net.prefix == 0
    ensures net.Contains(x) && Num(net.ip) == 0
  {
    hide Num;
    NumBound(x);
    NumBound(net.ip);
    AlignedIsMultiple(net.ip, 0);
    ModIs(Num(net.ip), Pow2(32), 0, Num(net.ip));
    ContainsIsRange(net, x);
  }

  lemma AllOfZeroPrefix(net: Subnet, x: Ip, m: nat)
    requires net.Valid() && net.prefix == 0
    ensures Num(net.ip) == 0 && Addr(net, Pow2(32) * m + Num(x)) == x
  {
    hide Pow2, AddBytes, Num, Agree, Aligned;
    ZeroPrefixContainsAll(net, x);
    OffsetOf(net, x);
    NumBound(x);
    AddWraps(net.ip, Pow2(32) * m + Num(x));
    ModIs(Pow2(32) * m + Num(x), Pow2(32), m, Num(x));
  }

  // ----- Runs of one pool

  datatype Event =
    | Allocate(k: nat)
    | AllocateFails(k: nat)
    | Reserve(text: string)
    | Release(text: string)

  ghost predicate Enabled(p: Pool, ev: Event)
    requires p.net.Valid()
  {
    match ev
    case Allocate(k) => StopsAt(p, k) && p.net.Contains(Addr(p.net, k))
    case AllocateFails(k) => StopsAt(p, k) && !p.net.Contains(Addr(p.net, k))
    case Reserve(_) | Release(_) => true
  }

  function Apply(p: Pool, ev: Event): Pool
    requires p.net.prefix <= 32
  {
    match ev
    case Allocate(k) => Allocated(p, k)
    case AllocateFails(_) => p
    case Reserve(text) => if ReserveFailure(p, text).None? then Reserved(p, text) else p
    case Release(text) => Released(p, text)
  }

  datatype Run = Run(states: seq<Pool>, events: seq<Event>) {
    ghost predicate Valid(net: Subnet) {
      && net.Valid()
      && |states| == |events| + 1 && states[0] == Fresh(net)
      && (forall i | 0 <= i < |states| :: states[i].net == net)
      && forall i | 0 <= i < |events| ::
           Enabled(states[i], events[i]) && states[i + 1] == Apply(states[i], events[i])
    }
  }

  /** Every text in the list is what its address prints as. */
  ghost predicate AllPrinted(s: seq<string>) { forall i | 0 <= i < |s| :: Printed(s[i]) }

  /** What every run keeps. On prefixes from /1 up the index stays in range, and the last
      address is held only when no index is left. */
  ghost predicate Sound(p: Pool) {
    && p.net.Valid()
    && Distinct(p.held) && AllPrinted(p.held)
    && p.gateway == GatewayOf(p.net.ip)
    && FIRST_INDEX <= p.next
    && (p.net.prefix >= 1 ==> (p.next <= FIRST_INDEX || p.next <= p.net.Size()) && LastIsLast(p))
  }

  ghost predicate LastIsLast(p: Pool)
    requires p.net.prefix <= 32
  {
    forall ip: Ip | Print(ip) in p.held && Num(ip) == Num(p.net.ip) + p.net.Size() - 1 :: p.next >= p.net.Size()
  }

  lemma {:induction false} WithoutKeeps(s: seq<string>, x: string)
    ensures forall y :: y in Without(s, x) ==> y in s
    ensures AllPrinted(s) ==> AllPrinted(Without(s, x))
    ensures Distinct(s) ==> Distinct(Without(s, x)) && x !in Without(s, x)
    ensures Distinct(s) ==> forall y :: y in s && y != x ==> y in Without(s, x)
    ensures x !in s ==> Without(s, x) == s
  {
    hide Printed;
    if s == [] {
    } else {
      WithoutKeeps(s[1..], x);
      assert Distinct(s) ==> Distinct(s[1..]) && s[0] !in s[1..];
      assert s == [s[0]] + s[1..];
    }
  }

  /** Where a /1-or-longer search stops: at a free address of the subnet, or at its end. */
  lemma StopIsInRange(p: Pool, k: nat)
    requires Sound(p) && p.net.prefix >= 1 && StopsAt(p, k)
    ensures k <= p.net.Size() || k == p.next == FIRST_INDEX
    ensures p.net.Contains(Addr(p.net, k)) <==> k < p.net.Size()
  {
    hide Pow2, AddBytes, Num, Agree, Aligned, AllPrinted, LastIsLast, Print;
    var size := p.net.Size();
    SizeBound(p.net);
    IndexesFit();
    if k > size && k > p.next {
      var j := if p.next <= size then size else p.next;
      assert Taken(p, j);
      NextIsExact(p.net, j);
    }
    NextIsExact(p.net, k);
  }

  lemma IndexesFit()
    ensures FIRST_INDEX < Pow2(32)
  {
    assert Pow2(1) == 2;
    SmallerPower(1, 32);
  }

  lemma StepKeepsSound(p: Pool, ev: Event)
    requires Sound(p) && Enabled(p, ev)
    ensures Sound(Apply(p, ev)) && p.next <= Apply(p, ev).next && Apply(p, ev).net == p.net
  {
    hide Print, Parse, AddBytes, Printed, Distinct, AllPrinted, Agree, Num, Pow2, Aligned, Without;
    match ev
    case Allocate(k) =>
      OneMoreAddress(p.held, Addr(p.net, k));
      if p.net.prefix >= 1 {
        StopIsInRange(p, k);
        SizeBound(p.net);
        NextIsExact(p.net, k);
      }
    case AllocateFails(_) =>
    case Reserve(text) =>
      if ReserveFailure(p, text).None? { OneMoreAddress(p.held, Parse(text).value); }
    case Release(text) => WithoutKeeps(p.held, text);
  }

  /** The texts held after one more are those of the addresses held before and of that one. */
  lemma OneMoreAddress(held: seq<string>, ip: Ip)
    requires Distinct(held) && AllPrinted(held) && Print(ip) !in held
    ensures Distinct(held + [Print(ip)]) && AllPrinted(held + [Print(ip)])
    ensures forall x: Ip :: Print(x) in held + [Print(ip)] <==> Print(x) in held || x == ip
  {
    hide Print, Printed;
    forall x: Ip ensures Print(x) == Print(ip) <==> x == ip { PrintIsInjective(x, ip); }
    PrintIsInjective(ip, ip);
  }

  lemma FreshIsSound(net: Subnet)
    requires net.Valid()
    ensures Sound(Fresh(net))
  {
    hide Print, AddBytes, Printed, Num, Pow2, Aligned;
    var g := GatewayOf(net.ip);
    PrintIsInjective(g, g);
    forall ip: Ip | Print(ip) in Fresh(net).held ensures Num(ip) < Num(net.ip) + FIRST_INDEX {
      PrintIsInjective(ip, g);
      GatewayIsLow(net);
    }
  }

  lemma GatewayIsLow(net: Subnet)
    ensures Num(GatewayOf(net.ip)) < Num(net.ip) + FIRST_INDEX
  {
    var g := GatewayOf(net.ip);
    assert g[..3] == net.ip[..3];
    NumSplit(g);
    NumSplit(net.ip);
  }

  lemma {:induction false} RunIsSound(net: Subnet, run: Run, i: nat)
    requires run.Valid(net) && i < |run.states|
    ensures Sound(run.states[i])
  {
    hide Sound, Subnet.Valid;
    if i == 0 {
      FreshIsSound(net);
    } else {
      RunIsSound(net, run, i - 1);
      StepKeepsSound(run.states[i - 1], run.events[i - 1]);
    }
  }

  lemma {:induction false} NextGrows(net: Subnet, run: Run, i: nat, j: nat)
    requires run.Valid(net) && i <= j < |run.states|
    ensures run.states[i].next <= run.states[j].next
    decreases j - i
  {
    hide Sound, Subnet.Valid;
    if i == j {
    } else {
      NextGrows(net, run, i, j - 1);
      RunIsSound(net, run, j - 1);
      StepKeepsSound(run.states[j - 1], run.events[j - 1]);
    }
  }

  // ----- Failure

  /** The next index has left the subnet. */
  predicate Exhausted(p: Pool)
    requires p.net.prefix <= 32
  {
    p.net.prefix >= 1 && p.next >= p.net.Size()
  }

  /** The first address of the subnet, from the next index on, whose text is not in the list. */
  ghost predicate FirstFree(p: Pool, ip: Ip) { exists k: nat :: FreeAt(p, ip, k) }

  ghost predicate FreeAt(p: Pool, ip: Ip, k: nat) {
    && p.next <= k && ip == Addr(p.net, k) && p.net.Contains(ip) && Print(ip) !in p.held
    && forall j: nat | p.next <= j < k :: Print(Addr(p.net, j)) in p.held
  }

  /** What an allocation, which stops at k, means for the caller. */
  lemma AllocationSays(p: Pool, k: nat)
    requires p.net.Valid() && Sound(p) && StopsAt(p, k)
    ensures p.net.Contains(Addr(p.net, k)) <==> !Exhausted(p)
    ensures !Exhausted(p) ==> FirstFree(p, Addr(p.net, k))
  {
    hide Addr, Print, Sound, Exhausted, Subnet.Contains;
    FailsAt(p);
    if p.net.Contains(Addr(p.net, k)) {
      forall j: nat | p.next <= j < k ensures Print(Addr(p.net, j)) in p.held { assert Taken(p, j); }
      assert FreeAt(p, Addr(p.net, k), k);
      if j: nat :| Enabled(p, AllocateFails(j)) { OneStop(p, j, k); }
    } else {
      assert Enabled(p, AllocateFails(k));
    }
  }

  lemma OneStop(p: Pool, j: nat, k: nat)
    requires StopsAt(p, j) && StopsAt(p, k)
    ensures j == k
  {
    hide Subnet.Contains, Print, AddBytes;
    assert j < k ==> Taken(p, j);
    assert k < j ==> Taken(p, k);
  }

  lemma FailsAt(p: Pool)
    requires Sound(p)
    ensures (exists k :: Enabled(p, AllocateFails(k))) <==> Exhausted(p)
  {
    hide AddBytes, Num, Pow2, Aligned, Print, Agree, Distinct, AllPrinted;
    if p.net.prefix == 0 {
      forall k ensures !Enabled(p, AllocateFails(k)) { ZeroPrefixContainsAll(p.net, Addr(p.net, k)); }
      return;
    }
    SizeBound(p.net);
    if p.next >= p.net.Size() {
      IndexesFit();
      NextIsExact(p.net, p.next);
      assert Enabled(p, AllocateFails(p.next));
    }
    forall k | Enabled(p, AllocateFails(k)) ensures p.next >= p.net.Size() {
      StopIsInRange(p, k);
      NextIsExact(p.net, p.net.Size() - 1);
      assert p.next < p.net.Size() ==> Taken(p, p.net.Size() - 1);
    }
  }

  /** Allocation fails exactly when the next index has left the subnet, which on /0 it never
      does: indexes before it never come back, and no reservation can take the last address. */
  lemma FailsExactly(net: Subnet, run: Run, i: nat)
    requires run.Valid(net) && i < |run.states|
    ensures (exists k :: Enabled(run.states[i], AllocateFails(k)))
       <==> net.prefix >= 1 && run.states[i].next >= net.Size()
  {
    RunIsSound(net, run, i);
    FailsAt(run.states[i]);
    hide Sound, Enabled, Subnet.Valid;
  }

  // ----- What is handed out

  /** The address an Allocate event hands out. */
  function Handed(net: Subnet, ev: Event): Ip
    requires ev.Allocate?
  {
    Addr(net, ev.k)
  }

  ghost predicate Hands(net: Subnet, run: Run, i: nat) {
    run.Valid(net) && i < |run.events| && run.events[i].Allocate?
  }

  /** Every dynamic address lies in the subnet and was free. */
  lemma DynamicIsFree(net: Subnet, run: Run, i: nat)
    requires Hands(net, run, i)
    ensures net.Contains(Handed(net, run.events[i])) && Print(Handed(net, run.events[i])) !in run.states[i].held
  {
    hide Subnet.Contains, AddBytes, Print;
    assert Enabled(run.states[i], run.events[i]);
  }

  /** From /1 up it is the base plus the index, and neither the network address nor the
      gateway, whatever was released before. */
  lemma DynamicIsUsable(net: Subnet, run: Run, i: nat)
    requires Hands(net, run, i) && net.prefix >= 1
    ensures var ip := Handed(net, run.events[i]);
      ip != net.ip && ip != GatewayOf(net.ip) && Num(ip) == Num(net.ip) + run.events[i].k
  {
    var k := run.events[i].k;
    RunIsSound(net, run, i);
    assert Enabled(run.states[i], run.events[i]);
    hide AddBytes, Num, Pow2, Aligned, Print, Subnet.Contains, Run.Valid;
    StopIsInRange(run.states[i], k);
    SizeBound(net);
    NextIsExact(net, k);
    GatewayIndex(net, k);
  }

  /** The gateway is never at an index from 2 up. */
  lemma GatewayIndex(net: Subnet, k: nat)
    requires FIRST_INDEX <= k && Num(Addr(net, k)) == Num(net.ip) + k
    ensures Addr(net, k) != GatewayOf(net.ip)
  {
    hide AddBytes, Num;
    GatewayIsLow(net);
  }

  /** From /1 up dynamic addresses strictly increase, so none is handed out twice, even after
      release. */
  lemma DynamicIncreases(net: Subnet, run: Run, i: nat, j: nat)
    requires Hands(net, run, i) && Hands(net, run, j) && i < j && net.prefix >= 1
    ensures Num(Handed(net, run.events[i])) < Num(Handed(net, run.events[j]))
  {
    hide AddBytes, Num, Pow2, Aligned, Print, Subnet.Contains;
    DynamicIsUsable(net, run, i);
    DynamicIsUsable(net, run, j);
    NextGrows(net, run, i + 1, j);
    assert Enabled(run.states[j], run.events[j]);
  }

  // ----- The /0 subnet

  /** Every index below 2^32 gives the address of that number, the next ones start over. */
  lemma AnyAddr(k: nat)
    requires k < 2 * Pow2(32)
    ensures ANY.Contains(Addr(ANY, k)) && Num(Addr(ANY, k)) == if k < Pow2(32) then k else k - Pow2(32)
  {
    hide Pow2, AddBytes, Num, Agree, Aligned;
    AnyIsValid();
    AnyIsZero();
    ZeroPrefixContainsAll(ANY, Addr(ANY, k));
    var low := if k < Pow2(32) then k else k - Pow2(32);
    ModIs(k, Pow2(32), if k < Pow2(32) then 0 else 1, low);
    AddWraps(ANY.ip, k);
    NextIsExact(ANY, low);
  }

  lemma AnyGateway()
    ensures Num(GatewayOf(ANY.ip)) == 1
  {
    AnyIsZero();
    var g := GatewayOf(ANY.ip);
    assert g[..3] == ANY.ip[..3];
  }

  /** A run of the /0 subnet that ends in p. */
  ghost predicate Reaches(run: Run, p: Pool) {
    run.Valid(ANY) && run.states[|run.events|] == p && p.net == ANY
  }

  const START := Run([Fresh(ANY)], [])

  lemma StartReaches()
    ensures Reaches(START, Fresh(ANY))
  {
    AnyIsValid();
  }

  /** One more event at the end. */
  lemma Extend(r: Run, p: Pool, ev: Event) returns (run: Run)
    requires Reaches(r, p) && Enabled(p, ev)
    ensures run.events == r.events + [ev] && Reaches(run, Apply(p, ev))
  {
    hide AddBytes, Print, Subnet.Contains, ReserveFailure, Parse, Without, Aligned;
    run := Run(r.states + [Apply(p, ev)], r.events + [ev]);
    forall i | 0 <= i < |run.events|
      ensures Enabled(run.states[i], run.events[i]) && run.states[i + 1] == Apply(run.states[i], run.events[i])
    {
      if i < |r.events| { assert run.states[i] == r.states[i]; }
    }
  }

  /** A free address at the next index can be allocated. */
  lemma AnyAllocates(p: Pool)
    requires p.net == ANY && p.next < 2 * Pow2(32) && Print(Addr(ANY, p.next)) !in p.held
    ensures ANY.Valid() && Enabled(p, Allocate(p.next))
  {
    hide Pow2, AddBytes, Num, Agree, Aligned, Print;
    AnyIsValid();
    AnyAddr(p.next);
  }

  /** The gateway is the only address held, and the index has come to n. */
  function Idle(n: nat): Pool { Fresh(ANY).(next := n) }

  /** Allocate and release, over and over, until the index is n. */
  lemma {:induction false} Churn(n: nat) returns (run: Run)
    requires FIRST_INDEX <= n <= Pow2(32)
    ensures Reaches(run, Idle(n))
    ensures if n == FIRST_INDEX then run.events == [] else [Allocate(FIRST_INDEX)] <= run.events
  {
    hide Pow2, Reaches, Addr, Print;
    if n == FIRST_INDEX {
      StartReaches();
      run := START;
    } else {
      var r := Churn(n - 1);
      run := ChurnOnce(r, n - 1);
    }
  }

  lemma ChurnOnce(r: Run, n: nat) returns (run: Run)
    requires FIRST_INDEX <= n < Pow2(32) && Reaches(r, Idle(n))
    ensures Reaches(run, Idle(n + 1))
    ensures run.events == r.events + [Allocate(n), Release(Print(Addr(ANY, n)))]
  {
    hide Pow2, AddBytes, Num, Agree, Aligned, Print, Reaches;
    var gateway, text := Print(GatewayOf(ANY.ip)), Print(Addr(ANY, n));
    AnyGateway();
    AnyAddr(n);
    SameText(GatewayOf(ANY.ip), Addr(ANY, n));
    AnyAllocates(Idle(n));
    var p := Allocated(Idle(n), n);
    var r1 := Extend(r, Idle(n), Allocate(n));
    LastOut([gateway], text);
    assert p.held == [gateway] + [text];
    run := Extend(r1, p, Release(text));
  }

  lemma {:induction false} LastOut(s: seq<string>, x: string)
    requires x !in s
    ensures Without(s + [x], x) == s
  {
    if s == [] {
    } else {
      assert (s + [x])[1..] == s[1..] + [x];
      LastOut(s[1..], x);
    }
  }

  /** On /0 the index wraps at 2^32. There is a run that hands out the address numbered 2, then
      the network address and then, once it was released, the gateway. */
  lemma ZeroPrefixWraps() returns (run: Run, i: nat)
    ensures i > 0 && Hands(ANY, run, 0) && Hands(ANY, run, i) && Hands(ANY, run, i + 1)
    ensures Handed(ANY, run.events[i]) == ANY.ip && Handed(ANY, run.events[i + 1]) == GatewayOf(ANY.ip)
    ensures Num(Handed(ANY, run.events[0])) == 2
  {
    hide Pow2, AddBytes, Num, Agree, Aligned, Print;
    IndexesFit();
    WrapAddresses();
    var top := Pow2(32);
    var gateway := Print(GatewayOf(ANY.ip));
    var r := Churn(top);
    var r1 := Extend(r, Idle(top), Release(gateway));
    var p := Idle(top).(held := []);
    AnyAllocates(p);
    var r2 := Extend(r1, p, Allocate(top));
    var q := Allocated(p, top);
    AnyAllocates(q);
    run := Extend(r2, q, Allocate(top + 1));
    i := |r1.events|;
    hide Enabled, Apply;
  }

  lemma WrapAddresses()
    ensures Addr(ANY, Pow2(32)) == ANY.ip && Addr(ANY, Pow2(32) + 1) == GatewayOf(ANY.ip)
    ensures Num(Addr(ANY, FIRST_INDEX)) == FIRST_INDEX && Print(ANY.ip) != Print(GatewayOf(ANY.ip))
  {
    hide Pow2, AddBytes, Num, Agree, Aligned, Print;
    IndexesFit();
    AnyIsValid();
    AnyIsZero();
    AnyGateway();
    AnyAddr(FIRST_INDEX);
    AnyAddr(Pow2(32));
    AnyAddr(Pow2(32) + 1);
    NumInjective(Addr(ANY, Pow2(32)), ANY.ip);
    NumInjective(Addr(ANY, Pow2(32) + 1), GatewayOf(ANY.ip));
    SameText(ANY.ip, GatewayOf(ANY.ip));
  }

  /** Some run hands out ip. */
  ghost predicate CanHandOut(net: Subnet, ip: Ip) {
    exists run, i: nat :: Hands(net, run, i) && Handed(net, run.events[i]) == ip
  }

  ghost predicate AlwaysIncreases(net: Subnet) {
    forall run, i: nat, j: nat | Hands(net, run, i) && Hands(net, run, j) && i < j ::
      Num(Handed(net, run.events[i])) < Num(Handed(net, run.events[j]))
  }

  /** Exactly the prefixes from /1 up keep dynamic addresses off the network address, off the
      gateway, and increasing. */
  lemma WrapsExactlyOnZero(net: Subnet)
    requires net.Valid()
    ensures CanHandOut(net, net.ip) <==> net.prefix == 0
    ensures CanHandOut(net, GatewayOf(net.ip)) <==> net.prefix == 0
    ensures AlwaysIncreases(net) <==> net.prefix >= 1
  {
    hide AddBytes, Num, Pow2, Aligned, Print, Agree, Enabled;
    if net.prefix >= 1 {
      forall run, i: nat | Hands(net, run, i)
        ensures Handed(net, run.events[i]) != net.ip && Handed(net, run.events[i]) != GatewayOf(net.ip)
      {
        DynamicIsUsable(net, run, i);
      }
      forall run, i: nat, j: nat | Hands(net, run, i) && Hands(net, run, j) && i < j
        ensures Num(Handed(net, run.events[i])) < Num(Handed(net, run.events[j]))
      {
        DynamicIncreases(net, run, i, j);
      }
    } else {
      AnyIsValid();
      AnyIsZero();
      ZeroPrefixContainsAll(net, net.ip);
      NumInjective(net.ip, ANY.ip);
      var run, i := ZeroPrefixWraps();
    }
  }

  // ----- A search that never ends

  /** The pool after n allocations. */
  function Filled(n: nat): Pool {
    if n == 0 then Fresh(ANY) else Allocated(Filled(n - 1), FIRST_INDEX + n - 1)
  }

  /** It holds the addresses numbered from 1 to n + 1. */
  lemma {:induction false} FilledHolds(n: nat, x: Ip)
    requires FIRST_INDEX + n <= Pow2(32)
    ensures Filled(n).net == ANY && Filled(n).next == FIRST_INDEX + n
    ensures Print(x) in Filled(n).held <==> 1 <= Num(x) < FIRST_INDEX + n
  {
    hide Pow2, AddBytes, Num, Agree, Aligned, Print;
    if n == 0 {
      AnyGateway();
      SameText(x, GatewayOf(ANY.ip));
    } else {
      FilledHolds(n - 1, x);
      AnyAddr(FIRST_INDEX + n - 1);
      SameText(x, Addr(ANY, FIRST_INDEX + n - 1));
    }
  }

  lemma SameText(x: Ip, y: Ip)
    ensures Print(x) == Print(y) <==> Num(x) == Num(y)
  {
    hide Num, Print;
    PrintIsInjective(x, y);
    if Num(x) == Num(y) { NumInjective(x, y); }
  }

  lemma {:induction false} Fill(n: nat) returns (run: Run)
    requires FIRST_INDEX + n <= Pow2(32)
    ensures Reaches(run, Filled(n))
  {
    hide Pow2, AddBytes, Num, Agree, Aligned, Print, Reaches;
    if n == 0 {
      StartReaches();
      run := START;
    } else {
      var k := FIRST_INDEX + n - 1;
      var r := Fill(n - 1);
      AnyAddr(k);
      FilledHolds(n - 1, Addr(ANY, k));
      AnyAllocates(Filled(n - 1));
      run := Extend(r, Filled(n - 1), Allocate(k));
    }
  }

  /** A run of /0 that allocates 2^32 - 1 addresses leaves a pool whose search never ends. */
  lemma ZeroPrefixFills() returns (run: Run, p: Pool)
    ensures Reaches(run, p) && !Searchable(p) && forall k: nat | p.next <= k :: Taken(p, k)
  {
    hide Pow2, AddBytes, Num, Agree, Aligned, Print, Reaches;
    IndexesFit();
    AnyIsValid();
    var top := Pow2(32);
    var full := Filled(top - FIRST_INDEX);
    var r := Fill(top - FIRST_INDEX);
    AnyAddr(top);
    FilledHolds(top - FIRST_INDEX, Addr(ANY, top));
    AnyAllocates(full);
    run := Extend(r, full, Allocate(top));
    p := Allocated(full, top);
    forall x: Ip ensures Print(x) in p.held {
      NumBound(x);
      FilledHolds(top - FIRST_INDEX, x);
      SameText(x, Addr(ANY, top));
    }
    SearchEnds(p);
  }
}
