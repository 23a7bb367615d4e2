/** Whole runs of the gossip cluster: any number of nodes, payloads that may be
    delayed, duplicated, reordered or lost, sweeps at any clock reading. */
module ClusterRuns {
  import opened Options
  import opened Membership

  datatype Payload = Payload(sender: string, entries: seq<Entry>)

  /** `sent` only grows: a payload may arrive late, many times or never. */
  datatype State = State(nodes: map<string, Table>, sent: set<Payload>)

  datatype Event =
    | Boot(n: string, addr: string, vmCount: int, cpuCap: int, memCap: int)
    | Push(n: string, listing: seq<Entry>)
    | Deliver(n: string, p: Payload, now: int, listing: seq<Entry>)
    | Reply(n: string, p: Payload, now: int)
    | JoinReply(n: string, p: Payload)
    | GossipFailed(n: string, addr: string)
    | Sweep(n: string, now: int)
    | Depart(n: string)
    | Update(n: string, vmCount: int, cpuCap: int, memCap: int, now: int)

  /** What an event does to the table of the node it happens at. */
  function TableAfter(t: Table, ev: Event): Table {
    match ev
    case Boot(_, _, _, _, _) | Push(_, _) => t
    case Deliver(n, p, now, _) => Handled(n, t, p.sender, p.entries, now)
    case Reply(n, p, now) => Finished(n, t, p.sender, p.entries, now)
    case JoinReply(n, p) => Merge(n, t, p.entries)
    case GossipFailed(n, addr) => MarkedSuspect(n, t, addr)
    case Sweep(n, now) => Swept(n, t, now, SUSPECT_TIMEOUT, DEAD_TIMEOUT)
    case Depart(n) => LeftBy(n, t)
    case Update(n, vmCount, cpuCap, memCap, now) => Updated(n, t, vmCount, cpuCap, memCap, now)
  }

  ghost predicate Enabled(s: State, ev: Event) {
    if ev.Boot? then ev.n !in s.nodes
    else
      && ev.n in s.nodes
      && (ev.Deliver? || ev.Reply? || ev.JoinReply? ==> ev.p in s.sent)
      && (ev.Push? ==> IsListing(ev.listing, s.nodes[ev.n]))
      && (ev.Deliver? ==> IsListing(ev.listing, TableAfter(s.nodes[ev.n], ev)))
  }

  ghost function Apply(s: State, ev: Event): State
    requires Enabled(s, ev)
  {
    if ev.Boot? then
      var self := Record(ev.n, ev.addr, Alive, ev.vmCount, ev.cpuCap, ev.memCap, ZERO_TIME);
      s.(nodes := s.nodes[ev.n := map[ev.n := self]])
    else
      State(s.nodes[ev.n := TableAfter(s.nodes[ev.n], ev)],
            if ev.Push? || ev.Deliver? then s.sent + {Payload(ev.n, ev.listing)} else s.sent)
  }

  datatype Run = Run(states: seq<State>, events: seq<Event>) {
    ghost predicate Valid() {
      && |states| == |events| + 1
      && states[0] == State(map[], {})
      && forall i | 0 <= i < |events| ::
           Enabled(states[i], events[i]) && states[i + 1] == Apply(states[i], events[i])
    }

    ghost predicate Departed(x: string, k: nat)
      requires k <= |events|
    {
      exists i | 0 <= i < k :: events[i] == Depart(x)
    }

    /** Some node's sweep, before step k, found x silent for more than the dead timeout. */
    ghost predicate Expired(x: string, k: nat)
      requires Valid() && k <= |events|
    {
      exists i | 0 <= i < k :: SweepFinds(states[i], events[i], x)
    }
  }

  predicate SweepFinds(s: State, ev: Event, x: string) {
    && ev.Sweep? && ev.n in s.nodes && x != ev.n && x in s.nodes[ev.n]
    && !s.nodes[ev.n][x].status.Terminal()
    && ev.now - s.nodes[ev.n][x].lastSeen > DEAD_TIMEOUT
  }

  // ----- One step on one table

  lemma {:induction false} MergeOrigin(self: string, t: Table, es: seq<Entry>, x: string)
    requires StatusOf(Merge(self, t, es), x) != StatusOf(t, x)
    ensures x != self
    ensures exists i | 0 <= i < |es| :: es[i].id == x && es[i].status == StatusOf(Merge(self, t, es), x)
    decreases |es|
  {
    hide ValidNames;
    var front := es[..|es| - 1];
    if StatusOf(Merge(self, t, front), x) == StatusOf(t, x) {
    } else {
      MergeOrigin(self, t, front, x);
      var i :| 0 <= i < |front| && front[i].id == x && front[i].status == StatusOf(Merge(self, t, front), x);
      assert es[i] == front[i];
    }
    assert es[|es| - 1].id == x || StatusOf(Merge(self, t, es), x) == StatusOf(Merge(self, t, front), x);
  }

  predicate SaysOf(p: Payload, x: string, s: Status) {
    exists i | 0 <= i < |p.entries| :: p.entries[i].id == x && p.entries[i].status == Some(s)
  }

  /** ev delivers a payload that says c of x. */
  predicate Hears(ev: Event, x: string, c: Status) {
    (ev.Deliver? || ev.Reply? || ev.JoinReply?) && SaysOf(ev.p, x, c)
  }

  /** A terminal status appears only by the local rules or by copying a delivered entry. */
  lemma StepOrigin(t: Table, ev: Event, x: string, c: Status)
    requires !ev.Boot? && WellFormed(ev.n, t) && c.Terminal()
    requires StatusOf(t, x) != StatusOf(TableAfter(t, ev), x) == Some(c)
    ensures Hears(ev, x, c) || if c.Left? then ev == Depart(x) else SweepFinds(State(map[ev.n := t], {}), ev, x)
  {
    hide ValidNames;
    if ev.Deliver? || ev.Reply? || ev.JoinReply? {
      assert StatusOf(Merge(ev.n, t, ev.p.entries), x) == Some(c);
      MergeOrigin(ev.n, t, ev.p.entries, x);
    }
  }

  /** A step keeps the table's form, drops nobody and never revives the dead or the departed. */
  lemma StepKeeps(t: Table, ev: Event)
    requires !ev.Boot? && WellFormed(ev.n, t)
    ensures WellFormed(ev.n, TableAfter(t, ev))
    ensures t.Keys <= TableAfter(t, ev).Keys
    ensures forall x | x in t && t[x].status.Terminal() :: TableAfter(t, ev)[x].status.Terminal()
    ensures t[ev.n].status == Alive || t[ev.n].status == Left ==>
      TableAfter(t, ev)[ev.n].status == if ev.Depart? then Left else t[ev.n].status
  {
    hide ValidNames;
    if ev.Deliver? || ev.Reply? || ev.JoinReply? {
      HearingKeeps(t, ev);
    }
  }

  lemma HearingKeeps(t: Table, ev: Event)
    requires (ev.Deliver? || ev.Reply? || ev.JoinReply?) && WellFormed(ev.n, t)
    ensures WellFormed(ev.n, TableAfter(t, ev)) && t.Keys <= TableAfter(t, ev).Keys
    ensures forall x | x in t && t[x].status.Terminal() :: TableAfter(t, ev)[x].status.Terminal()
    ensures t[ev.n].status == Alive || t[ev.n].status == Left ==> TableAfter(t, ev)[ev.n].status == t[ev.n].status
  {
    hide ValidNames, Merge;
    MergeKeepsAll(ev.n, t, ev.p.entries);
  }

  lemma MergeKeepsAll(self: string, t: Table, es: seq<Entry>)
    requires WellFormed(self, t)
    ensures WellFormed(self, Merge(self, t, es)) && t.Keys <= Merge(self, t, es).Keys
    ensures forall x | x in t && t[x].status.Terminal() :: Merge(self, t, es)[x].status.Terminal()
    ensures Merge(self, t, es)[self] == t[self]
  {
    hide ValidNames;
    MergeKeepsForm(self, t, es);
    forall x | x in t ensures x in Merge(self, t, es)
      && (t[x].status.Terminal() ==> Merge(self, t, es)[x].status.Terminal())
    {
      MergeIsJoin(self, t, es, x);
    }
  }

  // ----- Whole runs

  /** s is claimed for x in some table or in some payload ever sent. */
  ghost predicate Claimed(st: State, x: string, s: Status) {
    || (exists n | n in st.nodes :: StatusOf(st.nodes[n], x) == Some(s))
    || (exists p | p in st.sent :: SaysOf(p, x, s))
  }

  ghost predicate Sound(st: State) {
    forall n | n in st.nodes ::
      && WellFormed(n, st.nodes[n])
      && (st.nodes[n][n].status == Alive || st.nodes[n][n].status == Left)
  }

  lemma {:induction false} RunIsSound(run: Run, k: nat)
    requires run.Valid() && k < |run.states|
    ensures Sound(run.states[k])
  {
    if k == 0 {
    } else {
      RunIsSound(run, k - 1);
      var s, ev := run.states[k - 1], run.events[k - 1];
      if !ev.Boot? { StepKeeps(s.nodes[ev.n], ev); }
    }
  }

  /** New claims come only from Leave or from a sweep. */
  lemma ClaimOrigin(s: State, ev: Event, x: string, c: Status)
    requires Sound(s) && Enabled(s, ev)
    requires c.Terminal() && Claimed(Apply(s, ev), x, c) && !Claimed(s, x, c)
    ensures if c.Left? then ev == Depart(x) else SweepFinds(s, ev, x)
  {
    if !ev.Boot? {
      FreshClaimIsLocal(s, ev, x, c);
      StepOrigin(s.nodes[ev.n], ev, x, c);
      assert !Hears(ev, x, c);
    }
  }

  lemma ListingSays(p: Payload, t: Table, x: string, c: Status)
    requires IsListing(p.entries, t) && SaysOf(p, x, c) && forall y | y in t :: t[y].id == y
    ensures StatusOf(t, x) == Some(c)
  {
  }

  lemma FreshClaimIsLocal(s: State, ev: Event, x: string, c: Status)
    requires Sound(s) && Enabled(s, ev) && !ev.Boot?
    requires Claimed(Apply(s, ev), x, c) && !Claimed(s, x, c)
    ensures StatusOf(TableAfter(s.nodes[ev.n], ev), x) == Some(c)
  {
    assert ev.Push? ==> TableAfter(s.nodes[ev.n], ev) == s.nodes[ev.n];
    hide TableAfter, IsListing, SaysOf;
    var s' := Apply(s, ev);
    var t' := TableAfter(s.nodes[ev.n], ev);
    StepKeeps(s.nodes[ev.n], ev);
    if p :| p in s'.sent && SaysOf(p, x, c) {
      assert p !in s.sent;
      ListingSays(p, t', x, c);
    } else {
      var n :| n in s'.nodes && StatusOf(s'.nodes[n], x) == Some(c);
    }
  }

  /** left is claimed for x, anywhere, only after x itself called Leave. */
  lemma {:induction false} LeftOnlyByLeaving(run: Run, x: string, k: nat)
    requires run.Valid() && k <= |run.events|
    requires Claimed(run.states[k], x, Left)
    ensures run.Departed(x, k)
  {
    if k == 0 {
    } else {
      RunIsSound(run, k - 1);
      if Claimed(run.states[k - 1], x, Left) {
        LeftOnlyByLeaving(run, x, k - 1);
      } else {
        ClaimOrigin(run.states[k - 1], run.events[k - 1], x, Left);
      }
    }
  }

  /** dead is claimed for x, anywhere, only after some sweep found x past the timeout. */
  lemma {:induction false} DeadOnlyByTimeout(run: Run, x: string, k: nat)
    requires run.Valid() && k <= |run.events|
    requires Claimed(run.states[k], x, Dead)
    ensures run.Expired(x, k)
  {
    if k == 0 {
    } else {
      RunIsSound(run, k - 1);
      if Claimed(run.states[k - 1], x, Dead) {
        DeadOnlyByTimeout(run, x, k - 1);
      } else {
        ClaimOrigin(run.states[k - 1], run.events[k - 1], x, Dead);
      }
    }
  }

  /** And such a sweep does declare it dead, there and then. */
  lemma TimeoutKills(s: State, ev: Event, x: string)
    requires Enabled(s, ev) && SweepFinds(s, ev, x)
    ensures StatusOf(Apply(s, ev).nodes[ev.n], x) == Some(Dead)
  {
    SweepSays(ev.n, s.nodes[ev.n], ev.now, SUSPECT_TIMEOUT, DEAD_TIMEOUT, x);
    hide Swept;
  }

  // ----- What spreads

  predicate Hearing(ev: Event) { ev.Deliver? || ev.Reply? || ev.JoinReply? }

  /** Hearing a payload is merging it. A gossip and a reply also note when the other node was seen, and
      only the gossip clears a suspicion of it. */
  lemma HearingTells(s: State, ev: Event)
    requires Enabled(s, ev) && Hearing(ev)
    ensures var t, u := Merge(ev.n, s.nodes[ev.n], ev.p.entries), Apply(s, ev).nodes[ev.n];
      && u.Keys == t.Keys && (forall x | x in t && x != ev.p.sender :: u[x] == t[x])
      && (ev.p.sender in t ==>
            var before, after := t[ev.p.sender], u[ev.p.sender];
            && after == before.(lastSeen := after.lastSeen, status := after.status)
            && after.lastSeen == (if ev.JoinReply? then before.lastSeen else ev.now)
            && after.status == (if ev.Deliver? && before.status == Suspect then Alive else before.status))
  {
    hide Merge;
  }

  /** A gossip that cannot be delivered makes the other alive members at the address suspect. */
  lemma FailureSuspects(s: State, ev: Event, x: string)
    requires Enabled(s, ev) && ev.GossipFailed? && x in s.nodes[ev.n] && x != ev.n
    ensures StatusOf(Apply(s, ev).nodes[ev.n], x) ==
      Some(if s.nodes[ev.n][x].addr == ev.addr && s.nodes[ev.n][x].status == Alive then Suspect
           else s.nodes[ev.n][x].status)
  {
  }

  /** What was sent can be heard ever after. */
  lemma {:induction false} SentStays(run: Run, i: nat, k: nat)
    requires run.Valid() && i < k <= |run.events| && (run.events[i].Push? || run.events[i].Deliver?)
    ensures Payload(run.events[i].n, run.events[i].listing) in run.states[k].sent
  {
    assert run.states[k] == Apply(run.states[k - 1], run.events[k - 1]);
    hide TableAfter;
    if i == k - 1 {
    } else {
      SentStays(run, i, k - 1);
    }
  }

  /** dead or left reaches every node that hears a gossip from one that holds it, and stays there. */
  lemma TerminalSpreads(run: Run, i: nat, k: nat, j: nat, x: string)
    requires run.Valid() && i < k < j <= |run.events| && run.events[i].Push? && Hearing(run.events[k])
    requires run.events[k].p == Payload(run.events[i].n, run.events[i].listing) && run.events[k].n != x
    requires var t := run.states[i].nodes[run.events[i].n];
      x in t && t[x].status.Terminal() && (x == run.events[i].n ==> ValidNames(x, t[x].addr))
    ensures var u := run.states[j].nodes;
      run.events[k].n in u && x in u[run.events[k].n] && u[run.events[k].n][x].status.Terminal()
  {
    hide ValidNames, Merge;
    var t, ev := run.states[i].nodes[run.events[i].n], run.events[k];
    RunIsSound(run, i);
    assert ToEntry(t[x]) in ev.p.entries;
    TerminalIsHeard(run.states[k], ev, x, ToEntry(t[x]));
    TerminalIsForever(run, ev.n, x, k + 1, j);
  }

  lemma TerminalIsHeard(s: State, ev: Event, x: string, e: Entry)
    requires Enabled(s, ev) && Hearing(ev) && e in ev.p.entries && Relevant(ev.n, x, e) && e.status.value.Terminal()
    ensures var u := Apply(s, ev).nodes[ev.n]; x in u && u[x].status.Terminal()
  {
    hide Merge, ValidNames, TableAfter, IsListing;
    var i :| 0 <= i < |ev.p.entries| && ev.p.entries[i] == e;
    MergeIsJoin(ev.n, s.nodes[ev.n], ev.p.entries, x);
    var u := Merge(ev.n, s.nodes[ev.n], ev.p.entries);
    assert Rank(StatusOf(u, x)) >= 3;
    HearingTells(s, ev);
  }

  // ----- What stays

  /** No table ever drops a member, and dead or left is never taken back. */
  lemma {:induction false} TerminalIsForever(run: Run, n: string, x: string, j: nat, k: nat)
    requires run.Valid() && j <= k <= |run.events|
    requires n in run.states[j].nodes && x in run.states[j].nodes[n]
    ensures n in run.states[k].nodes && x in run.states[k].nodes[n]
    ensures run.states[j].nodes[n][x].status.Terminal() ==> run.states[k].nodes[n][x].status.Terminal()
    decreases k - j
  {
    hide Apply, Sound, Status.Terminal;
    if j == k {
    } else {
      TerminalIsForever(run, n, x, j, k - 1);
      RunIsSound(run, k - 1);
      StepKeepsMember(run.states[k - 1], run.events[k - 1], n, x);
    }
  }

  lemma StepKeepsMember(s: State, ev: Event, n: string, x: string)
    requires Sound(s) && Enabled(s, ev) && n in s.nodes && x in s.nodes[n]
    ensures var t := Apply(s, ev);
      n in t.nodes && x in t.nodes[n] && (s.nodes[n][x].status.Terminal() ==> t.nodes[n][x].status.Terminal())
  {
    hide TableAfter, Status.Terminal;
    if !ev.Boot? { StepKeeps(s.nodes[ev.n], ev); }
  }

  /** So a member claimed to have left holds left in its own table from then on. */
  lemma LeaversKnowIt(run: Run, x: string, k: nat)
    requires run.Valid() && k <= |run.events|
    requires Claimed(run.states[k], x, Left)
    ensures x in run.states[k].nodes && StatusOf(run.states[k].nodes[x], x) == Some(Left)
  {
    hide Merge, IsListing;
    LeftOnlyByLeaving(run, x, k);
    var i :| 0 <= i < k && run.events[i] == Depart(x);
    RunIsSound(run, i);
    StepKeeps(run.states[i].nodes[x], run.events[i]);
    TerminalIsForever(run, x, x, i + 1, k);
    RunIsSound(run, k);
  }
}
