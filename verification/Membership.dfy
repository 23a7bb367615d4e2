/** The gossip member table of internal/cluster/cluster.go, as values: what one
    merge, one sweep and one exchange do to a table, and why the merge is a join. */
module Membership {
  import opened Options

  datatype Status = Alive | Suspect | Dead | Left {
    predicate Terminal() { Dead? || Left? }
  }

  /** A member of the table. Times are nanoseconds since the zero time. */
  datatype Record = Record(id: string, addr: string, status: Status,
                           vmCount: int, cpuCap: int, memCap: int, lastSeen: int)

  /** A member as it travels in a payload: the status may be unknown text and the
      time stamp may not parse. */
  datatype Entry = Entry(id: string, addr: string, status: Option<Status>,
                         vmCount: int, cpuCap: int, memCap: int, lastSeen: Option<int>)

  type Table = map<string, Record>

  const MAX_ID_LENGTH := 128
  const ZERO_TIME := 0
  const NANOS_PER_SECOND := 1_000_000_000
  const SUSPECT_TIMEOUT := 15 * NANOS_PER_SECOND
  const DEAD_TIMEOUT := 30 * NANOS_PER_SECOND

  predicate IdChar(c: char) {
    'A' <= c <= 'Z' || 'a' <= c <= 'z' || '0' <= c <= '9' || c in "._:-"
  }

  predicate ValidId(id: string) {
    1 <= |id| <= MAX_ID_LENGTH && forall i | 0 <= i < |id| :: IdChar(id[i])
  }

  function FirstIndex(s: string, c: char): (i: int)
    ensures -1 <= i < |s| && (i < 0 <==> c !in s) && (i >= 0 ==> s[i] == c && c !in s[..i])
  {
    if s == [] then -1
    else if s[0] == c then 0
    else
      var rest := FirstIndex(s[1..], c);
      assert s == [s[0]] + s[1..] && (rest >= 0 ==> s[..rest + 1] == [s[0]] + s[1..][..rest]);
      if rest < 0 then -1 else rest + 1
  }

  function LastIndex(s: string, c: char): (i: int)
    ensures -1 <= i < |s| && (i < 0 <==> c !in s) && (i >= 0 ==> s[i] == c && c !in s[i + 1..])
  {
    if s == [] then -1
    else if s[|s| - 1] == c then |s| - 1
    else
      var i := LastIndex(s[..|s| - 1], c);
      assert s == s[..|s| - 1] + [s[|s| - 1]];
      assert i >= 0 ==> s[i + 1..] == s[..|s| - 1][i + 1..] + [s[|s| - 1]];
      i
  }

  /** Host and port of "host:port" or "[host]:port", as Go's net.SplitHostPort reads it. */
  function SplitHostPort(s: string): Option<(string, string)> {
    var i := LastIndex(s, ':');
    if i < 0 then None
    else if s[0] == '[' then
      var end := FirstIndex(s, ']');
      if end < 0 || end + 1 != i then None
      else if '[' in s[1..] || ']' in s[i..] then None
      else Some((s[1..end], s[i + 1..]))
    else if ':' in s[..i] || '[' in s || ']' in s then None
    else Some((s[..i], s[i + 1..]))
  }

  predicate Plain(s: string) { ':' !in s && '[' !in s && ']' !in s }

  /** host:port and [host]:port read back; the host in brackets may have colons. */
  lemma HostPortReads(host: string, port: string)
    requires Plain(port)
    ensures Plain(host) ==> SplitHostPort(host + ":" + port) == Some((host, port))
    ensures '[' !in host && ']' !in host ==> SplitHostPort("[" + host + "]:" + port) == Some((host, port))
  {
    hide SplitHostPort;
    if Plain(host) { PlainReads(host, port); }
    if '[' !in host && ']' !in host { BracketReads(host, port); }
  }

  /** And nothing else reads as host and port. */
  lemma HostPortExactly(s: string, host: string, port: string)
    ensures SplitHostPort(s) == Some((host, port)) <==>
      && Plain(port)
      && (|| (Plain(host) && s == host + ":" + port)
          || ('[' !in host && ']' !in host && s == "[" + host + "]:" + port))
    ensures Plain(host) && Plain(port) ==> (ValidAddr(host + ":" + port) <==> host != "" && port != "")
  {
    if Plain(port) { HostPortReads(host, port); }
    if SplitHostPort(s) == Some((host, port)) { PartsOf(s, host, port); }
  }

  lemma PartsOf(s: string, host: string, port: string)
    requires SplitHostPort(s) == Some((host, port))
    ensures Plain(port)
    ensures (Plain(host) && s == host + ":" + port)
         || ('[' !in host && ']' !in host && s == "[" + host + "]:" + port)
  {
    hide FirstIndex, LastIndex;
    var i := LastIndex(s, ':');
    assert s == s[..i] + ":" + s[i + 1..];
    if s[0] == '[' {
      var end := FirstIndex(s, ']');
      assert s[..end] == [s[0]] + s[1..end] && s[1..] == s[1..end] + s[end..i] + s[i..];
      assert s[i..] == [s[i]] + s[i + 1..] && s[1..] == s[1..i + 1] + s[i + 1..];
      assert s[..i] == "[" + host + "]";
    } else {
      assert s == s[..i] + s[i..] && s[i..] == [s[i]] + s[i + 1..];
    }
  }

  lemma PlainReads(host: string, port: string)
    requires Plain(port) && Plain(host)
    ensures SplitHostPort(host + ":" + port) == Some((host, port))
  {
    hide FirstIndex, LastIndex;
    var s := host + ":" + port;
    assert s[|host| + 1..] == port && s[..|host|] == host;
    LastIs(s, ':', |host|);
  }

  lemma BracketReads(host: string, port: string)
    requires Plain(port) && '[' !in host && ']' !in host
    ensures SplitHostPort("[" + host + "]:" + port) == Some((host, port))
  {
    hide FirstIndex, LastIndex;
    var s, n := "[" + host + "]:" + port, |host|;
    assert s[n + 3..] == port && s[..n + 1] == "[" + host && s[1..n + 1] == host;
    LastIs(s, ':', n + 2);
    FirstIs(s, ']', n + 1);
    assert s[1..] == host + "]:" + port && s[n + 2..] == ":" + port;
  }

  lemma LastIs(s: string, c: char, i: nat)
    requires i < |s| && s[i] == c && c !in s[i + 1..]
    ensures LastIndex(s, c) == i
  {
    var k := LastIndex(s, c);
    hide LastIndex;
    assert s[i] in s;
  }

  lemma FirstIs(s: string, c: char, i: nat)
    requires i < |s| && s[i] == c && c !in s[..i]
    ensures FirstIndex(s, c) == i
  {
    var k := FirstIndex(s, c);
    hide FirstIndex;
    assert s[i] in s;
  }

  predicate ValidAddr(addr: string) {
    var hp := SplitHostPort(addr);
    hp.Some? && hp.value.0 != "" && hp.value.1 != ""
  }

  predicate ValidNames(id: string, addr: string) {
    ValidId(id) && ValidAddr(addr)
  }

  predicate ValidEntry(e: Entry) {
    ValidNames(e.id, e.addr) && e.status.Some?
  }

  function EntryTime(e: Entry): int {
    if e.lastSeen.Some? then e.lastSeen.value else ZERO_TIME
  }

  // ----- Merging a payload

  function NewRecord(e: Entry): Record
    requires e.status.Some?
  {
    Record(e.id, e.addr, e.status.value, e.vmCount, e.cpuCap, e.memCap, EntryTime(e))
  }

  function MergeRecord(m: Record, e: Entry): Record
    requires e.status.Some?
  {
    var m1 :=
      if e.status.value.Terminal() then m.(status := e.status.value)
      else if EntryTime(e) > m.lastSeen then
        m.(addr := e.addr, vmCount := e.vmCount, cpuCap := e.cpuCap, memCap := e.memCap,
           lastSeen := EntryTime(e))
      else m;
    if e.status.value.Alive? && m1.status.Suspect? then m1.(status := Alive) else m1
  }

  function MergeEntry(self: string, t: Table, e: Entry): Table {
    if e.id == self || !ValidEntry(e) then t
    else if e.id !in t then t[e.id := NewRecord(e)]
    else t[e.id := MergeRecord(t[e.id], e)]
  }

  function Merge(self: string, t: Table, es: seq<Entry>): Table
    decreases |es|
  {
    if es == [] then t
    else MergeEntry(self, Merge(self, t, es[..|es| - 1]), es[|es| - 1])
  }

  // ----- The other steps of a node

  function Touch(t: Table, sender: string, now: int): Table {
    if sender in t then t[sender := t[sender].(lastSeen := now)] else t
  }

  /** Hearing from a member directly also clears a suspicion. */
  function HeardFrom(t: Table, sender: string, now: int): Table {
    if sender !in t then t
    else if t[sender].status.Suspect? then t[sender := t[sender].(lastSeen := now, status := Alive)]
    else Touch(t, sender, now)
  }

  /** The table after HandleGossip: merge, then hear from the sender. */
  function Handled(self: string, t: Table, sender: string, es: seq<Entry>, now: int): Table {
    HeardFrom(Merge(self, t, es), sender, now)
  }

  /** The table after doGossip's reply: merge, then note that the replier was seen. */
  function Finished(self: string, t: Table, sender: string, es: seq<Entry>, now: int): Table {
    Touch(Merge(self, t, es), sender, now)
  }

  function SweepRecord(m: Record, now: int, suspTimeout: int, deadTimeout: int): Record {
    var m1 := if m.status.Alive? && now - m.lastSeen > suspTimeout then m.(status := Suspect) else m;
    if m1.status.Suspect? && now - m1.lastSeen > deadTimeout then m1.(status := Dead) else m1
  }

  function Swept(self: string, t: Table, now: int, suspTimeout: int, deadTimeout: int): Table {
    map x | x in t :: if x == self then t[x] else SweepRecord(t[x], now, suspTimeout, deadTimeout)
  }

  function SuspectRecord(m: Record, addr: string): Record {
    if m.addr == addr && m.status.Alive? then m.(status := Suspect) else m
  }

  function MarkedSuspect(self: string, t: Table, addr: string): Table {
    map x | x in t :: if x == self then t[x] else SuspectRecord(t[x], addr)
  }

  function LeftBy(self: string, t: Table): Table {
    if self in t then t[self := t[self].(status := Left)] else t
  }

  function Updated(self: string, t: Table, vmCount: int, cpuCap: int, memCap: int, now: int): Table {
    if self in t
    then t[self := t[self].(vmCount := vmCount, cpuCap := cpuCap, memCap := memCap, lastSeen := now)]
    else t
  }

  /** RFC 3339 time stamps carry whole seconds. */
  function ToEntry(m: Record): Entry {
    Entry(m.id, m.addr, Some(m.status), m.vmCount, m.cpuCap, m.memCap,
          Some(m.lastSeen / NANOS_PER_SECOND * NANOS_PER_SECOND))
  }

  /** es lists every member of t, in some map iteration order. */
  ghost predicate IsListing(es: seq<Entry>, t: Table) {
    && (forall i | 0 <= i < |es| :: es[i].id in t && es[i] == ToEntry(t[es[i].id]))
    && (forall x | x in t :: ToEntry(t[x]) in es)
  }

  /** What every run keeps of a node's table: the node is in it, records are filed
      under their own ID, and everything learnt from gossip passed validEntry. */
  ghost predicate WellFormed(self: string, t: Table) {
    && self in t
    && (forall x | x in t :: t[x].id == x)
    && (forall x | x in t && x != self :: ValidNames(x, t[x].addr))
  }

  // ----- One member's view of a merge

  predicate Relevant(self: string, x: string, e: Entry) {
    e.id == x && x != self && ValidEntry(e)
  }

  function Slot(t: Table, x: string): Option<Record> {
    if x in t then Some(t[x]) else None
  }

  function RecordStatus(o: Option<Record>): Option<Status> {
    if o.None? then None else Some(o.value.status)
  }

  function StatusOf(t: Table, x: string): Option<Status> {
    RecordStatus(Slot(t, x))
  }

  function FoldSlot(self: string, x: string, o: Option<Record>, es: seq<Entry>): Option<Record>
    decreases |es|
  {
    if es == [] then o
    else
      var before := FoldSlot(self, x, o, es[..|es| - 1]);
      var e := es[|es| - 1];
      if !Relevant(self, x, e) then before
      else if before.None? then Some(NewRecord(e))
      else Some(MergeRecord(before.value, e))
  }

  /** A merge acts on each member separately, through the entries that name it. */
  lemma {:induction false} MergeIsPointwise(self: string, t: Table, es: seq<Entry>, x: string)
    ensures Slot(Merge(self, t, es), x) == FoldSlot(self, x, Slot(t, x), es)
    decreases |es|
  {
    if es == [] {
    } else {
      MergeIsPointwise(self, t, es[..|es| - 1], x);
    }
  }

  // ----- The join

  /** absent < suspect < alive < {dead, left} */
  function Rank(o: Option<Status>): nat {
    match o
    case None => 0
    case Some(Suspect) => 1
    case Some(Alive) => 2
    case Some(_) => 3
  }

  function RecordRank(o: Option<Record>): nat {
    Rank(RecordStatus(o))
  }

  /** r is the least upper bound of base and of the ranks of the entries for x. */
  ghost predicate IsLub(self: string, x: string, base: nat, es: seq<Entry>, r: nat) {
    && base <= r
    && (forall i | 0 <= i < |es| && Relevant(self, x, es[i]) :: Rank(es[i].status) <= r)
    && (r == base || exists i | 0 <= i < |es| :: Relevant(self, x, es[i]) && Rank(es[i].status) == r)
  }

  lemma {:induction false} FoldIsLub(self: string, x: string, o: Option<Record>, es: seq<Entry>)
    ensures IsLub(self, x, RecordRank(o), es, RecordRank(FoldSlot(self, x, o, es)))
    decreases |es|
  {
    hide ValidNames;
    assert IsLub(self, x, RecordRank(o), [], RecordRank(o));
    hide IsLub;
    if es == [] {
    } else {
      var front := es[..|es| - 1];
      FoldIsLub(self, x, o, front);
      OneMoreEntry(self, x, RecordRank(o), es, RecordRank(FoldSlot(self, x, o, front)));
    }
  }

  lemma OneMoreEntry(self: string, x: string, base: nat, es: seq<Entry>, r: nat)
    requires es != [] && IsLub(self, x, base, es[..|es| - 1], r)
    ensures var e := es[|es| - 1];
      IsLub(self, x, base, es, if Relevant(self, x, e) && Rank(e.status) > r then Rank(e.status) else r)
  {
    hide Relevant, Rank;
    var front := es[..|es| - 1];
    assert forall i | 0 <= i < |front| :: es[i] == front[i];
    if r != base {
      var i :| 0 <= i < |front| && Relevant(self, x, front[i]) && Rank(front[i].status) == r;
      assert Relevant(self, x, es[i]) && Rank(es[i].status) == r;
    }
  }

  /** Merging any batch leaves each non-local member's class at the least upper bound
      of its old class and of all valid entries for it. */
  lemma MergeIsJoin(self: string, t: Table, es: seq<Entry>, x: string)
    ensures IsLub(self, x, Rank(StatusOf(t, x)), es, Rank(StatusOf(Merge(self, t, es), x)))
  {
    MergeIsPointwise(self, t, es, x);
    FoldIsLub(self, x, Slot(t, x), es);
  }

  ghost predicate SameEntries(es: seq<Entry>, fs: seq<Entry>) {
    (forall i | 0 <= i < |es| :: es[i] in fs) && (forall i | 0 <= i < |fs| :: fs[i] in es)
  }

  /** So the class does not depend on entry order or duplication. */
  lemma MergeOrderFree(self: string, t: Table, es: seq<Entry>, fs: seq<Entry>, x: string)
    requires SameEntries(es, fs)
    ensures Rank(StatusOf(Merge(self, t, es), x)) == Rank(StatusOf(Merge(self, t, fs), x))
  {
    MergeIsJoin(self, t, es, x);
    MergeIsJoin(self, t, fs, x);
  }

  lemma {:induction false} MergeAppend(self: string, t: Table, es: seq<Entry>, fs: seq<Entry>)
    ensures Merge(self, t, es + fs) == Merge(self, Merge(self, t, es), fs)
    decreases |fs|
  {
    if fs == [] {
      assert es + fs == es;
    } else {
      assert (es + fs)[..|es + fs| - 1] == es + fs[..|fs| - 1];
      MergeAppend(self, t, es, fs[..|fs| - 1]);
    }
  }

  /** Payloads handled in either order leave every member in the same class. */
  lemma MergesCommute(self: string, t: Table, es: seq<Entry>, fs: seq<Entry>, x: string)
    ensures Rank(StatusOf(Merge(self, Merge(self, t, es), fs), x))
         == Rank(StatusOf(Merge(self, Merge(self, t, fs), es), x))
  {
    MergeAppend(self, t, es, fs);
    MergeAppend(self, t, fs, es);
    MergeOrderFree(self, t, es + fs, fs + es, x);
  }

  // ----- Terminal statuses and times

  predicate TerminalFor(self: string, x: string, e: Entry) {
    Relevant(self, x, e) && e.status.value.Terminal()
  }

  /** i is the last entry of es that declares x dead or left. */
  ghost predicate LastTerminal(self: string, x: string, es: seq<Entry>, i: nat) {
    i < |es| && TerminalFor(self, x, es[i]) && forall k | i < k < |es| :: !TerminalFor(self, x, es[k])
  }

  /** Between dead and left the last declaration wins. */
  lemma {:induction false} LastTerminalWins(self: string, x: string, o: Option<Record>, es: seq<Entry>, i: nat)
    requires LastTerminal(self, x, es, i)
    ensures FoldSlot(self, x, o, es).Some?
    ensures Some(FoldSlot(self, x, o, es).value.status) == es[i].status
    decreases |es|
  {
    var front := es[..|es| - 1];
    if i == |front| {
    } else {
      assert LastTerminal(self, x, front, i);
      LastTerminalWins(self, x, o, front, i);
    }
  }

  /** Times only grow, to the latest non-terminal entry or the old value. */
  lemma {:induction false} FoldTimes(self: string, x: string, o: Option<Record>, es: seq<Entry>)
    ensures var r := FoldSlot(self, x, o, es);
      && (o.Some? ==> r.Some? && r.value.lastSeen >= o.value.lastSeen)
      && (forall i | 0 <= i < |es| && Relevant(self, x, es[i]) && !es[i].status.value.Terminal() ::
            r.Some? && r.value.lastSeen >= EntryTime(es[i]))
    decreases |es|
  {
    hide ValidNames;
    if es == [] {
    } else {
      var front := es[..|es| - 1];
      FoldTimes(self, x, o, front);
      assert forall i | 0 <= i < |front| :: es[i] == front[i];
    }
  }

  lemma LastSeenNeverDecreases(self: string, t: Table, es: seq<Entry>, x: string)
    requires x in t
    ensures x in Merge(self, t, es)
    ensures Merge(self, t, es)[x].lastSeen >= t[x].lastSeen
  {
    MergeIsPointwise(self, t, es, x);
    FoldTimes(self, x, Slot(t, x), es);
  }

  /** The same address, load and time. */
  ghost predicate SameInfo(r: Record, m: Record) {
    r.addr == m.addr && r.vmCount == m.vmCount && r.cpuCap == m.cpuCap && r.memCap == m.memCap
    && r.lastSeen == m.lastSeen
  }

  /** The address, load and time that e tells. */
  ghost predicate InfoOf(r: Record, e: Entry) {
    r.addr == e.addr && r.vmCount == e.vmCount && r.cpuCap == e.cpuCap && r.memCap == e.memCap
    && r.lastSeen == EntryTime(e)
  }

  ghost predicate Told(self: string, x: string, es: seq<Entry>, r: Record) {
    exists i | 0 <= i < |es| :: Relevant(self, x, es[i]) && InfoOf(r, es[i])
  }

  lemma {:induction false} FoldInfo(self: string, x: string, o: Option<Record>, es: seq<Entry>)
    ensures var r := FoldSlot(self, x, o, es);
      && (r.Some? <==> o.Some? || exists i | 0 <= i < |es| :: Relevant(self, x, es[i]))
      && (r.Some? ==> r.value.id == (if o.Some? then o.value.id else x))
      && (r.Some? && o.Some? && r.value.lastSeen == o.value.lastSeen ==> SameInfo(r.value, o.value))
      && (r.Some? && !(o.Some? && SameInfo(r.value, o.value)) ==> Told(self, x, es, r.value))
    decreases |es|
  {
    hide ValidNames;
    if es == [] {
    } else {
      var front, e := es[..|es| - 1], es[|es| - 1];
      FoldInfo(self, x, o, front);
      FoldTimes(self, x, o, front);
      assert forall i | 0 <= i < |front| :: es[i] == front[i];
      assert Relevant(self, x, e) ==> es[|es| - 1] == e;
    }
  }

  /** What a merge leaves of another member's address and load is what it had, or what some entry
      tells; the time that goes with it is no older than anything heard alive, and at an unchanged
      time nothing changes. */
  lemma MergeNewest(self: string, t: Table, es: seq<Entry>, x: string)
    requires x != self
    ensures var u := Merge(self, t, es);
      && (x in u <==> x in t || exists i | 0 <= i < |es| :: Relevant(self, x, es[i]))
      && (x in u ==> u[x].id == if x in t then t[x].id else x)
      && (x in u && x in t && u[x].lastSeen == t[x].lastSeen ==> SameInfo(u[x], t[x]))
      && (x in u && !(x in t && SameInfo(u[x], t[x])) ==> Told(self, x, es, u[x]))
      && (forall i | 0 <= i < |es| && Relevant(self, x, es[i]) && !es[i].status.value.Terminal() ::
            u[x].lastSeen >= EntryTime(es[i]))
  {
    hide ValidNames, Told, SameInfo;
    MergeIsPointwise(self, t, es, x);
    FoldInfo(self, x, Slot(t, x), es);
    FoldTimes(self, x, Slot(t, x), es);
  }

  /** Nothing in es can still change r, except for flipping between dead and left. */
  ghost predicate Saturated(self: string, x: string, r: Record, es: seq<Entry>) {
    forall i | 0 <= i < |es| && Relevant(self, x, es[i]) ::
      && Rank(es[i].status) <= Rank(Some(r.status))
      && (!es[i].status.value.Terminal() ==> EntryTime(es[i]) <= r.lastSeen)
  }

  lemma {:induction false} SaturatedFold(self: string, x: string, r: Record, es: seq<Entry>)
    requires Saturated(self, x, r, es)
    ensures var f := FoldSlot(self, x, Some(r), es);
      f.Some? && f.value == r.(status := f.value.status)
    ensures var f := FoldSlot(self, x, Some(r), es).value;
      if exists i: nat :: LastTerminal(self, x, es, i)
      then r.status.Terminal() && f.status.Terminal() else f.status == r.status
    decreases |es|
  {
    hide ValidNames;
    if es == [] {
    } else {
      var front := es[..|es| - 1];
      assert forall i | 0 <= i < |front| :: es[i] == front[i];
      SaturatedFold(self, x, r, front);
      if TerminalFor(self, x, es[|es| - 1]) {
        assert LastTerminal(self, x, es, |es| - 1);
      } else {
        forall i: nat ensures LastTerminal(self, x, es, i) <==> LastTerminal(self, x, front, i) {
          if LastTerminal(self, x, front, i) {
            assert forall k | i < k < |es| :: !TerminalFor(self, x, es[k]) by {
              forall k | i < k < |es| ensures !TerminalFor(self, x, es[k]) {
                if k < |front| { assert es[k] == front[k]; }
              }
            }
          }
        }
      }
    }
  }

  lemma FoldTwice(self: string, x: string, o: Option<Record>, es: seq<Entry>)
    ensures FoldSlot(self, x, FoldSlot(self, x, o, es), es) == FoldSlot(self, x, o, es)
  {
    var once := FoldSlot(self, x, o, es);
    FoldIsLub(self, x, o, es);
    FoldTimes(self, x, o, es);
    if once.None? {
      FoldIsLub(self, x, once, es);
    } else {
      assert Saturated(self, x, once.value, es);
      SaturatedFold(self, x, once.value, es);
      if i: nat :| LastTerminal(self, x, es, i) {
        LastTerminalWins(self, x, o, es, i);
        LastTerminalWins(self, x, once, es, i);
      }
    }
  }

  /** Merging twice equals merging once, on every field of every record. */
  lemma MergeIdempotent(self: string, t: Table, es: seq<Entry>)
    ensures Merge(self, Merge(self, t, es), es) == Merge(self, t, es)
  {
    var once := Merge(self, t, es);
    var twice := Merge(self, once, es);
    forall x ensures Slot(twice, x) == Slot(once, x) {
      MergeIsPointwise(self, t, es, x);
      MergeIsPointwise(self, once, es, x);
      FoldTwice(self, x, Slot(t, x), es);
    }
    assert forall x :: x in twice <==> x in once by {
      forall x ensures x in twice <==> x in once { assert Slot(twice, x) == Slot(once, x); }
    }
    forall x | x in twice ensures twice[x] == once[x] { assert Slot(twice, x) == Slot(once, x); }
  }

  // ----- One exchange

  /** The status of x after hearing s from one peer. */
  function Heard(o: Option<Status>, s: Option<Status>): Option<Status> {
    if s.None? then o
    else if s.value.Terminal() || o.None? then s
    else if o.value.Suspect? && s.value.Alive? then s
    else o
  }

  lemma {:induction false} FoldListing(self: string, x: string, o: Option<Record>, es: seq<Entry>, s: Option<Status>)
    requires forall i | 0 <= i < |es| && Relevant(self, x, es[i]) :: es[i].status == s
    ensures RecordStatus(FoldSlot(self, x, o, es))
         == if exists i | 0 <= i < |es| :: Relevant(self, x, es[i])
            then Heard(RecordStatus(o), s) else RecordStatus(o)
    decreases |es|
  {
    hide ValidNames;
    if es == [] {
    } else {
      var front := es[..|es| - 1];
      assert forall i | 0 <= i < |front| :: es[i] == front[i];
      FoldListing(self, x, o, front, s);
      if Relevant(self, x, es[|es| - 1]) {
      } else if i :| 0 <= i < |es| && Relevant(self, x, es[i]) {
        assert Relevant(self, x, front[i]);
      }
    }
  }

  /** A listed table is heard member by member. */
  lemma MergeListing(self: string, t: Table, peer: string, u: Table, es: seq<Entry>, x: string)
    requires WellFormed(peer, u) && IsListing(es, u)
    requires x != self && x != peer
    ensures StatusOf(Merge(self, t, es), x) == Heard(StatusOf(t, x), StatusOf(u, x))
  {
    MergeIsPointwise(self, t, es, x);
    FoldListing(self, x, Slot(t, x), es, StatusOf(u, x));
    if x in u {
      var i :| 0 <= i < |es| && es[i] == ToEntry(u[x]);
      assert Relevant(self, x, es[i]);
    }
  }

  /** One complete exchange: node i lists its table ti, j merges that and lists the result, and i,
      whose table is later by then, merges the reply. The two then hold the same status for a
      third member exactly when i has not meanwhile learnt of a higher class. */
  lemma ExchangeAgreesExactly(i: string, ti: Table, later: Table, j: string, tj: Table,
                              push: seq<Entry>, reply: seq<Entry>, heardAt: int, repliedAt: int, x: string)
    requires i != j && WellFormed(i, ti) && WellFormed(j, tj)
    requires IsListing(push, ti) && IsListing(reply, Handled(j, tj, i, push, heardAt))
    requires x != i && x != j
    ensures var told := Heard(StatusOf(tj, x), StatusOf(ti, x));
      && StatusOf(Handled(j, tj, i, push, heardAt), x) == told
      && StatusOf(Finished(i, later, j, reply, repliedAt), x) == Heard(StatusOf(later, x), told)
      && (StatusOf(Finished(i, later, j, reply, repliedAt), x) == StatusOf(Handled(j, tj, i, push, heardAt), x)
          <==> Rank(StatusOf(later, x)) <= Rank(told))
  {
    hide Merge, WellFormed, IsListing;
    var tj' := Handled(j, tj, i, push, heardAt);
    MergeListing(j, tj, i, ti, push, x);
    HandledKeepsForm(j, tj, i, push, heardAt);
    MergeListing(i, later, j, tj', reply, x);
  }

  /** So when nothing else happens to i in between, they agree, whatever they held before. */
  lemma ExchangeAgrees(i: string, ti: Table, j: string, tj: Table,
                       push: seq<Entry>, reply: seq<Entry>, heardAt: int, repliedAt: int, x: string)
    requires i != j && WellFormed(i, ti) && WellFormed(j, tj)
    requires IsListing(push, ti) && IsListing(reply, Handled(j, tj, i, push, heardAt))
    requires x != i && x != j
    ensures StatusOf(Finished(i, ti, j, reply, repliedAt), x)
         == StatusOf(Handled(j, tj, i, push, heardAt), x)
         == Heard(StatusOf(tj, x), StatusOf(ti, x))
  {
    hide Merge, WellFormed, IsListing, Handled, Finished;
    ExchangeAgreesExactly(i, ti, ti, j, tj, push, reply, heardAt, repliedAt, x);
  }

  // ----- What the other steps do to one member

  /** A sweep changes nothing but the status of other members: dead after the one silence, suspect
      after the other. */
  lemma SweepSays(self: string, t: Table, now: int, suspTimeout: int, deadTimeout: int, x: string)
    requires 0 <= suspTimeout <= deadTimeout
    ensures var u := Swept(self, t, now, suspTimeout, deadTimeout);
      && u.Keys == t.Keys
      && (x in t ==>
            var m, silence := t[x], now - t[x].lastSeen;
            && u[x] == m.(status := u[x].status)
            && (x == self || m.status.Terminal() || silence <= suspTimeout ==> u[x].status == m.status)
            && (x != self && !m.status.Terminal() && silence > deadTimeout ==> u[x].status == Dead)
            && (x != self && m.status.Alive? && suspTimeout < silence <= deadTimeout ==> u[x].status == Suspect)
            && (x != self && m.status.Suspect? && silence <= deadTimeout ==> u[x].status == Suspect))
  {
  }

  /** Hearing from a member, in a gossip or in a reply, touches that member only: its time, and in a
      gossip a suspicion of it. */
  lemma HearingSays(t: Table, sender: string, now: int, x: string)
    ensures var u, v := HeardFrom(t, sender, now), Touch(t, sender, now);
      && u.Keys == t.Keys == v.Keys
      && (x in t && x != sender ==> u[x] == t[x] == v[x])
      && (sender in t ==>
            && v[sender] == t[sender].(lastSeen := now)
            && u[sender].lastSeen == now && u[sender] == t[sender].(lastSeen := now, status := u[sender].status)
            && u[sender].status == if t[sender].status == Suspect then Alive else t[sender].status)
  {
  }

  /** A gossip that failed makes the other alive members at the address suspect. Leaving sets the
      node's own status, and an update its load and time; neither touches anyone else. */
  lemma LocalSays(self: string, t: Table, addr: string, vmCount: int, cpuCap: int, memCap: int, now: int, x: string)
    requires self in t
    ensures var u := MarkedSuspect(self, t, addr);
      && u.Keys == t.Keys
      && (x in t ==> u[x] == t[x].(status := u[x].status))
      && (x in t && x != self && t[x].addr == addr && t[x].status == Alive ==> u[x].status == Suspect)
      && (x in t && (x == self || t[x].addr != addr || t[x].status != Alive) ==> u[x] == t[x])
    ensures var u := LeftBy(self, t);
      && u.Keys == t.Keys && u[self].status == Left && u[self] == t[self].(status := Left)
      && (x in t && x != self ==> u[x] == t[x])
    ensures var u := Updated(self, t, vmCount, cpuCap, memCap, now);
      && u.Keys == t.Keys
      && u[self].status == t[self].status && u[self].addr == t[self].addr && u[self].id == t[self].id
      && u[self].vmCount == vmCount && u[self].cpuCap == cpuCap && u[self].memCap == memCap && u[self].lastSeen == now
      && (x in t && x != self ==> u[x] == t[x])
  {
  }

  /** A listed member arrives at a node that does not know it as it is, with its time cut to whole
      seconds. */
  lemma EntryCarries(m: Record)
    ensures var e := ToEntry(m);
      && e.id == m.id && e.addr == m.addr && e.status == Some(m.status)
      && e.vmCount == m.vmCount && e.cpuCap == m.cpuCap && e.memCap == m.memCap
      && EntryTime(e) <= m.lastSeen < EntryTime(e) + NANOS_PER_SECOND && EntryTime(e) % NANOS_PER_SECOND == 0
    ensures NewRecord(ToEntry(m)) == m.(lastSeen := EntryTime(ToEntry(m)))
  {
  }

  // ----- What the steps keep

  lemma {:induction false} MergeKeepsForm(self: string, t: Table, es: seq<Entry>)
    requires WellFormed(self, t)
    ensures WellFormed(self, Merge(self, t, es))
    ensures Merge(self, t, es)[self] == t[self]
    decreases |es|
  {
    hide ValidNames;
    if es == [] {
    } else {
      MergeKeepsForm(self, t, es[..|es| - 1]);
    }
  }

  lemma HandledKeepsForm(self: string, t: Table, sender: string, es: seq<Entry>, now: int)
    requires WellFormed(self, t)
    ensures WellFormed(self, Handled(self, t, sender, es, now))
  {
    MergeKeepsForm(self, t, es);
  }
}
