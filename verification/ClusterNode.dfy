/** The cluster node of internal/cluster/cluster.go as an object: the member cells
    are shared between `local` and `members`, and every method is tied to the table
    function that specifies it. */
module ClusterNode {
  import opened Options
  import opened Membership

  class Member {
    const id: string
    var addr: string
    var status: Status
    var vmCount: int
    var cpuCap: int
    var memCap: int
    var lastSeen: int

    constructor (m: Record)
      ensures View() == m
    {
      id, addr, status := m.id, m.addr, m.status;
      vmCount, cpuCap, memCap, lastSeen := m.vmCount, m.cpuCap, m.memCap, m.lastSeen;
    }

    ghost function View(): Record
      reads this
    {
      Record(id, addr, status, vmCount, cpuCap, memCap, lastSeen)
    }
  }

  lemma MergeStep(self: string, t: Table, es: seq<Entry>, n: nat)
    requires n < |es|
    ensures Merge(self, t, es[..n + 1]) == MergeEntry(self, Merge(self, t, es[..n]), es[n])
  {
    hide MergeEntry;
    assert es[..n + 1][..n] == es[..n];
  }

  class SwimCluster {
    const local: Member
    var members: map<string, Member>
    const suspTimeout: int
    const deadTimeout: int

    /** local is the very cell filed under its own ID. */
    ghost predicate Valid()
      reads this, members.Values
    {
      && local.id in members && members[local.id] == local
      && forall x | x in members :: members[x].id == x
    }

    ghost function Table(): Membership.Table
      reads this, members.Values
    {
      map x | x in members :: members[x].View()
    }

    constructor (id: string, addr: string, vmCount: int, cpuCap: int, memCap: int)
      ensures Valid() && fresh(members.Values) && local.id == id
      ensures Table() == map[id := Record(id, addr, Alive, vmCount, cpuCap, memCap, ZERO_TIME)]
      ensures suspTimeout == SUSPECT_TIMEOUT == 15_000_000_000 && deadTimeout == DEAD_TIMEOUT == 30_000_000_000
    {
      var cell := new Member(Record(id, addr, Alive, vmCount, cpuCap, memCap, ZERO_TIME));
      local := cell;
      members := map[id := cell];
      suspTimeout, deadTimeout := SUSPECT_TIMEOUT, DEAD_TIMEOUT;
    }

    /** mergeEntriesLocked */
    method MergeEntries(entries: seq<Entry>)
      requires Valid()
      modifies this, members.Values
      ensures Valid() && fresh(members.Values - old(members.Values))
      ensures Table() == Merge(local.id, old(Table()), entries)
    {
      for n := 0 to |entries|
        invariant Valid() && fresh(members.Values - old(members.Values))
        invariant Table() == Merge(local.id, old(Table()), entries[..n])
      {
        hide Merge, MergeEntry;
        MergeStep(local.id, old(Table()), entries, n);
        MergeOne(entries[n]);
      }
      assert entries[..|entries|] == entries;
    }

    /** The body of its loop. */
    method MergeOne(e: Entry)
      requires Valid()
      modifies this, members.Values
      ensures Valid() && fresh(members.Values - old(members.Values))
      ensures Table() == MergeEntry(local.id, old(Table()), e)
    {
      hide ValidNames, MergeRecord;
      if e.id != local.id && ValidEntry(e) {
        if e.id !in members {
          var cell := new Member(NewRecord(e));
          members := members[e.id := cell];
          assert Table() == old(Table())[e.id := NewRecord(e)];
        } else {
          MergeInto(members[e.id], e);
          assert Table() == old(Table())[e.id := MergeRecord(old(Table())[e.id], e)];
        }
      }
    }

    static method MergeInto(existing: Member, e: Entry)
      requires e.status.Some?
      modifies existing
      ensures existing.View() == MergeRecord(old(existing.View()), e)
    {
      var entryTime := EntryTime(e);
      if e.status.value == Dead || e.status.value == Left {
        existing.status := e.status.value;
      } else if entryTime > existing.lastSeen {
        existing.addr := e.addr;
        existing.vmCount := e.vmCount;
        existing.cpuCap := e.cpuCap;
        existing.memCap := e.memCap;
        existing.lastSeen := entryTime;
      }
      if e.status.value == Alive && existing.status == Suspect {
        existing.status := Alive;
      }
    }

    /** toEntriesLocked: the listing comes in some map iteration order. */
    method ToEntries() returns (entries: seq<Entry>)
      requires Valid()
      ensures IsListing(entries, Table()) && |entries| == |Table()|
    {
      entries := [];
      var todo := members.Keys;
      while todo != {}
        invariant todo <= members.Keys
        invariant forall i | 0 <= i < |entries| ::
          entries[i].id in members.Keys - todo && entries[i] == ToEntry(members[entries[i].id].View())
        invariant forall x | x in members.Keys - todo :: ToEntry(members[x].View()) in entries
        invariant |entries| + |todo| == |members.Keys|
      {
        var x :| x in todo;
        var m := members[x];
        entries := entries + [Entry(m.id, m.addr, Some(m.status), m.vmCount, m.cpuCap, m.memCap,
                                    Some(m.lastSeen / NANOS_PER_SECOND * NANOS_PER_SECOND))];
        todo := todo - {x};
      }
      assert Table().Keys == members.Keys;
    }

    method HandleGossip(sender: string, entries: seq<Entry>, now: int) returns (reply: seq<Entry>)
      requires Valid()
      modifies this, members.Values
      ensures Valid() && fresh(members.Values - old(members.Values))
      ensures Table() == Handled(local.id, old(Table()), sender, entries, now)
      ensures IsListing(reply, Table())
    {
      hide Merge, HeardFrom, IsListing;
      MergeEntries(entries);
      ghost var merged := Table();
      HearFrom(sender, now);
      assert Table() == HeardFrom(merged, sender, now);
      reply := ToEntries();
    }

    method HearFrom(sender: string, now: int)
      requires Valid()
      modifies members.Values
      ensures Valid() && members == old(members)
      ensures Table() == HeardFrom(old(Table()), sender, now)
    {
      if sender in members {
        var m := members[sender];
        m.lastSeen := now;
        if m.status == Suspect {
          m.status := Alive;
        }
      }
    }

    /** The tail of doGossip: the reply has arrived. */
    method FinishGossip(sender: string, entries: seq<Entry>, now: int)
      requires Valid()
      modifies this, members.Values
      ensures Valid() && fresh(members.Values - old(members.Values))
      ensures Table() == Finished(local.id, old(Table()), sender, entries, now)
    {
      MergeEntries(entries);
      if sender in members {
        members[sender].lastSeen := now;
      }
    }

    method CheckSuspicions(now: int)
      requires Valid()
      modifies members.Values
      ensures Valid() && members == old(members)
      ensures Table() == Swept(local.id, old(Table()), now, suspTimeout, deadTimeout)
    {
      hide SweepRecord;
      var todo := members.Keys;
      while todo != {}
        invariant Valid() && todo <= members.Keys
        invariant forall x | x in todo :: members[x].View() == old(members[x].View())
        invariant forall x | x in members.Keys - todo ::
          members[x].View() == if x == local.id then old(members[x].View())
                               else SweepRecord(old(members[x].View()), now, suspTimeout, deadTimeout)
      {
        var x :| x in todo;
        var m := members[x];
        if m.id != local.id {
          SweepMember(m, now);
        }
        todo := todo - {x};
      }
    }

    method SweepMember(m: Member, now: int)
      modifies m
      ensures m.View() == SweepRecord(old(m.View()), now, suspTimeout, deadTimeout)
    {
      if m.status == Alive && now - m.lastSeen > suspTimeout {
        m.status := Suspect;
      }
      if m.status == Suspect && now - m.lastSeen > deadTimeout {
        m.status := Dead;
      }
    }

    method MarkSuspect(addr: string)
      requires Valid()
      modifies members.Values
      ensures Valid() && members == old(members)
      ensures Table() == MarkedSuspect(local.id, old(Table()), addr)
    {
      var todo := members.Keys;
      while todo != {}
        invariant Valid() && todo <= members.Keys
        invariant forall x | x in todo :: members[x].View() == old(members[x].View())
        invariant forall x | x in members.Keys - todo ::
          members[x].View() == if x == local.id then old(members[x].View())
                               else SuspectRecord(old(members[x].View()), addr)
      {
        var x :| x in todo;
        var m := members[x];
        if m.addr == addr && m.id != local.id && m.status == Alive {
          m.status := Suspect;
        }
        todo := todo - {x};
      }
    }

    method Leave()
      requires Valid()
      modifies local, members.Values
      ensures Valid() && members == old(members)
      ensures Table() == LeftBy(local.id, old(Table()))
    {
      local.status := Left;
      if local.id in members {
        members[local.id].status := Left;
      }
    }

    method UpdateLocal(vmCount: int, cpuCap: int, memCap: int, now: int)
      requires Valid()
      modifies local
      ensures Valid() && members == old(members)
      ensures Table() == Updated(local.id, old(Table()), vmCount, cpuCap, memCap, now)
    {
      local.vmCount, local.cpuCap, local.memCap, local.lastSeen := vmCount, cpuCap, memCap, now;
    }
  }
}
