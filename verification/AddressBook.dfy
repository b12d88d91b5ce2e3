/**
 The address book as an object. Each method states the table, the addresses in use and the credit it
 leaves in terms of those it found.
 */
module AddressBooks {
  import opened Basics
  import opened Policy
  import opened Book
  import Alloc = Allocation
  import R = Reservoir

  /** The five reservoirs, each offered its bucket but for the entries still to come. */
  ghost predicate Filling(ss: seq<R.Sampler<Addr>>, b: Buckets, budget: nat, rest: set<Addr>)
    reads ss
  {
    && |ss| == 5 && (forall i, j | 0 <= i < j < 5 :: ss[i] != ss[j])
    && forall i | 0 <= i < 5 :: ss[i].Valid() && ss[i].k == Room(i, budget) && ss[i].offered == b.At(i) - rest
  }

  lemma RestLess(bucket: set<Addr>, rest: set<Addr>, a: Addr)
    requires a in rest
    ensures bucket - (rest - {a}) == if a in bucket then bucket - rest + {a} else bucket - rest
  {}

  class AddressBook {
    const capacity: nat
    var entries: Entries
    var active: Active
    var credit: Alloc.Credit

    constructor (capacity: nat)
      ensures entries == map[] && active == map[] && credit == [0, 0, 0] && this.capacity == capacity
    {
      this.capacity := capacity;
      entries, active, credit := map[], map[], [0, 0, 0];
    }

    /** A snapshot is taken in whole, and nothing is in use. */
    method Restore(snapshot: Entries)
      modifies this`entries, this`active
      ensures entries == snapshot && active == map[]
    {
      entries, active := snapshot, map[];
    }

    // ---- Eviction --------------------------------------------------------------------------

    /** Walks the table until it ends or a batch of forgettable entries is found. */
    method WalkTable(now: nat, batch: nat) returns (stale: set<Addr>, sample: seq<Addr>, ghost rest: set<Addr>)
      requires batch >= 1
      ensures Walked(entries, active, now, batch, rest, stale, sample) && (rest == {} || |stale| == batch)
    {
      var unread := entries.Keys;
      var unknown := new R.Sampler<Addr>(batch);
      stale := {};
      WalkStart(entries, active, now, batch);
      while unread != {} && |stale| < batch
        invariant unknown.Valid() && unknown.k == batch && unknown.offered == Untried(entries, active, now) - unread
        invariant Walked(entries, active, now, batch, unread, stale, unknown.items)
        decreases unread
      {
        var a: Addr :| a in unread;
        stale := ReadEntry(now, batch, stale, unknown, unread, a);
        unread := unread - {a};
      }
      sample, rest := unknown.items, unread;
    }

    /** Sorts one entry of the walk: skipped, forgettable, or offered to the sample. */
    method ReadEntry(now: nat, batch: nat, stale: set<Addr>, unknown: R.Sampler<Addr>, ghost unread: set<Addr>, a: Addr)
      returns (stale': set<Addr>)
      requires unknown.Valid() && unknown.k == batch && unknown.offered == Untried(entries, active, now) - unread
      requires Walked(entries, active, now, batch, unread, stale, unknown.items) && a in unread && |stale| < batch
      modifies unknown
      ensures unknown.Valid() && unknown.offered == Untried(entries, active, now) - (unread - {a})
      ensures Walked(entries, active, now, batch, unread - {a}, stale', unknown.items)
    {
      stale' := stale;
      var entry := entries[a];
      var draw: nat := *;
      WalkStep(entries, active, now, batch, unread, stale, unknown.items, a, draw);
      RestLess(Untried(entries, active, now), unread, a);
      if entry.origin.Manual? || a in active {
        return;
      }
      if entry.Forgettable(now) {
        stale' := stale + {a};
      } else if entry.Class().Unknown? {
        unknown.Offer(a, draw);
      }
    }

    /** The victims: the forgettable ones found, made up from the sample. */
    method ChooseVictims(now: nat, batch: nat) returns (victims: set<Addr>)
      requires batch >= 1
      ensures Evicted(entries, active, now, batch, victims)
    {
      var stale, sample, rest := WalkTable(now, batch);
      var extra := ToSet(sample[..Min(batch - |stale|, |sample|)]);
      WalkEnd(entries, active, now, batch, rest, stale, sample, extra);
      victims := stale + extra;
    }

    /** Makes room. Exactly a batch goes, or all that may; the untried only once nothing forgettable is left. */
    method EvictBatch(now: nat) returns (made: bool, ghost gone: set<Addr>)
      modifies this`entries
      ensures Evicted(old(entries), active, now, BatchSize(capacity), gone)
      ensures entries == old(entries) - gone && made == (gone != {})
    {
      var victims := ChooseVictims(now, BatchSize(capacity));
      entries := entries - victims;
      made, gone := victims != {}, victims;
    }

    // ---- Gossip ----------------------------------------------------------------------------

    method Hear(now: nat, g: Gossiped, admits: Addr -> bool) returns (added: bool)
      modifies this`entries
      ensures Heard(old(entries), active, now, capacity, admits, g, entries, added)
    {
      if !admits(g.addr) {
        return false;
      }
      if g.addr in entries {
        entries := entries[g.addr := Refreshed(entries[g.addr], now, g.services)];
        return false;
      }
      var room, gone: set<Addr> := MakeRoom(now);
      added := room;
      if added {
        entries := entries[g.addr := NewEntry(now, g.services, Gossip)];
      }
    }

    method MakeRoom(now: nat) returns (room: bool, ghost gone: set<Addr>)
      modifies this`entries
      ensures if old(|entries|) < capacity then gone == {}
              else Evicted(old(entries), active, now, BatchSize(capacity), gone)
      ensures entries == old(entries) - gone && room == (old(|entries|) < capacity || gone != {})
    {
      room, gone := true, {};
      if |entries| >= capacity {
        room, gone := EvictBatch(now);
      }
    }

    /** A message is heard address by address, and those that get in are counted. It leaves the table no larger
        than it was or than its capacity, and every protected entry in it. */
    method Ingest(now: nat, addrs: seq<Gossiped>, admits: Addr -> bool)
      returns (added: nat, ghost tables: seq<Entries>, ghost news: seq<bool>)
      modifies this`entries
      ensures HeardAll(active, now, capacity, admits, addrs, tables, news)
      ensures tables[0] == old(entries) && tables[|addrs|] == entries && added == Trues(news)
      ensures Bounded(old(entries), active, now, capacity, admits, addrs, entries)
    {
      added, tables, news := 0, [entries], [];
      for i := 0 to |addrs|
        invariant HeardAll(active, now, capacity, admits, addrs[..i], tables, news)
        invariant tables[0] == old(entries) && tables[i] == entries && added == Trues(news)
      {
        var new_ := Hear(now, addrs[i], admits);
        HeardOneMore(active, now, capacity, admits, addrs, i, tables, news, entries, new_);
        TruesOneMore(news, new_);
        added := if new_ then added + 1 else added;
        tables, news := tables + [entries], news + [new_];
      }
      WholePrefix(addrs);
      HeardAllKeeps(active, now, capacity, admits, addrs, tables, news, |addrs|);
    }

    /** The operator's addresses: all of them are in the table afterwards, as the operator's, whatever its size. */
    method InsertManual(now: nat, addrs: seq<Addr>) returns (added: nat)
      modifies this`entries
      ensures entries == Manually(old(entries), now, ToSet(addrs))
      ensures added == |Promoted(old(entries), ToSet(addrs))|
    {
      added := 0;
      for i := 0 to |addrs|
        invariant entries == Manually(old(entries), now, ToSet(addrs[..i]))
        invariant added == |Promoted(old(entries), ToSet(addrs[..i]))|
      {
        ghost var done := ToSet(addrs[..i]);
        assert ToSet(addrs[..i + 1]) == done + {addrs[i]};
        ManuallyOneMore(old(entries), now, done, addrs[i], entries);
        ManuallyThere(old(entries), now, done, addrs[i], entries);
        PromotedOneMore(old(entries), done, addrs[i]);
        var new_ := InsertOne(now, addrs[i]);
        added := if new_ then added + 1 else added;
      }
      assert addrs[..|addrs|] == addrs;
    }

    method InsertOne(now: nat, a: Addr) returns (added: bool)
      modifies this`entries
      ensures added == (a !in old(entries) || !old(entries)[a].origin.Manual?)
      ensures entries == if a !in old(entries) then old(entries)[a := NewEntry(now, 0, Manual)]
                         else old(entries)[a := old(entries)[a].(origin := Manual)]
    {
      added := true;
      if a !in entries {
        entries := entries[a := NewEntry(now, 0, Manual)];
      } else if !entries[a].origin.Manual? {
        entries := entries[a := entries[a].(origin := Manual)];
      } else {
        assert entries == entries[a := entries[a].(origin := Manual)];
        added := false;
      }
    }

    method PurgeBanned(banned: Addr -> bool) returns (purged: nat)
      modifies this`entries
      ensures entries == map a | a in old(entries) && !banned(a) :: old(entries)[a]
      ensures purged == |set a | a in old(entries) && banned(a)| == |old(entries)| - |entries|
    {
      var before := |entries|;
      ghost var gone := set a | a in entries && banned(a);
      RemovalSize(entries, gone);
      var kept := map a | a in entries && !banned(a) :: entries[a];
      assert kept == entries - gone;
      entries := kept;
      purged := before - |entries|;
    }

    // ---- Outcomes --------------------------------------------------------------------------

    method RecordDialing(addr: Addr, now: nat)
      modifies this`entries, this`active
      ensures active == old(active)[addr := Dialing]
      ensures entries == Attempted(old(entries), now, {addr})
    {
      active := active[addr := Dialing];
      if addr in entries {
        entries := entries[addr := entries[addr].(lastAttempt := now)];
      }
    }

    /** In use from now on, whether or not the table has it. A known entry is good again, with no failures, and
        speaks v2 if the session does or it did before; nothing else in the table changes. */
    method RecordConnected(addr: Addr, now: nat, services: nat, version: nat)
      modifies this`entries, this`active
      ensures active == old(active)[addr := Connected] && entries.Keys == old(entries).Keys
      ensures forall a | a in entries && a != addr :: entries[a] == old(entries)[a]
      ensures addr in entries ==> entries[addr] == AfterOne(old(entries)[addr], Shook(now, services, version))
      ensures addr in entries ==>
                && entries[addr].failures == 0 && (now > 0 ==> entries[addr].Class().Good?)
                && (entries[addr].transport.V2? <==> version == 2 || old(entries)[addr].transport.V2?)
    {
      active := active[addr := Connected];
      if addr in entries {
        HandshakeMeans(entries[addr], now, services, version);
        entries := entries[addr := Reached(entries[addr], now, services, version)];
      }
    }

    /** Frees the address, whether or not the table still has it, and schedules or forgets its entry. */
    method RecordEnded(addr: Addr, now: nat, outcome: Outcome, r: real)
      requires 0.0 <= r < 1.0
      modifies this`entries, this`active
      ensures active == old(active) - {addr}
      ensures entries == if addr !in old(entries) then old(entries)
                         else var e := Settled(old(entries)[addr], now, outcome, r);
                              if e.Forgettable(now) then old(entries) - {addr} else old(entries)[addr := e]
      ensures now <= 0xFFFF_FFFF && addr in entries ==> Retried(old(entries)[addr], entries[addr], now, outcome)
    {
      active := active - {addr};
      if addr in entries {
        var e := Settled(entries[addr], now, outcome, r);
        if now <= 0xFFFF_FFFF { SettledIsRetried(entries[addr], now, outcome, r); }
        assert entries[addr := e] - {addr} == entries - {addr};
        entries := entries[addr := e];
        if e.Forgettable(now) {
          entries := entries - {addr};
        }
      }
    }

    /** Files an address as v1 only, unless there is a verdict on it: none is overwritten. */
    method RecordV1Only(addr: Addr)
      modifies this`entries
      ensures entries.Keys == old(entries).Keys
      ensures forall a | a in entries && (a != addr || !old(entries)[a].transport.HintUnknown?) ::
                entries[a] == old(entries)[a]
      ensures addr in entries ==> entries[addr] == AfterOne(old(entries)[addr], FellBack)
      ensures addr in entries ==> !entries[addr].transport.HintUnknown?
    {
      if addr in entries && entries[addr].transport.HintUnknown? {
        entries := entries[addr := entries[addr].(transport := V1Only)];
      }
    }

    // ---- Picking ---------------------------------------------------------------------------

    /** Reservoirs for a pick, empty. */
    method NewReservoirs(budget: nat, ghost b: Buckets, ghost keys: set<Addr>) returns (ss: seq<R.Sampler<Addr>>)
      requires forall i | 0 <= i < 5 :: b.At(i) <= keys
      ensures fresh(ss) && Filling(ss, b, budget, keys)
    {
      ss := [];
      for i := 0 to 5
        invariant |ss| == i && fresh(ss) && (forall m, n | 0 <= m < n < i :: ss[m] != ss[n])
        invariant forall j | 0 <= j < i :: ss[j].Valid() && ss[j].k == Room(j, budget) && ss[j].offered == {}
      {
        var s := new R.Sampler<Addr>(Room(i, budget));
        ss := ss + [s];
      }
      assert forall i | 0 <= i < 5 :: b.At(i) - keys == {};
    }

    /** One pass over the table, every due entry offered to its reservoir. */
    method SortTable(now: nat, budget: nat, dialable: Addr -> bool) returns (s: Samples)
      ensures Sorted(BucketsOf(entries, active, now, dialable), budget, s)
    {
      ghost var b := BucketsOf(entries, active, now, dialable);
      var unread := entries.Keys;
      BucketsInTable(entries, active, now, dialable);
      var ss := NewReservoirs(budget, b, unread);
      while unread != {}
        invariant unread <= entries.Keys && fresh(ss) && Filling(ss, b, budget, unread)
        decreases unread
      {
        var a: Addr :| a in unread;
        SortEntry(now, budget, dialable, ss, unread, a);
        unread := unread - {a};
      }
      s := Collect(ss, b, budget);
    }

    method Collect(ss: seq<R.Sampler<Addr>>, ghost b: Buckets, ghost budget: nat) returns (s: Samples)
      requires Filling(ss, b, budget, {})
      ensures Sorted(b, budget, s)
    {
      assert forall i | 0 <= i < 5 :: b.At(i) - {} == b.At(i);
      s := Samples(ss[0].items, ss[1].items, ss[2].items, ss[3].items, ss[4].items);
    }

    method SortEntry(now: nat, budget: nat, dialable: Addr -> bool, ss: seq<R.Sampler<Addr>>, ghost unread: set<Addr>,
                     a: Addr)
      requires a in entries && a in unread && Filling(ss, BucketsOf(entries, active, now, dialable), budget, unread)
      modifies ss
      ensures Filling(ss, BucketsOf(entries, active, now, dialable), budget, unread - {a})
    {
      ghost var b := BucketsOf(entries, active, now, dialable);
      forall i | 0 <= i < 5
        ensures b.At(i) - (unread - {a}) == if a in b.At(i) then b.At(i) - unread + {a} else b.At(i) - unread
      {
        RestLess(b.At(i), unread, a);
      }
      if a in active || entries[a].nextAttempt > now || !dialable(a) {
        NotDue(entries, active, now, dialable, a);
        return;
      }
      var draw: nat := *;
      var slot := KindOf(entries[a]).Slot();
      DueIsFiled(entries, active, now, dialable, a);
      ss[slot].Offer(a, draw);
    }

    /** The class owed most that still has a candidate. */
    method FindBest(take: Alloc.Counts, available: Alloc.Counts) returns (best: int)
      ensures best == Alloc.Best(credit, take, available)
    {
      best := -1;
      for i := 0 to 3
        invariant -1 <= best < i
        invariant best >= 0 ==> take[best] < available[best]
        invariant best >= 0 ==> forall j | 0 <= j < i && take[j] < available[j] ::
                    if j < best then credit[best] > credit[j] else credit[best] >= credit[j]
        invariant best == -1 ==> forall j | 0 <= j < i :: take[j] >= available[j]
      {
        if take[i] < available[i] && (best == -1 || credit[i] > credit[best]) {
          best := i;
        }
      }
    }

    /** Splits a tick's budget by credit. */
    method AllocateDials(budget: nat, available: Alloc.Counts) returns (take: Alloc.Counts)
      modifies this`credit
      ensures (credit, take) == Alloc.Allocate(old(credit), budget, available)
    {
      credit := Alloc.Earn(credit, budget);
      take := [0, 0, 0];
      var left := budget;
      while left > 0
        invariant Alloc.HandOut(credit, take, available, left) == Alloc.Allocate(old(credit), budget, available)
      {
        var best := FindBest(take, available);
        Alloc.HandOutUnfolds(credit, take, available, left);
        if best == -1 {
          return;
        }
        take := take[best := take[best] + 1];
        credit := Alloc.Charge(credit, best);
        left := left - 1;
      }
    }

    /** Chooses who to dial, each with what is known of its transport, and marks them as being dialled. */
    method Pick(now: nat, budget: nat, dialable: Addr -> bool)
      returns (dials: seq<Dial>, ghost out: seq<Addr>, ghost s: Samples, ghost take: Alloc.Counts)
      modifies this
      ensures Picked(BucketsOf(old(entries), old(active), now, dialable), budget, old(credit), credit, s, take, out)
      ensures SharedOut(old(entries), old(active), now, dialable, budget, old(credit), credit, take, ToSet(out))
      ensures Distinct(out) && Drawn(out, Due(old(entries), old(active), now, dialable))
      ensures |out| == PickSize(BucketsOf(old(entries), old(active), now, dialable), budget)
      ensures active == InUse(old(active), ToSet(out)) && entries == Attempted(old(entries), now, ToSet(out))
      ensures |dials| == |out|
      ensures forall i | 0 <= i < |out| ::
                out[i] in old(entries) && dials[i] == Dial(out[i], old(entries)[out[i]].transport)
    {
      var chosen;
      chosen, s, take := Choose(now, budget, dialable);
      BucketsAreApart(entries, active, now, dialable);
      PickedIsDue(BucketsOf(entries, active, now, dialable), budget, old(credit), credit, s, take, chosen);
      PickedIsShared(entries, active, now, dialable, budget, old(credit), credit, s, take, chosen);
      dials := Hinted(chosen);
      MarkDialing(chosen, now);
      out := chosen;
    }

    method Hinted(out: seq<Addr>) returns (dials: seq<Dial>)
      requires forall a | a in out :: a in entries
      ensures |dials| == |out|
      ensures forall i | 0 <= i < |out| :: out[i] in entries && dials[i] == Dial(out[i], entries[out[i]].transport)
    {
      dials := [];
      for i := 0 to |out|
        invariant |dials| == i
        invariant forall j | 0 <= j < i :: out[j] in entries && dials[j] == Dial(out[j], entries[out[j]].transport)
      {
        dials := dials + [Dial(out[i], entries[out[i]].transport)];
      }
    }

    method Choose(now: nat, budget: nat, dialable: Addr -> bool) returns (out: seq<Addr>, ghost s: Samples,
                                                                          ghost take: Alloc.Counts)
      modifies this`credit
      ensures Picked(BucketsOf(entries, active, now, dialable), budget, old(credit), credit, s, take, out)
    {
      var r := SortTable(now, budget, dialable);
      var t := AllocateDials(budget, r.Available());
      Alloc.NothingIsWasted(old(credit), budget, r.Available());
      out := Laid(r, t);
      s, take := r, t;
    }

    method MarkDialing(out: seq<Addr>, now: nat)
      modifies this`entries, this`active
      ensures active == InUse(old(active), ToSet(out)) && entries == Attempted(old(entries), now, ToSet(out))
    {
      for i := 0 to |out|
        invariant active == InUse(old(active), ToSet(out[..i]))
        invariant entries == Attempted(old(entries), now, ToSet(out[..i]))
      {
        assert ToSet(out[..i + 1]) == ToSet(out[..i]) + {out[i]};
        RecordDialing(out[i], now);
      }
      assert out[..|out|] == out;
    }

    method DialingCount() returns (n: nat)
      ensures n == |DialingSet(active)|
    {
      n := |DialingSet(active)|;
    }
  }
}
