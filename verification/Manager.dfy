/**
 The manager of the book: ticks start attempts, messages from the attempts come off a queue in the
 order they were sent, and gossip and commands come in between. Each method is a step of the slot
 protocol, and keeps its invariant.
 */
module Managers {
  import opened Basics
  import opened Policy
  import opened Book
  import opened AddressBooks
  import opened Slots

  /** How an attempt ended, if it got to say so. */
  datatype Finish = Vanished | Finished(outcome: Outcome)

  function DialBudget(dialsPerTick: nat, maxDialing: nat, dialing: nat): nat {
    Min(dialsPerTick, Monus(maxDialing, dialing))
  }

  lemma DialingAfter(active: Active, out: seq<Addr>)
    requires Distinct(out) && forall a | a in out :: a !in active
    ensures |DialingSet(InUse(active, ToSet(out)))| == |DialingSet(active)| + |out|
  {
    SetOfDistinct(out);
    assert DialingSet(InUse(active, ToSet(out))) == DialingSet(active) + ToSet(out);
    assert DialingSet(active) !! ToSet(out);
  }

  /** Whether a tick that finds `dialing` attempts in flight, and this many due, leaves no more than the
      maximum in flight. With no good address due: nothing else fits, or only operator addresses are due or
      only others, which share the budget there is room for. In general: all that the tick wants fits. */
  predicate StaysWithin(dialing: nat, dialsPerTick: nat, maxDialing: nat, manual: nat, good: nat, rest: nat) {
    && dialing <= maxDialing
    && var room := maxDialing - dialing;
       || (good == 0 && (room == 0 || dialsPerTick == 0 || manual == 0 || rest == 0))
       || Min(dialsPerTick, manual) + Min(MAX_RECONNECTS, good) + Min(dialsPerTick, rest) <= room
  }

  /** With so many started on top of those in flight, these stay within the maximum exactly if they should. */
  ghost predicate CeilingKept(b: Buckets, dialsPerTick: nat, maxDialing: nat, dialing: nat, started: nat) {
    dialing + started <= maxDialing <==>
    StaysWithin(dialing, dialsPerTick, maxDialing, |b.manual|, |b.reconnect|, |b.unknown| + |b.wasGood| + |b.bad|)
  }

  lemma WhenTheCeilingHolds(dialing: nat, dialsPerTick: nat, maxDialing: nat, b: Buckets)
    ensures var budget := DialBudget(dialsPerTick, maxDialing, dialing);
            && (dialing + PickSize(b, budget) <= maxDialing <==>
                StaysWithin(dialing, dialsPerTick, maxDialing, |b.manual|, |b.reconnect|,
                            |b.unknown| + |b.wasGood| + |b.bad|))
            && (dialing + PickSize(b, budget)
                <= (if dialing <= maxDialing then maxDialing + dialsPerTick else dialing) + MAX_RECONNECTS)
  {}

  /** The attempts a tick starts: of the operator's addresses and of the others, as many as are due, may be started
      in a tick, and would leave no more than the maximum in flight; and up to twenty-five of the good. */
  ghost predicate StartsAsMany(entries: Entries, active: Active, now: nat, dialable: Addr -> bool, dialsPerTick: nat,
                               maxDialing: nat, n: nat) {
    var due, dialing := Eligible(entries, active, now, dialable), |DialingSet(active)|;
    var room := if dialing < maxDialing then maxDialing - dialing else 0;
    var others := |OfClass(entries, due, Unknown)| + |OfClass(entries, due, WasGood)| + |OfClass(entries, due, Bad)|;
    n == Min(|Operators(entries, due)|, Min(dialsPerTick, room)) + Min(|OfClass(entries, due, Good)|, 25)
         + Min(others, Min(dialsPerTick, room))
  }

  lemma PickStartsAsMany(entries: Entries, active: Active, now: nat, dialable: Addr -> bool, dialsPerTick: nat,
                         maxDialing: nat, n: nat)
    requires n == PickSize(BucketsOf(entries, active, now, dialable),
                           DialBudget(dialsPerTick, maxDialing, |DialingSet(active)|))
    ensures StartsAsMany(entries, active, now, dialable, dialsPerTick, maxDialing, n)
  {
    BucketsAreClasses(entries, active, now, dialable);
  }

  lemma PickKeepsCeiling(b: Buckets, dialsPerTick: nat, maxDialing: nat, dialing: nat, n: nat)
    requires n == PickSize(b, DialBudget(dialsPerTick, maxDialing, dialing))
    ensures CeilingKept(b, dialsPerTick, maxDialing, dialing, n)
  {
    WhenTheCeilingHolds(dialing, dialsPerTick, maxDialing, b);
  }

  /** The dials of these addresses, each with the hint its entry has. */
  ghost predicate HintedBy(entries: Entries, picks: seq<Addr>, dials: seq<Dial>) {
    && |dials| == |picks|
    && forall i | 0 <= i < |picks| :: picks[i] in entries && dials[i] == Dial(picks[i], entries[picks[i]].transport)
  }

  class Manager {
    const book: AddressBook
    const dialsPerTick: nat
    const maxDialing: nat
    const allows: Addr -> bool
    var banned: Addr -> bool
    var queue: seq<Message>
    ghost var running: multiset<Addr>

    ghost function View(): State
      reads this, book
    {
      State(book.active, running, queue)
    }

    ghost predicate Valid()
      reads this, book
    {
      Inv(View())
    }

    /** A manager starts with the snapshot, less what is banned, and with nothing in use. */
    constructor (capacity: nat, snapshot: Entries, dialsPerTick: nat, maxDialing: nat, allows: Addr -> bool,
                 banned: Addr -> bool)
      ensures Valid() && View() == IDLE && fresh(book) && book.capacity == capacity
      ensures this.dialsPerTick == dialsPerTick && this.maxDialing == maxDialing
      ensures this.allows == allows && this.banned == banned
      ensures book.entries == map a | a in snapshot && !banned(a) :: snapshot[a]
    {
      var b := new AddressBook(capacity);
      b.Restore(snapshot);
      var _ := b.PurgeBanned(banned);
      book := b;
      this.dialsPerTick, this.maxDialing, this.allows, this.banned := dialsPerTick, maxDialing, allows, banned;
      queue, running := [], multiset{};
      new;
      EveryRun([]);
    }

    function Dialable(): Addr -> bool
      reads this
    {
      var ok, not := allows, banned;
      (a: Addr) => ok(a) && !not(a)
    }

    /** Picks within the budget there is room for. */
    method PickWithin(now: nat) returns (dials: seq<Dial>, ghost picks: seq<Addr>)
      modifies book
      ensures Drawn(picks, Due(old(book.entries), old(book.active), now, Dialable()))
      ensures |picks| == PickSize(BucketsOf(old(book.entries), old(book.active), now, Dialable()),
                                  DialBudget(dialsPerTick, maxDialing, |DialingSet(old(book.active))|))
      ensures StartsAsMany(old(book.entries), old(book.active), now, Dialable(), dialsPerTick, maxDialing, |picks|)
      ensures CeilingKept(BucketsOf(old(book.entries), old(book.active), now, Dialable()), dialsPerTick, maxDialing,
                          |DialingSet(old(book.active))|, |picks|)
      ensures book.active == InUse(old(book.active), ToSet(picks)) && HintedBy(old(book.entries), picks, dials)
    {
      ghost var s, take;
      var dialing := book.DialingCount();
      var budget := DialBudget(dialsPerTick, maxDialing, dialing);
      dials, picks, s, take := book.Pick(now, budget, Dialable());
      PickStartsAsMany(old(book.entries), old(book.active), now, Dialable(), dialsPerTick, maxDialing, |picks|);
      PickKeepsCeiling(BucketsOf(old(book.entries), old(book.active), now, Dialable()), dialsPerTick, maxDialing,
                       dialing, |picks|);
    }

    /** Starts attempts, only for addresses that have none: at most twenty-five reconnects and twice the budget.
        It leaves no more than the maximum in flight exactly if what it finds stays within. */
    method Tick(now: nat) returns (dials: seq<Dial>, ghost picks: seq<Addr>)
      requires Valid()
      modifies this`running, book
      ensures Valid() && Allowed(old(View()), Hand(picks)) && View() == Next(old(View()), Hand(picks))
      ensures Drawn(picks, Due(old(book.entries), old(book.active), now, Dialable()))
      ensures HintedBy(old(book.entries), picks, dials)
      ensures var budget := DialBudget(dialsPerTick, maxDialing, |DialingSet(old(book.active))|);
              |picks| == PickSize(BucketsOf(old(book.entries), old(book.active), now, Dialable()), budget)
              <= MAX_RECONNECTS + 2 * budget
      ensures StartsAsMany(old(book.entries), old(book.active), now, Dialable(), dialsPerTick, maxDialing, |picks|)
      ensures |DialingSet(book.active)| == |DialingSet(old(book.active))| + |picks|
      ensures CeilingKept(BucketsOf(old(book.entries), old(book.active), now, Dialable()), dialsPerTick, maxDialing,
                          |DialingSet(old(book.active))|, |picks|)
    {
      dials, picks := PickWithin(now);
      running := running + multiset(picks);
      StepKeepsInv(old(View()), Hand(picks));
      DialingAfter(old(book.active), picks);
    }

    /** What an attempt under way says. */
    method Send(m: Message)
      requires Valid() && !m.HasEnded? && m.addr in running
      modifies this`queue
      ensures Valid() && View() == Next(old(View()), Report(m))
    {
      queue := queue + [m];
      StepKeepsInv(old(View()), Report(m));
    }

    /** The guard's last message, sent whichever way the attempt went. */
    method DropGuard(addr: Addr, finish: Finish)
      requires Valid() && addr in running
      modifies this`queue, this`running
      ensures Valid() && View() == Next(old(View()), End(addr, if finish.Finished? then finish.outcome else Failed))
    {
      var outcome := if finish.Finished? then finish.outcome else Failed;
      queue := queue + [HasEnded(addr, outcome)];
      running := running - multiset{addr};
      StepKeepsInv(old(View()), End(addr, outcome));
    }

    /** Records the oldest message. */
    method Apply(now: nat, r: real)
      requires Valid() && queue != [] && 0.0 <= r < 1.0
      modifies this`queue, book
      ensures Valid() && View() == Next(old(View()), Deliver)
      ensures book.entries == Recorded(old(book.entries), old(queue)[0], now, r)
    {
      var m := queue[0];
      queue := queue[1..];
      match m {
        case HasConnected(addr, services, version) => book.RecordConnected(addr, now, services, version);
        case HasV1Only(addr) => book.RecordV1Only(addr);
        case HasEnded(addr, outcome) => book.RecordEnded(addr, now, outcome, r);
      }
      StepKeepsInv(old(View()), Deliver);
    }

    /** Records everything that has come in. If no attempt is left running, no address stays in use. */
    method Drain(now: nat, r: real)
      requires Valid() && 0.0 <= r < 1.0
      modifies this`queue, book
      ensures Valid() && queue == [] && View() == Drained(old(View()))
      ensures running == multiset{} ==> book.active == map[]
    {
      while queue != []
        invariant Valid() && Drained(View()) == Drained(old(View())) && running == old(running)
        decreases |queue|
      {
        Apply(now, r);
      }
      if running == multiset{} { NothingLeaks(View()); }
    }

    function Admits(routable: Addr -> bool): Addr -> bool
      reads this
    {
      var not := banned;
      (a: Addr) => routable(a) && !not(a)
    }

    /** Gossip is heard address by address, and leaves the slots alone. */
    method Ingest(now: nat, addrs: seq<Gossiped>, routable: Addr -> bool)
      returns (added: nat, ghost tables: seq<Entries>, ghost news: seq<bool>)
      requires Valid()
      modifies book`entries
      ensures Valid() && View() == old(View())
      ensures HeardAll(book.active, now, book.capacity, Admits(routable), addrs, tables, news)
      ensures tables[0] == old(book.entries) && tables[|addrs|] == book.entries && added == Trues(news)
      ensures KeepsProtected(old(book.entries), book.active, now, book.entries)
      ensures forall a | a in book.entries && a !in old(book.entries) :: routable(a) && !banned(a)
    {
      added, tables, news := book.Ingest(now, addrs, Admits(routable));
    }

    method AddManual(now: nat, addrs: seq<Addr>) returns (added: nat)
      requires Valid()
      modifies book`entries
      ensures Valid() && View() == old(View()) && book.entries == Manually(old(book.entries), now, ToSet(addrs))
      ensures added == |Promoted(old(book.entries), ToSet(addrs))|
    {
      added := book.InsertManual(now, addrs);
    }

    /** Bans what `matches`. `added` says how many of the ban's networks and hosts are not listed yet. */
    method Ban(matches: Addr -> bool, added: nat) returns (purged: nat)
      requires Valid() && (added == 0 ==> forall a | matches(a) :: banned(a))
      modifies this`banned, book`entries
      ensures Valid() && View() == old(View())
      ensures forall a :: banned(a) <==> old(banned)(a) || matches(a)
      ensures book.entries == if added > 0 then (map a | a in old(book.entries) && !banned(a) :: old(book.entries)[a])
                              else old(book.entries)
      ensures purged == |old(book.entries)| - |book.entries|
    {
      purged := 0;
      if added > 0 {
        var was := banned;
        banned := (a: Addr) => was(a) || matches(a);
        purged := book.PurgeBanned(banned);
      }
    }
  }

  /** An address reached before and one never tried, both due, in a house for one. */
  const TWO_DUE: Entries := map[
    1 := Entry(0, 0, 1, 1, 0, 0, 0, false, Gossip, HintUnknown),
    2 := Entry(0, 0, 0, 0, 0, 0, 0, false, Gossip, HintUnknown)]

  lemma TwoAreDue(dialable: Addr -> bool)
    requires dialable(1) && dialable(2)
    ensures var b := BucketsOf(TWO_DUE, map[], 10, dialable);
            b.manual == {} && b.reconnect == {1} && b.unknown == {2} && b.wasGood == {} && b.bad == {}
  {
    assert KindOf(TWO_DUE[1]) == ReconnectKind && KindOf(TWO_DUE[2]) == UnknownKind;
    assert Due(TWO_DUE, map[], 10, dialable) == {1, 2};
  }

  /** One tick, and there are two attempts in flight where one is the maximum. */
  method CeilingIsPassed() returns (m: Manager)
    ensures fresh(m) && m.Valid() && m.maxDialing == 1 && |DialingSet(m.book.active)| == 2
  {
    m := new Manager(100, TWO_DUE, 1, 1, (_: Addr) => true, (_: Addr) => false);
    assert m.book.entries == TWO_DUE;
    TwoAreDue(m.Dialable());
    var dials, picks := m.Tick(10);
  }
}
